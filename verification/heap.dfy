/** An abstract heap for the two ownership wrappers: the set of live objects,
    the live integer cells (reference counters) with their values, and the next
    fresh address. `new` hands out `next` and bumps it, so an address is never
    reused; `delete` of a null pointer does nothing, and `delete` of anything
    that is not live is reported as a fault instead of being undefined. */
module Heap {

  /** A raw pointer: null or an address. */
  datatype Ptr = Null | Addr(addr: nat)

  /** What goes wrong when an operation runs: a delete of something not live,
      a read or write through a counter pointer whose cell is gone, or a step
      naming a variable that is not (or is already) in scope. */
  datatype Fault = DoubleFree | StaleCounter | Unscoped

  datatype Result<T> = Ok(value: T) | Err(fault: Fault)

  /** The variables in scope other than those in `except` hold what they
      held: the frame condition of every handle operation, for either kind of
      handle. */
  predicate SameElsewhere<T(==)>(vars: map<string, T>, vars': map<string, T>, except: set<string>) {
    forall u :: u in vars && u !in except ==> u in vars' && vars'[u] == vars[u]
  }

  datatype Heap = Heap(objects: set<nat>, cells: map<nat, int>, next: nat)

  function EmptyHeap(): (h: Heap)
    ensures h.objects == {} && h.cells == map[]
    ensures Bounded(h)
  {
    Heap({}, map[], 0)
  }

  /** Every live address was handed out before `next`. */
  predicate Bounded(h: Heap) {
    && (forall a :: a in h.objects ==> a < h.next)
    && (forall a :: a in h.cells ==> a < h.next)
  }

  /** The pointer is null or points at a live object: what `delete` needs. */
  predicate Deletable(h: Heap, p: Ptr) {
    p.Addr? ==> p.addr in h.objects
  }

  /** `new T(...)`: a fresh live object. */
  function NewObject(h: Heap): (r: (Heap, nat))
    ensures r.0.objects == h.objects + {r.1} && r.0.cells == h.cells
    ensures Bounded(h) ==> r.1 !in h.objects && r.1 !in h.cells && Bounded(r.0)
  {
    (h.(objects := h.objects + {h.next}, next := h.next + 1), h.next)
  }

  /** `new int(v)`: a fresh live cell holding `v`. */
  function NewCell(h: Heap, v: int): (r: (Heap, nat))
    ensures r.0.cells == h.cells[r.1 := v] && r.0.objects == h.objects
    ensures Bounded(h) ==> r.1 !in h.objects && r.1 !in h.cells && Bounded(r.0)
  {
    (h.(cells := h.cells[h.next := v], next := h.next + 1), h.next)
  }

  /** `delete p`: nothing for null, the object goes for a live address, and a
      fault for anything else. */
  function Delete(h: Heap, p: Ptr): (r: Result<Heap>)
    ensures r.Ok? <==> Deletable(h, p)
    ensures r.Ok? ==> r.value.cells == h.cells && r.value.next == h.next
    ensures r.Ok? && p.Null? ==> r.value == h
    ensures r.Ok? && p.Addr? ==> r.value.objects == h.objects - {p.addr}
  {
    match p
    case Null => Ok(h)
    case Addr(a) => if a in h.objects then Ok(h.(objects := h.objects - {a})) else Err(DoubleFree)
  }

  /** `delete` of a counter cell. */
  function DeleteCell(h: Heap, a: nat): (r: Result<Heap>)
    ensures r.Ok? <==> a in h.cells
    ensures r.Ok? ==> r.value.cells == h.cells - {a} && r.value.objects == h.objects && r.value.next == h.next
  {
    if a in h.cells then Ok(h.(cells := h.cells - {a})) else Err(DoubleFree)
  }
}
