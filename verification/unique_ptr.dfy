/** The single-owner handle. A program's handles are the variables in scope,
    each holding one `UniquePtr`; a `World` is those variables together with
    the heap. Move-assigning a variable to itself (`this == &Rhs`) is naming
    the same variable on both sides. */
module Unique {
  import opened Heap

  datatype UniquePtr = UniquePtr(ptr: Ptr)

  datatype World = World(heap: Heap, vars: map<string, UniquePtr>)

  /** `Get()`: the raw pointer a handle holds. */
  function Get(w: World, v: string): Ptr
    requires v in w.vars
  {
    w.vars[v].ptr
  }

  /** `explicit UniquePtr(T* InPtr = nullptr)` into a new variable: it holds
      the given pointer (null by default) and nothing else changes. */
  function Construct(w: World, v: string, p: Ptr): (r: World)
    requires v !in w.vars
    ensures r.heap == w.heap && r.vars.Keys == w.vars.Keys + {v}
    ensures Get(r, v) == p
    ensures SameElsewhere(w.vars, r.vars, {})
  {
    w.(vars := w.vars[v := UniquePtr(p)])
  }

  /** `Make_Unique<T>(...)`: a fresh object owned by a new variable. */
  function MakeUnique(w: World, v: string): (r: World)
    requires v !in w.vars
    ensures r.vars.Keys == w.vars.Keys + {v} && SameElsewhere(w.vars, r.vars, {})
    ensures Get(r, v).Addr? && r.heap.objects == w.heap.objects + {Get(r, v).addr}
    ensures Bounded(w.heap) ==> Get(r, v).addr !in w.heap.objects && Bounded(r.heap)
  {
    var (h, a) := NewObject(w.heap);
    Construct(w.(heap := h), v, Addr(a))
  }

  /** The move constructor: the new variable takes over the source's pointer
      and the source is left null. */
  function MoveConstruct(w: World, dst: string, src: string): (r: World)
    requires dst !in w.vars && src in w.vars
    ensures r.heap == w.heap && r.vars.Keys == w.vars.Keys + {dst}
    ensures Get(r, dst) == Get(w, src) && Get(r, src) == Null
    ensures SameElsewhere(w.vars, r.vars, {src})
  {
    w.(vars := w.vars[dst := w.vars[src]][src := UniquePtr(Null)])
  }

  /** Move assignment. Onto itself it changes nothing; otherwise the target's
      old object is deleted, the target takes the source's pointer and the
      source is left null. */
  function MoveAssign(w: World, dst: string, src: string): (r: Result<World>)
    requires dst in w.vars && src in w.vars
    ensures dst == src ==> r == Ok(w)
    ensures dst != src ==> (r.Ok? <==> Deletable(w.heap, Get(w, dst)))
    ensures dst != src && r.Ok? ==>
              && r.value.heap == Delete(w.heap, Get(w, dst)).value
              && r.value.vars.Keys == w.vars.Keys
              && Get(r.value, dst) == Get(w, src) && Get(r.value, src) == Null
              && SameElsewhere(w.vars, r.value.vars, {dst, src})
  {
    if dst == src then Ok(w)
    else match Delete(w.heap, w.vars[dst].ptr)
      case Err(f) => Err(f)
      case Ok(h) => Ok(World(h, w.vars[dst := w.vars[src]][src := UniquePtr(Null)]))
  }

  /** `Reset(InPtr)`: the old object is deleted, then the handle holds the
      given pointer. */
  function Reset(w: World, v: string, p: Ptr): (r: Result<World>)
    requires v in w.vars
    ensures r.Ok? <==> Deletable(w.heap, Get(w, v))
    ensures r.Ok? ==>
              && r.value.heap == Delete(w.heap, Get(w, v)).value
              && r.value.vars.Keys == w.vars.Keys
              && Get(r.value, v) == p
              && SameElsewhere(w.vars, r.value.vars, {v})
  {
    match Delete(w.heap, w.vars[v].ptr)
    case Err(f) => Err(f)
    case Ok(h) => Ok(World(h, w.vars[v := UniquePtr(p)]))
  }

  /** The destructor, run when the variable goes out of scope: its object is
      deleted and the variable is gone. */
  function Destroy(w: World, v: string): (r: Result<World>)
    requires v in w.vars
    ensures r.Ok? <==> Deletable(w.heap, Get(w, v))
    ensures r.Ok? ==>
              && r.value.heap == Delete(w.heap, Get(w, v)).value
              && r.value.vars.Keys == w.vars.Keys - {v}
              && SameElsewhere(w.vars, r.value.vars, {v})
  {
    match Delete(w.heap, w.vars[v].ptr)
    case Err(f) => Err(f)
    case Ok(h) => Ok(World(h, w.vars - {v}))
  }

  /** A default-constructed handle holds null, and `Get` gives back whatever
      pointer a handle was constructed with. */
  lemma ConstructThenGet(w: World, v: string, p: Ptr)
    requires v !in w.vars
    ensures Get(Construct(w, v, Null), v) == Null
    ensures Get(Construct(w, v, p), v) == p
  {
  }

  /** Sole ownership: every handle holds null or a live object, and no two
      handles hold the same object. */
  predicate Owning(w: World) {
    && Bounded(w.heap)
    && (forall v :: v in w.vars ==> Deletable(w.heap, w.vars[v].ptr))
    && (forall u, v :: u in w.vars && v in w.vars && u != v && w.vars[u].ptr.Addr? ==> w.vars[u].ptr != w.vars[v].ptr)
  }

  /** No leak: every live object is held by some handle. */
  predicate NoLeak(w: World) {
    forall a :: a in w.heap.objects ==> exists v :: v in w.vars && w.vars[v].ptr == Addr(a)
  }

  /** The bookkeeping the wrapper promises: objects are live exactly while
      exactly one handle holds them. */
  predicate Exact(w: World) {
    Owning(w) && NoLeak(w)
  }

  /** One step of a program that uses the wrapper: declaring a null handle,
      `Make_Unique`, the move constructor, move assignment, `Reset` to a fresh
      object or to null, and the end of a variable's scope. */
  datatype Op =
    | Declare(v: string)
    | Make(v: string)
    | MoveInto(dst: string, src: string)
    | MoveAssignOp(dst: string, src: string)
    | ResetNew(v: string)
    | ResetNull(v: string)
    | Drop(v: string)

  function Step(w: World, op: Op): (r: Result<World>)
    ensures r.Err? && r.fault != Unscoped ==> r.fault == DoubleFree
  {
    match op
    case Declare(v) => if v in w.vars then Err(Unscoped) else Ok(Construct(w, v, Null))
    case Make(v) => if v in w.vars then Err(Unscoped) else Ok(MakeUnique(w, v))
    case MoveInto(dst, src) =>
      if dst in w.vars || src !in w.vars then Err(Unscoped) else Ok(MoveConstruct(w, dst, src))
    case MoveAssignOp(dst, src) =>
      if dst !in w.vars || src !in w.vars then Err(Unscoped) else MoveAssign(w, dst, src)
    case ResetNew(v) =>
      if v !in w.vars then Err(Unscoped)
      else var (h, a) := NewObject(w.heap); Reset(w.(heap := h), v, Addr(a))
    case ResetNull(v) => if v !in w.vars then Err(Unscoped) else Reset(w, v, Null)
    case Drop(v) => if v !in w.vars then Err(Unscoped) else Destroy(w, v)
  }

  function Run(w: World, ops: seq<Op>): Result<World>
    decreases |ops|
  {
    if ops == [] then Ok(w)
    else match Step(w, ops[0])
      case Err(f) => Err(f)
      case Ok(w') => Run(w', ops[1..])
  }

  function Empty(): (w: World)
    ensures Exact(w)
  {
    World(EmptyHeap(), map[])
  }

  /** `p` is held by no handle. */
  predicate Unheld(w: World, p: Ptr) {
    p.Addr? ==> forall u :: u in w.vars ==> w.vars[u].ptr != p
  }

  /** Every live object other than `p` has an owner. */
  predicate NoLeakBut(w: World, p: Ptr) {
    forall a :: a in w.heap.objects && p != Addr(a) ==> exists v :: v in w.vars && w.vars[v].ptr == Addr(a)
  }

  /** Declaring a null handle keeps the bookkeeping exact. */
  lemma DeclareKeepsExact(w: World, v: string)
    requires Exact(w) && v !in w.vars
    ensures Exact(Construct(w, v, Null))
  {
    var r := Construct(w, v, Null);
    forall a | a in r.heap.objects ensures exists u :: u in r.vars && r.vars[u].ptr == Addr(a) {
      var u :| u in w.vars && w.vars[u].ptr == Addr(a);
      assert r.vars[u] == w.vars[u];
    }
  }

  /** `Make_Unique` gives the one new object exactly one owner. */
  lemma MakeKeepsExact(w: World, v: string)
    requires Exact(w) && v !in w.vars
    ensures Exact(MakeUnique(w, v))
  {
    var r := MakeUnique(w, v);
    forall a | a in r.heap.objects ensures exists u :: u in r.vars && r.vars[u].ptr == Addr(a) {
      if a != Get(r, v).addr {
        var u :| u in w.vars && w.vars[u].ptr == Addr(a);
        assert r.vars[u] == w.vars[u];
      }
    }
  }

  /** The move constructor hands the object over: still one owner each. */
  lemma MoveIntoKeepsExact(w: World, dst: string, src: string)
    requires Exact(w) && dst !in w.vars && src in w.vars
    ensures Exact(MoveConstruct(w, dst, src))
  {
    var r := MoveConstruct(w, dst, src);
    forall a | a in r.heap.objects ensures exists u :: u in r.vars && r.vars[u].ptr == Addr(a) {
      var u :| u in w.vars && w.vars[u].ptr == Addr(a);
      if u == src {
        assert r.vars[dst].ptr == Addr(a);
      } else {
        assert r.vars[u] == w.vars[u];
      }
    }
  }

  /** Move assignment frees the target's object, which nobody else holds,
      never faults, and keeps one owner per object. */
  lemma MoveAssignKeepsExact(w: World, dst: string, src: string)
    requires Exact(w) && dst in w.vars && src in w.vars
    ensures MoveAssign(w, dst, src).Ok?
    ensures Exact(MoveAssign(w, dst, src).value)
  {
    if dst != src {
      var r := MoveAssign(w, dst, src).value;
      forall u | u in r.vars ensures Deletable(r.heap, r.vars[u].ptr) {
        if u != dst && u != src {
          assert r.vars[u] == w.vars[u];
        }
      }
      forall a | a in r.heap.objects ensures exists u :: u in r.vars && r.vars[u].ptr == Addr(a) {
        var u :| u in w.vars && w.vars[u].ptr == Addr(a);
        assert u != dst;
        if u == src {
          assert r.vars[dst].ptr == Addr(a);
        } else {
          assert r.vars[u] == w.vars[u];
        }
      }
    }
  }

  /** `Reset(p)` with `p` null or a live object no handle holds, the only
      object without an owner, keeps the bookkeeping exact. */
  lemma ResetKeepsExact(w: World, v: string, p: Ptr)
    requires Owning(w) && NoLeakBut(w, p) && v in w.vars
    requires Deletable(w.heap, p) && Unheld(w, p)
    ensures Reset(w, v, p).Ok?
    ensures Exact(Reset(w, v, p).value)
  {
    var r := Reset(w, v, p).value;
    forall u | u in r.vars ensures Deletable(r.heap, r.vars[u].ptr) {
      if u != v {
        assert r.vars[u] == w.vars[u];
      }
    }
    forall b | b in r.heap.objects ensures exists u :: u in r.vars && r.vars[u].ptr == Addr(b) {
      if p == Addr(b) {
        assert r.vars[v].ptr == Addr(b);
      } else {
        var u :| u in w.vars && w.vars[u].ptr == Addr(b);
        assert u != v;
        assert r.vars[u] == w.vars[u];
      }
    }
  }

  /** The destructor frees exactly the object whose owner leaves scope. */
  lemma DropKeepsExact(w: World, v: string)
    requires Exact(w) && v in w.vars
    ensures Destroy(w, v).Ok?
    ensures Exact(Destroy(w, v).value)
  {
    var r := Destroy(w, v).value;
    forall u | u in r.vars ensures Deletable(r.heap, r.vars[u].ptr) {
      assert r.vars[u] == w.vars[u];
    }
    forall b | b in r.heap.objects ensures exists u :: u in r.vars && r.vars[u].ptr == Addr(b) {
      var u :| u in w.vars && w.vars[u].ptr == Addr(b);
      assert u != v;
      assert r.vars[u] == w.vars[u];
    }
  }

  /** Every step of a well-scoped program keeps the bookkeeping exact and
      never deletes anything twice. */
  lemma StepKeepsExact(w: World, op: Op)
    requires Exact(w)
    ensures Step(w, op).Ok? || Step(w, op) == Err(Unscoped)
    ensures Step(w, op).Ok? ==> Exact(Step(w, op).value)
  {
    match op
    case Declare(v) =>
      if v !in w.vars { DeclareKeepsExact(w, v); }
    case Make(v) =>
      if v !in w.vars { MakeKeepsExact(w, v); }
    case MoveInto(dst, src) =>
      if dst !in w.vars && src in w.vars { MoveIntoKeepsExact(w, dst, src); }
    case MoveAssignOp(dst, src) =>
      if dst in w.vars && src in w.vars { MoveAssignKeepsExact(w, dst, src); }
    case ResetNew(v) =>
      if v in w.vars {
        var (h, a) := NewObject(w.heap);
        var w1 := w.(heap := h);
        assert NoLeakBut(w1, Addr(a)) by {
          forall b | b in w1.heap.objects && Addr(a) != Addr(b)
            ensures exists u :: u in w1.vars && w1.vars[u].ptr == Addr(b)
          {
            assert b in w.heap.objects;
          }
        }
        ResetKeepsExact(w1, v, Addr(a));
      }
    case ResetNull(v) =>
      if v in w.vars { ResetKeepsExact(w, v, Null); }
    case Drop(v) =>
      if v in w.vars { DropKeepsExact(w, v); }
  }

  /** Whatever a well-scoped program does with the wrapper, starting from an
      exact world: nothing is deleted twice, no handle is left pointing at a
      deleted object, and no object outlives its last owner. */
  lemma {:induction false} RunKeepsExact(w: World, ops: seq<Op>)
    requires Exact(w)
    ensures Run(w, ops).Ok? || Run(w, ops) == Err(Unscoped)
    ensures Run(w, ops).Ok? ==> Exact(Run(w, ops).value)
    decreases |ops|
  {
    if ops != [] {
      StepKeepsExact(w, ops[0]);
      if Step(w, ops[0]).Ok? {
        RunKeepsExact(Step(w, ops[0]).value, ops[1..]);
      }
    }
  }

  /** A program that starts from nothing and ends with every handle out of
      scope leaves no object behind. */
  lemma NeverLeaks(ops: seq<Op>)
    requires Run(Empty(), ops).Ok? && Run(Empty(), ops).value.vars == map[]
    ensures Run(Empty(), ops).value.heap.objects == {}
  {
    RunKeepsExact(Empty(), ops);
  }

  /** The step machine builds handles only from a fresh object or from null.
      The constructor itself takes any raw pointer, and one another handle
      already holds (`UniquePtr<T> b(a.Get())`) breaks sole ownership: the
      two destructors delete the same object twice. */
  lemma AliasedRawPointerDoubleFrees(w: World, a: string, b: string)
    requires Owning(w) && a in w.vars && b !in w.vars && Get(w, a).Addr?
    ensures var w1 := Construct(w, b, Get(w, a));
            && !Owning(w1)
            && Destroy(w1, a).Ok?
            && Destroy(Destroy(w1, a).value, b) == Err(DoubleFree)
  {
    var w1 := Construct(w, b, Get(w, a));
    assert w1.vars[a] == w.vars[a];
  }
}
