/** The shared handle: a pointer together with a pointer to a heap-allocated
    reference counter, here the address of an integer cell. As for the
    single-owner handle, a `World` is the heap plus the variables in scope,
    and self-assignment is naming the same variable on both sides. */
module Shared {
  import opened Heap

  datatype SharedPtr = SharedPtr(ptr: Ptr, counter: nat)

  datatype World = World(heap: Heap, vars: map<string, SharedPtr>)

  /** `Get()`: the raw pointer a handle holds. */
  function Get(w: World, v: string): Ptr
    requires v in w.vars
  {
    w.vars[v].ptr
  }

  /** The variables that share counter `k`. */
  function Holders(vars: map<string, SharedPtr>, k: nat): set<string> {
    set v | v in vars && vars[v].counter == k
  }

  /** `SharedPtr(T* InPtr)` into a new variable: a fresh counter holding 1. */
  function Construct(w: World, v: string, p: Ptr): (r: World)
    requires v !in w.vars
    ensures r.vars.Keys == w.vars.Keys + {v} && SameElsewhere(w.vars, r.vars, {})
    ensures Get(r, v) == p
    ensures r.heap.objects == w.heap.objects
    ensures r.heap.cells == w.heap.cells[r.vars[v].counter := 1]
    ensures Bounded(w.heap) ==> r.vars[v].counter !in w.heap.cells && Bounded(r.heap)
  {
    var (h, c) := NewCell(w.heap, 1);
    World(h, w.vars[v := SharedPtr(p, c)])
  }

  /** `Make_Shared<T>(...)`: a fresh object under a fresh counter holding 1. */
  function MakeShared(w: World, v: string): (r: World)
    requires v !in w.vars
    ensures r.vars.Keys == w.vars.Keys + {v} && SameElsewhere(w.vars, r.vars, {})
    ensures Get(r, v).Addr? && r.heap.objects == w.heap.objects + {Get(r, v).addr}
    ensures r.heap.cells == w.heap.cells[r.vars[v].counter := 1]
    ensures Bounded(w.heap) ==>
              && Get(r, v).addr !in w.heap.objects
              && r.vars[v].counter !in w.heap.cells
              && Bounded(r.heap)
  {
    var (h, a) := NewObject(w.heap);
    Construct(w.(heap := h), v, Addr(a))
  }

  /** The copy constructor: the new variable shares the source's pointer and
      counter, and that counter goes up by exactly one. A counter cell that is
      gone is a fault. */
  function CopyConstruct(w: World, dst: string, src: string): (r: Result<World>)
    requires dst !in w.vars && src in w.vars
    ensures r.Ok? <==> w.vars[src].counter in w.heap.cells
    ensures r.Ok? ==>
              var k := w.vars[src].counter;
              && r.value.vars.Keys == w.vars.Keys + {dst} && SameElsewhere(w.vars, r.value.vars, {})
              && r.value.vars[dst] == w.vars[src]
              && r.value.heap == w.heap.(cells := w.heap.cells[k := w.heap.cells[k] + 1])
  {
    var s := w.vars[src];
    if s.counter !in w.heap.cells then Err(StaleCounter)
    else
      var h := w.heap.(cells := w.heap.cells[s.counter := w.heap.cells[s.counter] + 1]);
      Ok(World(h, w.vars[dst := s]))
  }

  /** Copy assignment, as the source writes it. Onto itself it changes
      nothing. Otherwise the target adopts the source's pointer and counter
      and that counter goes up by one; the target's previous counter is left
      as it was, since it is never decremented. */
  function CopyAssign(w: World, dst: string, src: string): (r: Result<World>)
    requires dst in w.vars && src in w.vars
    ensures dst == src ==> r == Ok(w)
    ensures dst != src ==> (r.Ok? <==> w.vars[src].counter in w.heap.cells)
    ensures dst != src && r.Ok? ==>
              var k := w.vars[src].counter;
              && r.value.vars.Keys == w.vars.Keys && SameElsewhere(w.vars, r.value.vars, {dst})
              && r.value.vars[dst] == w.vars[src]
              && r.value.heap == w.heap.(cells := w.heap.cells[k := w.heap.cells[k] + 1])
    ensures dst != src && r.Ok? ==>
              var k0 := w.vars[dst].counter;
              k0 != w.vars[src].counter && k0 in w.heap.cells ==> r.value.heap.cells[k0] == w.heap.cells[k0]
  {
    if dst == src then Ok(w)
    else
      var s := w.vars[src];
      if s.counter !in w.heap.cells then Err(StaleCounter)
      else
        var h := w.heap.(cells := w.heap.cells[s.counter := w.heap.cells[s.counter] + 1]);
        Ok(World(h, w.vars[dst := s]))
  }

  /** The destructor's effect on the heap: the counter goes down by one, and
      exactly when that reaches zero the object and then the counter are
      deleted. */
  function Release(h: Heap, s: SharedPtr): (r: Result<Heap>)
    ensures r.Ok? <==> s.counter in h.cells && (h.cells[s.counter] == 1 ==> Deletable(h, s.ptr))
    ensures r.Ok? && h.cells[s.counter] != 1 ==>
              r.value == h.(cells := h.cells[s.counter := h.cells[s.counter] - 1])
    ensures r.Ok? && h.cells[s.counter] == 1 ==>
              && r.value.objects == Delete(h, s.ptr).value.objects
              && r.value.cells == h.cells - {s.counter}
              && r.value.next == h.next
  {
    if s.counter !in h.cells then Err(StaleCounter)
    else
      var c := h.cells[s.counter] - 1;
      if c != 0 then Ok(h.(cells := h.cells[s.counter := c]))
      else match Delete(h, s.ptr)
        case Err(f) => Err(f)
        case Ok(h1) => DeleteCell(h1, s.counter)
  }

  /** The destructor, run when the variable goes out of scope. */
  function Destroy(w: World, v: string): (r: Result<World>)
    requires v in w.vars
    ensures r.Ok? <==> Release(w.heap, w.vars[v]).Ok?
    ensures r.Ok? ==>
              && r.value.heap == Release(w.heap, w.vars[v]).value
              && r.value.vars.Keys == w.vars.Keys - {v} && SameElsewhere(w.vars, r.value.vars, {v})
  {
    match Release(w.heap, w.vars[v])
    case Err(f) => Err(f)
    case Ok(h) => Ok(World(h, w.vars - {v}))
  }

  /** Copy assignment as evidently intended: the source's counter goes up,
      the target's old counter is released as by the destructor, and the
      target adopts the source's pointer and counter. Incrementing first keeps
      the object alive when both already share it. */
  function Assign(w: World, dst: string, src: string): (r: Result<World>)
    requires dst in w.vars && src in w.vars
    ensures dst == src ==> r == Ok(w)
    ensures dst != src && r.Ok? ==>
              && r.value.vars.Keys == w.vars.Keys && SameElsewhere(w.vars, r.value.vars, {dst})
              && r.value.vars[dst] == w.vars[src]
  {
    if dst == src then Ok(w)
    else
      var s := w.vars[src];
      if s.counter !in w.heap.cells then Err(StaleCounter)
      else
        var h := w.heap.(cells := w.heap.cells[s.counter := w.heap.cells[s.counter] + 1]);
        match Release(h, w.vars[dst])
        case Err(f) => Err(f)
        case Ok(h') => Ok(World(h', w.vars[dst := s]))
  }

  // ---------------------------------------------------------------------
  // Bookkeeping invariants

  /** Handles that share a counter share the object, and handles that share
      an object share the counter. */
  predicate Coherent(vars: map<string, SharedPtr>) {
    && (forall u, v :: u in vars && v in vars && vars[u].counter == vars[v].counter ==>
          vars[u].ptr == vars[v].ptr)
    && (forall u, v :: u in vars && v in vars && vars[u].ptr.Addr? && vars[u].ptr == vars[v].ptr ==>
          vars[u].counter == vars[v].counter)
  }

  /** What keeps every handle usable: its counter cell and its object are
      live, and every counter is at least the number of handles sharing it. */
  predicate Safe(w: World) {
    && Bounded(w.heap)
    && Coherent(w.vars)
    && (forall v :: v in w.vars ==> w.vars[v].counter in w.heap.cells && Deletable(w.heap, w.vars[v].ptr))
    && (forall k :: k in w.heap.cells ==> w.heap.cells[k] >= |Holders(w.vars, k)|)
  }

  /** Exact accounting: every counter equals the number of handles sharing
      it (so it is at least one), and every live object is held. Nothing
      leaks. */
  predicate Exact(w: World) {
    && Safe(w)
    && (forall k :: k in w.heap.cells ==> w.heap.cells[k] == |Holders(w.vars, k)| && w.heap.cells[k] >= 1)
    && (forall a :: a in w.heap.objects ==> exists v :: v in w.vars && w.vars[v].ptr == Addr(a))
  }

  // ---------------------------------------------------------------------
  // Counting holders

  lemma HoldersAfterUpdate(vars: map<string, SharedPtr>, v: string, s: SharedPtr, k: nat)
    ensures Holders(vars[v := s], k) == (Holders(vars, k) - {v}) + (if s.counter == k then {v} else {})
  {
  }

  lemma HoldersAfterRemove(vars: map<string, SharedPtr>, v: string, k: nat)
    ensures Holders(vars - {v}, k) == Holders(vars, k) - {v}
  {
  }

  /** A fresh counter has no holders yet. */
  lemma HoldersOfFresh(w: World, k: nat)
    requires Safe(w) && k !in w.heap.cells
    ensures Holders(w.vars, k) == {}
  {
  }

  // ---------------------------------------------------------------------
  // Steps

  /** Which copy assignment a program runs: the source's, or the corrected
      one. */
  datatype Semantics = AsWritten | Corrected

  /** One step of a program that uses the wrapper: `Make_Shared`, a handle
      constructed from null, the copy constructor, copy assignment, and the end
      of a variable's scope. */
  datatype Op =
    | Make(v: string)
    | DeclareNull(v: string)
    | CopyInto(dst: string, src: string)
    | AssignOp(dst: string, src: string)
    | Drop(v: string)

  function Step(sem: Semantics, w: World, op: Op): Result<World> {
    match op
    case Make(v) => if v in w.vars then Err(Unscoped) else Ok(MakeShared(w, v))
    case DeclareNull(v) => if v in w.vars then Err(Unscoped) else Ok(Construct(w, v, Null))
    case CopyInto(dst, src) =>
      if dst in w.vars || src !in w.vars then Err(Unscoped) else CopyConstruct(w, dst, src)
    case AssignOp(dst, src) =>
      if dst !in w.vars || src !in w.vars then Err(Unscoped)
      else if sem == AsWritten then CopyAssign(w, dst, src)
      else Assign(w, dst, src)
    case Drop(v) => if v !in w.vars then Err(Unscoped) else Destroy(w, v)
  }

  function Run(sem: Semantics, w: World, ops: seq<Op>): Result<World>
    decreases |ops|
  {
    if ops == [] then Ok(w)
    else match Step(sem, w, ops[0])
      case Err(f) => Err(f)
      case Ok(w') => Run(sem, w', ops[1..])
  }

  function Empty(): (w: World)
    ensures Exact(w)
  {
    World(EmptyHeap(), map[])
  }

  // ---------------------------------------------------------------------
  // Each step keeps the bookkeeping

  /** A new variable `v` holding `s`, whose counter is fresh and set to 1:
      the new counter has exactly one holder, the others keep theirs. */
  lemma AddFreshCounts(w: World, r: World, v: string, s: SharedPtr)
    requires Safe(w) && v !in w.vars && s.counter !in w.heap.cells
    requires r.vars == w.vars[v := s] && r.heap.cells == w.heap.cells[s.counter := 1]
    ensures forall k :: k in r.heap.cells ==>
              |Holders(r.vars, k)| == if k == s.counter then 1 else |Holders(w.vars, k)|
  {
    forall k | k in r.heap.cells
      ensures |Holders(r.vars, k)| == if k == s.counter then 1 else |Holders(w.vars, k)|
    {
      HoldersAfterUpdate(w.vars, v, s, k);
      if k == s.counter {
        HoldersOfFresh(w, k);
        assert Holders(r.vars, k) == {v};
      } else {
        assert Holders(r.vars, k) == Holders(w.vars, k);
      }
    }
  }

  /** A new variable with a fresh counter and a pointer no other handle holds
      keeps handles coherent. */
  lemma AddFreshCoherent(w: World, r: World, v: string, s: SharedPtr)
    requires Safe(w) && v !in w.vars && s.counter !in w.heap.cells
    requires s.ptr.Addr? ==> forall u :: u in w.vars ==> w.vars[u].ptr != s.ptr
    requires r.vars == w.vars[v := s]
    ensures Coherent(r.vars)
  {
    forall u, x | u in r.vars && x in r.vars && r.vars[u].counter == r.vars[x].counter
      ensures r.vars[u].ptr == r.vars[x].ptr
    {
      if u != v && x != v {
        assert r.vars[u] == w.vars[u] && r.vars[x] == w.vars[x];
      }
    }
    forall u, x | u in r.vars && x in r.vars && r.vars[u].ptr.Addr? && r.vars[u].ptr == r.vars[x].ptr
      ensures r.vars[u].counter == r.vars[x].counter
    {
      if u != v && x != v {
        assert r.vars[u] == w.vars[u] && r.vars[x] == w.vars[x];
      }
    }
  }

  /** Taken together: a new variable with a fresh counter set to 1 and a
      pointer that is null or a live object nobody holds keeps the world safe. */
  lemma AddFreshKeeps(w: World, r: World, v: string, s: SharedPtr)
    requires Safe(w) && v !in w.vars && s.counter !in w.heap.cells
    requires r.vars == w.vars[v := s] && r.heap.cells == w.heap.cells[s.counter := 1]
    requires w.heap.objects <= r.heap.objects && Bounded(r.heap) && Deletable(r.heap, s.ptr)
    requires s.ptr.Addr? ==> forall u :: u in w.vars ==> w.vars[u].ptr != s.ptr
    ensures Safe(r)
  {
    AddFreshCounts(w, r, v, s);
    AddFreshCoherent(w, r, v, s);
    forall u | u in r.vars ensures r.vars[u].counter in r.heap.cells && Deletable(r.heap, r.vars[u].ptr) {
      if u != v {
        assert r.vars[u] == w.vars[u];
      }
    }
  }

  /** ... and exact, if the world was exact and the new object (if any) is the
      only new live one. */
  lemma AddFreshKeepsExact(w: World, r: World, v: string, s: SharedPtr)
    requires Exact(w) && v !in w.vars && s.counter !in w.heap.cells
    requires r.vars == w.vars[v := s] && r.heap.cells == w.heap.cells[s.counter := 1]
    requires r.heap.objects == w.heap.objects + (if s.ptr.Addr? then {s.ptr.addr} else {})
    requires Bounded(r.heap)
    requires s.ptr.Addr? ==> forall u :: u in w.vars ==> w.vars[u].ptr != s.ptr
    ensures Exact(r)
  {
    AddFreshKeeps(w, r, v, s);
    AddFreshCounts(w, r, v, s);
    assert forall k :: k in r.heap.cells ==> r.heap.cells[k] == |Holders(r.vars, k)| && r.heap.cells[k] >= 1;
    forall a | a in r.heap.objects ensures exists u :: u in r.vars && r.vars[u].ptr == Addr(a) {
      if s.ptr == Addr(a) {
        assert r.vars[v].ptr == Addr(a);
      } else {
        assert a in w.heap.objects;
        var u :| u in w.vars && w.vars[u].ptr == Addr(a);
        assert r.vars[u] == w.vars[u];
      }
    }
  }

  /** `Make_Shared` keeps handles usable and the accounting exact. */
  lemma MakeKeeps(w: World, v: string)
    requires Safe(w) && v !in w.vars
    ensures Safe(MakeShared(w, v))
    ensures Exact(w) ==> Exact(MakeShared(w, v))
  {
    var r := MakeShared(w, v);
    AddFreshKeeps(w, r, v, r.vars[v]);
    if Exact(w) {
      AddFreshKeepsExact(w, r, v, r.vars[v]);
    }
  }

  /** So does constructing a handle from null: it gets a counter of its own. */
  lemma DeclareNullKeeps(w: World, v: string)
    requires Safe(w) && v !in w.vars
    ensures Safe(Construct(w, v, Null))
    ensures Exact(w) ==> Exact(Construct(w, v, Null))
  {
    var r := Construct(w, v, Null);
    AddFreshKeeps(w, r, v, r.vars[v]);
    if Exact(w) {
      AddFreshKeepsExact(w, r, v, r.vars[v]);
    }
  }

  /** Rebinding `d` (new or not) to `s`: `d` leaves the holders of its old
      counter and joins those of `s.counter`. */
  lemma CountsAfterRebind(vars: map<string, SharedPtr>, d: string, s: SharedPtr, j: nat)
    ensures |Holders(vars[d := s], j)| ==
              |Holders(vars, j)| - (if d in vars && vars[d].counter == j then 1 else 0)
                                 + (if s.counter == j then 1 else 0)
  {
    HoldersAfterUpdate(vars, d, s, j);
    var rest := Holders(vars, j) - {d};
    if d in vars && vars[d].counter == j {
      assert Holders(vars, j) == rest + {d};
    } else {
      assert Holders(vars, j) == rest;
    }
  }

  /** Removing `v` takes it out of the holders of its counter only. */
  lemma CountsAfterRemove(vars: map<string, SharedPtr>, v: string, j: nat)
    requires v in vars
    ensures |Holders(vars - {v}, j)| == |Holders(vars, j)| - (if vars[v].counter == j then 1 else 0)
  {
    HoldersAfterRemove(vars, v, j);
    if vars[v].counter == j {
      assert Holders(vars, j) == Holders(vars - {v}, j) + {v};
    } else {
      assert Holders(vars, j) == Holders(vars - {v}, j);
    }
  }

  /** Binding `d` to a copy of another handle keeps handles coherent. */
  lemma CoherentAfterCopy(vars: map<string, SharedPtr>, d: string, src: string)
    requires src in vars && Coherent(vars)
    ensures Coherent(vars[d := vars[src]])
  {
    var r := vars[d := vars[src]];
    forall u, x | u in r && x in r && r[u].counter == r[x].counter
      ensures r[u].ptr == r[x].ptr
    {
      var u' := if u == d then src else u;
      var x' := if x == d then src else x;
      assert r[u] == vars[u'] && r[x] == vars[x'];
    }
    forall u, x | u in r && x in r && r[u].ptr.Addr? && r[u].ptr == r[x].ptr
      ensures r[u].counter == r[x].counter
    {
      var u' := if u == d then src else u;
      var x' := if x == d then src else x;
      assert r[u] == vars[u'] && r[x] == vars[x'];
    }
  }

  /** The copy constructor adds one holder to the source's counter and none
      to any other. */
  lemma CopyIntoCounts(w: World, dst: string, src: string)
    requires dst !in w.vars && src in w.vars && w.vars[src].counter in w.heap.cells
    ensures var r := CopyConstruct(w, dst, src).value;
            forall j :: j in r.heap.cells ==>
              |Holders(r.vars, j)| == |Holders(w.vars, j)| + (if j == w.vars[src].counter then 1 else 0)
  {
    var r := CopyConstruct(w, dst, src).value;
    forall j | j in r.heap.cells
      ensures |Holders(r.vars, j)| == |Holders(w.vars, j)| + (if j == w.vars[src].counter then 1 else 0)
    {
      CountsAfterRebind(w.vars, dst, w.vars[src], j);
    }
  }

  /** The copy constructor never faults on usable handles and keeps them
      usable. */
  lemma CopyIntoKeepsSafe(w: World, dst: string, src: string)
    requires Safe(w) && dst !in w.vars && src in w.vars
    ensures CopyConstruct(w, dst, src).Ok?
    ensures Safe(CopyConstruct(w, dst, src).value)
  {
    var r := CopyConstruct(w, dst, src).value;
    var k := w.vars[src].counter;
    assert r.heap.cells.Keys == w.heap.cells.Keys && r.heap.objects == w.heap.objects;
    CoherentAfterCopy(w.vars, dst, src);
    CopyIntoCounts(w, dst, src);
    forall j | j in r.heap.cells ensures r.heap.cells[j] >= |Holders(r.vars, j)| {
      assert r.heap.cells[j] == w.heap.cells[j] + (if j == k then 1 else 0);
    }
    forall u | u in r.vars ensures r.vars[u].counter in r.heap.cells && Deletable(r.heap, r.vars[u].ptr) {
      var u' := if u == dst then src else u;
      assert r.vars[u] == w.vars[u'];
    }
  }

  /** The copy constructor keeps the accounting exact: the count rises by
      exactly one with the one new holder. */
  lemma CopyIntoKeepsExact(w: World, dst: string, src: string)
    requires Exact(w) && dst !in w.vars && src in w.vars
    ensures CopyConstruct(w, dst, src).Ok?
    ensures Exact(CopyConstruct(w, dst, src).value)
  {
    CopyIntoKeepsSafe(w, dst, src);
    CopyIntoExactCounts(w, dst, src);
    CopyIntoKeepsHeld(w, dst, src);
  }

  /** After the copy constructor every counter still equals its holders. */
  lemma CopyIntoExactCounts(w: World, dst: string, src: string)
    requires Exact(w) && dst !in w.vars && src in w.vars
    ensures CopyConstruct(w, dst, src).Ok?
    ensures var r := CopyConstruct(w, dst, src).value;
            forall j :: j in r.heap.cells ==> r.heap.cells[j] == |Holders(r.vars, j)| && r.heap.cells[j] >= 1
  {
    var r := CopyConstruct(w, dst, src).value;
    var k := w.vars[src].counter;
    CopyIntoCounts(w, dst, src);
    forall j | j in r.heap.cells ensures r.heap.cells[j] == |Holders(r.vars, j)| && r.heap.cells[j] >= 1 {
      assert j in w.heap.cells;
      assert r.heap.cells[j] == w.heap.cells[j] + (if j == k then 1 else 0);
    }
  }

  /** After the copy constructor every live object is still held. */
  lemma CopyIntoKeepsHeld(w: World, dst: string, src: string)
    requires Exact(w) && dst !in w.vars && src in w.vars
    ensures CopyConstruct(w, dst, src).Ok?
    ensures var r := CopyConstruct(w, dst, src).value;
            forall a :: a in r.heap.objects ==> exists u :: u in r.vars && r.vars[u].ptr == Addr(a)
  {
    var r := CopyConstruct(w, dst, src).value;
    forall a | a in r.heap.objects ensures exists u :: u in r.vars && r.vars[u].ptr == Addr(a) {
      var u :| u in w.vars && w.vars[u].ptr == Addr(a);
      assert r.vars[u] == w.vars[u];
    }
  }

  /** The source's copy assignment keeps every handle usable: counters stay
      at least the number of their holders. */
  lemma CopyAssignKeepsSafe(w: World, dst: string, src: string)
    requires Safe(w) && dst in w.vars && src in w.vars
    ensures CopyAssign(w, dst, src).Ok?
    ensures Safe(CopyAssign(w, dst, src).value)
  {
    if dst != src {
      var r := CopyAssign(w, dst, src).value;
      var k := w.vars[src].counter;
      CoherentAfterCopy(w.vars, dst, src);
      forall j | j in r.heap.cells ensures r.heap.cells[j] >= |Holders(r.vars, j)| {
        CountsAfterRebind(w.vars, dst, w.vars[src], j);
      }
      forall u | u in r.vars ensures r.vars[u].counter in r.heap.cells && Deletable(r.heap, r.vars[u].ptr) {
        var u' := if u == dst then src else u;
        assert r.vars[u] == w.vars[u'];
      }
    }
  }

  /** When the last holder of a counter goes, no one else holds it or its
      object. */
  lemma LastHolder(w: World, v: string)
    requires Safe(w) && v in w.vars && w.heap.cells[w.vars[v].counter] == 1
    ensures Holders(w.vars, w.vars[v].counter) == {v}
    ensures forall u :: u in w.vars && u != v ==>
              w.vars[u].counter != w.vars[v].counter && (w.vars[v].ptr.Addr? ==> w.vars[u].ptr != w.vars[v].ptr)
  {
    var k := w.vars[v].counter;
    var hs := Holders(w.vars, k);
    var rest := hs - {v};
    assert hs == rest + {v};
    assert rest == {};
    forall u | u in w.vars && u != v
      ensures w.vars[u].counter != k && (w.vars[v].ptr.Addr? ==> w.vars[u].ptr != w.vars[v].ptr)
    {
      assert u !in rest;
    }
  }

  /** The destructor keeps every other handle usable. */
  lemma DropKeepsSafe(w: World, v: string)
    requires Safe(w) && v in w.vars
    ensures Destroy(w, v).Ok?
    ensures Safe(Destroy(w, v).value)
  {
    var r := Destroy(w, v).value;
    var k := w.vars[v].counter;
    if w.heap.cells[k] == 1 {
      LastHolder(w, v);
    }
    forall j | j in r.heap.cells ensures r.heap.cells[j] >= |Holders(r.vars, j)| {
      CountsAfterRemove(w.vars, v, j);
    }
    forall u | u in r.vars ensures r.vars[u].counter in r.heap.cells && Deletable(r.heap, r.vars[u].ptr) {
      assert r.vars[u] == w.vars[u];
    }
  }

  /** The destructor keeps every counter equal to its holders. */
  lemma DropKeepsCounts(w: World, v: string)
    requires Exact(w) && v in w.vars
    ensures Destroy(w, v).Ok?
    ensures var r := Destroy(w, v).value;
            forall j :: j in r.heap.cells ==> r.heap.cells[j] == |Holders(r.vars, j)| && r.heap.cells[j] >= 1
  {
    var r := Destroy(w, v).value;
    var k := w.vars[v].counter;
    DropKeepsSafe(w, v);
    forall j | j in r.heap.cells ensures r.heap.cells[j] == |Holders(r.vars, j)| && r.heap.cells[j] >= 1 {
      CountsAfterRemove(w.vars, v, j);
      if j == k {
        assert w.heap.cells[k] != 1;
      }
    }
  }

  /** When the last holder leaves, the object it held goes with it and every
      other live object keeps a holder. */
  lemma DropLastKeepsHeld(w: World, v: string)
    requires Exact(w) && v in w.vars && w.heap.cells[w.vars[v].counter] == 1
    ensures Destroy(w, v).Ok?
    ensures var r := Destroy(w, v).value;
            forall a :: a in r.heap.objects ==> exists u :: u in r.vars && r.vars[u].ptr == Addr(a)
  {
    var r := Destroy(w, v).value;
    LastHolder(w, v);
    forall a | a in r.heap.objects ensures exists u :: u in r.vars && r.vars[u].ptr == Addr(a) {
      var u :| u in w.vars && w.vars[u].ptr == Addr(a);
      assert r.vars[u] == w.vars[u];
    }
  }

  /** When other holders remain, every live object keeps a holder. */
  lemma DropSharedKeepsHeld(w: World, v: string)
    requires Exact(w) && v in w.vars && w.heap.cells[w.vars[v].counter] != 1
    ensures Destroy(w, v).Ok?
    ensures var r := Destroy(w, v).value;
            forall a :: a in r.heap.objects ==> exists u :: u in r.vars && r.vars[u].ptr == Addr(a)
  {
    var r := Destroy(w, v).value;
    var k := w.vars[v].counter;
    var rest := Holders(w.vars, k) - {v};
    assert Holders(w.vars, k) == rest + {v};
    assert |rest| >= 1;
    var v2 :| v2 in rest;
    forall a | a in r.heap.objects ensures exists u :: u in r.vars && r.vars[u].ptr == Addr(a) {
      var u :| u in w.vars && w.vars[u].ptr == Addr(a);
      var u' := if u == v then v2 else u;
      assert r.vars[u'] == w.vars[u'];
    }
  }

  /** The destructor keeps the accounting exact: the counter goes down with
      its holders, and the object goes exactly when its last holder does. */
  lemma DropKeepsExact(w: World, v: string)
    requires Exact(w) && v in w.vars
    ensures Destroy(w, v).Ok?
    ensures Exact(Destroy(w, v).value)
  {
    DropKeepsSafe(w, v);
    DropKeepsCounts(w, v);
    if w.heap.cells[w.vars[v].counter] == 1 {
      DropLastKeepsHeld(w, v);
    } else {
      DropSharedKeepsHeld(w, v);
    }
  }

  /** Two handles on the same counter are the same handle. */
  lemma SameCounterSameHandle(w: World, u: string, v: string)
    requires Coherent(w.vars) && u in w.vars && v in w.vars
    requires w.vars[u].counter == w.vars[v].counter
    ensures w.vars[u] == w.vars[v]
  {
  }

  /** Assigning between two handles that already share a counter changes
      nothing: the increment and the release cancel. */
  lemma AssignSharedIsNoOp(w: World, dst: string, src: string)
    requires Safe(w) && dst in w.vars && src in w.vars
    requires w.vars[dst].counter == w.vars[src].counter
    ensures Assign(w, dst, src) == Ok(w)
  {
    if dst != src {
      var k := w.vars[src].counter;
      assert src in Holders(w.vars, k);
      assert w.heap.cells[k] >= 1;
      var h := w.heap.(cells := w.heap.cells[k := w.heap.cells[k] + 1]);
      assert h.cells[k := h.cells[k] - 1] == w.heap.cells;
      SameCounterSameHandle(w, dst, src);
      assert w.vars[dst := w.vars[src]] == w.vars;
    }
  }

  /** Otherwise the corrected assignment is the destructor on the target
      followed by the copy constructor into it. */
  lemma AssignIsDropThenCopy(w: World, dst: string, src: string)
    requires Safe(w) && dst in w.vars && src in w.vars
    requires w.vars[dst].counter != w.vars[src].counter
    ensures Destroy(w, dst).Ok?
    ensures CopyConstruct(Destroy(w, dst).value, dst, src).Ok?
    ensures Assign(w, dst, src) == CopyConstruct(Destroy(w, dst).value, dst, src)
  {
    var k := w.vars[src].counter;
    var s0 := w.vars[dst];
    assert s0.counter in w.heap.cells && Deletable(w.heap, s0.ptr);
    assert k in w.heap.cells;
    var d := Destroy(w, dst).value;
    assert d.vars[src] == w.vars[src];
    assert d.heap.cells[k] == w.heap.cells[k];
    ReleaseAfterBump(w.heap, w.vars[dst], k, w.heap.cells[k] + 1);
    assert w.vars[dst := w.vars[src]] == (w.vars - {dst})[dst := w.vars[src]];
  }

  /** Releasing one counter commutes with setting another. */
  lemma ReleaseAfterBump(h: Heap, s: SharedPtr, k: nat, x: int)
    requires k != s.counter && k in h.cells && Release(h, s).Ok?
    ensures Release(h.(cells := h.cells[k := x]), s) ==
              Ok(Release(h, s).value.(cells := Release(h, s).value.cells[k := x]))
  {
    var r := Release(h, s).value;
    if h.cells[s.counter] == 1 {
      assert (h.cells - {s.counter})[k := x] == h.cells[k := x] - {s.counter};
    } else {
      var c := h.cells[s.counter] - 1;
      assert h.cells[s.counter := c][k := x] == h.cells[k := x][s.counter := c];
    }
  }

  /** The corrected assignment never faults on usable handles and keeps them
      usable. */
  lemma AssignKeepsSafe(w: World, dst: string, src: string)
    requires Safe(w) && dst in w.vars && src in w.vars
    ensures Assign(w, dst, src).Ok?
    ensures Safe(Assign(w, dst, src).value)
  {
    if w.vars[dst].counter == w.vars[src].counter {
      AssignSharedIsNoOp(w, dst, src);
    } else {
      AssignIsDropThenCopy(w, dst, src);
      DropKeepsSafe(w, dst);
      CopyIntoKeepsSafe(Destroy(w, dst).value, dst, src);
    }
  }

  /** The corrected assignment keeps the accounting exact. */
  lemma AssignKeepsExact(w: World, dst: string, src: string)
    requires Exact(w) && dst in w.vars && src in w.vars
    ensures Assign(w, dst, src).Ok?
    ensures Exact(Assign(w, dst, src).value)
  {
    if w.vars[dst].counter == w.vars[src].counter {
      AssignSharedIsNoOp(w, dst, src);
    } else {
      AssignIsDropThenCopy(w, dst, src);
      DropKeepsExact(w, dst);
      CopyIntoKeepsExact(Destroy(w, dst).value, dst, src);
    }
  }

  /** The source's copy assignment breaks exact accounting whenever the
      target held a different counter: that counter keeps its value but has
      lost a holder, so its object can never be freed. */
  lemma CopyAssignBreaksExact(w: World, dst: string, src: string)
    requires Exact(w) && dst in w.vars && src in w.vars
    requires w.vars[dst].counter != w.vars[src].counter
    ensures CopyAssign(w, dst, src).Ok?
    ensures var r := CopyAssign(w, dst, src).value;
            var k0 := w.vars[dst].counter;
            k0 in r.heap.cells && r.heap.cells[k0] == |Holders(r.vars, k0)| + 1
    ensures !Exact(CopyAssign(w, dst, src).value)
  {
    var r := CopyAssign(w, dst, src).value;
    var k0 := w.vars[dst].counter;
    CountsAfterRebind(w.vars, dst, w.vars[src], k0);
  }

  // ---------------------------------------------------------------------
  // Whole programs

  /** Under either semantics a step on usable handles faults only by naming
      a variable wrongly, and keeps the handles usable. */
  lemma StepKeepsSafe(sem: Semantics, w: World, op: Op)
    requires Safe(w)
    ensures Step(sem, w, op).Ok? || Step(sem, w, op) == Err(Unscoped)
    ensures Step(sem, w, op).Ok? ==> Safe(Step(sem, w, op).value)
  {
    match op
    case Make(v) => if v !in w.vars { MakeKeeps(w, v); }
    case DeclareNull(v) => if v !in w.vars { DeclareNullKeeps(w, v); }
    case CopyInto(dst, src) => if dst !in w.vars && src in w.vars { CopyIntoKeepsSafe(w, dst, src); }
    case AssignOp(dst, src) =>
      if dst in w.vars && src in w.vars {
        if sem == AsWritten { CopyAssignKeepsSafe(w, dst, src); } else { AssignKeepsSafe(w, dst, src); }
      }
    case Drop(v) => if v in w.vars { DropKeepsSafe(w, v); }
  }

  /** Under the corrected semantics every step keeps the accounting exact. */
  lemma StepKeepsExact(w: World, op: Op)
    requires Exact(w)
    ensures Step(Corrected, w, op).Ok? || Step(Corrected, w, op) == Err(Unscoped)
    ensures Step(Corrected, w, op).Ok? ==> Exact(Step(Corrected, w, op).value)
  {
    match op
    case Make(v) => if v !in w.vars { MakeKeeps(w, v); }
    case DeclareNull(v) => if v !in w.vars { DeclareNullKeeps(w, v); }
    case CopyInto(dst, src) => if dst !in w.vars && src in w.vars { CopyIntoKeepsExact(w, dst, src); }
    case AssignOp(dst, src) => if dst in w.vars && src in w.vars { AssignKeepsExact(w, dst, src); }
    case Drop(v) => if v in w.vars { DropKeepsExact(w, v); }
  }

  /** Under either semantics, a well-scoped program on usable handles never
      deletes twice or touches a freed counter, and no handle ever points at
      a freed object. */
  lemma {:induction false} RunKeepsSafe(sem: Semantics, w: World, ops: seq<Op>)
    requires Safe(w)
    ensures Run(sem, w, ops).Ok? || Run(sem, w, ops) == Err(Unscoped)
    ensures Run(sem, w, ops).Ok? ==> Safe(Run(sem, w, ops).value)
    decreases |ops|
  {
    if ops != [] {
      StepKeepsSafe(sem, w, ops[0]);
      if Step(sem, w, ops[0]).Ok? {
        RunKeepsSafe(sem, Step(sem, w, ops[0]).value, ops[1..]);
      }
    }
  }

  /** Under the corrected semantics the accounting stays exact for a whole
      program. */
  lemma {:induction false} RunKeepsExact(w: World, ops: seq<Op>)
    requires Exact(w)
    ensures Run(Corrected, w, ops).Ok? || Run(Corrected, w, ops) == Err(Unscoped)
    ensures Run(Corrected, w, ops).Ok? ==> Exact(Run(Corrected, w, ops).value)
    decreases |ops|
  {
    if ops != [] {
      StepKeepsExact(w, ops[0]);
      if Step(Corrected, w, ops[0]).Ok? {
        RunKeepsExact(Step(Corrected, w, ops[0]).value, ops[1..]);
      }
    }
  }

  /** With exact accounting, once no handle is in scope the heap holds no
      object and no counter. */
  lemma ExactWithoutHandlesIsEmpty(w: World)
    requires Exact(w) && w.vars == map[]
    ensures w.heap.objects == {} && w.heap.cells == map[]
  {
    forall k ensures Holders(w.vars, k) == {} {
    }
  }

  /** Under the corrected semantics a program that starts from nothing and
      ends with every handle out of scope leaves nothing behind. */
  lemma CorrectedNeverLeaks(ops: seq<Op>)
    requires Run(Corrected, Empty(), ops).Ok? && Run(Corrected, Empty(), ops).value.vars == map[]
    ensures Run(Corrected, Empty(), ops).value.heap.objects == {}
    ensures Run(Corrected, Empty(), ops).value.heap.cells == map[]
  {
    RunKeepsExact(Empty(), ops);
    ExactWithoutHandlesIsEmpty(Run(Corrected, Empty(), ops).value);
  }

  /** Two objects, then `a = b`, then both handles leave scope. */
  function LeakProgram(): seq<Op> {
    [Make("a"), Make("b"), AssignOp("a", "b"), Drop("a"), Drop("b")]
  }

  /** The world after the two `Make_Shared` steps: `a` holds object 0 under
      counter 1, `b` object 2 under counter 3. */
  function TwoMade(): World {
    World(Heap({0, 2}, map[1 := 1, 3 := 1], 4),
          map["a" := SharedPtr(Addr(0), 1), "b" := SharedPtr(Addr(2), 3)])
  }

  /** A program of steps that all succeed runs to the last world. */
  lemma RunThrough(sem: Semantics, w: World, op: Op, rest: seq<Op>, w': World)
    requires Step(sem, w, op) == Ok(w')
    ensures Run(sem, w, [op] + rest) == Run(sem, w', rest)
  {
    assert ([op] + rest)[0] == op && ([op] + rest)[1..] == rest;
  }

  lemma MakeTwo(sem: Semantics)
    ensures Run(sem, Empty(), LeakProgram()) == Run(sem, TwoMade(), LeakProgram()[2..])
  {
    var w1 := World(Heap({0}, map[1 := 1], 2), map["a" := SharedPtr(Addr(0), 1)]);
    assert MakeShared(Empty(), "a") == w1;
    assert Step(sem, Empty(), Make("a")) == Ok(w1);
    assert "a" != "b" by { assert "a"[0] != "b"[0]; }
    assert MakeShared(w1, "b") == TwoMade();
    assert Step(sem, w1, Make("b")) == Ok(TwoMade());
    var p := LeakProgram();
    assert p == [Make("a")] + p[1..] && p[1..] == [Make("b")] + p[2..];
    RunThrough(sem, Empty(), Make("a"), p[1..], w1);
    RunThrough(sem, w1, Make("b"), p[2..], TwoMade());
  }

  /** The two drops at the end of the program, from a world where `a` and `b`
      share object 2 under counter 3 and `objects`/`cells` hold what else is
      live. */
  lemma DropBoth(sem: Semantics, objects: set<nat>, cells: map<nat, int>)
    requires 2 !in objects && 3 !in cells
    ensures var s := SharedPtr(Addr(2), 3);
            Run(sem, World(Heap(objects + {2}, cells[3 := 2], 4), map["a" := s, "b" := s]), [Drop("a"), Drop("b")])
              == Ok(World(Heap(objects, cells, 4), map[]))
  {
    var s := SharedPtr(Addr(2), 3);
    assert "a" != "b" by { assert "a"[0] != "b"[0]; }
    var w3 := World(Heap(objects + {2}, cells[3 := 2], 4), map["a" := s, "b" := s]);
    var w4 := World(Heap(objects + {2}, cells[3 := 1], 4), map["b" := s]);
    assert cells[3 := 2][3 := 1] == cells[3 := 1];
    assert w3.vars - {"a"} == w4.vars;
    assert Step(sem, w3, Drop("a")) == Ok(w4);
    var w5 := World(Heap(objects, cells, 4), map[]);
    assert (objects + {2}) - {2} == objects;
    assert cells[3 := 1] - {3} == cells;
    assert w4.vars - {"b"} == map[];
    assert Step(sem, w4, Drop("b")) == Ok(w5);
    RunThrough(sem, w3, Drop("a"), [Drop("b")], w4);
    RunThrough(sem, w4, Drop("b"), [], w5);
    assert [Drop("a")] + [Drop("b")] == [Drop("a"), Drop("b")];
  }

  /** As the source writes copy assignment, that program ends with no handle
      in scope and the first object and its counter still live: a leak. */
  lemma AsWrittenLeaks()
    ensures Run(AsWritten, Empty(), LeakProgram()) == Ok(World(Heap({0}, map[1 := 1], 4), map[]))
  {
    var w2 := TwoMade();
    var s := SharedPtr(Addr(2), 3);
    var w3 := World(Heap({0} + {2}, map[1 := 1][3 := 2], 4), map["a" := s, "b" := s]);
    assert w2.heap.objects == {0} + {2};
    assert w2.heap.cells[3 := 2] == w3.heap.cells;
    assert w2.vars["a" := w2.vars["b"]] == w3.vars;
    assert CopyAssign(w2, "a", "b") == Ok(w3);
    assert Step(AsWritten, w2, AssignOp("a", "b")) == Ok(w3);
    MakeTwo(AsWritten);
    var p := LeakProgram();
    assert p[2..] == [AssignOp("a", "b")] + [Drop("a"), Drop("b")];
    RunThrough(AsWritten, w2, AssignOp("a", "b"), [Drop("a"), Drop("b")], w3);
    DropBoth(AsWritten, {0}, map[1 := 1]);
  }

  /** With the corrected assignment the same program leaves the heap empty. */
  lemma CorrectedDoesNotLeak()
    ensures Run(Corrected, Empty(), LeakProgram()) == Ok(World(Heap({}, map[], 4), map[]))
  {
    var w2 := TwoMade();
    var s := SharedPtr(Addr(2), 3);
    var w3 := World(Heap({} + {2}, map[][3 := 2], 4), map["a" := s, "b" := s]);
    var h := w2.heap.(cells := w2.heap.cells[3 := 2]);
    assert h.objects - {0} == {} + {2};
    assert h.cells - {1} == map[][3 := 2];
    assert Release(h, w2.vars["a"]) == Ok(w3.heap);
    assert w2.vars["a" := w2.vars["b"]] == w3.vars;
    assert Step(Corrected, w2, AssignOp("a", "b")) == Ok(w3);
    MakeTwo(Corrected);
    var p := LeakProgram();
    assert p[2..] == [AssignOp("a", "b")] + [Drop("a"), Drop("b")];
    RunThrough(Corrected, w2, AssignOp("a", "b"), [Drop("a"), Drop("b")], w3);
    DropBoth(Corrected, {}, map[]);
  }

  /** `Get` gives back the pointer a handle was built with, null for a handle
      built from null, and the source's pointer after a copy or a copy
      assignment. */
  lemma ConstructThenGet(w: World, v: string, p: Ptr)
    requires v !in w.vars
    ensures Get(Construct(w, v, Null), v) == Null
    ensures Get(Construct(w, v, p), v) == p
  {
  }

  /** `Make_Shared` hands out a pointer no handle in scope already holds. */
  lemma MakeSharedIsUnheld(w: World, v: string)
    requires Safe(w) && v !in w.vars
    ensures forall u :: u in w.vars ==> Get(w, u) != Get(MakeShared(w, v), v)
  {
    var r := MakeShared(w, v);
    forall u | u in w.vars ensures Get(w, u) != Get(r, v) {
      assert Deletable(w.heap, w.vars[u].ptr);
    }
  }

  lemma CopyThenGet(w: World, dst: string, src: string)
    requires src in w.vars && w.vars[src].counter in w.heap.cells
    ensures dst !in w.vars ==> Get(CopyConstruct(w, dst, src).value, dst) == Get(w, src)
    ensures dst in w.vars ==> Get(CopyAssign(w, dst, src).value, dst) == Get(w, src)
    ensures dst in w.vars && Assign(w, dst, src).Ok? ==> Get(Assign(w, dst, src).value, dst) == Get(w, src)
  {
  }

  /** The step machine builds handles only from a fresh object or from null.
      The constructor itself takes any raw pointer, and one another handle
      already holds (`SharedPtr<T> b(a.Get())`) puts a second counter on the
      same object: the handles are no longer coherent, and once both counters
      reach zero the object is deleted twice. */
  lemma AliasedRawPointerBreaksSafe(w: World, a: string, b: string)
    requires Safe(w) && a in w.vars && b !in w.vars && Get(w, a).Addr?
    ensures !Safe(Construct(w, b, Get(w, a)))
    ensures var w1 := Construct(w, b, Get(w, a));
            w.heap.cells[w.vars[a].counter] == 1 ==>
              && Destroy(w1, a).Ok?
              && Destroy(Destroy(w1, a).value, b) == Err(DoubleFree)
  {
    var w1 := Construct(w, b, Get(w, a));
    assert w1.vars[a] == w.vars[a];
    assert w1.vars[b].counter != w1.vars[a].counter;
  }
}
