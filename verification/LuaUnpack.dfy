/** Turning objects into Lua values (unpack_object and msgpack_bin_to_lua in msgpack.cpp). */
module LuaUnpack {
  import opened Bytes
  import opened Options
  import opened Objects
  import opened Format
  import opened Machine
  import opened Lua
  import opened Rounding
  import Doubles

  // ----- What a value shows -----

  predicate IsContainer(o: Object)
  {
    o.Array? || o.Map?
  }

  /** The Lua value of an object that is no container. */
  function Scalar(o: Object): Value
  {
    match o
    case Boolean(b) => LBoolean(b)
    case PositiveInteger(u) => LNumber(DoubleOf(u))
    case NegativeInteger(i) => LNumber(DoubleOf(i))
    case Double(bits) => LNumber(bits)
    case Raw(bytes) => LString(bytes)
    case _ => LNil
  }

  /**
   Lua gets the number itself for integers up to 2^53 in magnitude, else the double nearest to it; doubles come as they
   are.
   */
  lemma NumberIsPushed(o: Object)
    requires WellFormed(o) && (o.PositiveInteger? || o.NegativeInteger? || o.Double?)
    ensures Scalar(o).LNumber?
    ensures o.Double? ==> Scalar(o).bits == o.bits
    ensures !o.Double? ==>
      var n, b := if o.PositiveInteger? then o.u64 else o.i64, Scalar(o).bits;
      && b < TWO_64 && Doubles.Finite(b) && Nearest(b, n as real)
      && (-0x20_0000_0000_0000 <= n <= 0x20_0000_0000_0000 ==> Doubles.Value(b) == n as real)
  {
    if !o.Double? {
      var n := if o.PositiveInteger? then o.u64 else o.i64;
      DoubleIsNearest(n);
      if -0x20_0000_0000_0000 <= n <= 0x20_0000_0000_0000 {
        DoubleIsExact(n);
      }
    }
  }

  /** v is o as a Lua value, with tables that are numbered from lo. */
  ghost predicate Shows(h: Heap, lo: nat, v: Value, o: Object)
    decreases o
  {
    match o
    case Array(items) =>
      && v.LTable? && lo <= v.id && v.id in h
      && h[v.id].fields == [] && |h[v.id].items| == |items|
      && forall i | 0 <= i < |items| :: Shows(h, lo, h[v.id].items[i], items[i])
    case Map(entries) =>
      && v.LTable? && lo <= v.id && v.id in h
      && h[v.id].items == [] && |h[v.id].fields| == |entries|
      && forall i | 0 <= i < |entries| ::
           Shows(h, lo, h[v.id].fields[i].key, entries[i].key) && Shows(h, lo, h[v.id].fields[i].val, entries[i].val)
    case _ => v == Scalar(o)
  }

  ghost predicate ShowsAll(h: Heap, lo: nat, vs: seq<Value>, os: seq<Object>)
  {
    |vs| == |os| && forall i | 0 <= i < |vs| :: Shows(h, lo, vs[i], os[i])
  }

  ghost predicate ShowsFields(h: Heap, lo: nat, fs: seq<Field>, es: seq<Entry>)
  {
    |fs| == |es| && forall i | 0 <= i < |fs| :: Shows(h, lo, fs[i].key, es[i].key) && Shows(h, lo, fs[i].val, es[i].val)
  }

  /** The tables numbered from lo are the same in g. */
  ghost predicate SameFrom(h: Heap, g: Heap, lo: nat)
  {
    forall id | id in h && lo <= id :: id in g && g[id] == h[id]
  }

  lemma {:induction false} ShowsStill(h: Heap, g: Heap, lo: nat, low: nat, v: Value, o: Object)
    requires Shows(h, lo, v, o) && SameFrom(h, g, lo) && low <= lo
    ensures Shows(g, low, v, o)
    decreases o
  {
    match o {
      case Array(items) =>
        forall i | 0 <= i < |items|
          ensures Shows(g, low, g[v.id].items[i], items[i])
        {
          ShowsStill(h, g, lo, low, h[v.id].items[i], items[i]);
        }
      case Map(entries) =>
        forall i | 0 <= i < |entries|
          ensures Shows(g, low, g[v.id].fields[i].key, entries[i].key) && Shows(g, low, g[v.id].fields[i].val, entries[i].val)
        {
          EntryShowsStill(h, g, lo, low, h[v.id].fields[i], entries[i]);
        }
      case _ =>
    }
  }

  lemma {:induction false} EntryShowsStill(h: Heap, g: Heap, lo: nat, low: nat, f: Field, e: Entry)
    requires Shows(h, lo, f.key, e.key) && Shows(h, lo, f.val, e.val) && SameFrom(h, g, lo) && low <= lo
    ensures Shows(g, low, f.key, e.key) && Shows(g, low, f.val, e.val)
    decreases e
  {
    ShowsStill(h, g, lo, low, f.key, e.key);
    ShowsStill(h, g, lo, low, f.val, e.val);
  }

  lemma AllShowStill(h: Heap, g: Heap, lo: nat, low: nat, vs: seq<Value>, os: seq<Object>)
    requires ShowsAll(h, lo, vs, os) && SameFrom(h, g, lo) && low <= lo
    ensures ShowsAll(g, low, vs, os)
  {
    forall i | 0 <= i < |vs|
      ensures Shows(g, low, vs[i], os[i])
    {
      ShowsStill(h, g, lo, low, vs[i], os[i]);
    }
  }

  lemma FieldsShowStill(h: Heap, g: Heap, lo: nat, low: nat, fs: seq<Field>, es: seq<Entry>)
    requires ShowsFields(h, lo, fs, es) && SameFrom(h, g, lo) && low <= lo
    ensures ShowsFields(g, low, fs, es)
  {
    forall i | 0 <= i < |fs|
      ensures Shows(g, low, fs[i].key, es[i].key) && Shows(g, low, fs[i].val, es[i].val)
    {
      EntryShowsStill(h, g, lo, low, fs[i], es[i]);
    }
  }

  // ----- Objects that Lua can hold -----

  /** A key that may stand in a table without items: no nil, no NaN, and not the number 1. */
  predicate HashKey(v: Value)
  {
    IsKey(v) && !KeyEquals(v, LNumber(ONE))
  }

  /** Keys that are not containers differ as Lua values; containers become different tables. */
  predicate KeysDiffer(a: Object, b: Object)
  {
    IsContainer(a) || IsContainer(b) || !KeyEquals(Scalar(a), Scalar(b))
  }

  predicate KeysOk(es: seq<Entry>)
  {
    && (forall i | 0 <= i < |es| :: es[i].val != Nil && (IsContainer(es[i].key) || HashKey(Scalar(es[i].key))))
    && (forall i, j | 0 <= i < j < |es| :: KeysDiffer(es[i].key, es[j].key))
  }

  /** Arrays without nil, and maps with proper keys: what becomes a table of the same shape. */
  predicate Loadable(o: Object)
  {
    match o
    case Array(items) => forall i | 0 <= i < |items| :: items[i] != Nil && Loadable(items[i])
    case Map(entries) =>
      KeysOk(entries) && forall i | 0 <= i < |entries| :: Loadable(entries[i].key) && Loadable(entries[i].val)
    case _ => true
  }

  /** The objects whose values are pushed: an array stands for its items if it may be an argument list. */
  function Pushes(o: Object, arglist: bool): seq<Object>
  {
    if arglist && o.Array? then o.items else [o]
  }

  predicate AllLoadable(os: seq<Object>)
  {
    forall i | 0 <= i < |os| :: Loadable(os[i])
  }

  /** Objects without a map key that Lua refuses: nil or NaN. */
  predicate Allowed(o: Object)
  {
    match o
    case Array(items) => forall i | 0 <= i < |items| :: Allowed(items[i])
    case Map(entries) => forall i | 0 <= i < |entries| :: EntryAllowed(entries[i])
    case _ => true
  }

  predicate EntryAllowed(e: Entry)
  {
    Allowed(e.key) && Allowed(e.val) && (IsContainer(e.key) || IsKey(Scalar(e.key)))
  }

  predicate AllAllowed(os: seq<Object>)
  {
    forall i | 0 <= i < |os| :: Allowed(os[i])
  }

  /** A container is a table, anything else the value it stands for. */
  predicate Looks(v: Value, o: Object)
  {
    if IsContainer(o) then v.LTable? else v == Scalar(o)
  }

  // ----- The methods -----

  /** The tables of h are still there. */
  ghost predicate Kept(h: Heap, g: Heap)
  {
    forall id | id in h :: id in g && g[id] == h[id]
  }

  /** The values on the stack above stack0 show the objects os, with new tables. */
  ghost predicate Pushed(stack0: seq<Value>, stack: seq<Value>, h: Heap, lo: nat, os: seq<Object>)
  {
    |stack0| <= |stack| && stack[..|stack0|] == stack0 && ShowsAll(h, lo, stack[|stack0|..], os)
  }

  /**
   unpack_object: the values that the object stands for are pushed, and their number comes back. Old tables are not
   touched. An error is raised exactly by a map key that is nil or NaN.
   */
  method UnpackObject(L: State, o: Object, arglist: bool) returns (n: Option<nat>)
    requires L.Valid()
    modifies L
    ensures L.Valid() && old(L.next) <= L.next && Kept(old(L.heap), L.heap)
    ensures n.Some? ==> |L.stack| == |old(L.stack)| + n.value && n.value == |Pushes(o, arglist)|
    ensures n.Some? ==> L.stack[..|old(L.stack)|] == old(L.stack)
    ensures n.Some? <==> AllAllowed(Pushes(o, arglist))
    ensures n.Some? ==>
      forall i | 0 <= i < n.value :: Looks(L.stack[|old(L.stack)| + i], Pushes(o, arglist)[i])
    ensures AllLoadable(Pushes(o, arglist)) ==>
      n.Some? && Pushed(old(L.stack), L.stack, L.heap, old(L.next), Pushes(o, arglist))
    decreases o, 2
  {
    ghost var stack0 := L.stack;
    assert !(arglist && o.Array?) ==> Pushes(o, arglist)[0] == o;
    match o
    case Array(items) =>
      if arglist {
        n := UnpackArguments(L, o);
      } else {
        n := UnpackArray(L, o);
      }
    case Map(entries) => n := UnpackMap(L, o);
    case _ =>
      L.Push(Scalar(o));
      assert L.stack[|stack0|..] == [Scalar(o)];
      n := Some(1);
  }

  method UnpackArguments(L: State, o: Object) returns (n: Option<nat>)
    requires L.Valid() && o.Array?
    modifies L
    ensures L.Valid() && old(L.next) <= L.next && Kept(old(L.heap), L.heap)
    ensures n.Some? ==> |L.stack| == |old(L.stack)| + n.value && n.value == |o.items|
    ensures n.Some? ==> L.stack[..|old(L.stack)|] == old(L.stack)
    ensures n.Some? <==> AllAllowed(o.items)
    ensures n.Some? ==> forall i | 0 <= i < |o.items| :: Looks(L.stack[|old(L.stack)| + i], o.items[i])
    ensures AllLoadable(o.items) ==> n.Some? && Pushed(old(L.stack), L.stack, L.heap, old(L.next), o.items)
    decreases o, 1
  {
    var i := 0;
    ghost var stack0, lo := L.stack, L.next;
    while i < |o.items|
      invariant 0 <= i <= |o.items| && L.Valid() && lo <= L.next && Kept(old(L.heap), L.heap)
      invariant ArgumentsSoFar(stack0, L.stack, L.heap, lo, o.items, i)
    {
      ghost var stack, heap, next := L.stack, L.heap, L.next;
      var r := UnpackObject(L, o.items[i], false);
      assert [o.items[i]][0] == o.items[i];
      if r == None {
        return None;
      }
      ArgumentFollows(stack0, stack, L.stack, heap, L.heap, lo, next, o.items, i);
      i := i + 1;
    }
    assert o.items[..i] == o.items;
    n := Some(|o.items|);
  }

  /** The first i items are on the stack above stack0. */
  ghost predicate ArgumentsSoFar(stack0: seq<Value>, stack: seq<Value>, h: Heap, lo: nat, os: seq<Object>, i: nat)
    requires i <= |os|
  {
    && |stack| == |stack0| + i && stack[..|stack0|] == stack0
    && (forall j | 0 <= j < i :: Allowed(os[j]) && Looks(stack[|stack0| + j], os[j]))
    && (AllLoadable(os) ==> Pushed(stack0, stack, h, lo, os[..i]))
  }

  lemma ArgumentFollows(stack0: seq<Value>, stack1: seq<Value>, stack2: seq<Value>, h: Heap, g: Heap, lo: nat, next: nat,
                        os: seq<Object>, i: nat)
    requires i < |os| && ArgumentsSoFar(stack0, stack1, h, lo, os, i) && Kept(h, g) && lo <= next && Allowed(os[i])
    requires |stack2| == |stack1| + 1 && stack2[..|stack1|] == stack1 && Looks(stack2[|stack1|], os[i])
    requires Loadable(os[i]) ==> Pushed(stack1, stack2, g, next, [os[i]])
    ensures ArgumentsSoFar(stack0, stack2, g, lo, os, i + 1)
  {
    assert forall j | 0 <= j < |stack1| :: stack2[j] == stack2[..|stack1|][j] == stack1[j];
    if AllLoadable(os) {
      PushedMore(stack0, stack1, stack2, h, g, lo, next, os[..i], os[i]);
      assert os[..i + 1] == os[..i] + [os[i]];
    }
  }

  lemma PushedMore(stack0: seq<Value>, stack1: seq<Value>, stack2: seq<Value>, h: Heap, g: Heap, lo: nat, next: nat,
                   os: seq<Object>, o: Object)
    requires Pushed(stack0, stack1, h, lo, os) && Pushed(stack1, stack2, g, next, [o]) && Kept(h, g) && lo <= next
    ensures Pushed(stack0, stack2, g, lo, os + [o])
  {
    var vs, v := stack1[|stack0|..], stack2[|stack1|];
    AllShowStill(h, g, lo, lo, vs, os);
    assert stack2[|stack1|..][0] == v && [o][0] == o;
    ShowsStill(g, g, next, lo, v, o);
    assert stack2 == stack1 + [v];
    assert stack2[|stack0|..] == vs + [v];
    assert stack2[..|stack0|] == stack1[..|stack0|];
  }

  method UnpackArray(L: State, o: Object) returns (n: Option<nat>)
    requires L.Valid() && o.Array?
    modifies L
    ensures L.Valid() && old(L.next) <= L.next && Kept(old(L.heap), L.heap)
    ensures n.Some? ==> |L.stack| == |old(L.stack)| + 1 && n.value == 1 && L.stack[..|old(L.stack)|] == old(L.stack)
    ensures n.Some? <==> Allowed(o)
    ensures n.Some? ==> L.stack[|L.stack| - 1].LTable?
    ensures Loadable(o) ==> n.Some? && Pushed(old(L.stack), L.stack, L.heap, old(L.next), [o])
    decreases o, 1
  {
    ghost var stack0, id := L.stack, L.next;
    L.NewTable();
    var tbl := |L.stack|;
    var i := 0;
    while i < |o.items|
      invariant 0 <= i <= |o.items| && L.Valid() && id < L.next && id in L.heap && Kept(old(L.heap), L.heap)
      invariant L.stack == stack0 + [LTable(id)]
      invariant L.heap[id].fields == []
      invariant forall j | 0 <= j < i :: Allowed(o.items[j])
      invariant Loadable(o) ==> ShowsAll(L.heap, id + 1, L.heap[id].items, o.items[..i])
    {
      var ok := UnpackItem(L, o, i, tbl, stack0, id);
      if !ok {
        return None;
      }
      i := i + 1;
    }
    assert o.items[..i] == o.items;
    if Loadable(o) {
      TableShows(L.heap, id, o);
      assert L.stack[|stack0|..] == [LTable(id)];
    }
    n := Some(1);
  }

  /** One round of the loop: an item is pushed, and moved into the table. */
  method UnpackItem(L: State, o: Object, i: nat, tbl: nat, ghost stack0: seq<Value>, ghost id: nat) returns (ok: bool)
    requires L.Valid() && o.Array? && i < |o.items| && id < L.next && id in L.heap
    requires L.stack == stack0 + [LTable(id)] && tbl == |L.stack| && L.heap[id].fields == []
    requires Loadable(o) ==> ShowsAll(L.heap, id + 1, L.heap[id].items, o.items[..i])
    modifies L
    ensures L.Valid() && old(L.next) <= L.next && id in L.heap
    ensures forall k | k in old(L.heap) && k != id :: k in L.heap && L.heap[k] == old(L.heap)[k]
    ensures ok ==> L.stack == stack0 + [LTable(id)] && L.heap[id].fields == []
    ensures ok <==> Allowed(o.items[i])
    ensures Loadable(o) ==> ok && ShowsAll(L.heap, id + 1, L.heap[id].items, o.items[..i + 1])
    decreases o, 0
  {
    ghost var stack, heap, next := L.stack, L.heap, L.next;
    assert [o.items[i]][0] == o.items[i];
    var r := UnpackObject(L, o.items[i], false);
    if r == None {
      return false;
    }
    ok := true;
    ghost var v := L.stack[|stack|];
    assert L.stack == stack + [v] && L.heap[id] == heap[id];
    if Loadable(o) {
      assert L.stack[|stack|..][0] == v;
      ItemMore(heap, L.heap, id, next, heap[id].items, o.items[..i], v, o.items[i]);
      assert o.items[..i + 1] == o.items[..i] + [o.items[i]];
    }
    L.AppendItem(tbl);
  }

  /** One more item in table id, which no value so far refers to. */
  lemma ItemMore(h: Heap, g: Heap, id: nat, next: nat, vs: seq<Value>, os: seq<Object>, v: Value, o: Object)
    requires ShowsAll(h, id + 1, vs, os) && Shows(g, next, v, o) && Kept(h, g) && id < next && id in g
    ensures ShowsAll(g[id := g[id].(items := vs + [v])], id + 1, vs + [v], os + [o])
  {
    var after := g[id := g[id].(items := vs + [v])];
    AllShowStill(h, after, id + 1, id + 1, vs, os);
    ShowsStill(g, after, next, id + 1, v, o);
  }

  lemma TableShows(h: Heap, id: nat, o: Object)
    requires id in h
    requires (o.Array? && h[id].fields == [] && ShowsAll(h, id + 1, h[id].items, o.items))
          || (o.Map? && h[id].items == [] && ShowsFields(h, id + 1, h[id].fields, o.entries))
    ensures Shows(h, id, LTable(id), o)
  {
    if o.Array? {
      AllShowStill(h, h, id + 1, id, h[id].items, o.items);
    } else {
      FieldsShowStill(h, h, id + 1, id, h[id].fields, o.entries);
    }
  }

  method UnpackMap(L: State, o: Object) returns (n: Option<nat>)
    requires L.Valid() && o.Map?
    modifies L
    ensures L.Valid() && old(L.next) <= L.next && Kept(old(L.heap), L.heap)
    ensures n.Some? ==> |L.stack| == |old(L.stack)| + 1 && n.value == 1 && L.stack[..|old(L.stack)|] == old(L.stack)
    ensures n.Some? <==> Allowed(o)
    ensures n.Some? ==> L.stack[|L.stack| - 1].LTable?
    ensures Loadable(o) ==> n.Some? && Pushed(old(L.stack), L.stack, L.heap, old(L.next), [o])
    decreases o, 1
  {
    ghost var stack0, id := L.stack, L.next;
    L.NewTable();
    var tbl := |L.stack|;
    var i := 0;
    while i < |o.entries|
      invariant 0 <= i <= |o.entries| && L.Valid() && id < L.next && id in L.heap && Kept(old(L.heap), L.heap)
      invariant L.stack == stack0 + [LTable(id)]
      invariant L.heap[id].items == []
      invariant forall j | 0 <= j < i :: EntryAllowed(o.entries[j])
      invariant Loadable(o) ==> ShowsFields(L.heap, id + 1, L.heap[id].fields, o.entries[..i])
    {
      var ok := UnpackEntry(L, o, i, tbl, stack0, id);
      if !ok {
        return None;
      }
      i := i + 1;
    }
    assert o.entries[..i] == o.entries;
    if Loadable(o) {
      TableShows(L.heap, id, o);
      assert L.stack[|stack0|..] == [LTable(id)];
    }
    n := Some(1);
  }

  /** One round of the loop: key and value are pushed, and moved into the table. */
  method UnpackEntry(L: State, o: Object, i: nat, tbl: nat, ghost stack0: seq<Value>, ghost id: nat) returns (ok: bool)
    requires L.Valid() && o.Map? && i < |o.entries| && id < L.next && id in L.heap
    requires L.stack == stack0 + [LTable(id)] && tbl == |L.stack| && L.heap[id].items == []
    requires Loadable(o) ==> ShowsFields(L.heap, id + 1, L.heap[id].fields, o.entries[..i])
    modifies L
    ensures L.Valid() && old(L.next) <= L.next && id in L.heap
    ensures forall k | k in old(L.heap) && k != id :: k in L.heap && L.heap[k] == old(L.heap)[k]
    ensures ok ==> L.stack == stack0 + [LTable(id)] && L.heap[id].items == []
    ensures ok <==> EntryAllowed(o.entries[i])
    ensures Loadable(o) ==> ok && ShowsFields(L.heap, id + 1, L.heap[id].fields, o.entries[..i + 1])
    decreases o, 0
  {
    ghost var heap, next := L.heap, L.next;
    ok := PushEntry(L, o.entries[i]);
    if !ok {
      return;
    }
    ghost var k, v := L.stack[|L.stack| - 2], L.stack[|L.stack| - 1];
    assert L.stack[..|L.stack| - 2] == stack0 + [LTable(id)] && L.heap[id] == heap[id];
    if Loadable(o) {
      EntryStored(heap, L.heap, id, next, o.entries, i, k, v);
    }
    var raised := L.RawSet(tbl);
    ok := !raised;
  }

  method PushEntry(L: State, e: Entry) returns (ok: bool)
    requires L.Valid()
    modifies L
    ensures L.Valid() && old(L.next) <= L.next && Kept(old(L.heap), L.heap)
    ensures ok ==> |L.stack| == |old(L.stack)| + 2 && L.stack[..|old(L.stack)|] == old(L.stack)
    ensures ok <==> Allowed(e.key) && Allowed(e.val)
    ensures ok ==> Looks(L.stack[|L.stack| - 2], e.key) && Looks(L.stack[|L.stack| - 1], e.val)
    ensures Loadable(e.key) && Loadable(e.val) ==> ok
    ensures ok && Loadable(e.key) && Loadable(e.val) ==>
      && Shows(L.heap, old(L.next), L.stack[|L.stack| - 2], e.key)
      && Shows(L.heap, old(L.next), L.stack[|L.stack| - 1], e.val)
    decreases e, 3
  {
    ghost var stack, lo := L.stack, L.next;
    assert [e.key][0] == e.key && [e.val][0] == e.val;
    var r := UnpackObject(L, e.key, false);
    if r == None {
      return false;
    }
    ghost var stack1, heap1, next1 := L.stack, L.heap, L.next;
    r := UnpackObject(L, e.val, false);
    if r == None {
      return false;
    }
    ok := true;
    assert L.stack[|stack|] == L.stack[..|stack1|][|stack|] == stack1[|stack|];
    if Loadable(e.key) && Loadable(e.val) {
      assert stack1[|stack|..][0] == stack1[|stack|] && L.stack[|stack1|..][0] == L.stack[|stack1|];
      ShowsStill(heap1, L.heap, lo, lo, stack1[|stack|], e.key);
      ShowsStill(L.heap, L.heap, next1, lo, L.stack[|stack1|], e.val);
    }
  }

  /** The key of an entry is allowed, and no earlier field has it. */
  lemma {:induction false} KeyIsNew(h: Heap, g: Heap, id: nat, next: nat, fs: seq<Field>, es: seq<Entry>, i: nat, k: Value)
    requires i < |es| && ShowsFields(h, id + 1, fs, es[..i]) && Shows(g, next, k, es[i].key)
    requires KeysOk(es) && forall t | t in h :: t < next
    ensures IsKey(k) && FieldIndex(fs, k) == |fs|
  {
    forall j | 0 <= j < |fs|
      ensures !KeyEquals(fs[j].key, k)
    {
      assert es[..i][j] == es[j];
      KeysStayDifferent(h, g, id + 1, next, fs[j].key, es[j].key, k, es[i].key);
    }
  }

  lemma {:induction false} KeysStayDifferent(h: Heap, g: Heap, lo: nat, next: nat, v: Value, a: Object, k: Value, b: Object)
    requires Shows(h, lo, v, a) && Shows(g, next, k, b) && KeysDiffer(a, b) && forall t | t in h :: t < next
    ensures !KeyEquals(v, k)
  {
  }

  lemma EntryStored(h: Heap, g: Heap, id: nat, next: nat, es: seq<Entry>, i: nat, k: Value, v: Value)
    requires i < |es| && KeysOk(es) && id in h && ShowsFields(h, id + 1, h[id].fields, es[..i])
    requires Shows(g, next, k, es[i].key) && Shows(g, next, v, es[i].val) && es[i].val != Nil
    requires Kept(h, g) && id < next && id in g && forall t | t in h :: t < next
    ensures IsKey(k)
    ensures var fs := Assign(g[id].fields, k, v);
      ShowsFields(g[id := g[id].(fields := fs)], id + 1, fs, es[..i + 1])
  {
    KeyIsNew(h, g, id, next, h[id].fields, es, i, k);
    FieldMore(h, g, id, next, h[id].fields, es[..i], Field(k, v), es[i]);
    assert es[..i + 1] == es[..i] + [es[i]] && v != LNil;
    assert Assign(g[id].fields, k, v) == h[id].fields + [Field(k, v)];
  }

  lemma FieldMore(h: Heap, g: Heap, id: nat, next: nat, fs: seq<Field>, es: seq<Entry>, f: Field, e: Entry)
    requires ShowsFields(h, id + 1, fs, es) && Shows(g, next, f.key, e.key) && Shows(g, next, f.val, e.val)
    requires Kept(h, g) && id < next && id in g
    ensures ShowsFields(g[id := g[id].(fields := fs + [f])], id + 1, fs + [f], es + [e])
  {
    var after := g[id := g[id].(fields := fs + [f])];
    FieldsShowStill(h, after, id + 1, id + 1, fs, es);
    EntryShowsStill(g, after, next, id + 1, f, e);
    ShowsFieldsSnoc(after, id + 1, fs, es, f, e);
  }

  lemma ShowsFieldsSnoc(h: Heap, lo: nat, fs: seq<Field>, es: seq<Entry>, f: Field, e: Entry)
    requires ShowsFields(h, lo, fs, es) && Shows(h, lo, f.key, e.key) && Shows(h, lo, f.val, e.val)
    ensures ShowsFields(h, lo, fs + [f], es + [e])
  {
  }

  /**
   What msgpack_bin_to_lua does: values are pushed, an exception refuses the message, an error is raised in the middle,
   or the object it reads was never written.
   */
  datatype Reception = Received(count: nat) | Refused | Raised | Unwritten

  /**
   msgpack_bin_to_lua: a complete message is unpacked as an argument list, and an incomplete one is refused. For bytes
   that are no message the decoder's code is -1, which passes the test for 0, and the object is read unwritten.
   */
  method BinToLua(L: State, data: seq<byte>) returns (r: Reception)
    requires L.Valid()
    modifies L
    ensures L.Valid() && Kept(old(L.heap), L.heap)
    ensures r == Refused <==> data == [] || Decode(data, MAX_NESTING) == More
    ensures r == Unwritten <==> data != [] && Decode(data, MAX_NESTING) == Fail
    ensures r == Refused || r == Unwritten ==> L.stack == old(L.stack)
    ensures data != [] && Decode(data, MAX_NESTING).Done? ==>
      (r == Raised <==> !AllAllowed(Pushes(Decode(data, MAX_NESTING).value, true)))
    ensures data != [] && Decode(data, MAX_NESTING).Done? ==>
      var os := Pushes(Decode(data, MAX_NESTING).value, true);
      AllLoadable(os) ==> r == Received(|os|) && Pushed(old(L.stack), L.stack, L.heap, old(L.next), os)
  {
    var code, q, obj := Unpack(data, 0);
    assert data[0..] == data;
    if code == 0 {
      return Refused;
    }
    if obj == None {
      return Unwritten;
    }
    var n := UnpackObject(L, obj.value, true);
    r := if n.Some? then Received(n.value) else Raised;
  }

  /** A reserved byte is such a message. */
  lemma ReservedByteIsRead()
    ensures Decode([0xc1], MAX_NESTING) == Fail
  {
  }
}
