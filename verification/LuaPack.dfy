/** Serializing Lua values (pack_lua and msgpack_lua_to_bin in msgpack.cpp). */
module LuaPack {
  import opened Bytes
  import opened Options
  import opened Objects
  import opened Packing
  import opened WireFormat
  import opened Lua

  const MAX_DEPTH: nat := 10000

  /** How much deeper tables may still nest on the stack; each nested table stands higher than the one it is in. */
  function Room(index: nat): nat
  {
    if index > MAX_DEPTH then 0 else MAX_DEPTH + 1 - index
  }

  // ----- The object that a value is sent as -----

  /**
   The object for v at stack position index, below or at the top. There is none for functions and the like, and for
   tables that stand too high, as the tables of a cyclic graph do in the end.
   */
  function Packs(h: Heap, v: Value, index: nat, top: nat): Option<Object>
    requires index <= top
    decreases Room(index), 0, 0
  {
    match v
    case LNil => Some(Nil)
    case LBoolean(b) => Some(Boolean(b))
    case LNumber(bits) => Some(Double(bits))
    case LString(bytes) => Some(Raw(bytes))
    case LTable(id) =>
      if index > MAX_DEPTH then None
      else if Get(h, id).items != [] then
        (match PacksItems(h, Get(h, id).items, 0, top)
         case Some(xs) => Some(Array(xs))
         case None => None)
      else
        (match PacksFields(h, Get(h, id).fields, 0, top)
         case Some(es) => Some(Map(es))
         case None => None)
    case LOther => None
  }

  /** The objects for the items from place i on. */
  function PacksItems(h: Heap, vs: seq<Value>, i: nat, top: nat): (r: Option<seq<Object>>)
    requires i <= |vs|
    ensures r.Some? ==> |r.value| == |vs| - i
    decreases Room(top + 1), 1, |vs| - i
  {
    if i == |vs| then Some([]) else
      match (Packs(h, vs[i], top + 1, top + 1), PacksItems(h, vs, i + 1, top))
      case (Some(x), Some(xs)) => Some([x] + xs)
      case _ => None
  }

  function PacksFields(h: Heap, fs: seq<Field>, i: nat, top: nat): (r: Option<seq<Entry>>)
    requires i <= |fs|
    ensures r.Some? ==> |r.value| == |fs| - i
    decreases Room(top + 1), 1, |fs| - i
  {
    if i == |fs| then Some([]) else
      match (Packs(h, fs[i].key, top + 1, top + 2), Packs(h, fs[i].val, top + 2, top + 2), PacksFields(h, fs, i + 1, top))
      case (Some(k), Some(x), Some(es)) => Some([Entry(k, x)] + es)
      case _ => None
  }

  // ----- Cyclic graphs -----

  /** What pack_table packs of a table: its items, or its keys and values. */
  ghost predicate Child(h: Heap, id: nat, v: Value)
  {
    var t := Get(h, id);
    if t.items != [] then v in t.items else exists f :: f in t.fields && (f.key == v || f.val == v)
  }

  /** Every table in the set leads to another one in the set, as the tables on a cycle do. */
  ghost predicate NeverEnds(h: Heap, ids: set<nat>)
  {
    forall id | id in ids :: LeadsInto(h, id, ids)
  }

  ghost predicate LeadsInto(h: Heap, id: nat, ids: set<nat>)
  {
    exists c :: c in ids && Child(h, id, LTable(c))
  }

  /** No table on a cycle, or leading to one, is ever sent. */
  lemma {:induction false} CyclesAreRefused(h: Heap, ids: set<nat>, id: nat, index: nat, top: nat)
    requires NeverEnds(h, ids) && id in ids && index <= top
    ensures Packs(h, LTable(id), index, top) == None
    decreases Room(index)
  {
    if index > MAX_DEPTH {
      TooDeepIsRefused(h, id, index, top);
    } else {
      var c := NextOnCycle(h, ids, id);
      CyclesAreRefused(h, ids, c, top + 1, top + 1);
      CyclesAreRefused(h, ids, c, top + 1, top + 2);
      CyclesAreRefused(h, ids, c, top + 2, top + 2);
      ChildIsRefused(h, id, LTable(c), index, top);
    }
  }

  lemma NextOnCycle(h: Heap, ids: set<nat>, id: nat) returns (c: nat)
    requires NeverEnds(h, ids) && id in ids
    ensures c in ids && Child(h, id, LTable(c))
  {
    assert LeadsInto(h, id, ids);
    c :| c in ids && Child(h, id, LTable(c));
  }

  lemma {:induction false} TooDeepIsRefused(h: Heap, id: nat, index: nat, top: nat)
    requires MAX_DEPTH < index <= top
    ensures Packs(h, LTable(id), index, top) == None
  {
  }

  lemma {:induction false} ChildIsRefused(h: Heap, id: nat, c: Value, index: nat, top: nat)
    requires index <= MAX_DEPTH && index <= top && Child(h, id, c)
    requires Packs(h, c, top + 1, top + 1) == Packs(h, c, top + 1, top + 2) == Packs(h, c, top + 2, top + 2) == None
    ensures Packs(h, LTable(id), index, top) == None
  {
    var t := Get(h, id);
    if t.items != [] {
      var i :| 0 <= i < |t.items| && t.items[i] == c;
      ItemIsRefused(h, t.items, 0, i, top);
    } else {
      var f :| f in t.fields && (f.key == c || f.val == c);
      var i :| 0 <= i < |t.fields| && t.fields[i] == f;
      FieldIsRefused(h, t.fields, 0, i, top);
    }
  }

  lemma {:induction false} ItemIsRefused(h: Heap, vs: seq<Value>, i: nat, j: nat, top: nat)
    requires i <= j < |vs| && Packs(h, vs[j], top + 1, top + 1) == None
    ensures PacksItems(h, vs, i, top) == None
    decreases j - i
  {
    if i < j {
      ItemIsRefused(h, vs, i + 1, j, top);
    }
  }

  lemma {:induction false} FieldIsRefused(h: Heap, fs: seq<Field>, i: nat, j: nat, top: nat)
    requires i <= j < |fs|
    requires Packs(h, fs[j].key, top + 1, top + 2) == None || Packs(h, fs[j].val, top + 2, top + 2) == None
    ensures PacksFields(h, fs, i, top) == None
    decreases j - i
  {
    if i < j {
      FieldIsRefused(h, fs, i + 1, j, top);
    }
  }

  // ----- The bytes of a value -----

  /** What goes over the wire for a value that is no table. */
  lemma ValueBytes(h: Heap, v: Value, index: nat, top: nat)
    requires index <= top && ValueOk(v) && !v.LTable? && !v.LOther?
    ensures Packs(h, v, index, top).Some? && WellFormed(Packs(h, v, index, top).value)
    ensures var bytes := Encode(Packs(h, v, index, top).value);
      match v
      case LNil => bytes == [0xc0]
      case LBoolean(b) => bytes == if b then [0xc3] else [0xc2]
      case LNumber(bits) => bytes == [0xcb] + EightBytes(bits)
      case LString(s) => bytes == EncodeLength(0xa0, 31, 0xda, |s|) + s
      case _ => true
  {
    if v.LNumber? {
      StoreEight(v.bits);
    }
  }

  // ----- Exactly when a value is sent -----

  /** A way from a table to one of its items, keys or values, and so on. */
  datatype Way = Here | ToItem(i: nat, rest: Way) | ToKey(i: nat, rest: Way) | ToVal(i: nat, rest: Way)

  /** What stands at the end of the way, and at which stack position: items stand one higher, fields use two places. */
  function Ahead(h: Heap, v: Value, index: nat, top: nat, way: Way): Option<(Value, nat)>
    decreases way
  {
    match way
    case Here => Some((v, index))
    case ToItem(i, rest) =>
      if v.LTable? && i < |Get(h, v.id).items| then Ahead(h, Get(h, v.id).items[i], top + 1, top + 1, rest) else None
    case ToKey(i, rest) =>
      if v.LTable? && Get(h, v.id).items == [] && i < |Get(h, v.id).fields|
      then Ahead(h, Get(h, v.id).fields[i].key, top + 1, top + 2, rest) else None
    case ToVal(i, rest) =>
      if v.LTable? && Get(h, v.id).items == [] && i < |Get(h, v.id).fields|
      then Ahead(h, Get(h, v.id).fields[i].val, top + 2, top + 2, rest) else None
  }

  /** The way leads to a function or the like, or to a table that stands too high. */
  predicate LeadsToRefused(h: Heap, v: Value, index: nat, top: nat, way: Way)
  {
    var end := Ahead(h, v, index, top, way);
    end.Some? && (end.value.0.LOther? || (end.value.0.LTable? && end.value.1 > MAX_DEPTH))
  }

  lemma {:induction false} WayIsRefused(h: Heap, v: Value, index: nat, top: nat, way: Way)
    requires index <= top && LeadsToRefused(h, v, index, top, way)
    ensures Packs(h, v, index, top) == None
    decreases way
  {
    if v.LTable? && index <= MAX_DEPTH {
      var t := Get(h, v.id);
      match way
      case Here =>
      case ToItem(i, rest) =>
        WayIsRefused(h, t.items[i], top + 1, top + 1, rest);
        ItemIsRefused(h, t.items, 0, i, top);
      case ToKey(i, rest) =>
        WayIsRefused(h, t.fields[i].key, top + 1, top + 2, rest);
        FieldIsRefused(h, t.fields, 0, i, top);
      case ToVal(i, rest) =>
        WayIsRefused(h, t.fields[i].val, top + 2, top + 2, rest);
        FieldIsRefused(h, t.fields, 0, i, top);
    }
  }

  lemma {:induction false} RefusedItem(h: Heap, vs: seq<Value>, i: nat, top: nat) returns (j: nat)
    requires i <= |vs| && PacksItems(h, vs, i, top) == None
    ensures i <= j < |vs| && Packs(h, vs[j], top + 1, top + 1) == None
    decreases |vs| - i
  {
    j := i;
    if Packs(h, vs[i], top + 1, top + 1) != None {
      j := RefusedItem(h, vs, i + 1, top);
    }
  }

  lemma {:induction false} RefusedField(h: Heap, fs: seq<Field>, i: nat, top: nat) returns (j: nat)
    requires i <= |fs| && PacksFields(h, fs, i, top) == None
    ensures i <= j < |fs|
    ensures Packs(h, fs[j].key, top + 1, top + 2) == None || Packs(h, fs[j].val, top + 2, top + 2) == None
    decreases |fs| - i
  {
    j := i;
    if Packs(h, fs[i].key, top + 1, top + 2) != None && Packs(h, fs[i].val, top + 2, top + 2) != None {
      j := RefusedField(h, fs, i + 1, top);
    }
  }

  lemma {:induction false} WayToRefused(h: Heap, v: Value, index: nat, top: nat) returns (way: Way)
    requires index <= top && Packs(h, v, index, top) == None
    ensures LeadsToRefused(h, v, index, top, way)
    decreases Room(index)
  {
    way := Here;
    if v.LTable? && index <= MAX_DEPTH {
      var t := Get(h, v.id);
      if t.items != [] {
        var j := RefusedItem(h, t.items, 0, top);
        var rest := WayToRefused(h, t.items[j], top + 1, top + 1);
        way := ToItem(j, rest);
      } else {
        var j := RefusedField(h, t.fields, 0, top);
        if Packs(h, t.fields[j].key, top + 1, top + 2) == None {
          var rest := WayToRefused(h, t.fields[j].key, top + 1, top + 2);
          way := ToKey(j, rest);
        } else {
          var rest := WayToRefused(h, t.fields[j].val, top + 2, top + 2);
          way := ToVal(j, rest);
        }
      }
    }
  }

  /** A value is sent unless it leads to one that cannot be, or to a table that stands above MAX_DEPTH on the stack. */
  lemma SentExactly(h: Heap, v: Value, index: nat, top: nat)
    requires index <= top
    ensures Packs(h, v, index, top) == None <==> exists way :: LeadsToRefused(h, v, index, top, way)
  {
    if Packs(h, v, index, top) == None {
      var way := WayToRefused(h, v, index, top);
    }
    if way :| LeadsToRefused(h, v, index, top, way) {
      WayIsRefused(h, v, index, top, way);
    }
  }

  /** v has at most d tables inside each other, and nothing that cannot be sent. */
  predicate NestsWithin(h: Heap, v: Value, d: nat)
    decreases d
  {
    !v.LOther? && (v.LTable? ==> d > 0 && var t := Get(h, v.id);
      && (forall i | 0 <= i < |t.items| :: NestsWithin(h, t.items[i], d - 1))
      && (forall i | 0 <= i < |t.fields| ::
            NestsWithin(h, t.fields[i].key, d - 1) && NestsWithin(h, t.fields[i].val, d - 1)))
  }

  lemma {:induction false} NestedEnds(h: Heap, v: Value, index: nat, top: nat, way: Way, d: nat)
    requires index <= top && NestsWithin(h, v, d) && Ahead(h, v, index, top, way).Some?
    ensures var (w, j) := Ahead(h, v, index, top, way).value; !w.LOther? && (w.LTable? ==> j <= top + 2 * d)
    decreases way
  {
    var t := if v.LTable? then Get(h, v.id) else Table([], []);
    match way
    case Here =>
    case ToItem(i, rest) => NestedEnds(h, t.items[i], top + 1, top + 1, rest, d - 1);
    case ToKey(i, rest) => NestedEnds(h, t.fields[i].key, top + 1, top + 2, rest, d - 1);
    case ToVal(i, rest) => NestedEnds(h, t.fields[i].val, top + 2, top + 2, rest, d - 1);
  }

  /** So no graph of tables without cycles is refused unless it nests deeply: two places for each table are enough. */
  lemma NestedIsSent(h: Heap, v: Value, index: nat, top: nat, d: nat)
    requires index <= top && NestsWithin(h, v, d) && top + 2 * d <= MAX_DEPTH
    ensures Packs(h, v, index, top).Some?
  {
    if Packs(h, v, index, top) == None {
      var way := WayToRefused(h, v, index, top);
      NestedEnds(h, v, index, top, way, d);
    }
  }

  lemma {:induction false} PacksWellFormed(h: Heap, v: Value, index: nat, top: nat)
    requires HeapOk(h) && ValueOk(v) && index <= top && Packs(h, v, index, top).Some?
    ensures WellFormed(Packs(h, v, index, top).value)
    decreases Room(index), 0, 0
  {
    if v.LTable? {
      var t := Get(h, v.id);
      assert TableOk(t) by {
        if v.id in h {
          assert TableOk(h[v.id]);
        }
      }
      if t.items != [] {
        ItemsWellFormed(h, t.items, 0, top);
      } else {
        FieldsWellFormed(h, t.fields, 0, top);
      }
    }
  }

  lemma {:induction false} ItemsWellFormed(h: Heap, vs: seq<Value>, i: nat, top: nat)
    requires HeapOk(h) && i <= |vs| && (forall j | i <= j < |vs| :: ValueOk(vs[j])) && PacksItems(h, vs, i, top).Some?
    ensures AllWellFormed(PacksItems(h, vs, i, top).value)
    decreases Room(top + 1), 1, |vs| - i
  {
    if i < |vs| {
      PacksWellFormed(h, vs[i], top + 1, top + 1);
      ItemsWellFormed(h, vs, i + 1, top);
    }
  }

  lemma {:induction false} FieldsWellFormed(h: Heap, fs: seq<Field>, i: nat, top: nat)
    requires HeapOk(h) && i <= |fs| && (forall j | i <= j < |fs| :: ValueOk(fs[j].key) && ValueOk(fs[j].val))
    requires PacksFields(h, fs, i, top).Some?
    ensures EntriesWellFormed(PacksFields(h, fs, i, top).value)
    decreases Room(top + 1), 1, |fs| - i
  {
    if i < |fs| {
      PacksWellFormed(h, fs[i].key, top + 1, top + 2);
      PacksWellFormed(h, fs[i].val, top + 2, top + 2);
      FieldsWellFormed(h, fs, i + 1, top);
    }
  }

  predicate AllWellFormed(xs: seq<Object>)
  {
    forall x | x in xs :: WellFormed(x)
  }

  predicate EntriesWellFormed(es: seq<Entry>)
  {
    forall e | e in es :: WellFormed(e.key) && WellFormed(e.val)
  }

  /** The bytes still to come for a list of items; goal is what the buffer will hold. */
  ghost predicate ToCome(rest: Option<seq<Object>>, buffer: seq<byte>, goal: seq<byte>)
  {
    rest.Some? ==> AllWellFormed(rest.value) && buffer + EncodeAll(rest.value) == goal
  }

  ghost predicate FieldsToCome(rest: Option<seq<Entry>>, buffer: seq<byte>, goal: seq<byte>)
  {
    rest.Some? ==> EntriesWellFormed(rest.value) && buffer + EncodeEntries(rest.value) == goal
  }

  ghost function ArrayGoal(all: Option<seq<Object>>, buffer: seq<byte>): seq<byte>
  {
    if all.Some? && WellFormed(Array(all.value)) then buffer + Encode(Array(all.value)) else []
  }

  lemma ArrayComes(xs: seq<Object>, buffer: seq<byte>)
    requires AllWellFormed(xs) && |xs| < TWO_32
    ensures ToCome(Some(xs), buffer + ContainerHeader(false, |xs|), ArrayGoal(Some(xs), buffer))
  {
    Associate(buffer, ContainerHeader(false, |xs|), EncodeAll(xs));
  }

  /** The first of the objects to come has been appended. */
  lemma ItemArrives(x: Option<Object>, xs: Option<seq<Object>>, all: Option<seq<Object>>, before: seq<byte>,
                    after: seq<byte>, goal: seq<byte>)
    requires x.Some? && WellFormed(x.value) && after == before + Encode(x.value)
    requires (all.Some? <==> xs.Some?) && (all.Some? ==> all.value == [x.value] + xs.value)
    requires ToCome(all, before, goal)
    ensures ToCome(xs, after, goal)
  {
    if all.Some? {
      assert all.value[1..] == xs.value;
      Associate(before, Encode(x.value), EncodeAll(xs.value));
    }
  }

  ghost function MapGoal(all: Option<seq<Entry>>, buffer: seq<byte>): seq<byte>
  {
    if all.Some? && WellFormed(Map(all.value)) then buffer + Encode(Map(all.value)) else []
  }

  lemma MapComes(es: seq<Entry>, buffer: seq<byte>)
    requires EntriesWellFormed(es) && |es| < TWO_32
    ensures FieldsToCome(Some(es), buffer + ContainerHeader(true, |es|), MapGoal(Some(es), buffer))
  {
    Associate(buffer, ContainerHeader(true, |es|), EncodeEntries(es));
  }

  lemma FieldArrives(k: Option<Object>, x: Option<Object>, es: Option<seq<Entry>>, all: Option<seq<Entry>>,
                     before: seq<byte>, after: seq<byte>, goal: seq<byte>)
    requires k.Some? && x.Some? && WellFormed(k.value) && WellFormed(x.value)
    requires after == before + Encode(k.value) + Encode(x.value)
    requires (all.Some? <==> es.Some?) && (all.Some? ==> all.value == [Entry(k.value, x.value)] + es.value)
    requires FieldsToCome(all, before, goal)
    ensures FieldsToCome(es, after, goal)
  {
    if all.Some? {
      var e := Entry(k.value, x.value);
      assert all.value[1..] == es.value && all.value[0] == e;
      Associate(before, EncodeEntry(e), EncodeEntries(es.value));
      Associate(before, Encode(e.key), Encode(e.val));
    }
  }

  // ----- The methods -----

  /** The value v was packed as o: the stack is as before, and the buffer got the encoding. */
  ghost predicate Packed(o: Option<Object>, ok: bool, stack0: seq<Value>, stack: seq<Value>, buffer0: seq<byte>,
                         buffer: seq<byte>)
  {
    && (ok <==> o.Some?)
    && if o.Some? then stack == stack0 && WellFormed(o.value) && buffer == buffer0 + Encode(o.value)
       else stack0 <= stack
  }

  /**
   pack_lua: the value at the index is packed as its object; if there is none, an exception leaves the stack at least
   as high as it was. It ends on every graph of tables.
   */
  method PackLua(L: State, pk: Packer, index: int) returns (ok: bool)
    requires HeapOk(L.heap) && 0 < L.Absolute(index) <= |L.stack| && ValueOk(L.stack[L.Absolute(index) - 1])
    modifies L`stack, pk
    ensures Packed(old(Packs(L.heap, L.stack[L.Absolute(index) - 1], L.Absolute(index), |L.stack|)), ok,
                   old(L.stack), L.stack, old(pk.buffer), pk.buffer)
    decreases Room(L.Absolute(index)), 3
  {
    var i: nat := L.Absolute(index);
    ghost var o := Packs(L.heap, L.stack[i - 1], i, |L.stack|);
    if o.Some? {
      PacksWellFormed(L.heap, L.stack[i - 1], i, |L.stack|);
    }
    ok := true;
    match L.stack[i - 1]
    case LNumber(bits) => pk.PackDouble(bits);
    case LBoolean(b) => pk.Append([if b then 0xc3 else 0xc2]);
    case LString(bytes) =>
      pk.PackRaw(|bytes|);
      pk.Append(bytes);
    case LNil => pk.Append([0xc0]);
    case LTable(_) => ok := PackTable(L, pk, i);
    case LOther => ok := false;
  }

  method PackTable(L: State, pk: Packer, index: nat) returns (ok: bool)
    requires HeapOk(L.heap) && 0 < index <= |L.stack| && L.stack[index - 1].LTable?
    modifies L`stack, pk
    ensures Packed(old(Packs(L.heap, L.stack[index - 1], index, |L.stack|)), ok,
                   old(L.stack), L.stack, old(pk.buffer), pk.buffer)
    decreases Room(index), 2
  {
    if index > MAX_DEPTH {
      return false;
    }
    var sz := |Get(L.heap, L.stack[index - 1].id).items|;
    if sz > 0 {
      ok := PackArray(L, pk, index, sz);
    } else {
      ok := PackHash(L, pk, index);
    }
  }

  method PackArray(L: State, pk: Packer, index: nat, sz: nat) returns (ok: bool)
    requires HeapOk(L.heap) && 0 < index <= |L.stack| && index <= MAX_DEPTH && L.stack[index - 1].LTable?
    requires sz == |Get(L.heap, L.stack[index - 1].id).items| > 0
    modifies L`stack, pk
    ensures Packed(old(Packs(L.heap, L.stack[index - 1], index, |L.stack|)), ok,
                   old(L.stack), L.stack, old(pk.buffer), pk.buffer)
    decreases Room(index), 1
  {
    var items := Get(L.heap, L.stack[index - 1].id).items;
    ghost var stack0, top := L.stack, |L.stack|;
    ghost var all := PacksItems(L.heap, items, 0, top);
    ghost var goal := ArrayGoal(all, pk.buffer);
    HeapTableOk(L.heap, L.stack[index - 1].id);
    ItemsCome(L.heap, items, top, pk.buffer);
    pk.PackArray(sz);
    var i := 0;
    while i < sz
      invariant 0 <= i <= sz && L.stack == stack0
      invariant PacksItems(L.heap, items, i, top).Some? <==> all.Some?
      invariant ToCome(PacksItems(L.heap, items, i, top), pk.buffer, goal)
    {
      ok := PackItemAt(L, pk, items, i, goal);
      if !ok {
        return;
      }
      i := i + 1;
    }
    ok := true;
  }

  lemma ItemsCome(h: Heap, items: seq<Value>, top: nat, buffer: seq<byte>)
    requires HeapOk(h) && ValuesOk(items) && |items| < TWO_32
    ensures var all := PacksItems(h, items, 0, top);
      ToCome(all, buffer + ContainerHeader(false, |items|), ArrayGoal(all, buffer))
  {
    var all := PacksItems(h, items, 0, top);
    if all.Some? {
      ItemsWellFormed(h, items, 0, top);
      ArrayComes(all.value, buffer);
    }
  }

  /** One round of the loop of pack_array. */
  method PackItemAt(L: State, pk: Packer, items: seq<Value>, i: nat, ghost goal: seq<byte>) returns (ok: bool)
    requires HeapOk(L.heap) && ValuesOk(items) && i < |items|
    requires ToCome(PacksItems(L.heap, items, i, |L.stack|), pk.buffer, goal)
    modifies L`stack, pk
    ensures ok ==> L.stack == old(L.stack) && ToCome(PacksItems(L.heap, items, i + 1, |L.stack|), pk.buffer, goal)
    ensures ok ==> (PacksItems(L.heap, items, i, |L.stack|).Some? <==> PacksItems(L.heap, items, i + 1, |L.stack|).Some?)
    ensures !ok ==> PacksItems(L.heap, items, i, |old(L.stack)|) == None && old(L.stack) <= L.stack
    decreases Room(|L.stack| + 1), 5
  {
    ghost var before, top := pk.buffer, |L.stack|;
    ok := PackItem(L, pk, items[i]);
    if ok {
      ItemArrives(Packs(L.heap, items[i], top + 1, top + 1), PacksItems(L.heap, items, i + 1, top),
                  PacksItems(L.heap, items, i, top), before, pk.buffer, goal);
    }
  }

  /** The item is pushed, packed and popped. */
  method PackItem(L: State, pk: Packer, v: Value) returns (ok: bool)
    requires HeapOk(L.heap) && ValueOk(v)
    modifies L`stack, pk
    ensures Packed(Packs(L.heap, v, |old(L.stack)| + 1, |old(L.stack)| + 1), ok,
                   old(L.stack), L.stack, old(pk.buffer), pk.buffer)
    decreases Room(|L.stack| + 1), 4
  {
    L.Push(v);
    ok := PackLua(L, pk, -1);
    if ok {
      L.Pop(1);
    }
  }

  method PackHash(L: State, pk: Packer, index: nat) returns (ok: bool)
    requires HeapOk(L.heap) && 0 < index <= |L.stack| && index <= MAX_DEPTH && L.stack[index - 1].LTable?
    requires Get(L.heap, L.stack[index - 1].id).items == []
    modifies L`stack, pk
    ensures Packed(old(Packs(L.heap, L.stack[index - 1], index, |L.stack|)), ok,
                   old(L.stack), L.stack, old(pk.buffer), pk.buffer)
    decreases Room(index), 1
  {
    ghost var fields := Get(L.heap, L.stack[index - 1].id).fields;
    ghost var stack0, top, buffer0 := L.stack, |L.stack|, pk.buffer;
    ghost var all := PacksFields(L.heap, fields, 0, top);
    ghost var goal := MapGoal(all, pk.buffer);
    PackMapHeader(L, pk, index);
    ghost var i := 0;
    var more := FirstField(L, index);
    while more
      invariant 0 <= i <= |fields| && AtField(L.stack, stack0, fields, i, more)
      invariant PacksFields(L.heap, fields, i, top).Some? <==> all.Some?
      invariant FieldsToCome(PacksFields(L.heap, fields, i, top), pk.buffer, goal)
      decreases |fields| - i
    {
      ok, more := PackFieldAt(L, pk, index, stack0, fields, i, goal);
      if !ok {
        HashIsPacked(L.heap, stack0, index, false, L.stack, buffer0, pk.buffer);
        return;
      }
      i := i + 1;
    }
    ok := true;
    HashIsPacked(L.heap, stack0, index, true, L.stack, buffer0, pk.buffer);
  }

  /** At the end of the fields the buffer has the object, and a field that cannot be sent refuses the table. */
  lemma HashIsPacked(h: Heap, stack0: seq<Value>, index: nat, ok: bool, stack: seq<Value>, buffer0: seq<byte>,
                     buffer: seq<byte>)
    requires HeapOk(h) && 0 < index <= |stack0| && index <= MAX_DEPTH && stack0[index - 1].LTable?
    requires Get(h, stack0[index - 1].id).items == []
    requires var fields := Get(h, stack0[index - 1].id).fields;
      var all := PacksFields(h, fields, 0, |stack0|);
      && (ok <==> all.Some?)
      && (ok ==> AtField(stack, stack0, fields, |fields|, false)
                 && FieldsToCome(PacksFields(h, fields, |fields|, |stack0|), buffer, MapGoal(all, buffer0)))
      && (!ok ==> stack0 <= stack)
    ensures Packed(Packs(h, stack0[index - 1], index, |stack0|), ok, stack0, stack, buffer0, buffer)
  {
    if ok {
      PacksWellFormed(h, stack0[index - 1], index, |stack0|);
      assert buffer + [] == buffer;
    }
  }

  /** The count of the fields, and the header. */
  method PackMapHeader(L: State, pk: Packer, index: nat)
    requires HeapOk(L.heap) && 0 < index <= |L.stack| && L.stack[index - 1].LTable?
    modifies L`stack, pk
    ensures L.stack == old(L.stack) && |Get(L.heap, L.stack[index - 1].id).fields| < TWO_32
    ensures var all := PacksFields(L.heap, Get(L.heap, L.stack[index - 1].id).fields, 0, |L.stack|);
      FieldsToCome(all, pk.buffer, MapGoal(all, old(pk.buffer)))
  {
    ghost var fields := Get(L.heap, L.stack[index - 1].id).fields;
    ghost var all := PacksFields(L.heap, fields, 0, |L.stack|);
    HeapTableOk(L.heap, L.stack[index - 1].id);
    if all.Some? {
      FieldsWellFormed(L.heap, fields, 0, |L.stack|);
      MapComes(all.value, pk.buffer);
    }
    var sz := CountFields(L, index);
    pk.PackMap(sz);
  }

  /** One round of the second loop of pack_hash. */
  method PackFieldAt(L: State, pk: Packer, index: nat, ghost stack0: seq<Value>, ghost fields: seq<Field>, ghost i: nat,
                     ghost goal: seq<byte>)
    returns (ok: bool, more: bool)
    requires HeapOk(L.heap) && 0 < index <= |stack0| && index <= MAX_DEPTH && stack0[index - 1].LTable?
    requires fields == Get(L.heap, stack0[index - 1].id).fields && AtField(L.stack, stack0, fields, i, true)
    requires FieldsToCome(PacksFields(L.heap, fields, i, |stack0|), pk.buffer, goal)
    modifies L`stack, pk
    ensures ok ==> AtField(L.stack, stack0, fields, i + 1, more)
    ensures ok ==> (PacksFields(L.heap, fields, i, |stack0|).Some? <==>
                    PacksFields(L.heap, fields, i + 1, |stack0|).Some?)
    ensures ok ==> FieldsToCome(PacksFields(L.heap, fields, i + 1, |stack0|), pk.buffer, goal)
    ensures !ok ==> PacksFields(L.heap, fields, i, |stack0|) == None && stack0 <= L.stack
    decreases Room(|stack0| + 1), 5
  {
    HeapTableOk(L.heap, stack0[index - 1].id);
    ghost var before, k, x := pk.buffer, None, None;
    more := true;
    ok, k, x := PackField(L, pk, stack0, fields[i]);
    if ok {
      FieldArrives(k, x, PacksFields(L.heap, fields, i + 1, |stack0|), PacksFields(L.heap, fields, i, |stack0|),
                   before, pk.buffer, goal);
      more := NextField(L, index, i, stack0);
    }
  }

  /** The key and the value on top of the stack are packed. */
  method PackField(L: State, pk: Packer, ghost stack0: seq<Value>, ghost f: Field)
    returns (ok: bool, ghost k: Option<Object>, ghost x: Option<Object>)
    requires HeapOk(L.heap) && L.stack == stack0 + [f.key, f.val] && ValueOk(f.key) && ValueOk(f.val)
    modifies L`stack, pk
    ensures k == Packs(L.heap, f.key, |stack0| + 1, |stack0| + 2)
    ensures x == Packs(L.heap, f.val, |stack0| + 2, |stack0| + 2)
    ensures ok <==> k.Some? && x.Some?
    ensures ok ==> WellFormed(k.value) && WellFormed(x.value) && L.stack == old(L.stack)
                   && pk.buffer == old(pk.buffer) + Encode(k.value) + Encode(x.value)
    ensures stack0 <= L.stack
    decreases Room(|stack0| + 1), 4
  {
    k := Packs(L.heap, f.key, |stack0| + 1, |stack0| + 2);
    x := Packs(L.heap, f.val, |stack0| + 2, |stack0| + 2);
    ok := PackLua(L, pk, -2);
    if ok {
      ok := PackLua(L, pk, -1);
    }
  }

  /** The traversal stands at field i, with its key and value on the stack, or has ended. */
  ghost predicate AtField(stack: seq<Value>, stack0: seq<Value>, fields: seq<Field>, i: nat, more: bool)
  {
    && (more <==> i < |fields|)
    && stack == stack0 + if i < |fields| then [fields[i].key, fields[i].val] else []
  }

  /** lua_pushnil and the first lua_next. */
  method FirstField(L: State, index: nat) returns (more: bool)
    requires 0 < index <= |L.stack| && L.stack[index - 1].LTable?
    modifies L`stack
    ensures AtField(L.stack, old(L.stack), Get(L.heap, old(L.stack)[index - 1].id).fields, 0, more)
  {
    ghost var stack0 := L.stack;
    L.Push(LNil);
    assert L.stack[..|L.stack| - 1] == stack0;
    more := L.Next(index);
  }

  /** lua_pop of the value, and lua_next from the key. */
  method NextField(L: State, index: nat, ghost i: nat, ghost stack0: seq<Value>) returns (more: bool)
    requires 0 < index <= |stack0| && stack0[index - 1].LTable? && TableOk(Get(L.heap, stack0[index - 1].id))
    requires AtField(L.stack, stack0, Get(L.heap, stack0[index - 1].id).fields, i, true)
    modifies L`stack
    ensures AtField(L.stack, stack0, Get(L.heap, stack0[index - 1].id).fields, i + 1, more)
  {
    ghost var fields := Get(L.heap, stack0[index - 1].id).fields;
    FieldIndexOfField(fields, i);
    L.Pop(1);
    assert L.stack == stack0 + [fields[i].key] && L.stack[..|L.stack| - 1] == stack0;
    more := L.Next(index);
  }

  /** The first loop of pack_hash. */
  method CountFields(L: State, index: nat) returns (sz: nat)
    requires 0 < index <= |L.stack| && L.stack[index - 1].LTable? && TableOk(Get(L.heap, L.stack[index - 1].id))
    modifies L`stack
    ensures L.stack == old(L.stack) && sz == |Get(L.heap, L.stack[index - 1].id).fields|
  {
    ghost var stack0, fields := L.stack, Get(L.heap, L.stack[index - 1].id).fields;
    sz := 0;
    var more := FirstField(L, index);
    while more
      invariant sz <= |fields| && AtField(L.stack, stack0, fields, sz, more)
      decreases |fields| - sz
    {
      more := NextField(L, index, sz, stack0);
      sz := sz + 1;
    }
  }

  // ----- Messages -----

  /** The objects for the values above the lowest i on the stack. */
  function PacksArgs(h: Heap, stack: seq<Value>, i: nat): (r: Option<seq<Object>>)
    requires i <= |stack|
    ensures r.Some? ==> |r.value| == |stack| - i
    decreases |stack| - i
  {
    if i == |stack| then Some([]) else
      match (Packs(h, stack[i], i + 1, |stack|), PacksArgs(h, stack, i + 1))
      case (Some(x), Some(xs)) => Some([x] + xs)
      case _ => None
  }

  /** The object that stands for the arguments above skip: nil for none, one by itself, several as an array. */
  function Message(h: Heap, stack: seq<Value>, skip: nat): Option<Object>
    requires skip <= |stack|
  {
    if |stack| - skip == 0 then Some(Nil)
    else if |stack| - skip == 1 then Packs(h, stack[skip], skip + 1, |stack|)
    else AsArray(PacksArgs(h, stack, skip))
  }

  /** Arguments that nest within d are sent when the stack leaves room for two places for each table. */
  lemma {:induction false} NestedArgsAreSent(h: Heap, stack: seq<Value>, i: nat, d: nat)
    requires i <= |stack| && |stack| + 2 * d <= MAX_DEPTH && forall j | i <= j < |stack| :: NestsWithin(h, stack[j], d)
    ensures PacksArgs(h, stack, i).Some? && Message(h, stack, i).Some?
    decreases |stack| - i
  {
    if i < |stack| {
      NestedIsSent(h, stack[i], i + 1, |stack|, d);
      NestedArgsAreSent(h, stack, i + 1, d);
    }
  }

  lemma {:induction false} ArgsWellFormed(h: Heap, stack: seq<Value>, i: nat)
    requires HeapOk(h) && ValuesOk(stack) && i <= |stack| && PacksArgs(h, stack, i).Some?
    ensures AllWellFormed(PacksArgs(h, stack, i).value)
    decreases |stack| - i
  {
    if i < |stack| {
      PacksWellFormed(h, stack[i], i + 1, |stack|);
      ArgsWellFormed(h, stack, i + 1);
    }
  }

  /**
   msgpack_lua_to_bin: the arguments above skip are packed as their message, or an exception is thrown if they have
   none. The stack is the same afterwards in either case.
   */
  method LuaToBin(L: State, skip: nat) returns (r: Option<seq<byte>>)
    requires HeapOk(L.heap) && skip <= |L.stack| < TWO_32 && ValuesOk(L.stack)
    modifies L`stack
    ensures L.stack == old(L.stack)
    ensures r.Some? <==> Message(L.heap, L.stack, skip).Some?
    ensures r.Some? ==>
      WellFormed(Message(L.heap, L.stack, skip).value) && r.value == Encode(Message(L.heap, L.stack, skip).value)
  {
    var top := |L.stack|;
    var pk := new Packer();
    var ok := true;
    var rtop := top - skip;
    assert [] + pk.buffer == pk.buffer;
    if rtop == 0 {
      pk.Append([0xc0]);
    } else if rtop == 1 {
      ok := PackLua(L, pk, 1 + skip);
    } else {
      ok := PackArgs(L, pk, skip, rtop);
    }
    if !ok {
      L.SetTop(top);
      return None;
    }
    r := Some(pk.buffer);
  }

  lemma ArgsCome(h: Heap, stack: seq<Value>, skip: nat, buffer: seq<byte>)
    requires HeapOk(h) && ValuesOk(stack) && skip <= |stack| < TWO_32
    ensures var all := PacksArgs(h, stack, skip);
      ToCome(all, buffer + ContainerHeader(false, |stack| - skip), ArrayGoal(all, buffer))
  {
    var all := PacksArgs(h, stack, skip);
    if all.Some? {
      ArgsWellFormed(h, stack, skip);
      ArrayComes(all.value, buffer);
    }
  }

  /** An array of all arguments. */
  method PackArgs(L: State, pk: Packer, skip: nat, rtop: nat) returns (ok: bool)
    requires HeapOk(L.heap) && skip + rtop == |L.stack| < TWO_32 && ValuesOk(L.stack)
    modifies L`stack, pk
    ensures Packed(AsArray(old(PacksArgs(L.heap, L.stack, skip))), ok, old(L.stack), L.stack, old(pk.buffer), pk.buffer)
  {
    ghost var stack0 := L.stack;
    ghost var all := PacksArgs(L.heap, stack0, skip);
    ghost var goal := ArrayGoal(all, pk.buffer);
    ArgsCome(L.heap, stack0, skip, pk.buffer);
    pk.PackArray(rtop);
    var i := 0;
    while i < rtop
      invariant 0 <= i <= rtop && L.stack == stack0
      invariant PacksArgs(L.heap, stack0, skip + i).Some? <==> all.Some?
      invariant ToCome(PacksArgs(L.heap, stack0, skip + i), pk.buffer, goal)
    {
      ok := PackArg(L, pk, skip + i, goal);
      if !ok {
        return;
      }
      i := i + 1;
    }
    ok := true;
  }

  /** The argument above the lowest i on the stack. */
  method PackArg(L: State, pk: Packer, i: nat, ghost goal: seq<byte>) returns (ok: bool)
    requires HeapOk(L.heap) && i < |L.stack| && ValueOk(L.stack[i])
    requires ToCome(PacksArgs(L.heap, L.stack, i), pk.buffer, goal)
    modifies L`stack, pk
    ensures ok ==> L.stack == old(L.stack) && ToCome(PacksArgs(L.heap, L.stack, i + 1), pk.buffer, goal)
    ensures ok ==> (PacksArgs(L.heap, L.stack, i).Some? <==> PacksArgs(L.heap, L.stack, i + 1).Some?)
    ensures !ok ==> old(PacksArgs(L.heap, L.stack, i)) == None && old(L.stack) <= L.stack
  {
    ghost var before, stack0 := pk.buffer, L.stack;
    ok := PackLua(L, pk, i + 1);
    if ok {
      ItemArrives(Packs(L.heap, stack0[i], i + 1, |stack0|), PacksArgs(L.heap, stack0, i + 1),
                  PacksArgs(L.heap, stack0, i), before, pk.buffer, goal);
    }
  }

  ghost predicate ValuesOk(vs: seq<Value>)
  {
    forall i | 0 <= i < |vs| :: ValueOk(vs[i])
  }

  function AsArray(xs: Option<seq<Object>>): Option<Object>
  {
    if xs.Some? then Some(Array(xs.value)) else None
  }

  lemma HeapTableOk(h: Heap, id: nat)
    requires HeapOk(h)
    ensures TableOk(Get(h, id))
  {
    if id in h {
      assert TableOk(h[id]);
    }
  }
}
