/** Sending Lua arguments as a message and receiving them: msgpack_lua_to_bin, then msgpack_bin_to_lua. */
module LuaBridge {
  import opened Options
  import opened Objects
  import opened Format
  import opened Packing
  import opened Compaction
  import opened Lua
  import opened LuaPack
  import opened LuaUnpack

  // ----- Tables that are either arrays or hashes -----

  predicate Known(h: Heap, v: Value)
  {
    v.LTable? ==> v.id in h
  }

  /** A hole-free array and nothing else, or a hash without an array part. */
  ghost predicate Pure(h: Heap, t: Table)
  {
    && (forall i | 0 <= i < |t.items| :: t.items[i] != LNil && Known(h, t.items[i]))
    && (forall i | 0 <= i < |t.fields| :: HashKey(t.fields[i].key) && Known(h, t.fields[i].key) && Known(h, t.fields[i].val))
    && (t.items == [] || t.fields == [])
  }

  ghost predicate PureHeap(h: Heap)
  {
    forall id {:trigger Pure(h, h[id])} | id in h :: Pure(h, h[id])
  }

  /** What is packed of a value: it shows the value, a decoder can give it back, and Lua can load it. */
  ghost predicate Faithful(h: Heap, v: Value, o: Object)
  {
    Shows(h, 0, v, o) && Canonical(o) && Loadable(o) && (v == LNil <==> o == Nil) && (v.LTable? <==> IsContainer(o))
  }

  lemma {:induction false} PackedIsFaithful(h: Heap, v: Value, index: nat, top: nat)
    requires HeapOk(h) && PureHeap(h) && Known(h, v) && index <= top && Packs(h, v, index, top).Some?
    ensures Faithful(h, v, Packs(h, v, index, top).value)
    decreases Room(index), 0, 0
  {
    if v.LTable? {
      var t := h[v.id];
      assert TableOk(h[v.id]) && Pure(h, h[v.id]);
      if t.items != [] {
        ItemsAreFaithful(h, t.items, 0, top);
        ArrayIsFaithful(h, v, PacksItems(h, t.items, 0, top).value);
      } else {
        FieldsAreFaithful(h, t.fields, 0, top);
        MapIsFaithful(h, v, PacksFields(h, t.fields, 0, top).value);
      }
    }
  }

  lemma {:induction false} ItemsAreFaithful(h: Heap, vs: seq<Value>, i: nat, top: nat)
    requires HeapOk(h) && PureHeap(h) && (forall j | 0 <= j < |vs| :: Known(h, vs[j]))
    requires i <= |vs| && PacksItems(h, vs, i, top).Some?
    ensures AllFaithful(h, vs, i, PacksItems(h, vs, i, top).value)
    decreases Room(top + 1), 1, |vs| - i
  {
    if i < |vs| {
      PackedIsFaithful(h, vs[i], top + 1, top + 1);
      ItemsAreFaithful(h, vs, i + 1, top);
    }
  }

  lemma {:induction false} FieldsAreFaithful(h: Heap, fs: seq<Field>, i: nat, top: nat)
    requires HeapOk(h) && PureHeap(h) && (forall j | 0 <= j < |fs| :: Known(h, fs[j].key) && Known(h, fs[j].val))
    requires i <= |fs| && PacksFields(h, fs, i, top).Some?
    ensures FieldsFaithful(h, fs, i, PacksFields(h, fs, i, top).value)
    decreases Room(top + 1), 1, |fs| - i
  {
    if i < |fs| {
      PackedIsFaithful(h, fs[i].key, top + 1, top + 2);
      PackedIsFaithful(h, fs[i].val, top + 2, top + 2);
      FieldsAreFaithful(h, fs, i + 1, top);
      var k, x := Packs(h, fs[i].key, top + 1, top + 2).value, Packs(h, fs[i].val, top + 2, top + 2).value;
      FieldsFaithfulCons(h, fs, i, Entry(k, x), PacksFields(h, fs, i + 1, top).value);
    }
  }

  lemma FieldsFaithfulCons(h: Heap, fs: seq<Field>, i: nat, e: Entry, es: seq<Entry>)
    requires i < |fs| && Faithful(h, fs[i].key, e.key) && Faithful(h, fs[i].val, e.val) && FieldsFaithful(h, fs, i + 1, es)
    ensures FieldsFaithful(h, fs, i, [e] + es)
  {
  }

  /** The objects os are those of the values from place i on. */
  ghost predicate AllFaithful(h: Heap, vs: seq<Value>, i: nat, os: seq<Object>)
  {
    i + |os| == |vs| && forall j | i <= j < |vs| :: Faithful(h, vs[j], os[j - i])
  }

  ghost predicate FieldsFaithful(h: Heap, fs: seq<Field>, i: nat, es: seq<Entry>)
  {
    && i + |es| == |fs|
    && forall j | i <= j < |fs| :: Faithful(h, fs[j].key, es[j - i].key) && Faithful(h, fs[j].val, es[j - i].val)
  }

  lemma ArrayIsFaithful(h: Heap, v: Value, os: seq<Object>)
    requires v.LTable? && v.id in h && Pure(h, h[v.id]) && h[v.id].fields == []
    requires AllFaithful(h, h[v.id].items, 0, os)
    ensures Faithful(h, v, Array(os))
  {
    var vs := h[v.id].items;
    forall i | 0 <= i < |os|
      ensures os[i] != Nil && Loadable(os[i]) && Shows(h, 0, vs[i], os[i])
    {
      assert Faithful(h, vs[i], os[i]);
    }
    forall x | x in os
      ensures Canonical(x)
    {
      var i :| 0 <= i < |os| && os[i] == x;
      assert Faithful(h, vs[i], os[i]);
    }
  }

  lemma MapIsFaithful(h: Heap, v: Value, es: seq<Entry>)
    requires v.LTable? && v.id in h && Pure(h, h[v.id]) && TableOk(h[v.id]) && h[v.id].items == []
    requires FieldsFaithful(h, h[v.id].fields, 0, es)
    ensures Faithful(h, v, Map(es))
  {
    var fs := h[v.id].fields;
    forall i | 0 <= i < |es|
      ensures es[i].val != Nil && (IsContainer(es[i].key) || HashKey(LuaUnpack.Scalar(es[i].key)))
      ensures Loadable(es[i].key) && Loadable(es[i].val)
      ensures Shows(h, 0, fs[i].key, es[i].key) && Shows(h, 0, fs[i].val, es[i].val)
    {
      assert Faithful(h, fs[i].key, es[i].key) && Faithful(h, fs[i].val, es[i].val);
    }
    forall i, j | 0 <= i < j < |es|
      ensures KeysDiffer(es[i].key, es[j].key)
    {
      assert Faithful(h, fs[i].key, es[i].key) && Faithful(h, fs[j].key, es[j].key);
      assert !KeyEquals(fs[i].key, fs[j].key);
    }
    forall e | e in es
      ensures Canonical(e.key) && Canonical(e.val)
    {
      var i :| 0 <= i < |es| && es[i] == e;
      assert Faithful(h, fs[i].key, es[i].key);
    }
  }

  lemma {:induction false} ArgsAreFaithful(h: Heap, stack: seq<Value>, i: nat)
    requires HeapOk(h) && PureHeap(h) && (forall j | 0 <= j < |stack| :: Known(h, stack[j]))
    requires i <= |stack| && PacksArgs(h, stack, i).Some?
    ensures AllFaithful(h, stack, i, PacksArgs(h, stack, i).value)
    decreases |stack| - i
  {
    if i < |stack| {
      PackedIsFaithful(h, stack[i], i + 1, |stack|);
      ArgsAreFaithful(h, stack, i + 1);
    }
  }

  // ----- The message for a list of arguments -----

  function MessageOf(os: seq<Object>): Object
  {
    if |os| == 0 then Nil else if |os| == 1 then os[0] else Array(os)
  }

  lemma MessageOfArgs(h: Heap, stack: seq<Value>, skip: nat)
    requires skip <= |stack|
    ensures var os := PacksArgs(h, stack, skip);
      Message(h, stack, skip) == if os.Some? then Some(MessageOf(os.value)) else None
  {
    if skip + 1 == |stack| {
      assert PacksArgs(h, stack, skip + 1) == Some([]);
    }
  }

  /**
   A list of arguments comes back as itself exactly when it has several, or one that is no array with items: no
   argument comes back as nil, and an array by itself as its items.
   */
  lemma WhatComesBack(os: seq<Object>)
    ensures Pushes(MessageOf(os), true) == os <==> |os| >= 2 || (|os| == 1 && !os[0].Array?)
  {
    if |os| == 1 && os[0].Array? {
      assert os[0].items != os;
    }
  }

  lemma LoadablePushes(os: seq<Object>)
    requires AllLoadable(os)
    ensures AllLoadable(Pushes(MessageOf(os), true))
  {
  }

  lemma CanonicalMessage(h: Heap, stack: seq<Value>, skip: nat, os: seq<Object>)
    requires AllFaithful(h, stack, skip, os)
    ensures Canonical(MessageOf(os)) && AllLoadable(os)
  {
    forall i | 0 <= i < |os|
      ensures Canonical(os[i]) && Loadable(os[i])
    {
      assert Faithful(h, stack[skip + i], os[skip + i - skip]);
    }
  }

  /** The receiver reads an object that was never written exactly for messages that nest too deep. */
  lemma TooDeepIsRejected(o: Object)
    requires WellFormed(o)
    ensures Decode(Encode(o), MAX_NESTING) == Fail <==> Depth(o) > MAX_NESTING
  {
    RoundTrip(o, [], MAX_NESTING);
    assert Encode(o) + [] == Encode(o);
  }

  /**
   Sending the arguments of one Lua state to another: an argument that has no object is refused. What is received shows
   what was sent, by itself or as argument list, in new tables, unless the message nests deeper than the decoder allows,
   which the sender does not check and the receiver does not notice. The sender's stack is as before.
   */
  method Transfer(from: State, skip: nat, to: State) returns (r: Reception)
    requires from != to && to.Valid() && HeapOk(from.heap) && PureHeap(from.heap)
    requires skip <= |from.stack| < TWO_32 && ValuesOk(from.stack)
    requires forall i | 0 <= i < |from.stack| :: Known(from.heap, from.stack[i])
    modifies from`stack, to
    ensures from.stack == old(from.stack) && to.Valid() && Kept(old(to.heap), to.heap)
    ensures r.Received? || to.stack == old(to.stack)
    ensures var os := PacksArgs(from.heap, from.stack, skip);
      && (os.None? <==> r == Refused)
      && (os.Some? ==>
        && AllFaithful(from.heap, from.stack, skip, os.value)
        && (r == Unwritten <==> Depth(MessageOf(os.value)) > MAX_NESTING)
        && (r != Unwritten ==>
          && r == Received(|Pushes(MessageOf(os.value), true)|)
          && Pushed(old(to.stack), to.stack, to.heap, old(to.next), Pushes(MessageOf(os.value), true))))
  {
    ghost var os := PacksArgs(from.heap, from.stack, skip);
    MessageOfArgs(from.heap, from.stack, skip);
    var data := LuaToBin(from, skip);
    if data == None {
      return Refused;
    }
    ghost var m := MessageOf(os.value);
    ArgsAreFaithful(from.heap, from.stack, skip);
    CanonicalMessage(from.heap, from.stack, skip, os.value);
    LoadablePushes(os.value);
    RoundTripExactly(m, [], MAX_NESTING);
    RoundTrip(m, [], MAX_NESTING);
    assert Encode(m) + [] == Encode(m);
    r := BinToLua(to, data.value);
  }
}
