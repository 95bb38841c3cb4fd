/** msgpack_object_equal (objectc.c), and what it says about packing and unpacking. */
module Equality {
  import opened Bytes
  import opened Compaction
  import opened Doubles
  import opened Objects
  import opened Format
  import opened Packing

  /** The C operator == on doubles: no NaN equals anything, and the two zeros are equal. */
  predicate DoubleEquals(x: nat, y: nat)
  {
    !IsNaN(x) && !IsNaN(y) && (x == y || (x % TWO_63 == 0 && y % TWO_63 == 0))
  }

  /** Same type, same value, and children pairwise so. */
  predicate Same(x: Object, y: Object)
    decreases x
  {
    match (x, y)
    case (Double(a), Double(b)) => DoubleEquals(a, b)
    case (Array(xs), Array(ys)) => |xs| == |ys| && forall i | 0 <= i < |xs| :: Same(xs[i], ys[i])
    case (Map(es), Map(fs)) =>
      |es| == |fs| && forall i | 0 <= i < |es| :: Same(es[i].key, fs[i].key) && Same(es[i].val, fs[i].val)
    case _ => x == y
  }

  /** msgpack_object_equal decides Same, walking both lists of children in step. */
  method ObjectEqual(x: Object, y: Object) returns (r: bool)
    ensures r <==> Same(x, y)
    decreases x
  {
    match x
    case Nil => return y.Nil?;
    case Boolean(b) => return y.Boolean? && b == y.b;
    case PositiveInteger(u) => return y.PositiveInteger? && u == y.u64;
    case NegativeInteger(i) => return y.NegativeInteger? && i == y.i64;
    case Double(bits) => return y.Double? && DoubleEquals(bits, y.bits);
    case Raw(bytes) => return y.Raw? && |bytes| == |y.bytes| && bytes == y.bytes;
    case Array(xs) =>
      if !y.Array? || |xs| != |y.items| { return false; }
      var i := 0;
      while i < |xs|
        invariant 0 <= i <= |xs|
        invariant forall k | 0 <= k < i :: Same(xs[k], y.items[k])
      {
        var same := ObjectEqual(xs[i], y.items[i]);
        if !same { return false; }
        i := i + 1;
      }
      return true;
    case Map(es) =>
      if !y.Map? || |es| != |y.entries| { return false; }
      var i := 0;
      while i < |es|
        invariant 0 <= i <= |es|
        invariant forall k | 0 <= k < i :: Same(es[k].key, y.entries[k].key) && Same(es[k].val, y.entries[k].val)
      {
        var same := ObjectEqual(es[i].key, y.entries[i].key);
        if !same { return false; }
        same := ObjectEqual(es[i].val, y.entries[i].val);
        if !same { return false; }
        i := i + 1;
      }
      return true;
  }

  predicate NaNFree(o: Object)
  {
    match o
    case Double(bits) => !IsNaN(bits)
    case Array(items) => forall x | x in items :: NaNFree(x)
    case Map(entries) => forall e | e in entries :: NaNFree(e.key) && NaNFree(e.val)
    case _ => true
  }

  lemma {:induction false} SameAsCanon(o: Object)
    ensures Same(o, Canon(o)) <==> Canonical(o) && NaNFree(o)
    decreases o
  {
    match o
    case Array(items) =>
      forall i | 0 <= i < |items|
        ensures Same(items[i], CanonAll(items)[i]) <==> Canonical(items[i]) && NaNFree(items[i])
      {
        CanonAllAt(items, i);
        SameAsCanon(items[i]);
      }
    case Map(es) =>
      forall i | 0 <= i < |es|
        ensures Same(es[i].key, CanonEntries(es)[i].key) && Same(es[i].val, CanonEntries(es)[i].val) <==>
          Canonical(es[i].key) && NaNFree(es[i].key) && Canonical(es[i].val) && NaNFree(es[i].val)
      {
        CanonEntriesAt(es, i);
        SameAsCanonEntry(es[i]);
      }
    case _ =>
  }

  lemma {:induction false} SameAsCanonEntry(e: Entry)
    ensures Same(e.key, Canon(e.key)) <==> Canonical(e.key) && NaNFree(e.key)
    ensures Same(e.val, Canon(e.val)) <==> Canonical(e.val) && NaNFree(e.val)
    decreases e
  {
    SameAsCanon(e.key);
    SameAsCanon(e.val);
  }

  lemma {:induction false} CanonAllAt(xs: seq<Object>, i: nat)
    requires i < |xs|
    ensures CanonAll(xs)[i] == Canon(xs[i])
  {
    if i > 0 { CanonAllAt(xs[1..], i - 1); }
  }

  lemma {:induction false} CanonEntriesAt(es: seq<Entry>, i: nat)
    requires i < |es|
    ensures CanonEntries(es)[i] == CanonEntry(es[i])
  {
    if i > 0 { CanonEntriesAt(es[1..], i - 1); }
  }

  /**
   In the library's own terms, unpacking a packed object yields an object equal to it exactly when the object has no
   misfiled integer, no NaN, and no container nested deeper than the decoder's stack.
   */
  lemma RoundTripIsEqual(o: Object, t: seq<byte>, room: nat)
    requires WellFormed(o)
    ensures var r := Decode(Encode(o) + t, room);
      r.Done? && r.rest == t && Same(o, r.value) <==> Canonical(o) && NaNFree(o) && Depth(o) <= room
  {
    RoundTrip(o, t, room);
    SameAsCanon(o);
  }

  // ----- Which objects are equal -----

  /** Doubles are equal exactly if none is a NaN and they have the same value, or are the same infinity. */
  lemma DoubleEqualsIsValue(x: nat, y: nat)
    requires x < TWO_64 && y < TWO_64
    ensures DoubleEquals(x, y) <==>
      !IsNaN(x) && !IsNaN(y) && if Finite(x) && Finite(y) then Value(x) == Value(y) else x == y
  {
    ZeroIsFinite(x);
    ZeroIsFinite(y);
    if Finite(x) && Finite(y) {
      ValueIsOnce(x, y);
    }
  }

  lemma ZeroIsFinite(x: nat)
    requires x < TWO_64
    ensures x % TWO_63 == 0 <==> IsZero(x)
    ensures IsZero(x) ==> Finite(x)
    ensures IsNaN(x) ==> !Finite(x)
  {
  }

  lemma {:induction false} SameIsReflexive(x: Object)
    ensures Same(x, x) <==> NaNFree(x)
    decreases x
  {
    match x
    case Array(xs) =>
      forall i | 0 <= i < |xs|
        ensures Same(xs[i], xs[i]) <==> NaNFree(xs[i])
      {
        SameIsReflexive(xs[i]);
      }
    case Map(es) =>
      forall i | 0 <= i < |es|
        ensures Same(es[i].key, es[i].key) && Same(es[i].val, es[i].val) <==> NaNFree(es[i].key) && NaNFree(es[i].val)
      {
        EntryIsReflexive(es[i]);
      }
    case _ =>
  }

  lemma {:induction false} EntryIsReflexive(e: Entry)
    ensures Same(e.key, e.key) <==> NaNFree(e.key)
    ensures Same(e.val, e.val) <==> NaNFree(e.val)
    decreases e
  {
    SameIsReflexive(e.key);
    SameIsReflexive(e.val);
  }

  // ----- One representative of equal objects -----

  /** The object with 0.0 for every -0.0. */
  function Zeroed(o: Object): Object
  {
    match o
    case Double(bits) => Double(if bits % TWO_63 == 0 then 0 else bits)
    case Array(xs) => Array(seq(|xs|, i requires 0 <= i < |xs| => Zeroed(xs[i])))
    case Map(es) => Map(seq(|es|, i requires 0 <= i < |es| => ZeroedEntry(es[i])))
    case _ => o
  }

  function ZeroedEntry(e: Entry): Entry
  {
    Entry(Zeroed(e.key), Zeroed(e.val))
  }

  /** Objects are equal exactly if they are the same but for the sign of zeros, and have no NaN. */
  lemma {:induction false} SameIsZeroed(x: Object, y: Object)
    ensures Same(x, y) <==> Zeroed(x) == Zeroed(y) && NaNFree(x)
    decreases x
  {
    match (x, y)
    case (Double(a), Double(b)) => ZeroedDoubles(a, b);
    case (Array(xs), Array(ys)) =>
      if |xs| == |ys| {
        forall i | 0 <= i < |xs|
          ensures Same(xs[i], ys[i]) <==> Zeroed(xs[i]) == Zeroed(ys[i]) && NaNFree(xs[i])
        {
          SameIsZeroed(xs[i], ys[i]);
        }
        ArraysAreZeroed(xs, ys);
      } else {
        assert |Zeroed(x).items| == |xs| && |Zeroed(y).items| == |ys|;
      }
    case (Map(es), Map(fs)) =>
      if |es| == |fs| {
        forall i | 0 <= i < |es|
          ensures Same(es[i].key, fs[i].key) && Same(es[i].val, fs[i].val) <==>
            ZeroedEntry(es[i]) == ZeroedEntry(fs[i]) && NaNFree(es[i].key) && NaNFree(es[i].val)
        {
          EntryIsZeroed(es[i], fs[i]);
        }
        MapsAreZeroed(es, fs);
      } else {
        assert |Zeroed(x).entries| == |es| && |Zeroed(y).entries| == |fs|;
      }
    case _ =>
  }

  lemma {:induction false} EntryIsZeroed(e: Entry, f: Entry)
    ensures Same(e.key, f.key) && Same(e.val, f.val) <==>
      ZeroedEntry(e) == ZeroedEntry(f) && NaNFree(e.key) && NaNFree(e.val)
    decreases e
  {
    SameIsZeroed(e.key, f.key);
    SameIsZeroed(e.val, f.val);
  }

  lemma ZeroedDoubles(a: nat, b: nat)
    ensures DoubleEquals(a, b) <==>
      (if a % TWO_63 == 0 then 0 else a) == (if b % TWO_63 == 0 then 0 else b) && !IsNaN(a)
  {
  }

  lemma ArraysAreZeroed(xs: seq<Object>, ys: seq<Object>)
    requires |xs| == |ys|
    ensures Zeroed(Array(xs)) == Zeroed(Array(ys)) <==> forall i | 0 <= i < |xs| :: Zeroed(xs[i]) == Zeroed(ys[i])
  {
    var zs, ws := Zeroed(Array(xs)).items, Zeroed(Array(ys)).items;
    assert forall i | 0 <= i < |xs| :: zs[i] == Zeroed(xs[i]) && ws[i] == Zeroed(ys[i]);
  }

  lemma MapsAreZeroed(es: seq<Entry>, fs: seq<Entry>)
    requires |es| == |fs|
    ensures Zeroed(Map(es)) == Zeroed(Map(fs)) <==> forall i | 0 <= i < |es| :: ZeroedEntry(es[i]) == ZeroedEntry(fs[i])
  {
    var zs, ws := Zeroed(Map(es)).entries, Zeroed(Map(fs)).entries;
    assert forall i | 0 <= i < |es| :: zs[i] == ZeroedEntry(es[i]) && ws[i] == ZeroedEntry(fs[i]);
  }

  /** So equality is symmetric and transitive. */
  lemma SameIsEquivalence(x: Object, y: Object, z: Object)
    ensures Same(x, y) <==> Same(y, x)
    ensures Same(x, y) && Same(y, z) ==> Same(x, z)
  {
    SameIsZeroed(x, y);
    SameIsZeroed(y, x);
    SameIsZeroed(y, z);
    SameIsZeroed(x, z);
    SameIsReflexive(x);
    SameIsReflexive(y);
    NaNFreeZeroed(x);
    NaNFreeZeroed(y);
  }

  lemma {:induction false} NaNFreeZeroed(o: Object)
    ensures NaNFree(Zeroed(o)) <==> NaNFree(o)
    decreases o
  {
    match o
    case Array(xs) =>
      var zs := Zeroed(o).items;
      forall i | 0 <= i < |xs|
        ensures NaNFree(zs[i]) <==> NaNFree(xs[i])
      {
        NaNFreeZeroed(xs[i]);
        assert zs[i] == Zeroed(xs[i]);
      }
    case Map(es) =>
      var zs := Zeroed(o).entries;
      forall i | 0 <= i < |es|
        ensures NaNFree(zs[i].key) && NaNFree(zs[i].val) <==> NaNFree(es[i].key) && NaNFree(es[i].val)
      {
        NaNFreeZeroedEntry(es[i]);
        assert zs[i] == ZeroedEntry(es[i]);
      }
    case _ =>
  }

  lemma {:induction false} NaNFreeZeroedEntry(e: Entry)
    ensures NaNFree(Zeroed(e.key)) <==> NaNFree(e.key)
    ensures NaNFree(Zeroed(e.val)) <==> NaNFree(e.val)
    decreases e
  {
    NaNFreeZeroed(e.key);
    NaNFreeZeroed(e.val);
  }

  predicate DoubleFree(o: Object)
  {
    match o
    case Double(_) => false
    case Array(xs) => forall i | 0 <= i < |xs| :: DoubleFree(xs[i])
    case Map(es) => forall i | 0 <= i < |es| :: DoubleFree(es[i].key) && DoubleFree(es[i].val)
    case _ => true
  }

  lemma {:induction false} ZeroedWithoutDoubles(o: Object)
    requires DoubleFree(o)
    ensures Zeroed(o) == o && NaNFree(o)
    decreases o
  {
    match o
    case Array(xs) =>
      forall i | 0 <= i < |xs|
        ensures Zeroed(o).items[i] == xs[i] && NaNFree(xs[i])
      {
        ZeroedWithoutDoubles(xs[i]);
      }
      assert Zeroed(o).items == xs;
    case Map(es) =>
      forall i | 0 <= i < |es|
        ensures Zeroed(o).entries[i] == es[i] && NaNFree(es[i].key) && NaNFree(es[i].val)
      {
        EntryWithoutDoubles(es[i]);
      }
      assert Zeroed(o).entries == es;
    case _ =>
  }

  lemma {:induction false} EntryWithoutDoubles(e: Entry)
    requires DoubleFree(e.key) && DoubleFree(e.val)
    ensures ZeroedEntry(e) == e && NaNFree(e.key) && NaNFree(e.val)
    decreases e
  {
    ZeroedWithoutDoubles(e.key);
    ZeroedWithoutDoubles(e.val);
  }

  /** Objects without doubles are equal exactly if they are the same. */
  lemma SameWithoutDoubles(x: Object, y: Object)
    requires DoubleFree(x) && DoubleFree(y)
    ensures Same(x, y) <==> x == y
  {
    SameIsZeroed(x, y);
    ZeroedWithoutDoubles(x);
    ZeroedWithoutDoubles(y);
  }

  lemma {:induction false} ZeroedIsFine(o: Object)
    requires WellFormed(o) && Canonical(o)
    ensures WellFormed(Zeroed(o)) && Canonical(Zeroed(o))
    decreases o
  {
    match o
    case Array(xs) =>
      forall i | 0 <= i < |xs|
        ensures WellFormed(Zeroed(o).items[i]) && Canonical(Zeroed(o).items[i])
      {
        assert xs[i] in xs;
        ZeroedIsFine(xs[i]);
      }
    case Map(es) =>
      forall i | 0 <= i < |es|
        ensures var e := Zeroed(o).entries[i];
          WellFormed(e.key) && WellFormed(e.val) && Canonical(e.key) && Canonical(e.val)
      {
        assert es[i] in es;
        ZeroedEntryIsFine(es[i]);
      }
    case _ =>
  }

  lemma {:induction false} ZeroedEntryIsFine(e: Entry)
    requires WellFormed(e.key) && WellFormed(e.val) && Canonical(e.key) && Canonical(e.val)
    ensures var f := ZeroedEntry(e); WellFormed(f.key) && WellFormed(f.val) && Canonical(f.key) && Canonical(f.val)
    decreases e
  {
    ZeroedIsFine(e.key);
    ZeroedIsFine(e.val);
  }

  lemma EncodingIsOnce(x: Object, y: Object)
    requires WellFormed(x) && WellFormed(y) && Canonical(x) && Canonical(y)
    ensures Encode(x) == Encode(y) <==> x == y
  {
    var room := Max(Depth(x), Depth(y));
    RoundTrip(x, [], room);
    RoundTrip(y, [], room);
    CanonIsIdentity(x);
    CanonIsIdentity(y);
  }

  /**
   Objects as a decoder makes them, with integers tagged by sign, are equal exactly if they have no NaN and the same
   bytes, with 0.0 for -0.0.
   */
  lemma SameIsSameBytes(x: Object, y: Object)
    requires WellFormed(x) && WellFormed(y) && Canonical(x) && Canonical(y)
    ensures WellFormed(Zeroed(x)) && WellFormed(Zeroed(y))
    ensures Same(x, y) <==> Encode(Zeroed(x)) == Encode(Zeroed(y)) && NaNFree(x)
  {
    ZeroedIsFine(x);
    ZeroedIsFine(y);
    EncodingIsOnce(Zeroed(x), Zeroed(y));
    SameIsZeroed(x, y);
  }

  /** Tags count: equal integers with different tags have the same bytes and are not equal. */
  lemma TagsMatter(i: nat)
    requires i < TWO_63
    ensures !Same(PositiveInteger(i), NegativeInteger(i)) && Encode(PositiveInteger(i)) == Encode(NegativeInteger(i))
  {
  }
}
