/**
 Unpacking and packing again: the source's compaction test (cases_gen.rb), for every message.
 Also the exact condition under which packing and unpacking is the identity.
 */
module Compaction {
  import opened Bytes
  import opened Objects
  import opened Format
  import opened Packing

  // ----- When packing and unpacking is the identity -----

  lemma {:induction false} CanonIsIdentity(o: Object)
    ensures Canon(o) == o <==> Canonical(o)
    decreases o
  {
    match o
    case Array(items) => CanonAllIsIdentity(items);
    case Map(entries) => CanonEntriesIsIdentity(entries);
    case _ =>
  }

  lemma {:induction false} CanonAllIsIdentity(xs: seq<Object>)
    ensures CanonAll(xs) == xs <==> forall x | x in xs :: Canonical(x)
    decreases xs
  {
    if xs != [] {
      CanonIsIdentity(xs[0]);
      CanonAllIsIdentity(xs[1..]);
      assert xs == [xs[0]] + xs[1..];
      assert CanonAll(xs)[0] == Canon(xs[0]) && CanonAll(xs)[1..] == CanonAll(xs[1..]);
    }
  }

  lemma {:induction false} CanonEntriesIsIdentity(es: seq<Entry>)
    ensures CanonEntries(es) == es <==> forall e | e in es :: Canonical(e.key) && Canonical(e.val)
    decreases es
  {
    if es != [] {
      CanonEntryIsIdentity(es[0]);
      CanonEntriesIsIdentity(es[1..]);
      assert es == [es[0]] + es[1..];
      assert CanonEntries(es)[0] == CanonEntry(es[0]) && CanonEntries(es)[1..] == CanonEntries(es[1..]);
    }
  }

  lemma {:induction false} CanonEntryIsIdentity(e: Entry)
    ensures CanonEntry(e) == e <==> Canonical(e.key) && Canonical(e.val)
    decreases e
  {
    CanonIsIdentity(e.key);
    CanonIsIdentity(e.val);
  }

  /** Packing then unpacking gives the same object exactly when it is canonical and nested at most room deep. */
  lemma RoundTripExactly(o: Object, t: seq<byte>, room: nat)
    requires WellFormed(o)
    ensures Decode(Encode(o) + t, room) == Done(o, t) <==> Canonical(o) && Depth(o) <= room
  {
    RoundTrip(o, t, room);
    CanonIsIdentity(o);
  }

  /** The encodings of the canonical objects the decoder accepts form a prefix code. */
  lemma EncodingsArePrefixFree(o: Object, room: nat, k: nat)
    requires WellFormed(o) && Depth(o) <= room && k < |Encode(o)|
    ensures Decode(Encode(o)[..k], room) == More
  {
    RoundTrip(o, [], room);
    assert Encode(o) + [] == Encode(o);
    ProperPrefixNeedsMore(Encode(o), room, k);
  }

  // ----- Re-packing never makes a message longer -----

  datatype Opening = NoContainer | Opening(isMap: bool, n: nat, body: seq<byte>)

  /** The container header at the front of s, if there is one. */
  function OpeningAt(s: seq<byte>): (r: Opening)
    ensures r.Opening? ==> |r.body| < |s|
  {
    if s == [] || s[0] < 0x80 || 0x9f < s[0] < 0xdc || s[0] > 0xdf then NoContainer
    else
      var h, body := s[0], s[1..];
      if h <= 0x8f then Opening(true, h as int - 0x80, body)
      else if h <= 0x9f then Opening(false, h as int - 0x90, body)
      else if |body| < FieldWidth(h) then NoContainer
      else Opening(h >= 0xde, Load(body[..FieldWidth(h)]), body[FieldWidth(h)..])
  }

  /** How many 32-bit floats the decoder reads in one object. Only these grow when packed again, as doubles. */
  function Floats(s: seq<byte>, room: nat): nat
    decreases |s|, 0
  {
    match OpeningAt(s)
    case NoContainer => if s != [] && s[0] == 0xca then 1 else 0
    case Opening(isMap, n, body) => if room == 0 then 0 else FloatsInItems(body, if isMap then 2 * n else n, room - 1)
  }

  function FloatsInItems(s: seq<byte>, n: nat, room: nat): nat
    decreases |s|, 1
  {
    if n == 0 then 0 else
      Floats(s, room) + match Decode(s, room)
                        case Done(_, rest) => FloatsInItems(rest, n - 1, room)
                        case _ => 0
  }

  /** There is a byte 0xca among the first k of s. */
  ghost predicate HasFloat(s: seq<byte>, k: nat)
  {
    exists i :: 0 <= i < k <= |s| && s[i] == 0xca
  }

  lemma FloatInSuffix(s: seq<byte>, body: seq<byte>, k: nat)
    requires IsSuffix(body, s) && k <= |body| && HasFloat(body, k)
    ensures HasFloat(s, |s| - |body| + k)
  {
    var i :| 0 <= i < k && body[i] == 0xca;
    assert s[|s| - |body| + i] == 0xca;
  }

  lemma OpeningIsSuffix(s: seq<byte>)
    requires OpeningAt(s).Opening?
    ensures IsSuffix(OpeningAt(s).body, s)
  {
    if s[0] >= 0xdc {
      DropIsSuffix(s[1..], FieldWidth(s[0]));
    }
    SuffixOfDrop(s, 1, OpeningAt(s).body);
  }

  /** Each of them takes five of the bytes read, with 0xca in front. */
  lemma {:induction false} FloatsAreRead(s: seq<byte>, room: nat)
    requires Decode(s, room).Done?
    ensures var k := |s| - |Decode(s, room).rest|;
      5 * Floats(s, room) <= k && (Floats(s, room) > 0 ==> HasFloat(s, k))
    decreases |s|, 0
  {
    if OpeningAt(s).Opening? {
      OpeningDecodes(s, room);
      OpeningIsSuffix(s);
      var Opening(isMap, n, body) := OpeningAt(s);
      var m := if isMap then 2 * n else n;
      FloatsInItemsAreRead(body, m, room - 1);
      if FloatsInItems(body, m, room - 1) > 0 {
        FloatInSuffix(s, body, |body| - |Decode(s, room).rest|);
      }
    } else if s[0] == 0xca {
      assert HasFloat(s, |s| - |Decode(s, room).rest|);
    }
  }

  lemma {:induction false} FloatsInItemsAreRead(s: seq<byte>, n: nat, room: nat)
    requires DecodeItems(s, n, room).Done?
    ensures var k := |s| - |DecodeItems(s, n, room).rest|;
      5 * FloatsInItems(s, n, room) <= k && (FloatsInItems(s, n, room) > 0 ==> HasFloat(s, k))
    decreases |s|, 1
  {
    if n > 0 {
      var rest := Decode(s, room).rest;
      var k := |s| - |DecodeItems(s, n, room).rest|;
      FloatsAreRead(s, room);
      RestIsSuffix(s, room);
      FloatsInItemsAreRead(rest, n - 1, room);
      if FloatsInItems(rest, n - 1, room) > 0 {
        FloatInSuffix(s, rest, |rest| - |DecodeItems(rest, n - 1, room).rest|);
      } else if Floats(s, room) > 0 {
        var i :| 0 <= i < |s| - |rest| && s[i] == 0xca;
        assert HasFloat(s, k);
      }
    }
  }

  lemma OpeningDecodes(s: seq<byte>, room: nat)
    requires OpeningAt(s).Opening?
    ensures var Opening(isMap, n, body) := OpeningAt(s);
      && n < TWO_32
      && Decode(s, room) == DecodeContainer(isMap, n, body, room)
      && |ContainerHeader(isMap, n)| <= |s| - |body|
  {
    PowValues();
    var Opening(isMap, n, body) := OpeningAt(s);
    assert 0xdc <= s[0] ==> n < Pow256(FieldWidth(s[0]));
  }

  /** The header of an integer encoding is at least as wide as the one the packer chooses. */
  lemma ScalarCompacts(s: seq<byte>, room: nat)
    requires Decode(s, room).Done? && OpeningAt(s).NoContainer?
    requires 0xca <= s[0] <= 0xd3
    ensures var Done(o, rest) := Decode(s, room);
      && WellFormed(o) && Canonical(o) && Depth(o) == 0
      && |Encode(o)| <= |s| - |rest| + 4 * Floats(s, room)
  {
    PowValues();
    var w := FieldWidth(s[0]);
    var n := Load(s[1..][..w]);
    assert n < Pow256(w);
    assert Decode(s, room).value == Scalar(s[0], n);
  }

  lemma RawCompacts(s: seq<byte>, room: nat)
    requires Decode(s, room).Done? && s[0] >= 0xa0 && (s[0] <= 0xbf || 0xda <= s[0] <= 0xdb)
    ensures var Done(o, rest) := Decode(s, room);
      && WellFormed(o) && Canonical(o) && Depth(o) == 0
      && |Encode(o)| <= |s| - |rest|
  {
    PowValues();
    if s[0] >= 0xda {
      var w := FieldWidth(s[0]);
      var n := Load(s[1..][..w]);
      assert n < Pow256(w);
      assert Decode(s, room) == DecodeRaw(n, s[1..][w..]);
    }
  }

  /**
   Whatever the decoder accepts is well formed and canonical, and packing it again takes no more bytes than were
   read, but for four more bytes per 32-bit float: the encoder's choice of formats is the shortest there is.
   */
  lemma {:induction false} Compacts(s: seq<byte>, room: nat)
    requires Decode(s, room).Done?
    ensures var Done(o, rest) := Decode(s, room);
      && WellFormed(o) && Canonical(o) && Depth(o) <= room
      && |Encode(o)| <= |s| - |rest| + 4 * Floats(s, room)
    decreases |s|, 0
  {
    if OpeningAt(s).Opening? {
      OpeningDecodes(s, room);
      var Opening(isMap, n, body) := OpeningAt(s);
      ItemsCompact(body, if isMap then 2 * n else n, room - 1);
      var xs := DecodeItems(body, if isMap then 2 * n else n, room - 1).value;
      BuildMeasures(isMap, n, xs);
    } else if 0xca <= s[0] <= 0xd3 {
      ScalarCompacts(s, room);
    } else if s[0] >= 0xa0 && (s[0] <= 0xbf || 0xda <= s[0] <= 0xdb) {
      RawCompacts(s, room);
    }
  }

  lemma {:induction false} ItemsCompact(s: seq<byte>, n: nat, room: nat)
    requires DecodeItems(s, n, room).Done?
    ensures var Done(xs, rest) := DecodeItems(s, n, room);
      && (forall x | x in xs :: WellFormed(x) && Canonical(x))
      && DepthAll(xs) <= room
      && |EncodeAll(xs)| <= |s| - |rest| + 4 * FloatsInItems(s, n, room)
    decreases |s|, 1
  {
    if n > 0 {
      Compacts(s, room);
      var Done(x, rest) := Decode(s, room);
      ItemsCompact(rest, n - 1, room);
      var xs := DecodeItems(rest, n - 1, room).value;
      assert ([x] + xs)[1..] == xs;
    }
  }

  /** Size and depth of a container in terms of its children in wire order. */
  lemma BuildMeasures(isMap: bool, n: nat, xs: seq<Object>)
    requires n < TWO_32 && |xs| == if isMap then 2 * n else n
    requires forall x | x in xs :: WellFormed(x) && Canonical(x)
    ensures var o := Build(isMap, xs);
      && WellFormed(o) && Canonical(o)
      && Depth(o) == 1 + DepthAll(xs)
      && |Encode(o)| == |ContainerHeader(isMap, n)| + |EncodeAll(xs)|
  {
    if isMap {
      PairMeasures(xs);
    }
  }

  lemma PairCons(xs: seq<Object>)
    requires |xs| % 2 == 0 && xs != []
    ensures Pair(xs) == [Entry(xs[0], xs[1])] + Pair(xs[2..])
  {
  }

  lemma {:induction false} EncodedTwo(xs: seq<Object>)
    requires |xs| >= 2 && forall x | x in xs :: WellFormed(x)
    ensures EncodeAll(xs) == Encode(xs[0]) + Encode(xs[1]) + EncodeAll(xs[2..])
    ensures DepthAll(xs) == Max(Max(Depth(xs[0]), Depth(xs[1])), DepthAll(xs[2..]))
  {
    assert xs[1..][1..] == xs[2..] && xs[1..][0] == xs[1];
  }

  lemma {:induction false} EncodedEntry(e: Entry, es: seq<Entry>)
    requires WellFormed(e.key) && WellFormed(e.val) && forall f | f in es :: WellFormed(f.key) && WellFormed(f.val)
    ensures EncodeEntries([e] + es) == Encode(e.key) + Encode(e.val) + EncodeEntries(es)
    ensures DepthEntries([e] + es) == Max(Max(Depth(e.key), Depth(e.val)), DepthEntries(es))
  {
    assert ([e] + es)[1..] == es;
  }

  lemma {:induction false} PairMeasures(xs: seq<Object>)
    requires |xs| % 2 == 0
    requires forall x | x in xs :: WellFormed(x) && Canonical(x)
    ensures forall e | e in Pair(xs) :: WellFormed(e.key) && Canonical(e.key) && WellFormed(e.val) && Canonical(e.val)
    ensures DepthEntries(Pair(xs)) == DepthAll(xs)
    ensures EncodeEntries(Pair(xs)) == EncodeAll(xs)
    decreases |xs|
  {
    if xs != [] {
      PairMeasures(xs[2..]);
      PairCons(xs);
      EncodedTwo(xs);
      EncodedEntry(Entry(xs[0], xs[1]), Pair(xs[2..]));
    }
  }

  /** Decoding, packing and decoding again gives the same object. */
  lemma RepackingKeepsTheObject(s: seq<byte>, room: nat, t: seq<byte>)
    requires Decode(s, room).Done?
    ensures WellFormed(Decode(s, room).value)
    ensures Decode(Encode(Decode(s, room).value) + t, room) == Done(Decode(s, room).value, t)
  {
    Compacts(s, room);
    RoundTripExactly(Decode(s, room).value, t, room);
  }

  /** No valid encoding of an integer is shorter than the one the packer writes. */
  lemma IntegerPackingIsOptimal(v: int, s: seq<byte>, room: nat)
    requires -TWO_63 <= v < TWO_64
    requires Decode(s, room) == Done(Integer(v), [])
    ensures |EncodeInteger(v)| <= |s|
  {
    Compacts(s, room);
    if OpeningAt(s).Opening? {
      OpeningDecodes(s, room);
    }
  }
}
