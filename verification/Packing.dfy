/**
 The encoder: pack_template.h and msgpack_pack_object of objectc.c.
 Encode gives the bytes as a function; the Packer class appends them the way the source does.
 */
module Packing {
  import opened Bytes
  import opened Objects
  import opened Format

  /** The bytes of the smallest of the nine integer formats that holds v. */
  function EncodeInteger(v: int): (s: seq<byte>)
    requires -TWO_63 <= v < TWO_64
  {
    PowValues();
    if -32 <= v < 128 then [(v % 256) as byte]
    else if v >= 0 then
      if v < 0x100 then [0xcc] + Store(v, 1)
      else if v < 0x1_0000 then [0xcd] + Store(v, 2)
      else if v < TWO_32 then [0xce] + Store(v, 4)
      else [0xcf] + Store(v, 8)
    else
      if v >= -0x80 then [0xd0] + Store(Unsigned(v, 1), 1)
      else if v >= -0x8000 then [0xd1] + Store(Unsigned(v, 2), 2)
      else if v >= -0x8000_0000 then [0xd2] + Store(Unsigned(v, 4), 4)
      else [0xd3] + Store(Unsigned(v, 8), 8)
  }

  /** A length: in the header byte up to limit, else behind the header tag (16 bits) or tag + 1 (32 bits). */
  function EncodeLength(fix: byte, limit: nat, tag: byte, n: nat): (s: seq<byte>)
    requires fix as int + limit < 0x100 && tag < 0xff && n < TWO_32
  {
    PowValues();
    if n <= limit then [fix + n as byte]
    else if n < 0x1_0000 then [tag] + Store(n, 2)
    else [tag + 1] + Store(n, 4)
  }

  function RawHeader(n: nat): seq<byte>
    requires n < TWO_32
  {
    EncodeLength(0xa0, 31, 0xda, n)
  }

  function ContainerHeader(isMap: bool, n: nat): seq<byte>
    requires n < TWO_32
  {
    if isMap then EncodeLength(0x80, 15, 0xde, n) else EncodeLength(0x90, 15, 0xdc, n)
  }

  /** The bytes that msgpack_pack_object appends for o. */
  function Encode(o: Object): (s: seq<byte>)
    requires WellFormed(o)
    decreases o
  {
    match o
    case Nil => [0xc0]
    case Boolean(b) => [if b then 0xc3 else 0xc2]
    case PositiveInteger(u) => EncodeInteger(u)
    case NegativeInteger(i) => EncodeInteger(i)
    case Double(bits) => PowValues(); [0xcb] + Store(bits, 8)
    case Raw(bytes) => RawHeader(|bytes|) + bytes
    case Array(items) => ContainerHeader(false, |items|) + EncodeAll(items)
    case Map(entries) => ContainerHeader(true, |entries|) + EncodeEntries(entries)
  }

  function EncodeAll(xs: seq<Object>): (s: seq<byte>)
    requires forall x | x in xs :: WellFormed(x)
    decreases xs
  {
    if xs == [] then [] else Encode(xs[0]) + EncodeAll(xs[1..])
  }

  function EncodeEntries(es: seq<Entry>): (s: seq<byte>)
    requires forall e | e in es :: WellFormed(e.key) && WellFormed(e.val)
    decreases es
  {
    if es == [] then [] else
      assert es[0] in es;
      EncodeEntry(es[0]) + EncodeEntries(es[1..])
  }

  function EncodeEntry(e: Entry): (s: seq<byte>)
    requires WellFormed(e.key) && WellFormed(e.val)
    decreases e
  {
    Encode(e.key) + Encode(e.val)
  }

  // ----- What the decoder makes of an encoding -----

  function Max(a: nat, b: nat): nat { if a < b then b else a }

  /** Nesting depth: 0 for a scalar, 1 for an empty container. */
  function Depth(o: Object): nat
  {
    match o
    case Array(items) => 1 + DepthAll(items)
    case Map(entries) => 1 + DepthEntries(entries)
    case _ => 0
  }

  function DepthAll(xs: seq<Object>): nat
  {
    if xs == [] then 0 else Max(Depth(xs[0]), DepthAll(xs[1..]))
  }

  function DepthEntries(es: seq<Entry>): nat
  {
    if es == [] then 0 else Max(DepthEntry(es[0]), DepthEntries(es[1..]))
  }

  function DepthEntry(e: Entry): nat
  {
    Max(Depth(e.key), Depth(e.val))
  }

  /** The object with every integer tagged by its sign, as the decoder tags it. */
  function Canon(o: Object): Object
  {
    match o
    case NegativeInteger(i) => Integer(i)
    case Array(items) => Array(CanonAll(items))
    case Map(entries) => Map(CanonEntries(entries))
    case other => other
  }

  function CanonAll(xs: seq<Object>): (ys: seq<Object>)
    ensures |ys| == |xs|
  {
    if xs == [] then [] else [Canon(xs[0])] + CanonAll(xs[1..])
  }

  function CanonEntries(es: seq<Entry>): (fs: seq<Entry>)
    ensures |fs| == |es|
  {
    if es == [] then [] else [CanonEntry(es[0])] + CanonEntries(es[1..])
  }

  function CanonEntry(e: Entry): Entry
  {
    Entry(Canon(e.key), Canon(e.val))
  }

  /** Every integer encoding decodes to the integer it was made from. */
  lemma IntegerRoundTrip(v: int, t: seq<byte>, room: nat)
    requires -TWO_63 <= v < TWO_64
    ensures Decode(EncodeInteger(v) + t, room) == Done(Integer(v), t)
  {
    if -32 <= v < 128 {
      assert (EncodeInteger(v) + t)[1..] == t;
    } else if v >= 0 {
      PositiveRoundTrip(v, t, room);
    } else {
      NegativeRoundTrip(v, t, room);
    }
  }

  lemma PositiveRoundTrip(v: int, t: seq<byte>, room: nat)
    requires 128 <= v < TWO_64
    ensures Decode(EncodeInteger(v) + t, room) == Done(Integer(v), t)
  {
    PowValues();
    var s := EncodeInteger(v);
    assert s == [s[0]] + s[1..];
    FieldDecodes(s[0], s[1..], t, room);
  }

  lemma NegativeRoundTrip(v: int, t: seq<byte>, room: nat)
    requires -TWO_63 <= v < -32
    ensures Decode(EncodeInteger(v) + t, room) == Done(Integer(v), t)
  {
    PowValues();
    var s := EncodeInteger(v);
    assert s == [s[0]] + s[1..];
    FieldDecodes(s[0], s[1..], t, room);
  }

  lemma RawRoundTrip(bytes: seq<byte>, t: seq<byte>, room: nat)
    requires |bytes| < TWO_32
    ensures Decode(RawHeader(|bytes|) + bytes + t, room) == Done(Raw(bytes), t)
  {
    RawHeaderDecodes(|bytes|, bytes + t, room);
    assert RawHeader(|bytes|) + bytes + t == RawHeader(|bytes|) + (bytes + t);
    assert (bytes + t)[..|bytes|] == bytes && (bytes + t)[|bytes|..] == t;
  }

  lemma RawHeaderDecodes(n: nat, t: seq<byte>, room: nat)
    requires n < TWO_32
    ensures Decode(RawHeader(n) + t, room) == DecodeRaw(n, t)
  {
    PowValues();
    var h := RawHeader(n);
    if n < 32 {
      assert (h + t)[1..] == t;
    } else {
      assert h == [h[0]] + h[1..];
      FieldDecodes(h[0], h[1..], t, room);
    }
  }

  lemma ContainerHeaderDecodes(isMap: bool, n: nat, t: seq<byte>, room: nat)
    requires n < TWO_32
    ensures Decode(ContainerHeader(isMap, n) + t, room) == DecodeContainer(isMap, n, t, room)
  {
    PowValues();
    var h := ContainerHeader(isMap, n);
    if n < 16 {
      assert (h + t)[1..] == t;
    } else {
      assert h == [h[0]] + h[1..];
      FieldDecodes(h[0], h[1..], t, room);
    }
  }

  /**
   Unpacking what msgpack_pack_object wrote gives back the object, up to the tag of misfiled integers, and leaves the
   bytes behind it; a container nested deeper than the decoder's stack fails, and nothing else does.
   */
  lemma {:induction false} RoundTrip(o: Object, t: seq<byte>, room: nat)
    requires WellFormed(o)
    ensures Decode(Encode(o) + t, room) == if Depth(o) <= room then Done(Canon(o), t) else Fail
    decreases o
  {
    match o
    case Nil => assert (Encode(o) + t)[1..] == t;
    case Boolean(b) => assert (Encode(o) + t)[1..] == t;
    case PositiveInteger(u) => IntegerRoundTrip(u, t, room);
    case NegativeInteger(i) => IntegerRoundTrip(i, t, room);
    case Double(bits) => DoubleRoundTrip(bits, t, room);
    case Raw(bytes) => RawRoundTrip(bytes, t, room);
    case Array(items) => RoundTripArray(items, t, room);
    case Map(entries) => RoundTripMap(entries, t, room);
  }

  lemma {:induction false} RoundTripArray(items: seq<Object>, t: seq<byte>, room: nat)
    requires WellFormed(Array(items))
    ensures Decode(Encode(Array(items)) + t, room) ==
      if 1 + DepthAll(items) <= room then Done(Array(CanonAll(items)), t) else Fail
    decreases items, 1
  {
    assert Encode(Array(items)) + t == ContainerHeader(false, |items|) + (EncodeAll(items) + t);
    ContainerHeaderDecodes(false, |items|, EncodeAll(items) + t, room);
    if room > 0 { RoundTripAll(items, t, room - 1); }
  }

  lemma {:induction false} RoundTripMap(entries: seq<Entry>, t: seq<byte>, room: nat)
    requires WellFormed(Map(entries))
    ensures Decode(Encode(Map(entries)) + t, room) == MapOutcome(entries, t, room)
    decreases entries, 2
  {
    var s := EncodeEntries(entries) + t;
    calc {
      Decode(Encode(Map(entries)) + t, room);
    ==  { MapBytes(entries, t); }
      Decode(ContainerHeader(true, |entries|) + s, room);
    ==  { ContainerHeaderDecodes(true, |entries|, s, room); }
      DecodeContainer(true, |entries|, s, room);
    ==  { MapContents(entries, t, room); }
      MapOutcome(entries, t, room);
    }
  }

  /** What decoding a map gives, in front of t. */
  function MapOutcome(entries: seq<Entry>, t: seq<byte>, room: nat): Parse<Object>
  {
    if 1 + DepthEntries(entries) <= room then Done(Map(CanonEntries(entries)), t) else Fail
  }

  lemma {:induction false} MapBytes(entries: seq<Entry>, t: seq<byte>)
    requires WellFormed(Map(entries))
    ensures Encode(Map(entries)) + t == ContainerHeader(true, |entries|) + (EncodeEntries(entries) + t)
  {
  }

  lemma {:induction false} MapContents(entries: seq<Entry>, t: seq<byte>, room: nat)
    requires forall e | e in entries :: WellFormed(e.key) && WellFormed(e.val)
    ensures DecodeContainer(true, |entries|, EncodeEntries(entries) + t, room) == MapOutcome(entries, t, room)
    decreases entries, 1
  {
    if room > 0 {
      RoundTripEntries(entries, t, room - 1);
      MapIsBuilt(CanonEntries(entries));
    }
  }

  lemma MapIsBuilt(es: seq<Entry>)
    ensures Build(true, Flatten(es)) == Map(es)
  {
    PairFlatten(es);
  }

  lemma DoubleRoundTrip(bits: nat, t: seq<byte>, room: nat)
    requires bits < TWO_64
    ensures Decode(Encode(Double(bits)) + t, room) == Done(Double(bits), t)
  {
    PowValues();
    FieldDecodes(0xcb, Store(bits, 8), t, room);
  }

  lemma {:induction false} RoundTripAll(xs: seq<Object>, t: seq<byte>, room: nat)
    requires forall x | x in xs :: WellFormed(x)
    ensures DecodeItems(EncodeAll(xs) + t, |xs|, room) == if DepthAll(xs) <= room then Done(CanonAll(xs), t) else Fail
    decreases xs, 0
  {
    if xs == [] {
      assert EncodeAll(xs) + t == t;
    } else {
      assert EncodeAll(xs) + t == Encode(xs[0]) + (EncodeAll(xs[1..]) + t);
      RoundTrip(xs[0], EncodeAll(xs[1..]) + t, room);
      RoundTripAll(xs[1..], t, room);
    }
  }

  lemma {:induction false} RoundTripEntries(es: seq<Entry>, t: seq<byte>, room: nat)
    requires forall e | e in es :: WellFormed(e.key) && WellFormed(e.val)
    ensures DecodeItems(EncodeEntries(es) + t, 2 * |es|, room) == EntriesOutcome(es, t, room)
    decreases es, 0
  {
    if es == [] {
      assert EncodeEntries(es) + t == t;
    } else {
      var rest := es[1..];
      calc {
        DecodeItems(EncodeEntries(es) + t, 2 * |es|, room);
      ==  { RoundTripCons(es, t, room); }
        EntryOutcome(es[0], DecodeItems(EncodeEntries(rest) + t, 2 * |rest|, room), room);
      ==  { RoundTripEntries(rest, t, room); }
        EntryOutcome(es[0], EntriesOutcome(rest, t, room), room);
      ==  { EntriesOutcomeCons(es, t, room); }
        EntriesOutcome(es, t, room);
      }
    }
  }

  /** What decoding the entries gives, in front of t. */
  function EntriesOutcome(es: seq<Entry>, t: seq<byte>, room: nat): Parse<seq<Object>>
  {
    if DepthEntries(es) <= room then Done(Flatten(CanonEntries(es)), t) else Fail
  }

  /** What decoding one entry gives, in front of something that decodes to p. */
  function EntryOutcome(e: Entry, p: Parse<seq<Object>>, room: nat): Parse<seq<Object>>
  {
    if DepthEntry(e) > room then Fail else
    match p
    case Done(xs, rest) => Done([Canon(e.key)] + ([Canon(e.val)] + xs), rest)
    case More => More
    case Fail => Fail
  }

  lemma {:induction false} EntriesOutcomeCons(es: seq<Entry>, t: seq<byte>, room: nat)
    requires es != []
    ensures EntriesOutcome(es, t, room) == EntryOutcome(es[0], EntriesOutcome(es[1..], t, room), room)
  {
    FlattenCons(CanonEntry(es[0]), CanonEntries(es[1..]));
  }

  lemma FlattenCons(e: Entry, es: seq<Entry>)
    ensures Flatten([e] + es) == [e.key] + ([e.val] + Flatten(es))
  {
  }

  lemma {:induction false} RoundTripCons(es: seq<Entry>, t: seq<byte>, room: nat)
    requires es != [] && forall e | e in es :: WellFormed(e.key) && WellFormed(e.val)
    ensures DecodeItems(EncodeEntries(es) + t, 2 * |es|, room)
            == EntryOutcome(es[0], DecodeItems(EncodeEntries(es[1..]) + t, 2 * |es[1..]|, room), room)
    decreases es[0], 1
  {
    EncodedCons(es, t);
    RoundTripFirst(es, EncodeEntries(es[1..]) + t, 2 * |es[1..]|, room);
    assert 2 * |es| == 2 * |es[1..]| + 2;
  }

  lemma {:induction false} RoundTripFirst(es: seq<Entry>, t: seq<byte>, n: nat, room: nat)
    requires es != [] && forall e | e in es :: WellFormed(e.key) && WellFormed(e.val)
    ensures DecodeItems(EncodeEntry(es[0]) + t, n + 2, room) == EntryOutcome(es[0], DecodeItems(t, n, room), room)
    decreases es[0], 0
  {
    assert es[0] in es;
    var k, x := es[0].key, es[0].val;
    assert EncodeEntry(es[0]) + t == Encode(k) + (Encode(x) + t);
    RoundTrip(k, Encode(x) + t, room);
    RoundTrip(x, t, room);
  }

  lemma {:induction false} EncodedCons(es: seq<Entry>, t: seq<byte>)
    requires es != [] && forall e | e in es :: WellFormed(e.key) && WellFormed(e.val)
    ensures EncodeEntries(es) + t == EncodeEntry(es[0]) + (EncodeEntries(es[1..]) + t)
  {
  }

  // ----- The packer, which appends to a buffer -----

  class Packer {
    var buffer: seq<byte>

    constructor ()
      ensures buffer == []
    {
      buffer := [];
    }

    method Append(bytes: seq<byte>)
      modifies this
      ensures buffer == old(buffer) + bytes
    {
      buffer := buffer + bytes;
    }

    method PackUint8(d: nat)
      requires d < 0x100
      modifies this
      ensures buffer == old(buffer) + EncodeInteger(d)
    {
      if d < 0x80 {
        Append([d as byte]);
      } else {
        Append([0xcc, d as byte]);
        OneByte(d);
      }
    }

    method PackUint16(d: nat)
      requires d < 0x1_0000
      modifies this
      ensures buffer == old(buffer) + EncodeInteger(d)
    {
      PowValues();
      if d < 0x80 {
        Append([d as byte]);
      } else if d < 0x100 {
        Append([0xcc, d as byte]);
        OneByte(d);
      } else {
        Append([0xcd] + Store(d, 2));
      }
    }

    method PackUint32(d: nat)
      requires d < TWO_32
      modifies this
      ensures buffer == old(buffer) + EncodeInteger(d)
    {
      PowValues();
      if d < 0x100 {
        if d < 0x80 {
          Append([d as byte]);
        } else {
          Append([0xcc, d as byte]);
          OneByte(d);
        }
      } else {
        if d < 0x1_0000 {
          Append([0xcd] + Store(d, 2));
        } else {
          Append([0xce] + Store(d, 4));
        }
      }
    }

    method PackUint64(d: nat)
      requires d < TWO_64
      modifies this
      ensures buffer == old(buffer) + EncodeInteger(d)
    {
      PowValues();
      if d < 0x100 {
        if d < 0x80 {
          Append([d as byte]);
        } else {
          Append([0xcc, d as byte]);
          OneByte(d);
        }
      } else {
        if d < 0x1_0000 {
          Append([0xcd] + Store(d, 2));
        } else if d < TWO_32 {
          Append([0xce] + Store(d, 4));
        } else {
          Append([0xcf] + Store(d, 8));
        }
      }
    }

    method PackInt8(d: int)
      requires -0x80 <= d < 0x80
      modifies this
      ensures buffer == old(buffer) + EncodeInteger(d)
    {
      if d < -0x20 {
        Append([0xd0, (d % 256) as byte]);
        OneSignedByte(d);
      } else {
        Append([(d % 256) as byte]);
      }
    }

    method PackInt16(d: int)
      requires -0x8000 <= d < 0x8000
      modifies this
      ensures buffer == old(buffer) + EncodeInteger(d)
    {
      PowValues();
      if d < -0x20 {
        if d < -0x80 {
          Append([0xd1] + Store(Unsigned(d, 2), 2));
        } else {
          Append([0xd0, (d % 256) as byte]);
          OneSignedByte(d);
        }
      } else if d < 0x80 {
        Append([(d % 256) as byte]);
      } else {
        if d < 0x100 {
          Append([0xcc, d as byte]);
          OneByte(d);
        } else {
          Append([0xcd] + Store(d, 2));
        }
      }
    }

    method PackInt32(d: int)
      requires -0x8000_0000 <= d < 0x8000_0000
      modifies this
      ensures buffer == old(buffer) + EncodeInteger(d)
    {
      PowValues();
      if d < -0x20 {
        if d < -0x8000 {
          Append([0xd2] + Store(Unsigned(d, 4), 4));
        } else if d < -0x80 {
          Append([0xd1] + Store(Unsigned(d, 2), 2));
        } else {
          Append([0xd0, (d % 256) as byte]);
          OneSignedByte(d);
        }
      } else if d < 0x80 {
        Append([(d % 256) as byte]);
      } else {
        if d < 0x100 {
          Append([0xcc, d as byte]);
          OneByte(d);
        } else if d < 0x1_0000 {
          Append([0xcd] + Store(d, 2));
        } else {
          Append([0xce] + Store(d, 4));
        }
      }
    }

    method PackInt64(d: int)
      requires -TWO_63 <= d < TWO_63
      modifies this
      ensures buffer == old(buffer) + EncodeInteger(d)
    {
      PowValues();
      if d < -0x20 {
        if d < -0x8000 {
          if d < -0x8000_0000 {
            Append([0xd3] + Store(Unsigned(d, 8), 8));
          } else {
            Append([0xd2] + Store(Unsigned(d, 4), 4));
          }
        } else {
          if d < -0x80 {
            Append([0xd1] + Store(Unsigned(d, 2), 2));
          } else {
            Append([0xd0, (d % 256) as byte]);
            OneSignedByte(d);
          }
        }
      } else if d < 0x80 {
        Append([(d % 256) as byte]);
      } else {
        if d < 0x1_0000 {
          if d < 0x100 {
            Append([0xcc, d as byte]);
            OneByte(d);
          } else {
            Append([0xcd] + Store(d, 2));
          }
        } else {
          if d < TWO_32 {
            Append([0xce] + Store(d, 4));
          } else {
            Append([0xcf] + Store(d, 8));
          }
        }
      }
    }

    method PackDouble(bits: nat)
      requires bits < TWO_64
      modifies this
      ensures buffer == old(buffer) + Encode(Double(bits))
    {
      PowValues();
      Append([0xcb] + Store(bits, 8));
    }

    method PackArray(n: nat)
      requires n < TWO_32
      modifies this
      ensures buffer == old(buffer) + ContainerHeader(false, n)
    {
      PowValues();
      if n < 16 {
        Append([0x90 + n as byte]);
      } else if n < 0x1_0000 {
        Append([0xdc] + Store(n, 2));
      } else {
        Append([0xdd] + Store(n, 4));
      }
    }

    method PackMap(n: nat)
      requires n < TWO_32
      modifies this
      ensures buffer == old(buffer) + ContainerHeader(true, n)
    {
      PowValues();
      if n < 16 {
        Append([0x80 + n as byte]);
      } else if n < 0x1_0000 {
        Append([0xde] + Store(n, 2));
      } else {
        Append([0xdf] + Store(n, 4));
      }
    }

    /** The length is a size_t; only its low 32 bits reach the wire. */
    method PackRaw(l: nat)
      requires l < TWO_64
      modifies this
      ensures l < TWO_32 ==> buffer == old(buffer) + RawHeader(l)
      ensures l >= TWO_32 ==> (PowValues(); buffer == old(buffer) + ([0xdb] + Store(l % TWO_32, 4)))
    {
      PowValues();
      if l < 32 {
        Append([0xa0 + l as byte]);
      } else if l < 0x1_0000 {
        Append([0xda] + Store(l, 2));
      } else {
        Append([0xdb] + Store(l % TWO_32, 4));
      }
    }

    /** msgpack_pack_object: header, then the children in order. */
    method PackObject(o: Object)
      requires WellFormed(o)
      modifies this
      ensures buffer == old(buffer) + Encode(o)
      decreases o
    {
      match o
      case Nil => Append([0xc0]);
      case Boolean(b) => if b { Append([0xc3]); } else { Append([0xc2]); }
      case PositiveInteger(u) => PackUint64(u);
      case NegativeInteger(i) => PackInt64(i);
      case Double(bits) => PackDouble(bits);
      case Raw(bytes) =>
        PackRaw(|bytes|);
        Append(bytes);
      case Array(items) => PackItems(items);
      case Map(entries) => PackEntries(entries);
    }

    method PackItems(items: seq<Object>)
      requires WellFormed(Array(items))
      modifies this
      ensures buffer == old(buffer) + Encode(Array(items))
      decreases items
    {
      ghost var rest := EncodeAll(items);
      ghost var goal := old(buffer) + ContainerHeader(false, |items|) + rest;
      assert goal == old(buffer) + Encode(Array(items));
      PackArray(|items|);
      var i := 0;
      while i < |items|
        invariant 0 <= i <= |items|
        invariant rest == EncodeAll(items[i..])
        invariant buffer + rest == goal
      {
        EncodeAllStep(items, i);
        rest := EncodeAll(items[i + 1..]);
        Associate(buffer, Encode(items[i]), rest);
        PackObject(items[i]);
        i := i + 1;
      }
    }

    method PackEntries(entries: seq<Entry>)
      requires WellFormed(Map(entries))
      modifies this
      ensures buffer == old(buffer) + Encode(Map(entries))
      decreases entries
    {
      ghost var rest := EncodeEntries(entries);
      ghost var goal := old(buffer) + ContainerHeader(true, |entries|) + rest;
      assert goal == old(buffer) + Encode(Map(entries));
      PackMap(|entries|);
      var i := 0;
      while i < |entries|
        invariant 0 <= i <= |entries|
        invariant rest == EncodeEntries(entries[i..])
        invariant buffer + rest == goal
      {
        EncodeEntriesStep(entries, i);
        rest := EncodeEntries(entries[i + 1..]);
        Associate(buffer, EncodeEntry(entries[i]), rest);
        PackEntry(entries[i]);
        i := i + 1;
      }
    }

    method PackEntry(e: Entry)
      requires WellFormed(e.key) && WellFormed(e.val)
      modifies this
      ensures buffer == old(buffer) + EncodeEntry(e)
      decreases e
    {
      PackObject(e.key);
      PackObject(e.val);
    }
  }

  lemma EncodeAllStep(xs: seq<Object>, i: nat)
    requires i < |xs| && forall x | x in xs :: WellFormed(x)
    ensures EncodeAll(xs[i..]) == Encode(xs[i]) + EncodeAll(xs[i + 1..])
  {
    assert xs[i..][1..] == xs[i + 1..];
  }

  lemma EncodeEntriesStep(es: seq<Entry>, i: nat)
    requires i < |es| && forall e | e in es :: WellFormed(e.key) && WellFormed(e.val)
    ensures EncodeEntries(es[i..]) == EncodeEntry(es[i]) + EncodeEntries(es[i + 1..])
  {
    assert es[i..][1..] == es[i + 1..];
  }

  lemma Associate(a: seq<byte>, b: seq<byte>, c: seq<byte>)
    ensures a + (b + c) == a + b + c
  {
  }

  lemma OneByte(d: nat)
    requires d < 0x100
    ensures Pow256(1) == 0x100 && Store(d, 1) == [d as byte]
  {
    PowValues();
    assert Store(d / 256, 0) == [];
  }

  lemma OneSignedByte(d: int)
    requires -0x80 <= d < 0
    ensures Pow256(1) == 0x100 && Store(Unsigned(d, 1), 1) == [(d % 256) as byte]
  {
    PowValues();
    OneByte(d + 0x100);
  }
}
