/**
 The MessagePack format byte by byte: what each header and each byte of a field stands for, and which bytes the encoder
 writes.
 */
module WireFormat {
  import opened Bytes
  import opened Objects
  import opened Format
  import opened Packing

  // ----- Fields by their bytes -----

  function Two(a: byte, b: byte): nat
  {
    a as int * 0x100 + b as int
  }

  function Four(a: byte, b: byte, c: byte, d: byte): nat
  {
    a as int * 0x100_0000 + b as int * 0x1_0000 + c as int * 0x100 + d as int
  }

  function Eight(s: seq<byte>): nat
    requires |s| == 8
  {
    Four(s[0], s[1], s[2], s[3]) * TWO_32 + Four(s[4], s[5], s[6], s[7])
  }

  lemma LoadEight(s: seq<byte>)
    requires |s| == 8
    ensures Load(s) == Eight(s)
  {
    PowValues();
    LoadFour(s[0], s[1], s[2], s[3]);
    LoadFour(s[4], s[5], s[6], s[7]);
    LoadConcat(s[..4], s[4..]);
    assert s[..4] == [s[0], s[1], s[2], s[3]] && s[4..] == [s[4], s[5], s[6], s[7]] && s[..4] + s[4..] == s;
  }

  // ----- What the decoder reads -----

  /** The headers without a field. */
  lemma HeaderByte(h: byte, t: seq<byte>, room: nat)
    ensures h < 0x80 ==> Decode([h] + t, room) == Done(PositiveInteger(h as int), t)
    ensures h >= 0xe0 ==> Decode([h] + t, room) == Done(NegativeInteger(h as int - 256), t)
    ensures 0x80 <= h < 0x90 ==> Decode([h] + t, room) == DecodeContainer(true, h as int - 0x80, t, room)
    ensures 0x90 <= h < 0xa0 ==> Decode([h] + t, room) == DecodeContainer(false, h as int - 0x90, t, room)
    ensures 0xa0 <= h < 0xc0 ==> Decode([h] + t, room) == DecodeRaw(h as int - 0xa0, t)
    ensures Decode([0xc0] + t, room) == Done(Nil, t)
    ensures Decode([0xc2] + t, room) == Done(Boolean(false), t) && Decode([0xc3] + t, room) == Done(Boolean(true), t)
  {
    assert ([h] + t)[1..] == t;
    assert ([0xc0] + t)[1..] == t && ([0xc2] + t)[1..] == t && ([0xc3] + t)[1..] == t;
  }

  /** One byte: its value, or in two's complement. */
  lemma OneByteField(a: byte, t: seq<byte>, room: nat)
    ensures Decode([0xcc] + [a] + t, room) == Done(PositiveInteger(a as int), t)
    ensures Decode([0xd0] + [a] + t, room) == Done(Integer(if a < 0x80 then a as int else a as int - 0x100), t)
  {
    PowValues();
    FieldDecodes(0xcc, [a], t, room);
    FieldDecodes(0xd0, [a], t, room);
  }

  /** Two bytes, the more significant one first. */
  lemma TwoByteField(a: byte, b: byte, t: seq<byte>, room: nat)
    ensures Decode([0xcd] + [a, b] + t, room) == Done(PositiveInteger(Two(a, b)), t)
    ensures Decode([0xd1] + [a, b] + t, room) == Done(Integer(if a < 0x80 then Two(a, b) else Two(a, b) - 0x1_0000), t)
    ensures Decode([0xda] + [a, b] + t, room) == DecodeRaw(Two(a, b), t)
    ensures Decode([0xdc] + [a, b] + t, room) == DecodeContainer(false, Two(a, b), t, room)
    ensures Decode([0xde] + [a, b] + t, room) == DecodeContainer(true, Two(a, b), t, room)
  {
    PowValues();
    LoadTwo(a, b);
    FieldDecodes(0xcd, [a, b], t, room);
    FieldDecodes(0xd1, [a, b], t, room);
    FieldDecodes(0xda, [a, b], t, room);
    FieldDecodes(0xdc, [a, b], t, room);
    FieldDecodes(0xde, [a, b], t, room);
  }

  lemma FourByteField(a: byte, b: byte, c: byte, d: byte, t: seq<byte>, room: nat)
    ensures Decode([0xca] + [a, b, c, d] + t, room) == Done(Double(Widen(Four(a, b, c, d))), t)
    ensures Decode([0xce] + [a, b, c, d] + t, room) == Done(PositiveInteger(Four(a, b, c, d)), t)
    ensures Decode([0xd2] + [a, b, c, d] + t, room)
            == Done(Integer(if a < 0x80 then Four(a, b, c, d) else Four(a, b, c, d) - TWO_32), t)
  {
    PowValues();
    LoadFour(a, b, c, d);
    FieldDecodes(0xca, [a, b, c, d], t, room);
    FieldDecodes(0xce, [a, b, c, d], t, room);
    FieldDecodes(0xd2, [a, b, c, d], t, room);
  }

  lemma FourByteLength(a: byte, b: byte, c: byte, d: byte, t: seq<byte>, room: nat)
    ensures Decode([0xdb] + [a, b, c, d] + t, room) == DecodeRaw(Four(a, b, c, d), t)
    ensures Decode([0xdd] + [a, b, c, d] + t, room) == DecodeContainer(false, Four(a, b, c, d), t, room)
    ensures Decode([0xdf] + [a, b, c, d] + t, room) == DecodeContainer(true, Four(a, b, c, d), t, room)
  {
    PowValues();
    LoadFour(a, b, c, d);
    FieldDecodes(0xdb, [a, b, c, d], t, room);
    FieldDecodes(0xdd, [a, b, c, d], t, room);
    FieldDecodes(0xdf, [a, b, c, d], t, room);
  }

  lemma EightByteField(s: seq<byte>, t: seq<byte>, room: nat)
    requires |s| == 8
    ensures Decode([0xcb] + s + t, room) == Done(Double(Eight(s)), t)
    ensures Decode([0xcf] + s + t, room) == Done(PositiveInteger(Eight(s)), t)
    ensures Decode([0xd3] + s + t, room) == Done(Integer(if s[0] < 0x80 then Eight(s) else Eight(s) - TWO_64), t)
  {
    PowValues();
    LoadEight(s);
    FieldDecodes(0xcb, s, t, room);
    FieldDecodes(0xcf, s, t, room);
    FieldDecodes(0xd3, s, t, room);
  }

  // ----- What the encoder writes -----

  lemma StoreOne(n: nat)
    requires n < 0x100
    ensures Store(n, 1) == [n as byte]
  {
    PowValues();
    StoreLoad([n as byte]);
  }

  /** The more significant byte first. */
  function TwoBytes(n: nat): (s: seq<byte>)
    requires n < 0x1_0000
  {
    [(n / 0x100) as byte, (n % 0x100) as byte]
  }

  function FourBytes(n: nat): (s: seq<byte>)
    requires n < TWO_32
  {
    TwoBytes(n / 0x1_0000) + TwoBytes(n % 0x1_0000)
  }

  function EightBytes(n: nat): (s: seq<byte>)
    requires n < TWO_64
  {
    FourBytes(n / TWO_32) + FourBytes(n % TWO_32)
  }

  lemma StoreTwo(n: nat)
    requires n < 0x1_0000
    ensures Pow256(2) == 0x1_0000 && Store(n, 2) == TwoBytes(n)
  {
    PowValues();
    LoadTwo((n / 0x100) as byte, (n % 0x100) as byte);
    StoreLoad(TwoBytes(n));
  }

  lemma LoadTwoBytes(n: nat)
    requires n < 0x1_0000
    ensures Load(TwoBytes(n)) == n
  {
    LoadTwo((n / 0x100) as byte, (n % 0x100) as byte);
  }

  lemma LoadFourBytes(n: nat)
    requires n < TWO_32
    ensures Load(FourBytes(n)) == n
  {
    PowValues();
    LoadTwoBytes(n / 0x1_0000);
    LoadTwoBytes(n % 0x1_0000);
    LoadConcat(TwoBytes(n / 0x1_0000), TwoBytes(n % 0x1_0000));
  }

  lemma StoreFour(n: nat)
    requires n < TWO_32
    ensures Pow256(4) == TWO_32 && Store(n, 4) == FourBytes(n)
  {
    PowValues();
    LoadFourBytes(n);
    StoreLoad(FourBytes(n));
  }

  lemma StoreEight(n: nat)
    requires n < TWO_64
    ensures Pow256(8) == TWO_64 && Store(n, 8) == EightBytes(n)
  {
    PowValues();
    LoadFourBytes(n / TWO_32);
    LoadFourBytes(n % TWO_32);
    LoadConcat(FourBytes(n / TWO_32), FourBytes(n % TWO_32));
    StoreLoad(EightBytes(n));
  }

  /** The bytes of every integer that is not negative. */
  lemma PositiveBytes(v: nat)
    requires v < TWO_64
    ensures v < 0x80 ==> EncodeInteger(v) == [v as byte]
    ensures 0x80 <= v < 0x100 ==> EncodeInteger(v) == [0xcc, v as byte]
    ensures 0x100 <= v < 0x1_0000 ==> EncodeInteger(v) == [0xcd] + TwoBytes(v)
    ensures 0x1_0000 <= v < TWO_32 ==> EncodeInteger(v) == [0xce] + FourBytes(v)
    ensures TWO_32 <= v ==> EncodeInteger(v) == [0xcf] + EightBytes(v)
  {
    PowValues();
    if 0x80 <= v < 0x100 {
      StoreOne(v);
    } else if 0x100 <= v < 0x1_0000 {
      StoreTwo(v);
    } else if 0x1_0000 <= v < TWO_32 {
      StoreFour(v);
    } else if v >= TWO_32 {
      StoreEight(v);
    }
  }

  /** The bytes of every negative integer: two's complement in the shortest width. */
  lemma NegativeBytes(v: int)
    requires -TWO_63 <= v < 0
    ensures -32 <= v ==> EncodeInteger(v) == [(v + 0x100) as byte]
    ensures -0x80 <= v < -32 ==> EncodeInteger(v) == [0xd0, (v + 0x100) as byte]
    ensures -0x8000 <= v < -0x80 ==> EncodeInteger(v) == [0xd1] + TwoBytes(v + 0x1_0000)
    ensures -0x8000_0000 <= v < -0x8000 ==> EncodeInteger(v) == [0xd2] + FourBytes(v + TWO_32)
    ensures v < -0x8000_0000 ==> EncodeInteger(v) == [0xd3] + EightBytes(v + TWO_64)
  {
    PowValues();
    if -0x80 <= v < -32 {
      StoreOne(v + 0x100);
    } else if -0x8000 <= v < -0x80 {
      StoreTwo(v + 0x1_0000);
    } else if -0x8000_0000 <= v < -0x8000 {
      StoreFour(v + TWO_32);
    } else if v < -0x8000_0000 {
      StoreEight(v + TWO_64);
    }
  }

  /** The bytes of every header with a length: fix up to limit, tag with two bytes, and tag + 1 with four. */
  lemma LengthBytes(fix: byte, limit: nat, tag: byte, n: nat)
    requires fix as int + limit < 0x100 && limit < 0x1_0000 && tag < 0xff && n < TWO_32
    ensures n <= limit ==> EncodeLength(fix, limit, tag, n) == [fix + n as byte]
    ensures limit < n < 0x1_0000 ==> EncodeLength(fix, limit, tag, n) == [tag] + TwoBytes(n)
    ensures 0x1_0000 <= n ==> EncodeLength(fix, limit, tag, n) == [tag + 1] + FourBytes(n)
  {
    PowValues();
    if n >= 0x1_0000 {
      StoreFour(n);
    } else if n > limit {
      StoreTwo(n);
    }
  }

  // ----- The order of children -----

  /** In a map the key stands before its value. */
  lemma KeyComesFirst(k: Object, x: Object, t: seq<byte>, room: nat)
    requires WellFormed(k) && WellFormed(x) && Depth(k) < room && Depth(x) < room
    ensures Decode([0x81] + (Encode(k) + (Encode(x) + t)), room) == Done(Map([Entry(Canon(k), Canon(x))]), t)
  {
    var s := Encode(k) + (Encode(x) + t);
    TwoRoundTrips(k, x, t, room - 1);
    OnePair(s, t, Canon(k), Canon(x), room);
    TwoChildren(s, room);
  }

  lemma TwoChildren(s: seq<byte>, room: nat)
    ensures Decode([0x81] + s, room) == DecodeContainer(true, 1, s, room)
    ensures Decode([0x92] + s, room) == DecodeContainer(false, 2, s, room)
  {
    HeaderByte(0x81, s, room);
    HeaderByte(0x92, s, room);
  }

  lemma OnePair(s: seq<byte>, t: seq<byte>, k: Object, x: Object, room: nat)
    requires room > 0 && DecodeItems(s, 2, room - 1) == Done([k, x], t)
    ensures DecodeContainer(true, 1, s, room) == Done(Map([Entry(k, x)]), t)
  {
    assert Pair([k, x]) == [Entry(k, x)];
  }

  lemma ListOfTwo(s: seq<byte>, t: seq<byte>, x: Object, y: Object, room: nat)
    requires room > 0 && DecodeItems(s, 2, room - 1) == Done([x, y], t)
    ensures DecodeContainer(false, 2, s, room) == Done(Array([x, y]), t)
  {
  }

  /** Items stand in their order. */
  lemma ItemsInOrder(x: Object, y: Object, t: seq<byte>, room: nat)
    requires WellFormed(x) && WellFormed(y) && Depth(x) < room && Depth(y) < room
    ensures Decode([0x92] + (Encode(x) + (Encode(y) + t)), room) == Done(Array([Canon(x), Canon(y)]), t)
  {
    var s := Encode(x) + (Encode(y) + t);
    TwoRoundTrips(x, y, t, room - 1);
    ListOfTwo(s, t, Canon(x), Canon(y), room);
    TwoChildren(s, room);
  }

  /** Two objects in front of t, both within the room. */
  lemma TwoRoundTrips(x: Object, y: Object, t: seq<byte>, room: nat)
    requires WellFormed(x) && WellFormed(y) && Depth(x) <= room && Depth(y) <= room
    ensures DecodeItems(Encode(x) + (Encode(y) + t), 2, room) == Done([Canon(x), Canon(y)], t)
  {
    RoundTrip(x, Encode(y) + t, room);
    RoundTrip(y, t, room);
    TwoItems(Encode(x) + (Encode(y) + t), t, Canon(x), Canon(y), Encode(y) + t, room);
  }

  lemma TwoItems(s: seq<byte>, t: seq<byte>, x: Object, y: Object, rest: seq<byte>, room: nat)
    requires Decode(s, room) == Done(x, rest) && Decode(rest, room) == Done(y, t)
    ensures DecodeItems(s, 2, room) == Done([x, y], t)
  {
    assert DecodeItems(t, 0, room) == Done([], t);
    assert [y] + [] == [y];
    assert [x] + [y] == [x, y];
  }
}
