/**
 The MessagePack format as a recursive grammar: what a byte string means, with no stack and no resumption.
 It is the reference that the stack machine of unpack_template.h is proved against.
 */
module Format {
  import opened Bytes
  import opened Objects
  import opened Arithmetic

  /** Nesting that the decoder's embedded stack allows (MSGPACK_EMBED_STACK_SIZE). */
  const MAX_NESTING: nat := 32

  datatype Parse<+T> =
    | Done(value: T, rest: seq<byte>)  // a value, and the bytes after it
    | More                             // the input is a proper prefix
    | Fail                             // no continuation can make it valid

  /** Number of bytes of the fixed-width field behind a header byte from 0xc0 to 0xdf; 0 when it has none. */
  function FieldWidth(h: byte): nat
  {
    match h
    case 0xca => 4  // float
    case 0xcb => 8  // double
    case 0xcc => 1 case 0xcd => 2 case 0xce => 4 case 0xcf => 8  // unsigned
    case 0xd0 => 1 case 0xd1 => 2 case 0xd2 => 4 case 0xd3 => 8  // signed
    case 0xda => 2 case 0xdb => 4  // raw
    case 0xdc => 2 case 0xdd => 4  // array
    case 0xde => 2 case 0xdf => 4  // map
    case _ => 0
  }

  /** An integer as the decoder tags it. */
  function Integer(v: int): Object
  {
    if v >= 0 then PositiveInteger(v) else NegativeInteger(v)
  }

  lemma MulTwice(m: nat, p: nat)
    ensures 2 * m * p == m * (2 * p)
  {
  }

  /**
   Normalises a subnormal float fraction m at exponent e: the fraction r.0 under an implicit leading bit, at exponent
   r.1, has the same value. Since m has at least j + 1 bits, at most 23 - j shifts are needed.
   */
  function Normalize(m: nat, e: int, ghost j: nat): (r: (nat, int))
    requires j <= 23 && Pow2(j) <= m < 0x100_0000
    ensures r.0 < 0x80_0000 && e - (23 - j) <= r.1 <= e
    ensures r.0 + 0x80_0000 == m * Pow2(e - r.1)
    decreases 23 - j
  {
    Pow2Values();
    if m >= 0x80_0000 then (m - 0x80_0000, e) else
      var r := Normalize(2 * m, e - 1, j + 1);
      MulTwice(m, Pow2(e - 1 - r.1));
      r
  }

  /** The 64-bit pattern of the double equal to the float with the given 32-bit pattern. */
  function Widen(bits: nat): (r: nat)
    requires bits < TWO_32
    ensures r < TWO_64
  {
    var sign := bits / 0x8000_0000;
    var e := bits / 0x80_0000 % 256;
    var m := bits % 0x80_0000;
    var (frac, exp) :=
      if e == 255 then (m, 2047)
      else if e != 0 then (m, e + 896)
      else if m == 0 then (0, 0)
      else Normalize(m, 897, 0);
    sign * TWO_63 + exp * 0x10_0000_0000_0000 + frac * 0x2000_0000
  }

  /** The object that a header with a fixed-width scalar field of value n stands for. */
  function Scalar(h: byte, n: nat): (o: Object)
    requires 0xca <= h <= 0xd3 && n < Pow256(FieldWidth(h))
  {
    PowValues();
    if h == 0xca then Double(Widen(n))
    else if h == 0xcb then Double(n)
    else if h <= 0xcf then PositiveInteger(n)
    else Integer(Signed(n, FieldWidth(h)))
  }

  /**
   Decodes one object from the front of s. room is the number of containers that may still be opened.
   */
  function Decode(s: seq<byte>, room: nat): (r: Parse<Object>)
    ensures r.Done? ==> |r.rest| < |s|
    decreases |s|, 0
  {
    if s == [] then More else
    var h := s[0];
    var body := s[1..];
    if h <= 0x7f then Done(PositiveInteger(h as int), body)
    else if h <= 0x8f then DecodeContainer(true, h as int - 0x80, body, room)
    else if h <= 0x9f then DecodeContainer(false, h as int - 0x90, body, room)
    else if h <= 0xbf then DecodeRaw(h as int - 0xa0, body)
    else if h == 0xc0 then Done(Nil, body)
    else if h == 0xc2 then Done(Boolean(false), body)
    else if h == 0xc3 then Done(Boolean(true), body)
    else if h >= 0xe0 then Done(NegativeInteger(h as int - 0x100), body)
    else
      var w := FieldWidth(h);
      if w == 0 then Fail
      else if |body| < w then More
      else
        var n := Load(body[..w]);
        var after := body[w..];
        if h <= 0xd3 then Done(Scalar(h, n), after)
        else if h <= 0xdb then DecodeRaw(n, after)
        else DecodeContainer(h >= 0xde, n, after, room)
  }

  function DecodeRaw(n: nat, s: seq<byte>): (r: Parse<Object>)
    ensures r.Done? ==> |r.rest| <= |s|
  {
    if |s| < n then More else Done(Raw(s[..n]), s[n..])
  }

  /** The children of a container of n items (or n key-value pairs), once its header is read. */
  function DecodeContainer(isMap: bool, n: nat, s: seq<byte>, room: nat): (r: Parse<Object>)
    ensures r.Done? ==> |r.rest| <= |s|
    decreases |s|, 2
  {
    if room == 0 then Fail else
    match DecodeItems(s, if isMap then 2 * n else n, room - 1)
    case Done(xs, rest) => Done(Build(isMap, xs), rest)
    case More => More
    case Fail => Fail
  }

  /** n objects one after the other. */
  function DecodeItems(s: seq<byte>, n: nat, room: nat): (r: Parse<seq<Object>>)
    ensures r.Done? ==> |r.rest| <= |s| && |r.value| == n
    decreases |s|, 1
  {
    if n == 0 then Done([], s) else
    match Decode(s, room)
    case More => More
    case Fail => Fail
    case Done(x, rest) =>
      match DecodeItems(rest, n - 1, room)
      case More => More
      case Fail => Fail
      case Done(xs, rest') => Done([x] + xs, rest')
  }

  /** What a header with a fixed-width field of value n leads to. */
  function FieldOutcome(h: byte, n: nat, t: seq<byte>, room: nat): Parse<Object>
    requires FieldWidth(h) > 0 && n < Pow256(FieldWidth(h))
  {
    if h <= 0xd3 then Done(Scalar(h, n), t)
    else if h <= 0xdb then DecodeRaw(n, t)
    else DecodeContainer(h >= 0xde, n, t, room)
  }

  lemma FieldDecodes(h: byte, field: seq<byte>, t: seq<byte>, room: nat)
    requires FieldWidth(h) == |field| > 0
    ensures Decode([h] + field + t, room) == FieldOutcome(h, Load(field), t, room)
  {
    var s := [h] + field + t;
    assert s[1..] == field + t;
    assert (field + t)[..|field|] == field && (field + t)[|field|..] == t;
  }

  // ----- A decision, once made, does not depend on the bytes that follow -----

  /** What r becomes when t is appended to the input and the input was not just a prefix. */
  function Extend<T>(r: Parse<T>, t: seq<byte>): Parse<T>
  {
    match r
    case Done(v, rest) => Done(v, rest + t)
    case other => other
  }

  lemma {:induction false} DecodeExtend(s: seq<byte>, room: nat, t: seq<byte>)
    ensures !Decode(s, room).More? ==> Decode(s + t, room) == Extend(Decode(s, room), t)
    decreases |s|, 0
  {
    if s != [] {
      var h, body := s[0], s[1..];
      assert (s + t)[1..] == body + t;
      if 0x80 <= h <= 0x9f {
        DecodeContainerExtend(h <= 0x8f, if h <= 0x8f then h as int - 0x80 else h as int - 0x90, body, room, t);
      } else if 0xa0 <= h <= 0xbf {
        DecodeRawExtend(h as int - 0xa0, body, t);
      } else if FieldWidth(h) != 0 && |body| >= FieldWidth(h) {
        var w := FieldWidth(h);
        assert (body + t)[..w] == body[..w] && (body + t)[w..] == body[w..] + t;
        if 0xda <= h <= 0xdb {
          DecodeRawExtend(Load(body[..w]), body[w..], t);
        } else if h >= 0xdc {
          DecodeContainerExtend(h >= 0xde, Load(body[..w]), body[w..], room, t);
        }
      }
    }
  }

  lemma DecodeRawExtend(n: nat, s: seq<byte>, t: seq<byte>)
    ensures !DecodeRaw(n, s).More? ==> DecodeRaw(n, s + t) == Extend(DecodeRaw(n, s), t)
  {
    if |s| >= n {
      assert (s + t)[..n] == s[..n] && (s + t)[n..] == s[n..] + t;
    }
  }

  lemma {:induction false} DecodeContainerExtend(isMap: bool, n: nat, s: seq<byte>, room: nat, t: seq<byte>)
    ensures !DecodeContainer(isMap, n, s, room).More? ==>
      DecodeContainer(isMap, n, s + t, room) == Extend(DecodeContainer(isMap, n, s, room), t)
    decreases |s|, 2
  {
    if room > 0 {
      DecodeItemsExtend(s, if isMap then 2 * n else n, room - 1, t);
    }
  }

  lemma {:induction false} DecodeItemsExtend(s: seq<byte>, n: nat, room: nat, t: seq<byte>)
    ensures !DecodeItems(s, n, room).More? ==> DecodeItems(s + t, n, room) == Extend(DecodeItems(s, n, room), t)
    decreases |s|, 1
  {
    if n > 0 {
      DecodeExtend(s, room, t);
      var r := Decode(s, room);
      if r.Done? {
        DecodeItemsExtend(r.rest, n - 1, room, t);
      }
    }
  }

  /** Of two encodings of objects, neither is a proper prefix of the other: every proper prefix asks for more. */
  lemma ProperPrefixNeedsMore(s: seq<byte>, room: nat, k: nat)
    requires Decode(s, room).Done? && Decode(s, room).rest == []
    requires k < |s|
    ensures Decode(s[..k], room) == More
  {
    DecodeExtend(s[..k], room, s[k..]);
    assert s[..k] + s[k..] == s;
  }

  predicate IsSuffix(r: seq<byte>, s: seq<byte>)
  {
    |r| <= |s| && s[|s| - |r|..] == r
  }

  lemma DropIsSuffix(s: seq<byte>, w: nat)
    requires w <= |s|
    ensures IsSuffix(s[w..], s)
  {
  }

  lemma SuffixOfDrop(s: seq<byte>, w: nat, r: seq<byte>)
    requires w <= |s| && IsSuffix(r, s[w..])
    ensures IsSuffix(r, s)
  {
  }

  /** Whatever the decoder reads off the front, the rest is a proper suffix of the input. */
  lemma {:induction false} RestIsSuffix(s: seq<byte>, room: nat)
    requires Decode(s, room).Done?
    ensures IsSuffix(Decode(s, room).rest, s) && |Decode(s, room).rest| < |s|
    decreases |s|, 0
  {
    var h, body, rest := s[0], s[1..], Decode(s, room).rest;
    if 0x80 <= h <= 0x9f {
      ContainerRestIsSuffix(h <= 0x8f, if h <= 0x8f then h as int - 0x80 else h as int - 0x90, body, room);
    } else if 0xda <= h <= 0xdf {
      FieldRestIsSuffix(h, body, rest, room);
    } else if 0xa0 <= h <= 0xbf {
      DropIsSuffix(body, h as int - 0xa0);
    } else if 0xca <= h <= 0xd3 {
      DropIsSuffix(body, FieldWidth(h));
    } else {
      assert rest == body;
      DropIsSuffix(body, 0);
    }
    SuffixOfDrop(s, 1, rest);
  }

  lemma {:induction false} FieldRestIsSuffix(h: byte, body: seq<byte>, rest: seq<byte>, room: nat)
    requires 0xda <= h <= 0xdf && |body| >= FieldWidth(h)
    requires var w := FieldWidth(h);
      var r := FieldOutcome(h, Load(body[..w]), body[w..], room);
      r.Done? && r.rest == rest
    ensures IsSuffix(rest, body)
    decreases |body|, 3
  {
    var w := FieldWidth(h);
    var n := Load(body[..w]);
    if h >= 0xdc {
      ContainerRestIsSuffix(h >= 0xde, n, body[w..], room);
    }
    SuffixOfDrop(body, w, rest);
  }

  lemma {:induction false} ContainerRestIsSuffix(isMap: bool, n: nat, s: seq<byte>, room: nat)
    requires DecodeContainer(isMap, n, s, room).Done?
    ensures IsSuffix(DecodeContainer(isMap, n, s, room).rest, s)
    decreases |s|, 2
  {
    ItemsRestIsSuffix(s, if isMap then 2 * n else n, room - 1);
  }

  lemma {:induction false} ItemsRestIsSuffix(s: seq<byte>, n: nat, room: nat)
    requires DecodeItems(s, n, room).Done?
    ensures IsSuffix(DecodeItems(s, n, room).rest, s)
    decreases |s|, 1
  {
    if n > 0 {
      var rest := Decode(s, room).rest;
      RestIsSuffix(s, room);
      ItemsRestIsSuffix(rest, n - 1, room);
      assert s[|s| - |rest|..] == rest;
      SuffixOfDrop(s, |s| - |rest|, DecodeItems(s, n, room).rest);
    }
  }
}
