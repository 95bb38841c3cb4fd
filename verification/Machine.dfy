/**
 The resumable decoder of unpack_template.h: a stack machine over cs, trail, top and stack, driven by gotos.

 The state between two calls is given a meaning by the reference grammar of Format: the header bytes already consumed
 count as still pending, and each open container is a continuation that collects the items still missing.
 */
module Machine {
  import opened Bytes
  import opened Objects
  import opened Format
  import opened Arithmetic
  import opened Options

  const CS_HEADER: nat := 0x00
  const CS_FLOAT: nat := 0x0a
  const CS_DOUBLE: nat := 0x0b
  const CS_UINT_8: nat := 0x0c
  const CS_UINT_16: nat := 0x0d
  const CS_UINT_32: nat := 0x0e
  const CS_UINT_64: nat := 0x0f
  const CS_INT_8: nat := 0x10
  const CS_INT_16: nat := 0x11
  const CS_INT_32: nat := 0x12
  const CS_INT_64: nat := 0x13
  const CS_RAW_16: nat := 0x1a
  const CS_RAW_32: nat := 0x1b
  const CS_ARRAY_16: nat := 0x1c
  const CS_ARRAY_32: nat := 0x1d
  const CS_MAP_16: nat := 0x1e
  const CS_MAP_32: nat := 0x1f
  const ACS_RAW_VALUE: nat := 0x20

  datatype ContainerType = CT_ARRAY_ITEM | CT_MAP_KEY | CT_MAP_VALUE

  /** One stack element: an open container, how many items or pairs it still needs, and a key without its value. */
  datatype Frame = Frame(obj: Object, count: nat, ct: ContainerType, mapKey: Object)

  // ----- The meaning of a machine state -----

  predicate ValidFrame(f: Frame)
  {
    && f.count > 0
    && (f.ct == CT_ARRAY_ITEM ==> f.obj.Array?)
    && (f.ct != CT_ARRAY_ITEM ==> f.obj.Map?)
  }

  predicate ValidFrames(fs: seq<Frame>)
  {
    && |fs| <= MAX_NESTING
    && forall f | f in fs :: ValidFrame(f)
  }

  function IsMap(f: Frame): bool
  {
    f.ct != CT_ARRAY_ITEM
  }

  /** The children collected so far, in wire order. */
  function Collected(f: Frame): seq<Object>
    requires ValidFrame(f)
  {
    match f.ct
    case CT_ARRAY_ITEM => f.obj.items
    case CT_MAP_KEY => Flatten(f.obj.entries)
    case CT_MAP_VALUE => Flatten(f.obj.entries) + [f.mapKey]
  }

  /** How many more objects the container needs. */
  function Missing(f: Frame): (n: nat)
    requires ValidFrame(f)
    ensures n > 0
  {
    match f.ct
    case CT_ARRAY_ITEM => f.count
    case CT_MAP_KEY => 2 * f.count
    case CT_MAP_VALUE => 2 * f.count - 1
  }

  /** A container whose children so far are done, once those behind have been parsed as r. */
  function Close(isMap: bool, done: seq<Object>, r: Parse<seq<Object>>): Parse<Object>
  {
    match r
    case Done(xs, rest) => Done(Build(isMap, done + xs), rest)
    case More => More
    case Fail => Fail
  }

  /** The outcome of the container f, when r is the outcome of the item now being read in it. */
  function Enclose(f: Frame, r: Parse<Object>, room: nat): Parse<Object>
    requires ValidFrame(f)
  {
    if r.Done? then Close(IsMap(f), Collected(f) + [r.value], DecodeItems(r.rest, Missing(f) - 1, room)) else r
  }

  /** The outcome of the whole object, when r is the outcome of the item now being read inside the containers fs. */
  function Plug(fs: seq<Frame>, r: Parse<Object>): Parse<Object>
    requires ValidFrames(fs)
    decreases |fs|
  {
    if fs == [] then r else Plug(fs[..|fs| - 1], Enclose(fs[|fs| - 1], r, MAX_NESTING - |fs|))
  }

  lemma PlugTop(fs: seq<Frame>, f: Frame, r: Parse<Object>)
    requires ValidFrames(fs + [f]) && ValidFrames(fs) && ValidFrame(f)
    ensures Plug(fs + [f], r) == Plug(fs, Enclose(f, r, MAX_NESTING - |fs| - 1))
  {
    assert (fs + [f])[..|fs|] == fs;
  }

  /** Failure and missing input pass through every open container. */
  lemma {:induction false} PlugStops(fs: seq<Frame>, r: Parse<Object>)
    requires ValidFrames(fs) && !r.Done?
    ensures Plug(fs, r) == r
    decreases |fs|
  {
    if fs != [] {
      PlugStops(fs[..|fs| - 1], r);
    }
  }

  predicate ValidControl(cs: nat, trail: nat)
  {
    || cs == CS_HEADER
    || (CS_FLOAT <= cs <= CS_MAP_32 && FieldWidth((0xc0 + cs) as byte) == trail > 0)
    || (cs == ACS_RAW_VALUE && 0 < trail < TWO_32)
  }

  /** The bytes that would bring a fresh machine to the control state (cs, trail). */
  function Pending(cs: nat, trail: nat): seq<byte>
    requires ValidControl(cs, trail)
  {
    if cs == CS_HEADER then []
    else if cs == ACS_RAW_VALUE then (PowValues(); [0xdb] + Store(trail, 4))
    else [(0xc0 + cs) as byte]
  }

  /** What the machine in the given state makes of the input s. */
  function Meaning(fs: seq<Frame>, pending: seq<byte>, s: seq<byte>): Parse<Object>
    requires ValidFrames(fs)
  {
    Plug(fs, Decode(pending + s, MAX_NESTING - |fs|))
  }

  // ----- One push: an item is complete -----

  /** The innermost container after taking x, when it needs more. */
  function Take(f: Frame, x: Object): (g: Frame)
    requires ValidFrame(f) && Missing(f) > 1
    ensures ValidFrame(g)
  {
    match f.ct
    case CT_ARRAY_ITEM => f.(obj := Array(f.obj.items + [x]), count := f.count - 1)
    case CT_MAP_KEY => f.(mapKey := x, ct := CT_MAP_VALUE)
    case CT_MAP_VALUE => f.(obj := Map(f.obj.entries + [Entry(f.mapKey, x)]), count := f.count - 1, ct := CT_MAP_KEY)
  }

  /** The container that x completes. */
  function Complete(f: Frame, x: Object): Object
    requires ValidFrame(f) && Missing(f) == 1
  {
    if f.ct == CT_ARRAY_ITEM then Array(f.obj.items + [x]) else Map(f.obj.entries + [Entry(f.mapKey, x)])
  }

  lemma FlattenSnoc(es: seq<Entry>, e: Entry)
    ensures Flatten(es + [e]) == Flatten(es) + [e.key, e.val]
  {
  }

  lemma TakeCollects(f: Frame, x: Object)
    requires ValidFrame(f) && Missing(f) > 1
    ensures IsMap(Take(f, x)) == IsMap(f)
    ensures Collected(Take(f, x)) == Collected(f) + [x]
    ensures Missing(Take(f, x)) == Missing(f) - 1
  {
    if f.ct == CT_MAP_VALUE {
      FlattenSnoc(f.obj.entries, Entry(f.mapKey, x));
    }
  }

  lemma CompleteBuilds(f: Frame, x: Object)
    requires ValidFrame(f) && Missing(f) == 1
    ensures Complete(f, x) == Build(IsMap(f), Collected(f) + [x])
  {
    if f.ct == CT_MAP_VALUE {
      FlattenSnoc(f.obj.entries, Entry(f.mapKey, x));
      PairFlatten(f.obj.entries + [Entry(f.mapKey, x)]);
      assert Collected(f) + [x] == Flatten(f.obj.entries + [Entry(f.mapKey, x)]);
    }
  }

  /** Decoding n > 0 more children is decoding one and then the others. */
  lemma CloseStep(isMap: bool, done: seq<Object>, n: nat, t: seq<byte>, room: nat)
    requires n > 0
    ensures Close(isMap, done, DecodeItems(t, n, room)) ==
      match Decode(t, room)
      case Done(y, rest) => Close(isMap, done + [y], DecodeItems(rest, n - 1, room))
      case other => other
  {
    var r := Decode(t, room);
    if r.Done? {
      var rs := DecodeItems(r.rest, n - 1, room);
      if rs.Done? {
        assert done + ([r.value] + rs.value) == done + [r.value] + rs.value;
      }
    }
  }

  /** A container that takes x and needs more goes on to decode the next item. */
  lemma EncloseTake(f: Frame, x: Object, t: seq<byte>, room: nat)
    requires ValidFrame(f) && Missing(f) > 1
    ensures Enclose(f, Done(x, t), room) == Enclose(Take(f, x), Decode(t, room), room)
  {
    TakeCollects(f, x);
    CloseStep(IsMap(f), Collected(f) + [x], Missing(f) - 1, t, room);
  }

  lemma PushMore(fs: seq<Frame>, f: Frame, x: Object, t: seq<byte>)
    requires ValidFrames(fs + [f]) && ValidFrames(fs) && ValidFrame(f) && Missing(f) > 1
    ensures ValidFrames(fs + [Take(f, x)])
    ensures Plug(fs + [f], Done(x, t)) == Meaning(fs + [Take(f, x)], [], t)
  {
    var g, room := Take(f, x), MAX_NESTING - |fs| - 1;
    var r := Decode(t, room);
    calc {
      Plug(fs + [f], Done(x, t));
      { PlugTop(fs, f, Done(x, t)); }
      Plug(fs, Enclose(f, Done(x, t), room));
      { EncloseTake(f, x, t, room); }
      Plug(fs, Enclose(g, r, room));
      { PlugTop(fs, g, r); }
      Plug(fs + [g], r);
      { assert [] + t == t; }
      Meaning(fs + [g], [], t);
    }
  }

  /** A container that is complete is itself pushed one level down. */
  lemma PushLast(fs: seq<Frame>, x: Object, t: seq<byte>)
    requires ValidFrames(fs) && fs != []
    requires Missing(fs[|fs| - 1]) == 1
    ensures Plug(fs, Done(x, t)) == Plug(fs[..|fs| - 1], Done(Complete(fs[|fs| - 1], x), t))
  {
    var f := fs[|fs| - 1];
    CompleteBuilds(f, x);
    assert Collected(f) + [x] + [] == Collected(f) + [x];
    assert Enclose(f, Done(x, t), MAX_NESTING - |fs|) == Done(Complete(f, x), t);
  }

  /** Opening a container of n > 0 items or pairs goes on to decode its first item. */
  lemma OpenFrame(fs: seq<Frame>, f: Frame, t: seq<byte>)
    requires ValidFrames(fs) && |fs| < MAX_NESTING && ValidFrame(f)
    requires Collected(f) == [] && f.ct != CT_MAP_VALUE
    ensures Plug(fs, DecodeContainer(IsMap(f), f.count, t, MAX_NESTING - |fs|)) == Meaning(fs + [f], [], t)
  {
    var room := MAX_NESTING - |fs|;
    var r := Decode(t, room - 1);
    calc {
      Plug(fs, DecodeContainer(IsMap(f), f.count, t, room));
      { ContainerOpens(f, t, room); }
      Plug(fs, Enclose(f, r, room - 1));
      { PlugTop(fs, f, r); }
      Plug(fs + [f], r);
      { assert [] + t == t; }
      Meaning(fs + [f], [], t);
    }
  }

  lemma ContainerOpens(f: Frame, t: seq<byte>, room: nat)
    requires ValidFrame(f) && Collected(f) == [] && f.ct != CT_MAP_VALUE && room > 0
    ensures DecodeContainer(IsMap(f), f.count, t, room) == Enclose(f, Decode(t, room - 1), room - 1)
  {
    ContainerCloses(IsMap(f), f.count, t, room);
    CloseStep(IsMap(f), [], Missing(f), t, room - 1);
    var r := Decode(t, room - 1);
    if r.Done? {
      assert [] + [r.value] == [r.value];
    }
  }

  lemma ContainerCloses(isMap: bool, n: nat, t: seq<byte>, room: nat)
    requires room > 0
    ensures DecodeContainer(isMap, n, t, room) == Close(isMap, [], DecodeItems(t, if isMap then 2 * n else n, room - 1))
  {
    var r := DecodeItems(t, if isMap then 2 * n else n, room - 1);
    if r.Done? {
      assert [] + r.value == r.value;
    }
  }

  // ----- One goto: what a piece of the loop body does with the bytes it consumed -----

  /** Where the loop body continues: the labels of the source. */
  datatype Goto =
    | Push(obj: Object)   // _push
    | FixedTrailAgain     // _fixed_trail_again
    | HeaderAgain         // _header_again
    | Failed              // _failed
    | Out                 // _out

  /** The outcome of a machine that goes to g with the input s before it. */
  function Outcome(g: Goto, fs: seq<Frame>, pending: seq<byte>, s: seq<byte>): Parse<Object>
    requires ValidFrames(fs)
  {
    match g
    case Push(x) => Plug(fs, Done(x, s))
    case FixedTrailAgain => Meaning(fs, pending, s)
    case HeaderAgain => Meaning(fs, [], s)
    case Failed => Fail
    case Out => Meaning(fs, pending, s)
  }

  /** Going to g, with containers fs1 and control state pending1, is right after consuming bytes inside fs0. */
  ghost predicate Continues(fs0: seq<Frame>, consumed: seq<byte>, g: Goto, fs1: seq<Frame>, pending1: seq<byte>)
    requires ValidFrames(fs0) && ValidFrames(fs1)
  {
    && !g.Out? && (g.Push? || g.FixedTrailAgain? ==> fs1 == fs0)
    && forall t :: Meaning(fs0, consumed, t) == Outcome(g, fs1, pending1, t)
  }

  /**
   Continues, over the input that is there: the machine that was at s0 goes to g and stands before s1. For every
   continuation t of the input, the outcome is the same from both places.
   */
  ghost predicate Reaches(fs0: seq<Frame>, pending0: seq<byte>, s0: seq<byte>,
                          g: Goto, fs1: seq<Frame>, pending1: seq<byte>, s1: seq<byte>)
    requires ValidFrames(fs0) && ValidFrames(fs1)
  {
    && (g.Push? || g.FixedTrailAgain? || g.Out? ==> fs1 == fs0)
    && forall t :: Meaning(fs0, pending0, s0 + t) == Outcome(g, fs1, pending1, s1 + t)
  }

  lemma ReachesBy(fs0: seq<Frame>, pending0: seq<byte>, data: seq<byte>, p: nat, q: nat,
                  g: Goto, fs1: seq<Frame>, pending1: seq<byte>)
    requires ValidFrames(fs0) && ValidFrames(fs1) && p <= q <= |data|
    requires Continues(fs0, pending0 + data[p..q], g, fs1, pending1)
    ensures Reaches(fs0, pending0, data[p..], g, fs1, pending1, data[q..])
  {
    forall t
      ensures Meaning(fs0, pending0, data[p..] + t) == Outcome(g, fs1, pending1, data[q..] + t)
    {
      MeaningMoves(fs0, pending0, data, p, q, t);
    }
  }

  lemma MeaningMoves(fs: seq<Frame>, pending: seq<byte>, data: seq<byte>, p: nat, q: nat, t: seq<byte>)
    requires ValidFrames(fs) && p <= q <= |data|
    ensures Meaning(fs, pending, data[p..] + t) == Meaning(fs, pending + data[p..q], data[q..] + t)
  {
    assert pending + (data[p..] + t) == pending + data[p..q] + (data[q..] + t);
  }

  lemma ReachesThen(fs0: seq<Frame>, pending0: seq<byte>, s0: seq<byte>, pending1: seq<byte>, s1: seq<byte>,
                    g: Goto, fs2: seq<Frame>, pending2: seq<byte>, s2: seq<byte>)
    requires ValidFrames(fs0) && ValidFrames(fs2)
    requires Reaches(fs0, pending0, s0, FixedTrailAgain, fs0, pending1, s1)
    requires Reaches(fs0, pending1, s1, g, fs2, pending2, s2)
    ensures Reaches(fs0, pending0, s0, g, fs2, pending2, s2)
  {
    forall t
      ensures Meaning(fs0, pending0, s0 + t) == Outcome(g, fs2, pending2, s2 + t)
    {
      assert Meaning(fs0, pending0, s0 + t) == Outcome(FixedTrailAgain, fs0, pending1, s1 + t);
    }
  }

  /** Any non-empty raw in the item just pushed is the slice of data at slice.0 of length slice.1, inside lo..hi. */
  ghost predicate SliceOf(g: Goto, data: seq<byte>, lo: nat, hi: nat, slice: (nat, nat))
  {
    && lo <= slice.0 && slice.0 + slice.1 <= hi <= |data|
    && (g.Push? ==> Raws(g.obj) <= if g.obj.Raw? then {data[slice.0..slice.0 + slice.1]} else {})
  }

  /** The byte strings held by open containers. */
  ghost function FrameRaws(f: Frame): set<seq<byte>>
  {
    Raws(f.obj) + if f.ct == CT_MAP_VALUE then Raws(f.mapKey) else {}
  }

  ghost function StackRaws(fs: seq<Frame>): set<seq<byte>>
  {
    set f, r | f in fs && r in FrameRaws(f) :: r
  }

  function EmptyContainer(isMap: bool): Object
  {
    if isMap then Map([]) else Array([])
  }

  lemma ContinuesPush(fs: seq<Frame>, consumed: seq<byte>, x: Object, pending: seq<byte>)
    requires ValidFrames(fs)
    requires forall t :: Decode(consumed + t, MAX_NESTING - |fs|) == Done(x, t)
    ensures Continues(fs, consumed, Push(x), fs, pending)
  {
  }

  lemma ContinuesTrail(fs: seq<Frame>, consumed: seq<byte>, pending: seq<byte>)
    requires ValidFrames(fs)
    requires forall t :: Decode(consumed + t, MAX_NESTING - |fs|) == Decode(pending + t, MAX_NESTING - |fs|)
    ensures Continues(fs, consumed, FixedTrailAgain, fs, pending)
  {
  }

  lemma ContinuesInContainer(fs: seq<Frame>, consumed: seq<byte>, f: Frame, pending: seq<byte>)
    requires ValidFrames(fs) && |fs| < MAX_NESTING && ValidFrame(f)
    requires Collected(f) == [] && f.ct != CT_MAP_VALUE
    requires forall t :: DecodeContainer(IsMap(f), f.count, t, MAX_NESTING - |fs|) ==
                         Decode(consumed + t, MAX_NESTING - |fs|)
    ensures ValidFrames(fs + [f]) && Continues(fs, consumed, HeaderAgain, fs + [f], pending)
  {
    forall t
      ensures Meaning(fs, consumed, t) == Meaning(fs + [f], [], t)
    {
      OpenFrame(fs, f, t);
    }
  }

  lemma EmptyContainerPushed(fs: seq<Frame>, consumed: seq<byte>, isMap: bool)
    requires ValidFrames(fs) && |fs| < MAX_NESTING
    requires forall t :: Decode(consumed + t, MAX_NESTING - |fs|) == DecodeContainer(isMap, 0, t, MAX_NESTING - |fs|)
    ensures Continues(fs, consumed, Push(EmptyContainer(isMap)), fs, [])
  {
    assert Build(isMap, []) == EmptyContainer(isMap);
    forall t
      ensures Decode(consumed + t, MAX_NESTING - |fs|) == Done(EmptyContainer(isMap), t)
    {
      assert DecodeItems(t, 0, MAX_NESTING - |fs| - 1) == Done([], t);
    }
    ContinuesPush(fs, consumed, EmptyContainer(isMap), []);
  }

  lemma FullStackFails(fs: seq<Frame>, consumed: seq<byte>, isMap: bool, n: nat)
    requires ValidFrames(fs) && |fs| == MAX_NESTING
    requires forall t :: Decode(consumed + t, MAX_NESTING - |fs|) == DecodeContainer(isMap, n, t, MAX_NESTING - |fs|)
    ensures Continues(fs, consumed, Failed, fs, [])
  {
    PlugStops(fs, Fail);
  }

  /** The object that a header byte stands for on its own. */
  function Immediate(b: byte): (o: Object)
    requires b <= 0x7f || b == 0xc0 || b == 0xc2 || b == 0xc3 || b >= 0xe0
  {
    if b <= 0x7f then PositiveInteger(b as int)
    else if b == 0xc0 then Nil
    else if b == 0xc2 then Boolean(false)
    else if b == 0xc3 then Boolean(true)
    else NegativeInteger(b as int - 0x100)
  }

  lemma ImmediatePushed(fs: seq<Frame>, b: byte)
    requires ValidFrames(fs)
    requires b <= 0x7f || b == 0xc0 || b == 0xc2 || b == 0xc3 || b >= 0xe0
    ensures Continues(fs, [b], Push(Immediate(b)), fs, [])
  {
    forall t
      ensures Decode([b] + t, MAX_NESTING - |fs|) == Done(Immediate(b), t)
    {
      assert ([b] + t)[1..] == t;
    }
    ContinuesPush(fs, [b], Immediate(b), []);
  }

  lemma ReservedFails(fs: seq<Frame>, b: byte)
    requires ValidFrames(fs)
    requires Reserved(b)
    ensures Continues(fs, [b], Failed, fs, [])
  {
    forall t
      ensures Meaning(fs, [b], t) == Fail
    {
      assert ([b] + t)[1..] == t;
      PlugStops(fs, Fail);
    }
  }

  predicate Reserved(b: byte)
  {
    b == 0xc1 || 0xc4 <= b <= 0xc9 || 0xd4 <= b <= 0xd9
  }

  /** What the machine keeps failing on: a reserved byte b, or a container where no more may be opened. */
  predicate Stuck(top: nat, cs: nat, b: byte)
  {
    if cs == CS_HEADER then Reserved(b) || (0x80 <= b <= 0x9f && top == MAX_NESTING)
    else CS_ARRAY_16 <= cs <= CS_MAP_32 && top == MAX_NESTING
  }

  /** Whatever follows, the machine at s will not complete its object. */
  ghost predicate Hopeless(fs: seq<Frame>, pending: seq<byte>, s: seq<byte>)
    requires ValidFrames(fs)
  {
    forall t :: !Meaning(fs, pending, s + t).Done?
  }

  lemma StuckIsHopeless(fs: seq<Frame>, cs: nat, trail: nat, s: seq<byte>)
    requires ValidFrames(fs) && ValidControl(cs, trail) && s != [] && Stuck(|fs|, cs, s[0])
    ensures Hopeless(fs, Pending(cs, trail), s)
  {
    forall t
      ensures !Meaning(fs, Pending(cs, trail), s + t).Done?
    {
      var all := Pending(cs, trail) + (s + t);
      assert all[0] == if cs == CS_HEADER then s[0] else (0xc0 + cs) as byte;
      StuckByteFails(all, MAX_NESTING - |fs|);
      PlugStops(fs, Decode(all, MAX_NESTING - |fs|));
    }
  }

  lemma StuckByteFails(s: seq<byte>, room: nat)
    requires s != []
    requires Reserved(s[0]) || (room == 0 && (0x80 <= s[0] <= 0x9f || 0xdc <= s[0] <= 0xdf))
    ensures !Decode(s, room).Done?
  {
  }

  /** A machine that resumes one without hope has none, and neither has one that gets more bytes. */
  lemma HopelessStays(fs0: seq<Frame>, pending0: seq<byte>, s0: seq<byte>,
                      fs1: seq<Frame>, pending1: seq<byte>, s1: seq<byte>)
    requires ValidFrames(fs0) && ValidFrames(fs1) && Hopeless(fs0, pending0, s0)
    requires Resumes(fs0, pending0, s0, fs1, pending1, s1)
    ensures Hopeless(fs1, pending1, s1)
  {
    forall t
      ensures !Meaning(fs1, pending1, s1 + t).Done?
    {
      assert Meaning(fs0, pending0, s0 + t) == Meaning(fs1, pending1, s1 + t);
    }
  }

  lemma HopelessExtends(fs: seq<Frame>, pending: seq<byte>, s: seq<byte>, bytes: seq<byte>)
    requires ValidFrames(fs) && Hopeless(fs, pending, s)
    ensures Hopeless(fs, pending, s + bytes)
  {
    forall t
      ensures !Meaning(fs, pending, s + bytes + t).Done?
    {
      assert s + bytes + t == s + (bytes + t);
    }
  }

  lemma HopelessNeverFinishes(fs: seq<Frame>, pending: seq<byte>, s: seq<byte>, o: Object, rest: seq<byte>)
    requires ValidFrames(fs) && Hopeless(fs, pending, s)
    ensures !Finishes(fs, pending, s, o, rest)
  {
    assert !Meaning(fs, pending, s + []).Done?;
  }

  lemma FixContainerDecodes(b: byte, t: seq<byte>, room: nat)
    requires 0x80 <= b <= 0x9f
    ensures Decode([b] + t, room) == DecodeContainer(b <= 0x8f, (b % 0x10) as nat, t, room)
  {
    assert ([b] + t)[1..] == t;
  }

  lemma FixRawDecodes(b: byte, t: seq<byte>, room: nat)
    requires 0xa0 <= b <= 0xbf
    ensures Decode([b] + t, room) == DecodeRaw((b % 0x20) as nat, t)
  {
    assert ([b] + t)[1..] == t;
  }

  /** A raw body still to come reads like the bytes behind a 32-bit raw header. */
  lemma PendingRawDecodes(n: nat, t: seq<byte>, room: nat)
    requires 0 < n < TWO_32
    ensures Decode(Pending(ACS_RAW_VALUE, n) + t, room) == DecodeRaw(n, t)
  {
    PowValues();
    FieldDecodes(0xdb, Store(n, 4), t, room);
  }

  /** Once a raw length n is known, the machine pushes the empty raw or waits for n bytes. */
  lemma RawLengthKnown(fs: seq<Frame>, consumed: seq<byte>, n: nat)
    requires ValidFrames(fs) && n < TWO_32
    requires forall t :: Decode(consumed + t, MAX_NESTING - |fs|) == DecodeRaw(n, t)
    ensures n == 0 ==> Continues(fs, consumed, Push(Raw([])), fs, [])
    ensures n > 0 ==> Continues(fs, consumed, FixedTrailAgain, fs, Pending(ACS_RAW_VALUE, n))
  {
    if n == 0 {
      ContinuesPush(fs, consumed, Raw([]), []);
    } else {
      forall t
        ensures Decode(consumed + t, MAX_NESTING - |fs|) == Decode(Pending(ACS_RAW_VALUE, n) + t, MAX_NESTING - |fs|)
      {
        PendingRawDecodes(n, t, MAX_NESTING - |fs|);
      }
      ContinuesTrail(fs, consumed, Pending(ACS_RAW_VALUE, n));
    }
  }

  lemma RawBodyPushed(fs: seq<Frame>, body: seq<byte>)
    requires ValidFrames(fs) && 0 < |body| < TWO_32
    ensures Continues(fs, Pending(ACS_RAW_VALUE, |body|) + body, Push(Raw(body)), fs, [])
  {
    var consumed := Pending(ACS_RAW_VALUE, |body|) + body;
    forall t
      ensures Decode(consumed + t, MAX_NESTING - |fs|) == Done(Raw(body), t)
    {
      PendingRawDecodes(|body|, body + t, MAX_NESTING - |fs|);
      assert consumed + t == Pending(ACS_RAW_VALUE, |body|) + (body + t);
      assert (body + t)[..|body|] == body && (body + t)[|body|..] == t;
    }
    ContinuesPush(fs, consumed, Raw(body), []);
  }

  lemma ScalarPushed(fs: seq<Frame>, h: byte, field: seq<byte>)
    requires ValidFrames(fs) && 0xca <= h <= 0xd3 && |field| == FieldWidth(h)
    ensures Continues(fs, [h] + field, Push(Scalar(h, Load(field))), fs, [])
  {
    forall t
      ensures Decode([h] + field + t, MAX_NESTING - |fs|) == Done(Scalar(h, Load(field)), t)
    {
      FieldDecodes(h, field, t, MAX_NESTING - |fs|);
    }
    ContinuesPush(fs, [h] + field, Scalar(h, Load(field)), []);
  }

  lemma RawFieldDecodes(h: byte, field: seq<byte>, room: nat)
    requires 0xda <= h <= 0xdb && |field| == FieldWidth(h)
    ensures forall t :: Decode([h] + field + t, room) == DecodeRaw(Load(field), t)
  {
    forall t
      ensures Decode([h] + field + t, room) == DecodeRaw(Load(field), t)
    {
      FieldDecodes(h, field, t, room);
    }
  }

  lemma ContainerFieldDecodes(h: byte, field: seq<byte>, room: nat)
    requires 0xdc <= h <= 0xdf && |field| == FieldWidth(h)
    ensures forall t :: Decode([h] + field + t, room) == DecodeContainer(h >= 0xde, Load(field), t, room)
  {
    forall t
      ensures Decode([h] + field + t, room) == DecodeContainer(h >= 0xde, Load(field), t, room)
    {
      FieldDecodes(h, field, t, room);
    }
  }

  /** The C shift x << k. */
  function ShiftLeft(x: nat, k: nat): nat
  {
    x * Pow2(k)
  }

  /** NEXT_CS and the two shifts of the header switch agree with the table of field widths. */
  lemma HeaderWidths(b: byte)
    ensures 0xca <= b <= 0xd3 ==> ShiftLeft(1, (b % 4) as nat) == FieldWidth(b)
    ensures 0xda <= b <= 0xdf ==> ShiftLeft(2, (b % 2) as nat) == FieldWidth(b)
    ensures 0xc0 <= b <= 0xdf ==> (b % 0x20) as nat == b as nat - 0xc0
  {
    assert Pow2(0) == 1 && Pow2(1) == 2 && Pow2(2) == 4 && Pow2(3) == 8;
  }

  /** The pieces of data that the slices point to. */
  ghost function Contents(data: seq<byte>, slices: seq<(nat, nat)>): set<seq<byte>>
  {
    set i | 0 <= i < |slices| && slices[i].0 + slices[i].1 <= |data| :: data[slices[i].0..slices[i].0 + slices[i].1]
  }

  ghost predicate SlicesWithin(slices: seq<(nat, nat)>, lo: nat, hi: nat)
  {
    forall i | 0 <= i < |slices| :: lo <= slices[i].0 && slices[i].0 + slices[i].1 <= hi
  }

  /** Whatever r is inside the containers fs, that is what the machine at s0 comes to. */
  ghost predicate Finishes(fs0: seq<Frame>, pending0: seq<byte>, s0: seq<byte>, o: Object, s1: seq<byte>)
    requires ValidFrames(fs0)
  {
    forall t :: Meaning(fs0, pending0, s0 + t) == Done(o, s1 + t)
  }

  /** For every continuation of the input, the machine at s1 has the outcome that the machine at s0 had. */
  ghost predicate Resumes(fs0: seq<Frame>, pending0: seq<byte>, s0: seq<byte>,
                          fs1: seq<Frame>, pending1: seq<byte>, s1: seq<byte>)
    requires ValidFrames(fs0) && ValidFrames(fs1)
  {
    forall t :: Meaning(fs0, pending0, s0 + t) == Meaning(fs1, pending1, s1 + t)
  }

  ghost predicate Fails(fs0: seq<Frame>, pending0: seq<byte>, s0: seq<byte>)
    requires ValidFrames(fs0)
  {
    forall t :: Meaning(fs0, pending0, s0 + t) == Fail
  }

  lemma ResumesThenFinishes(fs0: seq<Frame>, pending0: seq<byte>, s0: seq<byte>,
                            fs1: seq<Frame>, pending1: seq<byte>, s1: seq<byte>, o: Object, s2: seq<byte>)
    requires ValidFrames(fs0) && ValidFrames(fs1)
    requires Resumes(fs0, pending0, s0, fs1, pending1, s1)
    requires Finishes(fs1, pending1, s1, o, s2)
    ensures Finishes(fs0, pending0, s0, o, s2)
  {
  }

  lemma ResumesThenFails(fs0: seq<Frame>, pending0: seq<byte>, s0: seq<byte>,
                         fs1: seq<Frame>, pending1: seq<byte>, s1: seq<byte>)
    requires ValidFrames(fs0) && ValidFrames(fs1)
    requires Resumes(fs0, pending0, s0, fs1, pending1, s1)
    requires Reaches(fs1, pending1, s1, Failed, fs1, [], s1)
    ensures Fails(fs0, pending0, s0)
  {
  }

  lemma ResumesThen(fs0: seq<Frame>, pending0: seq<byte>, s0: seq<byte>,
                    fs1: seq<Frame>, pending1: seq<byte>, s1: seq<byte>,
                    g: Goto, fs2: seq<Frame>, pending2: seq<byte>, s2: seq<byte>)
    requires ValidFrames(fs0) && ValidFrames(fs1) && ValidFrames(fs2)
    requires Resumes(fs0, pending0, s0, fs1, pending1, s1)
    requires g.Out? || (g.HeaderAgain? && pending2 == [])
    requires Reaches(fs1, pending1, s1, g, fs2, pending2, s2)
    ensures Resumes(fs0, pending0, s0, fs2, pending2, s2)
  {
  }

  /** With too few bytes for the trail, or none at a header, the outcome is open. */
  lemma WaitingForMore(fs: seq<Frame>, cs: nat, trail: nat, s: seq<byte>)
    requires ValidFrames(fs) && ValidControl(cs, trail)
    requires if cs == CS_HEADER then s == [] else |s| < trail
    ensures Meaning(fs, Pending(cs, trail), s) == More
  {
    var r := Decode(Pending(cs, trail) + s, MAX_NESTING - |fs|);
    if cs == CS_HEADER {
      assert [] + s == [];
    } else if cs == ACS_RAW_VALUE {
      PendingRawDecodes(trail, s, MAX_NESTING - |fs|);
    } else {
      assert ([(0xc0 + cs) as byte] + s)[1..] == s;
    }
    PlugStops(fs, r);
  }

  lemma MoreContents(data: seq<byte>, slices: seq<(nat, nat)>, more: seq<(nat, nat)>)
    requires |more| <= 1
    ensures Contents(data, slices) + Contents(data, more) <= Contents(data, slices + more)
  {
    forall i | 0 <= i < |slices|
      ensures (slices + more)[i] == slices[i]
    {
    }
    if more != [] {
      assert (slices + more)[|slices|] == more[0];
    }
  }

  lemma CompletedRaws(f: Frame, x: Object)
    requires ValidFrame(f) && Missing(f) == 1
    ensures Raws(Complete(f, x)) <= FrameRaws(f) + Raws(x)
  {
  }

  lemma TakenRaws(fs: seq<Frame>, x: Object)
    requires ValidFrames(fs) && fs != [] && Missing(fs[|fs| - 1]) > 1
    ensures StackRaws(fs[|fs| - 1 := Take(fs[|fs| - 1], x)]) <= StackRaws(fs) + Raws(x)
  {
    var f := fs[|fs| - 1];
    var g := Take(f, x);
    assert FrameRaws(g) <= FrameRaws(f) + Raws(x);
    assert FrameRaws(f) <= StackRaws(fs);
    forall h, r | h in fs[|fs| - 1 := g] && r in FrameRaws(h)
      ensures r in StackRaws(fs) + Raws(x)
    {
      assert h == g || h in fs;
    }
  }

  class Context {
    var cs: nat
    var trail: nat
    var top: nat
    const stack: array<Frame>
    var referenced: bool  // user.referenced: some raw points into the input buffer

    ghost predicate ValidStack()
      reads this, stack
    {
      && stack.Length == MAX_NESTING
      && top <= MAX_NESTING
      && ValidFrames(stack[..top])
    }

    ghost predicate Valid()
      reads this, stack
    {
      ValidStack() && ValidControl(cs, trail)
    }

    constructor ()
      ensures Valid() && fresh(stack)
      ensures cs == CS_HEADER && top == 0 && !referenced
    {
      cs, trail, top, referenced := CS_HEADER, 0, 0, false;
      stack := new Frame[MAX_NESTING](_ => Frame(Nil, 0, CT_ARRAY_ITEM, Nil));
    }

    /** template_init. The referenced flag is not reset. */
    method Init()
      requires stack.Length == MAX_NESTING
      modifies this, stack
      ensures Valid() && cs == CS_HEADER && top == 0 && referenced == old(referenced)
    {
      cs := CS_HEADER;
      trail := 0;
      top := 0;
      stack[0] := stack[0].(obj := Nil);
    }

    /** The start_container macro, when the consumed bytes are the header of a container of n items or pairs. */
    method StartContainer(isMap: bool, n: nat, ghost consumed: seq<byte>) returns (g: Goto)
      requires ValidStack()
      requires forall t :: Decode(consumed + t, MAX_NESTING - top) == DecodeContainer(isMap, n, t, MAX_NESTING - top)
      modifies this, stack
      ensures ValidStack() && cs == old(cs) && trail == old(trail) && referenced == old(referenced)
      ensures Continues(old(stack[..top]), consumed, g, stack[..top], [])
      ensures StackRaws(stack[..top]) <= old(StackRaws(stack[..top]))
      ensures !g.FixedTrailAgain? && (g.Push? ==> !g.obj.Raw? && Raws(g.obj) == {})
      ensures g.Failed? ==> top == MAX_NESTING
    {
      ghost var fs := stack[..top];
      if top >= MAX_NESTING {
        FullStackFails(fs, consumed, isMap, n);
        return Failed;
      }
      stack[top] := stack[top].(obj := EmptyContainer(isMap));
      if n == 0 {
        assert stack[..top] == fs;
        EmptyContainerPushed(fs, consumed, isMap);
        return Push(EmptyContainer(isMap));
      }
      ghost var f := Frame(EmptyContainer(isMap), n, if isMap then CT_MAP_KEY else CT_ARRAY_ITEM, stack[top].mapKey);
      stack[top] := stack[top].(ct := if isMap then CT_MAP_KEY else CT_ARRAY_ITEM, count := n);
      top := top + 1;
      assert stack[..top] == fs + [f];
      assert FrameRaws(f) == {};
      ContinuesInContainer(fs, consumed, f, []);
      return HeaderAgain;
    }

    /** case CS_HEADER: the byte b at p. */
    method ReadHeader(b: byte) returns (g: Goto)
      requires Valid() && cs == CS_HEADER
      modifies this, stack
      ensures Valid() && referenced == (old(referenced) || (g.Push? && g.obj.Raw?))
      ensures g.FixedTrailAgain? <==> cs != CS_HEADER
      ensures Continues(old(stack[..top]), [b], g, stack[..top], Pending(cs, trail))
      ensures StackRaws(stack[..top]) <= old(StackRaws(stack[..top]))
      ensures g.Push? ==> Raws(g.obj) == {}
      ensures g.Failed? ==> Stuck(top, cs, b)
    {
      if b <= 0x7f {
        ImmediatePushed(stack[..top], b);
        g := Push(PositiveInteger(b as int));
      } else if b >= 0xe0 {
        ImmediatePushed(stack[..top], b);
        g := Push(NegativeInteger(b as int - 0x100));
      } else if b >= 0xc0 {
        g := ReadVariable(b);
      } else if b >= 0xa0 {
        g := ReadFixRaw(b);
      } else {
        forall t
          ensures Decode([b] + t, MAX_NESTING - top) ==
            DecodeContainer(b <= 0x8f, (b % 0x10) as nat, t, MAX_NESTING - top)
        {
          FixContainerDecodes(b, t, MAX_NESTING - top);
        }
        if b >= 0x90 {
          g := StartContainer(false, (b % 0x10) as nat, [b]);
        } else {
          g := StartContainer(true, (b % 0x10) as nat, [b]);
        }
      }
    }

    /** The header range 0xc0 to 0xdf. */
    method ReadVariable(b: byte) returns (g: Goto)
      requires Valid() && cs == CS_HEADER && 0xc0 <= b <= 0xdf
      modifies this`cs, this`trail
      ensures Valid()
      ensures g.FixedTrailAgain? <==> cs != CS_HEADER
      ensures Continues(stack[..top], [b], g, stack[..top], Pending(cs, trail))
      ensures g.Push? ==> !g.obj.Raw? && Raws(g.obj) == {}
      ensures g.Failed? ==> Reserved(b)
    {
      HeaderWidths(b);
      if b == 0xc0 {
        ImmediatePushed(stack[..top], b);
        return Push(Nil);
      } else if b == 0xc2 {
        ImmediatePushed(stack[..top], b);
        return Push(Boolean(false));
      } else if b == 0xc3 {
        ImmediatePushed(stack[..top], b);
        return Push(Boolean(true));
      } else if 0xca <= b <= 0xd3 {
        trail := ShiftLeft(1, (b % 4) as nat);
      } else if 0xda <= b {
        trail := ShiftLeft(2, (b % 2) as nat);
      } else {
        ReservedFails(stack[..top], b);
        return Failed;
      }
      cs := (b % 0x20) as nat;
      assert Pending(cs, trail) == [b];
      ContinuesTrail(stack[..top], [b], [b]);
      return FixedTrailAgain;
    }

    /** The header range 0xa0 to 0xbf. */
    method ReadFixRaw(b: byte) returns (g: Goto)
      requires Valid() && cs == CS_HEADER && 0xa0 <= b <= 0xbf
      modifies this`cs, this`trail, this`referenced
      ensures Valid() && referenced == (old(referenced) || (g.Push? && g.obj.Raw?))
      ensures g.FixedTrailAgain? <==> cs != CS_HEADER
      ensures Continues(stack[..top], [b], g, stack[..top], Pending(cs, trail))
      ensures g.Push? ==> Raws(g.obj) == {}
      ensures !g.Failed?
    {
      forall t
        ensures Decode([b] + t, MAX_NESTING - top) == DecodeRaw((b % 0x20) as nat, t)
      {
        FixRawDecodes(b, t, MAX_NESTING - top);
      }
      trail := (b % 0x20) as nat;
      RawLengthKnown(stack[..top], [b], trail);
      if trail == 0 {
        referenced := true;
        return Push(Raw([]));
      }
      cs := ACS_RAW_VALUE;
      return FixedTrailAgain;
    }

    /** The inner switch on cs, once the trail bytes are there. */
    method ReadTrail(field: seq<byte>) returns (g: Goto)
      requires Valid() && cs != CS_HEADER && |field| == trail
      modifies this, stack
      ensures ValidStack() && (!g.Push? ==> Valid()) && (g.FixedTrailAgain? ==> cs == ACS_RAW_VALUE)
      ensures referenced == (old(referenced) || (g.Push? && g.obj.Raw?))
      ensures Continues(old(stack[..top]), old(Pending(cs, trail)) + field, g, stack[..top],
        if g.FixedTrailAgain? then Pending(cs, trail) else [])
      ensures StackRaws(stack[..top]) <= old(StackRaws(stack[..top]))
      ensures g.Push? ==> Raws(g.obj) <= if g.obj.Raw? then {field} else {}
      ensures g.Failed? ==> CS_ARRAY_16 <= cs <= CS_MAP_32 && top == MAX_NESTING
    {
      if cs == ACS_RAW_VALUE {
        RawBodyPushed(stack[..top], field);
        referenced := true;
        return Push(Raw(field));
      }
      if cs <= CS_INT_64 {
        g := ReadScalar(field);
      } else if cs <= CS_RAW_32 {
        g := ReadRawLength(field);
      } else {
        g := ReadCount(field);
      }
    }

    /** CS_ARRAY_16 to CS_MAP_32: the field is the count of a container. */
    method ReadCount(field: seq<byte>) returns (g: Goto)
      requires Valid() && CS_ARRAY_16 <= cs <= CS_MAP_32 && |field| == trail
      modifies this, stack
      ensures ValidStack() && cs == old(cs) && trail == old(trail) && referenced == old(referenced)
      ensures Continues(old(stack[..top]), old(Pending(cs, trail)) + field, g, stack[..top], [])
      ensures StackRaws(stack[..top]) <= old(StackRaws(stack[..top]))
      ensures !g.FixedTrailAgain? && (g.Push? ==> !g.obj.Raw? && Raws(g.obj) == {})
      ensures g.Failed? ==> top == MAX_NESTING
    {
      ghost var h := (0xc0 + cs) as byte;
      ContainerFieldDecodes(h, field, MAX_NESTING - top);
      g := StartContainer(cs > CS_ARRAY_32, Load(field), [h] + field);
    }

    /** CS_FLOAT to CS_INT_64. */
    method ReadScalar(field: seq<byte>) returns (g: Goto)
      requires Valid() && CS_FLOAT <= cs <= CS_INT_64 && |field| == trail
      ensures Load(field) < Pow256(FieldWidth((0xc0 + cs) as byte))
      ensures g == Push(Scalar((0xc0 + cs) as byte, Load(field)))
      ensures !g.obj.Raw? && Raws(g.obj) == {}
      ensures Continues(stack[..top], Pending(cs, trail) + field, g, stack[..top], [])
    {
      ScalarPushed(stack[..top], (0xc0 + cs) as byte, field);
      PowValues();
      var n := Load(field);
      if cs == CS_FLOAT {
        g := Push(Double(Widen(n)));
      } else if cs == CS_DOUBLE {
        g := Push(Double(n));
      } else if cs <= CS_UINT_64 {
        g := Push(PositiveInteger(n));
      } else {
        var v := Signed(n, trail);
        if v >= 0 {
          g := Push(PositiveInteger(v));
        } else {
          g := Push(NegativeInteger(v));
        }
      }
    }

    /** CS_RAW_16 and CS_RAW_32: again_fixed_trail_if_zero. */
    method ReadRawLength(field: seq<byte>) returns (g: Goto)
      requires Valid() && CS_RAW_16 <= cs <= CS_RAW_32 && |field| == trail
      modifies this`cs, this`trail, this`referenced
      ensures g == if Load(field) == 0 then Push(Raw([])) else FixedTrailAgain
      ensures g.FixedTrailAgain? ==> Valid() && cs == ACS_RAW_VALUE
      ensures Continues(stack[..top], old(Pending(cs, trail)) + field, g, stack[..top],
        if g.FixedTrailAgain? then Pending(cs, trail) else [])
      ensures referenced == (old(referenced) || g.Push?)
    {
      ghost var consumed := Pending(cs, trail) + field;
      RawFieldDecodes((0xc0 + cs) as byte, field, MAX_NESTING - top);
      PowValues();
      trail := Load(field);
      RawLengthKnown(stack[..top], consumed, trail);
      if trail == 0 {
        referenced := true;
        return Push(Raw([]));
      }
      cs := ACS_RAW_VALUE;
      return FixedTrailAgain;
    }

    /** One round of the _push loop: x goes to the innermost container. */
    method PushOnce(x: Object) returns (completed: bool, y: Object)
      requires ValidStack() && top > 0
      modifies this`top, stack
      ensures ValidStack()
      ensures completed ==> top == old(top) - 1
      ensures completed ==> forall t :: Plug(old(stack[..top]), Done(x, t)) == Plug(stack[..top], Done(y, t))
      ensures !completed ==> forall t :: Plug(old(stack[..top]), Done(x, t)) == Meaning(stack[..top], [], t)
      ensures StackRaws(stack[..top]) <= old(StackRaws(stack[..top])) + Raws(x)
      ensures completed ==> Raws(y) <= old(StackRaws(stack[..top])) + Raws(x)
    {
      ghost var fs := stack[..top];
      var k := top - 1;
      var c := stack[k];
      assert c in fs && ValidFrame(c);
      if c.ct == CT_MAP_KEY {
        stack[k] := c.(mapKey := x, ct := CT_MAP_VALUE);
      } else {
        if c.ct == CT_ARRAY_ITEM {
          stack[k] := c.(obj := Array(c.obj.items + [x]), count := c.count - 1);
        } else {
          stack[k] := c.(obj := Map(c.obj.entries + [Entry(c.mapKey, x)]), count := c.count - 1);
        }
        if stack[k].count == 0 {
          top := k;
          assert stack[..top] == fs[..k];
          CompletedRaws(c, x);
          forall t
            ensures Plug(fs, Done(x, t)) == Plug(fs[..k], Done(Complete(c, x), t))
          {
            PushLast(fs, x, t);
          }
          return true, stack[k].obj;
        }
        if c.ct == CT_MAP_VALUE {
          stack[k] := stack[k].(ct := CT_MAP_KEY);
        }
      }
      assert stack[k] == Take(c, x);
      assert stack[..top] == fs[k := Take(c, x)];
      TakenRaws(fs, x);
      assert fs == fs[..k] + [c] && stack[..top] == fs[..k] + [Take(c, x)];
      forall t
        ensures Plug(fs, Done(x, t)) == Meaning(fs[..k] + [Take(c, x)], [], t)
      {
        PushMore(fs[..k], c, x, t);
      }
      return false, x;
    }

    /** The _push loop: finished when the outermost object is complete, in which case it is left in stack[0].obj. */
    method PushValue(obj: Object) returns (finished: bool)
      requires ValidStack()
      modifies this`top, stack
      ensures ValidStack()
      ensures finished ==> top == 0
      ensures finished ==> forall t :: Plug(old(stack[..top]), Done(obj, t)) == Done(stack[0].obj, t)
      ensures !finished ==> forall t :: Plug(old(stack[..top]), Done(obj, t)) == Meaning(stack[..top], [], t)
      ensures StackRaws(stack[..top]) <= old(StackRaws(stack[..top])) + Raws(obj)
      ensures finished ==> Raws(stack[0].obj) <= old(StackRaws(stack[..top])) + Raws(obj)
    {
      ghost var fs := stack[..top];
      var x := obj;
      while top > 0
        invariant ValidStack()
        invariant forall t :: Plug(fs, Done(obj, t)) == Plug(stack[..top], Done(x, t))
        invariant StackRaws(stack[..top]) + Raws(x) <= StackRaws(fs) + Raws(obj)
        decreases top
      {
        var completed, y := PushOnce(x);
        if !completed { return false; }
        x := y;
      }
      stack[0] := stack[0].(obj := x);
      return true;
    }

    /** From _fixed_trail_again: the trail at n, if all its bytes are there. q is where p stands behind it. */
    method ReadTrailAt(data: seq<byte>, n: nat) returns (g: Goto, q: nat, ghost slice: (nat, nat))
      requires Valid() && cs != CS_HEADER && n <= |data|
      modifies this, stack
      ensures ValidStack() && (!g.Push? ==> Valid()) && (g.FixedTrailAgain? || g.Out? ==> cs != CS_HEADER)
      ensures n <= q <= |data|
      ensures if g.Out? then q == n && |data| - q < trail else n < q
      ensures Reaches(old(stack[..top]), old(Pending(cs, trail)), data[n..],
        g, stack[..top], if g.FixedTrailAgain? || g.Out? then Pending(cs, trail) else [], data[q..])
      ensures referenced == (old(referenced) || (g.Push? && g.obj.Raw?))
      ensures StackRaws(stack[..top]) <= old(StackRaws(stack[..top]))
      ensures SliceOf(g, data, n, q, slice)
      ensures g.Failed? ==> CS_ARRAY_16 <= cs <= CS_MAP_32 && top == MAX_NESTING
    {
      if |data| - n < trail {
        return Out, n, (n, 0);
      }
      ghost var fs, pending := stack[..top], Pending(cs, trail);
      q, slice := n + trail, (n, trail);
      g := ReadTrail(data[n..q]);
      ReachesBy(fs, pending, data, n, q, g, stack[..top],
                if g.FixedTrailAgain? || g.Out? then Pending(cs, trail) else []);
    }

    /** The header at p. */
    method ReadHeaderAt(data: seq<byte>, p: nat) returns (g: Goto)
      requires Valid() && cs == CS_HEADER && p < |data|
      modifies this, stack
      ensures Valid() && (g.FixedTrailAgain? <==> cs != CS_HEADER) && !g.Out?
      ensures Reaches(old(stack[..top]), [], data[p..], g, stack[..top],
        if g.FixedTrailAgain? then Pending(cs, trail) else [], data[p + 1..])
      ensures referenced == (old(referenced) || (g.Push? && g.obj.Raw?))
      ensures StackRaws(stack[..top]) <= old(StackRaws(stack[..top]))
      ensures g.Push? ==> Raws(g.obj) == {}
      ensures g.Failed? ==> Stuck(top, cs, data[p])
    {
      ghost var fs := stack[..top];
      g := ReadHeader(data[p]);
      assert [] + data[p..p + 1] == [data[p]];
      ReachesBy(fs, [], data, p, p + 1, g, stack[..top], if g.FixedTrailAgain? then Pending(cs, trail) else []);
    }

    /**
     One item from p: the header and its trail, up to the next label. q is where p stands then, behind the last byte
     consumed; Out means too few bytes for the trail. slice tells which bytes of data a raw that was pushed points to.
     */
    method ReadItem(data: seq<byte>, p: nat) returns (g: Goto, q: nat, ghost slice: (nat, nat))
      requires Valid() && p < |data|
      modifies this, stack
      ensures ValidStack() && (!g.Push? ==> Valid()) && !g.FixedTrailAgain?
      ensures p <= q <= |data| && (g.Out? ==> |data| - q < trail && cs != CS_HEADER) && (!g.Out? ==> p < q)
      ensures Reaches(old(stack[..top]), old(Pending(cs, trail)), data[p..],
        g, stack[..top], if g.Out? then Pending(cs, trail) else [], data[q..])
      ensures referenced == (old(referenced) || (g.Push? && g.obj.Raw?))
      ensures StackRaws(stack[..top]) <= old(StackRaws(stack[..top]))
      ensures SliceOf(g, data, p, q, slice)
      ensures g.Failed? ==> Stuck(top, cs, data[q - 1])
    {
      ghost var fs, pending := stack[..top], Pending(cs, trail);
      g, q, slice := FixedTrailAgain, p, (p, 0);
      if cs == CS_HEADER {
        g := ReadHeaderAt(data, p);
        q := p + 1;
      }
      while g.FixedTrailAgain?
        invariant p <= q <= |data| && (g.Out? ==> |data| - q < trail) && (!g.Out? && !g.FixedTrailAgain? ==> p < q)
        invariant ValidStack() && (!g.Push? ==> Valid()) && (g.FixedTrailAgain? || g.Out? ==> cs != CS_HEADER)
        invariant Reaches(fs, pending, data[p..], g, stack[..top],
                          if g.FixedTrailAgain? || g.Out? then Pending(cs, trail) else [], data[q..])
        invariant referenced == (old(referenced) || (g.Push? && g.obj.Raw?))
        invariant StackRaws(stack[..top]) <= StackRaws(fs)
        invariant SliceOf(g, data, p, q, slice)
        invariant g.Failed? ==> Stuck(top, cs, data[q - 1])
        decreases |data| - q, g.FixedTrailAgain?
      {
        g, q, slice := ReadTrailAfter(data, p, q, fs, pending);
      }
    }

    /** ReadTrailAt, seen from where the item began. */
    method ReadTrailAfter(data: seq<byte>, ghost p: nat, n: nat, ghost fs: seq<Frame>, ghost pending: seq<byte>)
      returns (g: Goto, q: nat, ghost slice: (nat, nat))
      requires Valid() && cs != CS_HEADER && p <= n <= |data| && ValidFrames(fs)
      requires Reaches(fs, pending, data[p..], FixedTrailAgain, stack[..top], Pending(cs, trail), data[n..])
      modifies this, stack
      ensures ValidStack() && (!g.Push? ==> Valid()) && (g.FixedTrailAgain? || g.Out? ==> cs != CS_HEADER)
      ensures n <= q <= |data|
      ensures if g.Out? then q == n && |data| - q < trail else n < q
      ensures Reaches(fs, pending, data[p..], g, stack[..top],
        if g.FixedTrailAgain? || g.Out? then Pending(cs, trail) else [], data[q..])
      ensures referenced == (old(referenced) || (g.Push? && g.obj.Raw?))
      ensures StackRaws(stack[..top]) <= old(StackRaws(stack[..top]))
      ensures SliceOf(g, data, p, q, slice)
      ensures g.Failed? ==> CS_ARRAY_16 <= cs <= CS_MAP_32 && top == MAX_NESTING
    {
      ghost var pending1 := Pending(cs, trail);
      g, q, slice := ReadTrailAt(data, n);
      ReachesThen(fs, pending, data[p..], pending1, data[n..], g, stack[..top],
                  if g.FixedTrailAgain? || g.Out? then Pending(cs, trail) else [], data[q..]);
    }

    /** One round of the main loop: an item is read and, when complete, pushed. */
    method Round(data: seq<byte>, p: nat) returns (g: Goto, finished: bool, q: nat, ghost slices: seq<(nat, nat)>)
      requires Valid() && p < |data|
      modifies this, stack
      ensures ValidStack() && (!finished ==> !g.Push? && !g.FixedTrailAgain? && (!g.HeaderAgain? ==> Valid()))
      ensures p <= q <= |data|
      ensures if !finished && g.Out? then |data| - q < trail && cs != CS_HEADER else p < q
      ensures !finished ==> Reaches(old(stack[..top]), old(Pending(cs, trail)), data[p..],
        g, stack[..top], if g.Out? then Pending(cs, trail) else [], data[q..])
      ensures finished ==> top == 0
      ensures finished ==> Finishes(old(stack[..top]), old(Pending(cs, trail)), data[p..], stack[0].obj, data[q..])
      ensures referenced == (old(referenced) || slices != []) && SlicesWithin(slices, p, q) && |slices| <= 1
      ensures slices != [] ==> finished || g.HeaderAgain?
      ensures (if finished then Raws(stack[0].obj) else StackRaws(stack[..top]))
        <= old(StackRaws(stack[..top])) + Contents(data, slices)
      ensures !finished && g.Failed? ==> Hopeless(stack[..top], Pending(cs, trail), data[q - 1..])
    {
      ghost var fs, pending := stack[..top], Pending(cs, trail);
      ghost var slice;
      g, q, slice := ReadItem(data, p);
      finished, slices := false, [];
      if g.Push? {
        slices := if g.obj.Raw? then [slice] else [];
        assert g.obj.Raw? ==> slices[0] == slice && data[slice.0..slice.0 + slice.1] in Contents(data, slices);
        finished := PushValue(g.obj);
        g := HeaderAgain;
      } else if g.Failed? {
        StuckIsHopeless(stack[..top], cs, trail, data[q - 1..]);
      }
    }

    /**
     template_execute: decodes from data[off..] until the object is complete (1), the input ends (0), or it cannot be
     decoded (-1). q is the new offset.

     On 1, whatever follows, the outcome of the object is the one in stack[0].obj and the bytes behind q are untouched.
     On 0, whatever follows, decoding from q in the saved state has the outcome that decoding from off had before.
     On -1, whatever follows, there is no object, and running on from the saved state will not find one.
     slices are the pieces of data that raws of the new objects point to.
     */
    method Execute(data: seq<byte>, off: nat) returns (ret: int, q: nat, ghost slices: seq<(nat, nat)>)
      requires Valid() && off <= |data|
      modifies this, stack
      ensures -1 <= ret <= 1 && off <= q <= |data|
      ensures Stopped(old(stack[..top]), old(Pending(cs, trail)), data, off, ret, q)
      ensures referenced == (old(referenced) || slices != []) && SlicesWithin(slices, off, q)
      ensures slices != [] ==> off < q
      ensures (if ret == 1 then Raws(stack[0].obj) else StackRaws(stack[..top]))
        <= old(StackRaws(stack[..top])) + Contents(data, slices)
    {
      ghost var fs, pending := stack[..top], Pending(cs, trail);
      q, slices, ret := off, [], 0;
      if q == |data| {
        WaitingForMore(stack[..top], cs, trail, data[q..]);
        return;
      }
      var stopped := false;
      while !stopped
        invariant off <= q <= |data| && -1 <= ret <= 1
        invariant if stopped then Stopped(fs, pending, data, off, ret, q)
                  else Valid() && q < |data| && Resumes(fs, pending, data[off..], stack[..top], Pending(cs, trail), data[q..])
        invariant referenced == (old(referenced) || slices != []) && SlicesWithin(slices, off, q)
        invariant slices != [] ==> off < q
        invariant (if stopped && ret == 1 then Raws(stack[0].obj) else StackRaws(stack[..top]))
          <= StackRaws(fs) + Contents(data, slices)
        decreases if stopped then 0 else 1, |data| - q
      {
        ghost var more;
        stopped, ret, q, more := ExecuteRound(data, off, q, fs, pending);
        MoreContents(data, slices, more);
        slices := slices + more;
      }
    }

    /** What a run over data from off in the state (fs, pending) has come to when it stops. */
    ghost predicate Stopped(fs: seq<Frame>, pending: seq<byte>, data: seq<byte>, off: nat, ret: int, q: nat)
      requires ValidFrames(fs) && off <= |data| && q <= |data|
      reads this, stack
    {
      && ValidStack() && (ret != 1 ==> Valid())
      && match ret
         case 1 => top == 0 && Finishes(fs, pending, data[off..], stack[0].obj, data[q..])
         case 0 =>
           && Resumes(fs, pending, data[off..], stack[..top], Pending(cs, trail), data[q..])
           && Meaning(stack[..top], Pending(cs, trail), data[q..]) == More
           && (if cs == CS_HEADER then q == |data| else |data| - q < trail)
         case _ => Fails(fs, pending, data[off..]) && Hopeless(stack[..top], Pending(cs, trail), data[q..])
    }

    /** A round of the loop, and where it leaves the loop. */
    method ExecuteRound(data: seq<byte>, ghost off: nat, p: nat, ghost fs: seq<Frame>, ghost pending: seq<byte>)
      returns (stopped: bool, ret: int, q: nat, ghost more: seq<(nat, nat)>)
      requires Valid() && ValidFrames(fs) && off <= p < |data|
      requires Resumes(fs, pending, data[off..], stack[..top], Pending(cs, trail), data[p..])
      modifies this, stack
      ensures p <= q <= |data| && -1 <= ret <= 1
      ensures if stopped then Stopped(fs, pending, data, off, ret, q)
              else Valid() && p < q < |data| && Resumes(fs, pending, data[off..], stack[..top], Pending(cs, trail), data[q..])
      ensures referenced == (old(referenced) || more != []) && SlicesWithin(more, p, q) && |more| <= 1
      ensures more != [] ==> p < q
      ensures (if stopped && ret == 1 then Raws(stack[0].obj) else StackRaws(stack[..top]))
        <= old(StackRaws(stack[..top])) + Contents(data, more)
    {
      ghost var fs1, pending1 := stack[..top], Pending(cs, trail);
      var g, finished;
      g, finished, q, more := Round(data, p);
      stopped, ret := true, 0;
      if finished {
        ResumesThenFinishes(fs, pending, data[off..], fs1, pending1, data[p..], stack[0].obj, data[q..]);
        ret := 1;
        assert Stopped(fs, pending, data, off, ret, q);
      } else if g.Failed? {
        ResumesThenFails(fs, pending, data[off..], fs1, pending1, data[p..]);
        ret, q := -1, q - 1;
        assert Stopped(fs, pending, data, off, ret, q);
      } else {
        stopped := NextHeader(g, data, off, q, fs, pending, fs1, pending1, data[p..]);
      }
    }

    /** The end of a round: _header_again, or _out. */
    method NextHeader(g: Goto, data: seq<byte>, ghost off: nat, q: nat, ghost fs: seq<Frame>, ghost pending: seq<byte>,
                      ghost fs1: seq<Frame>, ghost pending1: seq<byte>, ghost s1: seq<byte>)
      returns (stopped: bool)
      requires ValidStack() && ValidFrames(fs) && ValidFrames(fs1) && off <= q <= |data|
      requires g.HeaderAgain? || (g.Out? && Valid() && |data| - q < trail && cs != CS_HEADER)
      requires Resumes(fs, pending, data[off..], fs1, pending1, s1)
      requires Reaches(fs1, pending1, s1, g, stack[..top], if g.Out? then Pending(cs, trail) else [], data[q..])
      modifies this`cs
      ensures stack[..top] == old(stack[..top]) && (g.Out? ==> stopped)
      ensures if stopped then Stopped(fs, pending, data, off, 0, q)
              else Valid() && q < |data| && Resumes(fs, pending, data[off..], stack[..top], Pending(cs, trail), data[q..])
    {
      if g.HeaderAgain? {
        cs := CS_HEADER;
      }
      ResumesThen(fs, pending, data[off..], fs1, pending1, s1, g, stack[..top], Pending(cs, trail), data[q..]);
      stopped := g.Out? || q == |data|;
      if stopped {
        WaitingForMore(stack[..top], cs, trail, data[q..]);
      }
    }
  }

  // ----- Running in pieces -----

  /** What a run from the state (fs, pending) over the bytes s comes to, and what it leaves behind an object. */
  ghost predicate RunsAs(fs: seq<Frame>, pending: seq<byte>, s: seq<byte>, ret: int, o: Object, rest: seq<byte>)
    requires ValidFrames(fs)
  {
    match Meaning(fs, pending, s)
    case Done(x, t) => ret == 1 && o == x && rest == t
    case More => ret == 0
    case Fail => ret == -1
  }

  lemma RunIsDecided(fs: seq<Frame>, pending: seq<byte>, s: seq<byte>, ret: int, o: Object, rest: seq<byte>)
    requires ValidFrames(fs) && -1 <= ret <= 1
    requires ret == 1 ==> Finishes(fs, pending, s, o, rest)
    requires ret == 0 ==> Meaning(fs, pending, s) == More
    requires ret == -1 ==> Fails(fs, pending, s)
    ensures RunsAs(fs, pending, s, ret, o, rest)
  {
    assert s + [] == s && rest + [] == rest;
    if ret != 0 {
      assert Meaning(fs, pending, s + []) == Meaning(fs, pending, s);
    }
  }

  lemma SplitAt(data: seq<byte>, p: nat, c: nat, t: seq<byte>)
    requires p <= c <= |data|
    ensures data[p..] + t == data[..c][p..] + (data[c..] + t)
  {
  }

  /** What was found on the input up to c holds for all of it. */
  lemma CutResumes(fs0: seq<Frame>, pending0: seq<byte>, data: seq<byte>, p: nat, c: nat,
                   fs1: seq<Frame>, pending1: seq<byte>, q: nat)
    requires ValidFrames(fs0) && ValidFrames(fs1) && p <= c <= |data| && q <= c
    requires Resumes(fs0, pending0, data[..c][p..], fs1, pending1, data[..c][q..])
    ensures Resumes(fs0, pending0, data[p..], fs1, pending1, data[q..])
  {
    forall t
      ensures Meaning(fs0, pending0, data[p..] + t) == Meaning(fs1, pending1, data[q..] + t)
    {
      SplitAt(data, p, c, t);
      SplitAt(data, q, c, t);
    }
  }

  lemma CutFinishes(fs: seq<Frame>, pending: seq<byte>, data: seq<byte>, p: nat, c: nat, o: Object, q: nat)
    requires ValidFrames(fs) && p <= c <= |data| && q <= c
    requires Finishes(fs, pending, data[..c][p..], o, data[..c][q..])
    ensures Finishes(fs, pending, data[p..], o, data[q..])
  {
    forall t
      ensures Meaning(fs, pending, data[p..] + t) == Done(o, data[q..] + t)
    {
      SplitAt(data, p, c, t);
      SplitAt(data, q, c, t);
    }
  }

  lemma CutFails(fs: seq<Frame>, pending: seq<byte>, data: seq<byte>, p: nat, c: nat)
    requires ValidFrames(fs) && p <= c <= |data| && Fails(fs, pending, data[..c][p..])
    ensures Fails(fs, pending, data[p..])
  {
    forall t
      ensures Meaning(fs, pending, data[p..] + t) == Fail
    {
      SplitAt(data, p, c, t);
    }
  }

  lemma ResumedFails(fs0: seq<Frame>, pending0: seq<byte>, s0: seq<byte>,
                     fs1: seq<Frame>, pending1: seq<byte>, s1: seq<byte>)
    requires ValidFrames(fs0) && ValidFrames(fs1)
    requires Resumes(fs0, pending0, s0, fs1, pending1, s1) && Fails(fs1, pending1, s1)
    ensures Fails(fs0, pending0, s0)
  {
  }

  lemma ResumedMore(fs0: seq<Frame>, pending0: seq<byte>, s0: seq<byte>,
                    fs1: seq<Frame>, pending1: seq<byte>, s1: seq<byte>)
    requires ValidFrames(fs0) && ValidFrames(fs1)
    requires Resumes(fs0, pending0, s0, fs1, pending1, s1) && Meaning(fs1, pending1, s1) == More
    ensures Meaning(fs0, pending0, s0) == More
  {
    assert Meaning(fs0, pending0, s0 + []) == Meaning(fs1, pending1, s1 + []);
    assert s0 + [] == s0 && s1 + [] == s1;
  }

  lemma ResumesTwice(fs0: seq<Frame>, pending0: seq<byte>, s0: seq<byte>,
                     fs1: seq<Frame>, pending1: seq<byte>, s1: seq<byte>,
                     fs2: seq<Frame>, pending2: seq<byte>, s2: seq<byte>)
    requires ValidFrames(fs0) && ValidFrames(fs1) && ValidFrames(fs2)
    requires Resumes(fs0, pending0, s0, fs1, pending1, s1) && Resumes(fs1, pending1, s1, fs2, pending2, s2)
    ensures Resumes(fs0, pending0, s0, fs2, pending2, s2)
  {
  }

  /** The run up to cut point c, in the middle of a run over data from off in the state (fs, pending). */
  method ExecuteUpTo(ctx: Context, data: seq<byte>, p: nat, c: nat, ghost off: nat, ghost fs: seq<Frame>,
                     ghost pending: seq<byte>)
    returns (ret: int, q: nat)
    requires ctx.Valid() && off <= p <= c <= |data| && ValidFrames(fs)
    requires Resumes(fs, pending, data[off..], ctx.stack[..ctx.top], Pending(ctx.cs, ctx.trail), data[p..])
    modifies ctx, ctx.stack
    ensures p <= q <= c && -1 <= ret <= 1 && ctx.ValidStack() && (ret == 0 ==> ctx.Valid())
    ensures ret == 1 ==> Finishes(fs, pending, data[off..], ctx.stack[0].obj, data[q..])
    ensures ret == 0 ==> Resumes(fs, pending, data[off..], ctx.stack[..ctx.top], Pending(ctx.cs, ctx.trail), data[q..])
    ensures ret == 0 && c == |data| ==> Meaning(ctx.stack[..ctx.top], Pending(ctx.cs, ctx.trail), data[q..]) == More
    ensures ret == 0 ==> if ctx.cs == CS_HEADER then q == c else c - q < ctx.trail
    ensures ret == -1 ==> Fails(fs, pending, data[off..])
  {
    ghost var fs1, pending1 := ctx.stack[..ctx.top], Pending(ctx.cs, ctx.trail);
    ghost var slices;
    ret, q, slices := ctx.Execute(data[..c], p);
    if ret == 1 {
      CutFinishes(fs1, pending1, data, p, c, ctx.stack[0].obj, q);
      ResumesThenFinishes(fs, pending, data[off..], fs1, pending1, data[p..], ctx.stack[0].obj, data[q..]);
    } else if ret == 0 {
      CutResumes(fs1, pending1, data, p, c, ctx.stack[..ctx.top], Pending(ctx.cs, ctx.trail), q);
      ResumesTwice(fs, pending, data[off..], fs1, pending1, data[p..],
                   ctx.stack[..ctx.top], Pending(ctx.cs, ctx.trail), data[q..]);
      assert c == |data| ==> data[..c] == data;
    } else {
      CutFails(fs1, pending1, data, p, c);
      ResumedFails(fs, pending, data[off..], fs1, pending1, data[p..]);
    }
  }

  /**
   The input arrives up to one cut point after the other, and the machine runs on each time from the state and offset
   it stopped with. Return code, object and the offset behind it are those of one run over all of the input, and when
   the input ends first, all of it is consumed but an incomplete trail.
   */
  method ExecuteInPieces(ctx: Context, data: seq<byte>, off: nat, cuts: seq<nat>) returns (ret: int, q: nat)
    requires ctx.Valid() && off <= |data|
    requires forall i, j | 0 <= i <= j < |cuts| :: off <= cuts[i] <= cuts[j] <= |data|
    modifies ctx, ctx.stack
    ensures off <= q <= |data|
    ensures RunsAs(old(ctx.stack[..ctx.top]), old(Pending(ctx.cs, ctx.trail)), data[off..], ret, ctx.stack[0].obj, data[q..])
    ensures ret == 0 ==> ctx.Valid() && if ctx.cs == CS_HEADER then q == |data| else |data| - q < ctx.trail
    ensures ret == 0 ==> Resumes(old(ctx.stack[..ctx.top]), old(Pending(ctx.cs, ctx.trail)), data[off..],
                                 ctx.stack[..ctx.top], Pending(ctx.cs, ctx.trail), data[q..])
  {
    ghost var fs, pending := ctx.stack[..ctx.top], Pending(ctx.cs, ctx.trail);
    q, ret := off, 0;
    var i := 0;
    while i <= |cuts|
      invariant 0 <= i <= |cuts| + 1 && ctx.Valid() && ret == 0
      invariant off <= q <= |data| && (i < |cuts| ==> q <= cuts[i])
      invariant Resumes(fs, pending, data[off..], ctx.stack[..ctx.top], Pending(ctx.cs, ctx.trail), data[q..])
      invariant i > |cuts| ==> Meaning(ctx.stack[..ctx.top], Pending(ctx.cs, ctx.trail), data[q..]) == More
      invariant i > |cuts| ==> if ctx.cs == CS_HEADER then q == |data| else |data| - q < ctx.trail
    {
      ret, q := ExecuteUpTo(ctx, data, q, if i < |cuts| then cuts[i] else |data|, off, fs, pending);
      if ret != 0 {
        RunIsDecided(fs, pending, data[off..], ret, ctx.stack[0].obj, data[q..]);
        return;
      }
      i := i + 1;
    }
    ResumedMore(fs, pending, data[off..], ctx.stack[..ctx.top], Pending(ctx.cs, ctx.trail), data[q..]);
    RunIsDecided(fs, pending, data[off..], ret, ctx.stack[0].obj, data[q..]);
  }

  /** Without cut points, that is one run. */
  method ExecuteAtOnce(ctx: Context, data: seq<byte>, off: nat) returns (ret: int, q: nat)
    requires ctx.Valid() && off <= |data|
    modifies ctx, ctx.stack
    ensures off <= q <= |data|
    ensures RunsAs(old(ctx.stack[..ctx.top]), old(Pending(ctx.cs, ctx.trail)), data[off..], ret, ctx.stack[0].obj, data[q..])
  {
    ghost var fs, pending := ctx.stack[..ctx.top], Pending(ctx.cs, ctx.trail);
    ghost var slices;
    ret, q, slices := ctx.Execute(data, off);
    if ret == 0 {
      ResumedMore(fs, pending, data[off..], ctx.stack[..ctx.top], Pending(ctx.cs, ctx.trail), data[q..]);
    }
    RunIsDecided(fs, pending, data[off..], ret, ctx.stack[0].obj, data[q..]);
  }

  /** A fresh machine decodes by the grammar. */
  lemma FreshMeaning(s: seq<byte>)
    ensures Meaning([], [], s) == Decode(s, MAX_NESTING)
  {
    assert [] + s == s;
  }

  // ----- Decoding one object from a complete buffer -----

  // msgpack_unpack_return
  const SUCCESS: int := 2
  const EXTRA_BYTES: int := 1
  const CONTINUE: int := 0
  const PARSE_ERROR: int := -1

  /**
   msgpack_unpack. The result is written with SUCCESS and EXTRA_BYTES only; the offset moves except on PARSE_ERROR.
   */
  method Unpack(data: seq<byte>, off: nat) returns (code: int, q: nat, result: Option<Object>)
    ensures |data| <= off ==> code == CONTINUE && q == off && result == None
    ensures off < |data| ==>
      match Decode(data[off..], MAX_NESTING)
      case Done(o, rest) =>
        && off <= q <= |data| && data[q..] == rest && result == Some(o)
        && code == if rest == [] then SUCCESS else EXTRA_BYTES
      case More => code == CONTINUE && off <= q <= |data| && result == None
      case Fail => code == PARSE_ERROR && q == off && result == None
  {
    if |data| <= off {
      return CONTINUE, off, None;
    }
    var ctx := new Context();
    FreshMeaning(data[off..]);
    assert data[off..] + [] == data[off..];
    var ret;
    ghost var slices;
    ret, q, slices := ctx.Execute(data, off);
    assert data[q..] + [] == data[q..];
    if ret < 0 {
      return PARSE_ERROR, off, None;
    }
    if ret == 0 {
      return CONTINUE, q, None;
    }
    return if q < |data| then EXTRA_BYTES else SUCCESS, q, Some(ctx.stack[0].obj);
  }
}
