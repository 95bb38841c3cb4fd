/**
 A whole assembly: any sequence of dasm_put calls, then dasm_link and dasm_encode. What the calls mean is a listing that
 knows nothing of buffers, chains and estimates.
 */
module DasmListing {
  import opened Options
  import opened DasmActions
  import opened Labels
  import opened DasmUnit
  import opened DasmLink
  import opened DasmCode
  import opened DasmLanding
  import opened Dasm

  datatype PutCall = PutCall(start: nat, args: seq<int>)

  datatype Listing = Listing(program: Program, active: nat)

  // ----- The listing of a sequence of calls -----

  /** A recorded step without its place in the buffers. */
  function Bare(al: seq<nat>, x: Item): Item
  {
    match x
    case Begin(_, _, start) => Begin(0, 0, start)
    case Act(_, _, p, _, arg, event) => Act(0, 0, p, false, arg, if Fits(al, x) && HasEvent(al, x) then event else 0)
  }

  function BareOp(op: Op): Item
  {
    match op
    case Call(start) => Begin(0, 0, start)
    case Do(p, arg) => Act(0, 0, p, false, arg, 0)
  }

  /** The program with one more step in section s. Label events are numbered in order. */
  function Noted(al: seq<nat>, p: Program, s: nat, op: Op): Program
    requires s < |p.progs|
  {
    var x, n := BareOp(op), |p.events|;
    if Fits(al, x) && HasEvent(al, x) then
      Program(p.progs[s := p.progs[s] + [Act(0, 0, x.p, false, x.arg, n)]],
              p.events + [EventOf(al, Act(n, 0, x.p, false, x.arg, n))], p.owner[n := (s, |p.progs[s]|)])
    else p.(progs := p.progs[s := p.progs[s] + [x]])
  }

  function NotedAll(al: seq<nat>, p: Program, s: nat, ops: seq<Op>): (q: Program)
    requires s < |p.progs|
    ensures |q.progs| == |p.progs|
  {
    if ops == [] then p else Noted(al, NotedAll(al, p, s, ops[..|ops| - 1]), s, ops[|ops| - 1])
  }

  function StepsOf(al: seq<nat>, c: PutCall): seq<Op>
  {
    [Call(c.start)] + Actions(al, c.start, c.args)
  }

  /** The section that is active after a call: another one if its last action says so. */
  function NextActive(al: seq<nat>, ops: seq<Op>, active: nat): nat
  {
    if ops != [] && ops[|ops| - 1].Do? && ops[|ops| - 1].p < |al| && Action(al[ops[|ops| - 1].p]) == SECTION
    then al[ops[|ops| - 1].p] % 0x100 else active
  }

  /** The listing after the first i calls. */
  function Listed(al: seq<nat>, maxSection: nat, calls: seq<PutCall>, i: nat): (r: Listing)
    requires i <= |calls|
    ensures |r.program.progs| == maxSection
  {
    if i == 0 then Listing(Program(seq(maxSection, _ => []), [], map[]), 0) else
      var before := Listed(al, maxSection, calls, i - 1);
      if before.active >= maxSection then before
      else Listing(NotedAll(al, before.program, before.active, StepsOf(al, calls[i - 1])),
                   NextActive(al, StepsOf(al, calls[i - 1]), before.active))
  }

  // ----- What the buffers record is the listing -----

  predicate SameEvent(e: Event, f: Event)
  {
    e.name == f.name && (e.Forward? <==> f.Forward?) && (e.Define? <==> f.Define?)
  }

  ghost predicate SectionMatches(al: seq<nat>, q: Program, p: Program, s: nat)
    requires s < |q.progs| == |p.progs|
  {
    |q.progs[s]| == |p.progs[s]| && forall k | 0 <= k < |q.progs[s]| :: p.progs[s][k] == Bare(al, q.progs[s][k])
  }

  ghost predicate EventMatches(q: Program, p: Program, e: nat)
    requires e < |q.events| == |p.events|
  {
    && SameEvent(q.events[e], p.events[e]) && p.events[e].pos == e
    && q.events[e].pos in q.owner && e in p.owner && p.owner[e] == q.owner[q.events[e].pos]
  }

  /** p is q without buffer positions. */
  ghost predicate Matches(al: seq<nat>, q: Program, p: Program)
  {
    && |q.progs| == |p.progs| && |q.events| == |p.events|
    && (forall s {:trigger SectionMatches(al, q, p, s)} | 0 <= s < |q.progs| :: SectionMatches(al, q, p, s))
    && (forall e {:trigger EventMatches(q, p, e)} | 0 <= e < |q.events| :: EventMatches(q, p, e))
  }

  /** q with one more item. */
  ghost function Plus(al: seq<nat>, q: Program, s: nat, x: Item): Program
    requires s < |q.progs| && Fits(al, x)
  {
    q.(progs := q.progs[s := q.progs[s] + [x]],
       events := q.events + if HasEvent(al, x) then [EventOf(al, x)] else [])
  }

  lemma PlusMatches(al: seq<nat>, q: Program, p: Program, s: nat, x: Item)
    requires Matches(al, q, p) && s < |q.progs| && Fits(al, x)
    requires HasEvent(al, x) ==> x.event == |q.events| && x.at in q.owner && q.owner[x.at] == (s, |q.progs[s]|)
    ensures Matches(al, Plus(al, q, s, x), Noted(al, p, s, OpOf(x)))
  {
    var q', p' := Plus(al, q, s, x), Noted(al, p, s, OpOf(x));
    forall r | 0 <= r < |q'.progs|
      ensures SectionMatches(al, q', p', r)
    {
      assert SectionMatches(al, q, p, r);
    }
    forall e | 0 <= e < |q'.events|
      ensures EventMatches(q', p', e)
    {
      if e < |q.events| {
        assert EventMatches(q, p, e);
      } else {
        assert SectionMatches(al, q, p, s);
      }
    }
  }

  /** Recording all items of a call, where the owners are those of w already. */
  ghost function PlusAll(al: seq<nat>, q: Program, s: nat, xs: seq<Item>): Program
    requires s < |q.progs| && forall x | x in xs :: Fits(al, x)
  {
    q.(progs := q.progs[s := q.progs[s] + xs], events := q.events + EventsOf(al, xs))
  }

  lemma PlusAllSnoc(al: seq<nat>, q: Program, s: nat, xs: seq<Item>, x: Item)
    requires s < |q.progs| && Fits(al, x) && forall y | y in xs :: Fits(al, y)
    ensures PlusAll(al, q, s, xs + [x]) == Plus(al, PlusAll(al, q, s, xs), s, x)
  {
    EventsOfSnoc(al, xs, x);
    AppendTwice(q.progs, s, xs, x);
    AppendedOnce(q.events, EventsOf(al, xs), if HasEvent(al, x) then [EventOf(al, x)] else []);
  }

  lemma AppendedOnce(a: seq<Event>, b: seq<Event>, c: seq<Event>)
    ensures a + (b + c) == a + b + c
  {
  }

  lemma AppendTwice(progs: seq<seq<Item>>, s: nat, xs: seq<Item>, x: Item)
    requires s < |progs|
    ensures progs[s := progs[s] + (xs + [x])] == progs[s := progs[s] + xs][s := progs[s] + xs + [x]]
  {
    assert progs[s] + (xs + [x]) == progs[s] + xs + [x];
  }

  /** Item j of the call has the event number that the listing gives it, and owns its position. */
  ghost predicate Numbered(al: seq<nat>, q: Program, s: nat, xs: seq<Item>, j: nat)
    requires s < |q.progs| && j < |xs| && forall x | x in xs :: Fits(al, x)
  {
    HasEvent(al, xs[j]) ==>
      && xs[j].event == |q.events| + |EventsOf(al, xs[..j])|
      && xs[j].at in q.owner && q.owner[xs[j].at] == (s, |q.progs[s]| + j)
  }

  lemma {:induction false} CallMatches(al: seq<nat>, q: Program, p: Program, s: nat, xs: seq<Item>, j: nat)
    requires Matches(al, q, p) && s < |q.progs| && j <= |xs| && forall x | x in xs :: Fits(al, x)
    requires forall i | 0 <= i < |xs| :: Numbered(al, q, s, xs, i)
    ensures Matches(al, PlusAll(al, q, s, xs[..j]), NotedAll(al, p, s, Ops(xs)[..j]))
  {
    if j == 0 {
      assert q.progs[s] + [] == q.progs[s] && q.events + [] == q.events;
      assert xs[..0] == [] && Ops(xs)[..0] == [] && q.progs[s := q.progs[s]] == q.progs;
      assert PlusAll(al, q, s, []) == q;
    } else {
      var x := xs[j - 1];
      CallMatches(al, q, p, s, xs, j - 1);
      assert xs[..j] == xs[..j - 1] + [x] && Ops(xs)[..j][..j - 1] == Ops(xs)[..j - 1] && Ops(xs)[..j][j - 1] == OpOf(x);
      assert x in xs && Numbered(al, q, s, xs, j - 1);
      PlusMatches(al, PlusAll(al, q, s, xs[..j - 1]), NotedAll(al, p, s, Ops(xs)[..j - 1]), s, x);
      PlusAllSnoc(al, q, s, xs[..j - 1], x);
    }
  }

  /** Where the events of a prefix stand among all events. */
  lemma {:induction false} EventAt(al: seq<nat>, xs: seq<Item>, j: nat)
    requires j < |xs| && (forall x | x in xs :: Fits(al, x)) && HasEvent(al, xs[j])
    ensures |EventsOf(al, xs[..j])| < |EventsOf(al, xs)| && EventsOf(al, xs)[|EventsOf(al, xs[..j])|] == EventOf(al, xs[j])
    decreases |xs|
  {
    var n := |xs| - 1;
    if j < n {
      assert xs[..n][..j] == xs[..j];
      EventAt(al, xs[..n], j);
    }
  }

  /** The items of a call are numbered as the listing numbers them. */
  lemma CallIsNumbered(al: seq<nat>, u: Unit, w: Unit, s: nat, xs: seq<Item>, j: nat)
    requires UnitOk(al, w) && DistinctPositions(w.events) && ExtendsBy(al, u, w, s, xs) && j < |xs|
    ensures Numbered(al, Program(u.progs, u.events, w.owner), s, xs, j)
  {
    var x, k := xs[j], |u.progs[s]| + j;
    assert x in xs && w.progs[s][k] == x;
    if HasEvent(al, x) {
      EventAt(al, xs, j);
      var e := |u.events| + |EventsOf(al, xs[..j])|;
      assert w.events[e] == EventOf(al, x);
      assert ItemEventOk(al, w, s, k) && SlotOk(al, w, s, k);
      assert w.events[x.event].pos == x.at == w.events[e].pos;
    }
  }

  /** Owners of recorded positions do not change. */
  lemma OwnersKept(al: seq<nat>, u: Unit, w: Unit, s: nat, xs: seq<Item>, p: Program)
    requires UnitOk(al, u) && UnitOk(al, w) && ExtendsBy(al, u, w, s, xs) && Matches(al, ProgramOf(u), p)
    ensures Matches(al, Program(u.progs, u.events, w.owner), p)
  {
    var q := Program(u.progs, u.events, w.owner);
    forall r | 0 <= r < |q.progs|
      ensures SectionMatches(al, q, p, r)
    {
      assert SectionMatches(al, ProgramOf(u), p, r);
    }
    forall e | 0 <= e < |q.events|
      ensures EventMatches(q, p, e)
    {
      assert EventMatches(ProgramOf(u), p, e) && EventOwned(al, u, e);
      var (r, k) := u.owner[u.events[e].pos];
      assert w.progs[r][k] == u.progs[r][k] && SlotOk(al, w, r, k);
    }
  }

  /** One call: the listing goes along with what is recorded. */
  lemma PutMatches(al: seq<nat>, u: Unit, w: Unit, s: nat, ops: seq<Op>, p: Program)
    requires UnitOk(al, u) && UnitOk(al, w) && DistinctPositions(w.events)
    requires Extends(al, u, w, s, ops) && Matches(al, ProgramOf(u), p) && s < |p.progs|
    ensures Matches(al, ProgramOf(w), NotedAll(al, p, s, ops))
  {
    var xs :| ExtendsBy(al, u, w, s, xs) && Ops(xs) == ops;
    var q := Program(u.progs, u.events, w.owner);
    OwnersKept(al, u, w, s, xs, p);
    forall i | 0 <= i < |xs|
      ensures Numbered(al, q, s, xs, i)
    {
      CallIsNumbered(al, u, w, s, xs, i);
    }
    CallMatches(al, q, p, s, xs, |xs|);
    assert xs[..|xs|] == xs && Ops(xs)[..|xs|] == ops;
    assert PlusAll(al, q, s, xs) == ProgramOf(w);
  }

  // ----- So the code is that of the listing -----

  lemma {:induction false} SameVisible(es: seq<Event>, fs: seq<Event>, l: Label)
    requires |es| == |fs| && forall i | 0 <= i < |es| :: SameEvent(es[i], fs[i])
    ensures VisibleDefinition(es, l) == VisibleDefinition(fs, l)
  {
    if es != [] {
      SameVisible(es[..|es| - 1], fs[..|es| - 1], l);
    }
  }

  lemma {:induction false} SameNext(es: seq<Event>, fs: seq<Event>, i: nat, l: Label)
    requires i <= |es| == |fs| && forall j | 0 <= j < |es| :: SameEvent(es[j], fs[j])
    ensures NextDefinition(es, i, l) == NextDefinition(fs, i, l)
    decreases |es| - i
  {
    if i < |es| {
      SameNext(es, fs, i + 1, l);
    }
  }

  lemma SameResolve(al: seq<nat>, q: Program, p: Program, i: nat)
    requires Matches(al, q, p) && i < |q.events| && !q.events[i].Define?
    ensures !p.events[i].Define? && Resolve(q.events, i) == Resolve(p.events, i)
  {
    forall e | 0 <= e < |q.events|
      ensures SameEvent(q.events[e], p.events[e])
    {
      assert EventMatches(q, p, e);
    }
    SameVisible(q.events[..i], p.events[..i], q.events[i].name);
    SameNext(q.events, p.events, i + 1, q.events[i].name);
  }

  lemma AllResolvedTransfers(al: seq<nat>, q: Program, p: Program)
    requires Matches(al, q, p) && AllResolved(p.events)
    ensures AllResolved(q.events)
  {
    forall i | 0 <= i < |q.events| && !q.events[i].Define?
      ensures Resolve(q.events, i) >= 0
    {
      SameResolve(al, q, p, i);
    }
  }

  lemma PlacesMatch(al: seq<nat>, q: Program, p: Program, s: nat, k: nat)
    requires Matches(al, q, p)
    ensures Place(q.progs, s, k) <==> Place(p.progs, s, k)
  {
    if s < |q.progs| {
      assert SectionMatches(al, q, p, s);
    }
  }

  lemma {:induction false} OffsetsMatch(al: seq<nat>, q: Program, p: Program, s: nat, k: nat)
    requires Matches(al, q, p) && Place(q.progs, s, k) && Place(p.progs, s, k)
    ensures Off(al, q.progs, s, k) == Off(al, p.progs, s, k)
    decreases s, k
  {
    if s > 0 || k > 0 {
      var r := if k > 0 then s else s - 1;
      assert SectionMatches(al, q, p, r);
      OffsetsMatch(al, q, p, r, if k > 0 then k - 1 else |q.progs[r]|);
    }
  }

  lemma AddressesMatch(al: seq<nat>, q: Program, p: Program, d: nat)
    requires Matches(al, q, p) && d < |q.events|
    ensures Address(al, q, d) == Address(al, p, d)
  {
    assert EventMatches(q, p, d);
    var (s, k) := p.owner[d];
    PlacesMatch(al, q, p, s, k);
    if Place(q.progs, s, k) {
      OffsetsMatch(al, q, p, s, k);
    }
  }

  lemma ApplyMatches(al: seq<nat>, q: Program, p: Program, ext: Externs, code: seq<Word32>, x: Item)
    requires Matches(al, q, p) && Words(al)
    ensures Apply(al, q, ext, code, x) == Apply(al, p, ext, code, Bare(al, x))
  {
    if Fits(al, x) && RefersItem(al, x) && x.event < |q.events| {
      assert EventMatches(q, p, x.event);
      if !q.events[x.event].Define? {
        SameResolve(al, q, p, x.event);
        if Resolve(q.events, x.event) >= 0 {
          AddressesMatch(al, q, p, Resolve(q.events, x.event));
        }
      }
    }
  }

  lemma {:induction false} CodeMatches(al: seq<nat>, q: Program, p: Program, ext: Externs, s: nat, k: nat)
    requires Matches(al, q, p) && Words(al) && Place(q.progs, s, k) && Place(p.progs, s, k)
    ensures Code(al, q, ext, s, k) == Code(al, p, ext, s, k)
    decreases s, k
  {
    if s > 0 || k > 0 {
      var r := if k > 0 then s else s - 1;
      assert SectionMatches(al, q, p, r);
      CodeMatches(al, q, p, ext, r, if k > 0 then k - 1 else |q.progs[r]|);
      if k > 0 {
        ApplyMatches(al, q, p, ext, Code(al, q, ext, s, k - 1), q.progs[s][k - 1]);
      }
    }
  }

  /** Every reference goes to its target, and every immediate is its argument, as far as the fields reach. */
  ghost predicate AllLand(al: seq<nat>, p: Program, ext: Externs)
    requires Words(al)
  {
    forall s, k {:trigger PatchLands(al, p, ext, s, k)} | 0 <= s < |p.progs| && 0 <= k < |p.progs[s]| ::
      PatchLands(al, p, ext, s, k)
  }

  lemma ListingLands(al: seq<nat>, u: Unit, p: Program, ext: Externs)
    requires UnitOk(al, u) && Words(al) && Matches(al, ProgramOf(u), p)
    ensures AllLand(al, p, ext)
  {
    var q := ProgramOf(u);
    forall s, k | 0 <= s < |p.progs| && 0 <= k < |p.progs[s]|
      ensures PatchLands(al, p, ext, s, k)
    {
      assert SectionMatches(al, q, p, s);
      if PatchItem(al, p.progs[s][k]) {
        PatchHasWord(al, u, ext, s, k);
        CodeMatches(al, q, p, ext, s, k);
      }
      CodeLands(al, p, ext, s, k);
    }
  }

  // ----- Buffer positions -----

  /** How many buffer positions the first n steps of a section take. */
  function PositionsUpTo(al: seq<nat>, prog: seq<Item>, n: nat): nat
    requires n <= |prog|
    decreases n
  {
    if n == 0 then 0 else
      PositionsUpTo(al, prog, n - 1) + if Fits(al, prog[n - 1]) then SlotCount(al, prog[n - 1]) else 0
  }

  function Positions(al: seq<nat>, prog: seq<Item>): nat
  {
    PositionsUpTo(al, prog, |prog|)
  }

  lemma {:induction false} PositionsMatch(al: seq<nat>, xs: seq<Item>, ys: seq<Item>, n: nat)
    requires n <= |xs| == |ys| && forall k | 0 <= k < |xs| :: ys[k] == Bare(al, xs[k])
    ensures PositionsUpTo(al, xs, n) == PositionsUpTo(al, ys, n)
    decreases n
  {
    if n > 0 {
      PositionsMatch(al, xs, ys, n - 1);
    }
  }

  /** The first position after k items of a section. */
  lemma {:induction false} PositionAfter(al: seq<nat>, u: Unit, s: nat, k: nat)
    requires UnitOk(al, u) && s < |u.progs| && k <= |u.progs[s]|
    ensures At(u, s, k) == s * SECTION_SIZE + PositionsUpTo(al, u.progs[s], k)
    decreases k
  {
    if k == 0 {
      SectionOpens(al, u, s);
    } else {
      PositionAfter(al, u, s, k - 1);
      WalkOn(al, u, s, k - 1);
    }
  }

  lemma SectionPosition(al: seq<nat>, u: Unit, p: Program, s: nat)
    requires UnitOk(al, u) && Matches(al, ProgramOf(u), p) && s < |u.progs|
    ensures s < |p.progs| && u.sections[s].pos == s * SECTION_SIZE + Positions(al, p.progs[s])
  {
    PositionAfter(al, u, s, |u.progs[s]|);
    assert SectionMatches(al, ProgramOf(u), p, s);
    PositionsMatch(al, u.progs[s], p.progs[s], |u.progs[s]|);
  }

  lemma {:induction false} PositionsOfPrefix(al: seq<nat>, prog: seq<Item>, x: Item, n: nat)
    requires n <= |prog|
    ensures PositionsUpTo(al, prog + [x], n) == PositionsUpTo(al, prog, n)
    decreases n
  {
    if n > 0 {
      PositionsOfPrefix(al, prog, x, n - 1);
    }
  }

  lemma NotedGrows(al: seq<nat>, p: Program, s: nat, op: Op, r: nat)
    requires s < |p.progs| && r < |p.progs|
    ensures Positions(al, p.progs[r]) <= Positions(al, Noted(al, p, s, op).progs[r])
  {
    var after := Noted(al, p, s, op);
    if r == s {
      var x := after.progs[s][|p.progs[s]|];
      assert after.progs[s] == p.progs[s] + [x];
      PositionsOfPrefix(al, p.progs[s], x, |p.progs[s]|);
    }
  }

  lemma {:induction false} PositionsGrow(al: seq<nat>, p: Program, s: nat, ops: seq<Op>, r: nat)
    requires s < |p.progs| && r < |p.progs|
    ensures Positions(al, p.progs[r]) <= Positions(al, NotedAll(al, p, s, ops).progs[r])
  {
    if ops != [] {
      PositionsGrow(al, p, s, ops[..|ops| - 1], r);
      NotedGrows(al, NotedAll(al, p, s, ops[..|ops| - 1]), s, ops[|ops| - 1], r);
    }
  }

  /** The section takes n positions after i calls. */
  ghost predicate Takes(al: seq<nat>, maxSection: nat, calls: seq<PutCall>, i: nat, r: nat, n: nat)
    requires i <= |calls| && r < maxSection
  {
    n == Positions(al, Listed(al, maxSection, calls, i).program.progs[r])
  }

  lemma {:induction false} PositionsOnlyGrow(al: seq<nat>, maxSection: nat, calls: seq<PutCall>, i: nat, j: nat, r: nat)
    requires i <= j <= |calls| && r < maxSection
    ensures forall m, n {:trigger Takes(al, maxSection, calls, i, r, m), Takes(al, maxSection, calls, j, r, n)} |
              Takes(al, maxSection, calls, i, r, m) && Takes(al, maxSection, calls, j, r, n) :: m <= n
    decreases j
  {
    if i < j {
      var k := CallGrows(al, maxSection, calls, j, r);
      PositionsOnlyGrow(al, maxSection, calls, i, j - 1, r);
    } else {
      TakesOnce(al, maxSection, calls, i, r);
    }
  }

  lemma TakesOnce(al: seq<nat>, maxSection: nat, calls: seq<PutCall>, i: nat, r: nat)
    requires i <= |calls| && r < maxSection
    ensures forall m, n {:trigger Takes(al, maxSection, calls, i, r, m), Takes(al, maxSection, calls, i, r, n)} |
              Takes(al, maxSection, calls, i, r, m) && Takes(al, maxSection, calls, i, r, n) :: m == n
  {
  }

  lemma {:induction false} CallGrows(al: seq<nat>, maxSection: nat, calls: seq<PutCall>, j: nat, r: nat)
    returns (k: nat)
    requires 0 < j <= |calls| && r < maxSection
    ensures Takes(al, maxSection, calls, j - 1, r, k)
    ensures forall n {:trigger Takes(al, maxSection, calls, j, r, n)} | Takes(al, maxSection, calls, j, r, n) :: k <= n
  {
    var before := Listed(al, maxSection, calls, j - 1);
    k := Positions(al, before.program.progs[r]);
    if before.active < maxSection {
      PositionsGrow(al, before.program, before.active, StepsOf(al, calls[j - 1]), r);
    }
  }

  // ----- The run -----

  /** The steps end with an action that stops the call, with a section number in range. */
  predicate EndsCall(al: seq<nat>, ops: seq<Op>, maxSection: nat)
  {
    ops != [] && ops[|ops| - 1].Do? &&
      var stop := ops[|ops| - 1].p;
      stop < |al| && (Action(al[stop]) == SECTION ==> al[stop] % 0x100 < maxSection)
  }

  lemma EndsBehind(al: seq<nat>, op: Op, ops: seq<Op>, maxSection: nat)
    requires EndsCall(al, ops, maxSection)
    ensures EndsCall(al, [op] + ops, maxSection)
  {
    assert ([op] + ops)[|ops|] == ops[|ops| - 1];
  }

  lemma {:induction false} ActionsEnd(al: seq<nat>, p: nat, word: bool, args: seq<int>, room: nat, lgCount: nat, pcCount: nat,
                                      maxSection: nat)
    requires CallOk(al, p, word, args, room, lgCount, pcCount, maxSection)
    ensures EndsCall(al, Actions(al, p, args), maxSection)
    decreases |al| - p
  {
    if Action(al[p]) > SECTION {
      var rest := ArgumentsAfter(al[p], args);
      ActionsEnd(al, After(al, p), WordAfter(al[p], word), rest, RoomAfter(al[p], room), lgCount, pcCount, maxSection);
      EndsBehind(al, Do(p, Argument(al[p], args)), Actions(al, After(al, p), rest), maxSection);
    }
  }

  lemma ActiveMatches(al: seq<nat>, u: Unit, w: Unit, s: nat, ops: seq<Op>, section: nat)
    requires Extends(al, u, w, s, ops) && ops != [] && ops[|ops| - 1].Do? && ops[|ops| - 1].p < |al|
    requires var stop := LastStop(al, w, s);
      stop < |al| && section == if Action(al[stop]) == SECTION then al[stop] % 0x100 else s
    ensures section == NextActive(al, ops, s)
  {
    var xs :| ExtendsBy(al, u, w, s, xs) && Ops(xs) == ops;
    assert w.progs[s][|w.progs[s]| - 1] == xs[|xs| - 1];
  }

  /** What dasm_put demands of each call. */
  predicate CallsOk(al: seq<nat>, calls: seq<PutCall>, lgCount: nat, pcCount: nat, maxSection: nat)
  {
    forall c | c in calls :: CallOk(al, c.start, false, c.args, MAXSECPOS, lgCount, pcCount, maxSection)
  }

  /** The sections stay within their range of buffer positions. */
  predicate SectionsFit(al: seq<nat>, p: Program)
  {
    forall s | 0 <= s < |p.progs| :: Positions(al, p.progs[s]) + MAXSECPOS + 1 < SECTION_SIZE
  }

  /** After the first i calls, the assembler has recorded their listing. */
  ghost predicate Recording(a: Assembler, calls: seq<PutCall>, i: nat)
    requires i <= |calls|
    reads a
  {
    && a.Valid() && a.section == Listed(a.actions, |a.sections|, calls, i).active
    && Matches(a.actions, ProgramOf(a.unit), Listed(a.actions, |a.sections|, calls, i).program)
  }

  lemma NothingRecorded(al: seq<nat>, u: Unit, maxSection: nat, calls: seq<PutCall>)
    requires |u.progs| == maxSection && (forall s | 0 <= s < maxSection :: u.progs[s] == []) && u.events == []
    ensures Matches(al, ProgramOf(u), Listed(al, maxSection, calls, 0).program)
  {
  }

  /** One call of dasm_put. */
  method PutNext(a: Assembler, calls: seq<PutCall>, i: nat)
    requires i < |calls| && Recording(a, calls, i) && CallsOk(a.actions, calls, |a.lg|, |a.pc|, |a.sections|)
    requires SectionsFit(a.actions, Listed(a.actions, |a.sections|, calls, |calls|).program)
    modifies a
    ensures |a.sections| == |old(a.sections)| && |a.lg| == |old(a.lg)| && |a.pc| == |old(a.pc)|
    ensures a.globals == old(a.globals)
    ensures Recording(a, calls, i + 1)
  {
    var c := calls[i];
    ghost var n, u, s := |a.sections|, a.unit, a.section;
    ghost var p, ops := Listed(a.actions, n, calls, i).program, StepsOf(a.actions, c);
    SectionPosition(a.actions, u, p, s);
    PositionsOnlyGrow(a.actions, n, calls, i, |calls|, s);
    assert Takes(a.actions, n, calls, i, s, Positions(a.actions, p.progs[s]));
    assert Takes(a.actions, n, calls, |calls|, s, Positions(a.actions, Listed(a.actions, n, calls, |calls|).program.progs[s]));
    assert c in calls;
    ActionsEnd(a.actions, c.start, false, c.args, MAXSECPOS, |a.lg|, |a.pc|, n);
    a.Put(c.start, c.args);
    ActiveMatches(a.actions, u, a.unit, s, ops, a.section);
    PutMatches(a.actions, u, a.unit, s, ops, p);
  }

  /** The code and the table of globals are those of the listing p, and the code lands. */
  ghost predicate Assembled(al: seq<nat>, p: Program, ext: Externs, code: seq<Word32>, globals0: seq<Option<nat>>,
                            globals: seq<Option<nat>>)
    requires Words(al)
  {
    && code == Code(al, p, ext, |p.progs|, 0)
    && globals == Globals(al, p.progs, globals0, |p.progs|, 0)
    && AllLand(al, p, ext)
  }

  /**
   Any calls of dasm_put, dasm_link and dasm_encode, on a fresh assembler: the code is that of the listing, the table
   of globals is, too, and there is no phase error. In that code every reference lands at the address of the definition
   that it is meant to reach, exactly when the instruction can express the displacement.
   */
  method Assemble(a: Assembler, calls: seq<PutCall>) returns (buffer: array<Word32>, phaseError: bool)
    requires a.Valid() && Words(a.actions) && a.section == 0
    requires (forall s | 0 <= s < |a.unit.progs| :: a.unit.progs[s] == []) && a.unit.events == []
    requires CallsOk(a.actions, calls, |a.lg|, |a.pc|, |a.sections|)
    requires var p := Listed(a.actions, |a.sections|, calls, |calls|).program;
      SectionsFit(a.actions, p) && AllResolved(p.events)
    modifies a
    ensures !phaseError && |a.sections| == |old(a.sections)|
    ensures Assembled(a.actions, Listed(a.actions, |a.sections|, calls, |calls|).program, a.externs, buffer[..],
                      old(a.globals), a.globals)
  {
    PutAll(a, calls);
    buffer, phaseError := Finish(a, Listed(a.actions, |a.sections|, calls, |calls|).program);
  }

  lemma StartRecording(a: Assembler, calls: seq<PutCall>)
    requires a.Valid() && a.section == 0
    requires (forall s | 0 <= s < |a.unit.progs| :: a.unit.progs[s] == []) && a.unit.events == []
    ensures Recording(a, calls, 0)
  {
    NothingRecorded(a.actions, a.unit, |a.sections|, calls);
  }

  method PutAll(a: Assembler, calls: seq<PutCall>)
    requires a.Valid() && a.section == 0
    requires (forall s | 0 <= s < |a.unit.progs| :: a.unit.progs[s] == []) && a.unit.events == []
    requires CallsOk(a.actions, calls, |a.lg|, |a.pc|, |a.sections|)
    requires SectionsFit(a.actions, Listed(a.actions, |a.sections|, calls, |calls|).program)
    modifies a
    ensures |a.sections| == |old(a.sections)| && a.globals == old(a.globals) && Recording(a, calls, |calls|)
  {
    var i := 0;
    StartRecording(a, calls);
    while i < |calls|
      invariant 0 <= i <= |calls| && Recording(a, calls, i) && a.globals == old(a.globals)
      invariant |a.sections| == |old(a.sections)| && |a.lg| == |old(a.lg)| && |a.pc| == |old(a.pc)|
    {
      PutNext(a, calls, i);
      i := i + 1;
    }
  }

  /** dasm_link and dasm_encode. */
  method Finish(a: Assembler, ghost p: Program) returns (buffer: array<Word32>, phaseError: bool)
    requires a.Valid() && Words(a.actions) && Matches(a.actions, ProgramOf(a.unit), p) && AllResolved(p.events)
    modifies a
    ensures !phaseError && |a.sections| == |old(a.sections)|
    ensures Assembled(a.actions, p, a.externs, buffer[..], old(a.globals), a.globals)
  {
    ghost var q, u := ProgramOf(a.unit), a.unit;
    AllResolvedTransfers(a.actions, q, p);
    a.Link();
    CodeLength(a.actions, u, a.externs, |q.progs|, 0);
    buffer := new Word32[a.codesize / 4];
    phaseError := a.Encode(buffer);
    assert buffer[..] == buffer[..a.codesize / 4];
    ListingIsAssembled(a.actions, u, p, a.externs, old(a.globals));
  }

  /** The code of the recorded unit is that of the listing. */
  lemma ListingIsAssembled(al: seq<nat>, u: Unit, p: Program, ext: Externs, globals: seq<Option<nat>>)
    requires UnitOk(al, u) && Words(al) && Matches(al, ProgramOf(u), p)
    ensures Assembled(al, p, ext, Code(al, ProgramOf(u), ext, |u.progs|, 0), globals,
                      Globals(al, u.progs, globals, |u.progs|, 0))
  {
    ListingLands(al, u, p, ext);
    CodeMatches(al, ProgramOf(u), p, ext, |u.progs|, 0);
    GlobalsMatch(al, ProgramOf(u), p, globals, |u.progs|, 0);
  }

  lemma {:induction false} GlobalsMatch(al: seq<nat>, q: Program, p: Program, globals: seq<Option<nat>>, s: nat, k: nat)
    requires Matches(al, q, p) && Place(q.progs, s, k) && Place(p.progs, s, k)
    ensures Globals(al, q.progs, globals, s, k) == Globals(al, p.progs, globals, s, k)
    decreases s, k
  {
    if s > 0 || k > 0 {
      var r := if k > 0 then s else s - 1;
      assert SectionMatches(al, q, p, r);
      GlobalsMatch(al, q, p, globals, r, if k > 0 then k - 1 else |q.progs[r]|);
      if k > 0 {
        OffsetsMatch(al, q, p, s, k - 1);
      }
    }
  }
}
