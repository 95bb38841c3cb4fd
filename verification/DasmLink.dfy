/**
 Pass 2 of the DynASM ARM engine as values: exact offsets, the slots with label offsets in them, and the walk over the
 recorded items.
 */
module DasmLink {
  import opened Arithmetic
  import opened Labels
  import opened LabelChains
  import opened DasmUnit

  // ----- Exact offsets -----

  /** How far offset o is from the next multiple of mask + 1. */
  function Padding(o: nat, mask: nat): (n: nat)
    ensures n <= mask
  {
    -(o as int) % (mask + 1)
  }

  /** The bytes that x emits at offset o. */
  function Size(al: seq<nat>, x: Item, o: nat): nat
  {
    if !Fits(al, x) then 0
    else if Emits(al, x) then 4
    else if Aligns(al, x) then Padding(o, Mask(Ins(al, x)))
    else 0
  }

  /** Before item k of section s, or at the end of the unit. */
  predicate Place(progs: seq<seq<Item>>, s: nat, k: nat)
  {
    if s < |progs| then k <= |progs[s]| else s == |progs| && k == 0
  }

  /** The byte offset of a place: the sections one after the other, each item with its size. */
  function Off(al: seq<nat>, progs: seq<seq<Item>>, s: nat, k: nat): nat
    requires Place(progs, s, k)
    decreases s, k
  {
    if k > 0 then Off(al, progs, s, k - 1) + Size(al, progs[s][k - 1], Off(al, progs, s, k - 1))
    else if s > 0 then Off(al, progs, s - 1, |progs[s - 1]|)
    else 0
  }

  function CodeSize(al: seq<nat>, progs: seq<seq<Item>>): nat
  {
    Off(al, progs, |progs|, 0)
  }

  predicate Before(r: nat, j: nat, s: nat, k: nat)
  {
    r < s || (r == s && j < k)
  }

  /** Offsets grow along the unit. */
  lemma {:induction false} OffGrows(al: seq<nat>, progs: seq<seq<Item>>, r: nat, j: nat, s: nat, k: nat)
    requires Place(progs, r, j) && Place(progs, s, k) && (Before(r, j, s, k) || (r == s && j == k))
    ensures Off(al, progs, r, j) <= Off(al, progs, s, k)
    decreases s, k
  {
    if r != s || j != k {
      if k > 0 {
        OffGrows(al, progs, r, j, s, k - 1);
      } else {
        OffGrows(al, progs, r, j, s - 1, |progs[s - 1]|);
      }
    }
  }

  lemma PaddingAligns(o: nat, mask: nat)
    ensures (o + Padding(o, mask)) % (mask + 1) == 0
  {
    var m := mask + 1;
    var q := -(o as int) / m;
    assert -(o as int) == q * m + Padding(o, mask);
    assert o + Padding(o, mask) == -q * m;
    DivModUnique(o + Padding(o, mask), m, -q, 0);
  }

  /** The code after an alignment action is aligned, with less than a whole unit of padding. */
  lemma AlignmentIsMet(al: seq<nat>, progs: seq<seq<Item>>, s: nat, k: nat)
    requires s < |progs| && k < |progs[s]| && Fits(al, progs[s][k]) && Aligns(al, progs[s][k])
    ensures var m := Mask(Ins(al, progs[s][k])) + 1;
      && Off(al, progs, s, k + 1) % m == 0
      && Off(al, progs, s, k) <= Off(al, progs, s, k + 1) < Off(al, progs, s, k) + m
  {
    PaddingAligns(Off(al, progs, s, k), Mask(Ins(al, progs[s][k])));
  }

  // ----- The walk over the items -----

  /** The buffer position of a place in section s, and the offset that pass 1 estimated for it. */
  ghost function At(u: Unit, s: nat, k: nat): nat
    requires s < |u.progs| == |u.sections|
  {
    if k < |u.progs[s]| then u.progs[s][k].at else u.sections[s].pos
  }

  ghost function Estimate(u: Unit, s: nat, k: nat): int
    requires s < |u.progs| == |u.sections|
  {
    if k < |u.progs[s]| then u.progs[s][k].est else u.sections[s].ofs
  }

  lemma SectionOpens(al: seq<nat>, u: Unit, s: nat)
    requires UnitOk(al, u) && s < |u.progs|
    ensures At(u, s, 0) == s * SECTION_SIZE && Estimate(u, s, 0) == 0
    ensures u.progs[s] != [] ==> u.progs[s][0].Begin?
  {
    assert ProgOk(al, s, u.progs[s], u.sections[s].pos, u.sections[s].ofs);
  }

  /** Item k of section s is the action at p. */
  ghost predicate ActAt(al: seq<nat>, u: Unit, s: nat, k: nat, p: nat)
    requires s < |u.progs|
  {
    p < |al| && k < |u.progs[s]| && u.progs[s][k].Act? && u.progs[s][k].p == p
  }

  /** The next item of the walk stands where the slots and the estimate of this one end, and carries on the action list. */
  lemma WalkOn(al: seq<nat>, u: Unit, s: nat, k: nat)
    requires UnitOk(al, u) && s < |u.progs| && k < |u.progs[s]|
    ensures ItemOk(al, u.progs[s][k])
    ensures At(u, s, k + 1) == u.progs[s][k].at + SlotCount(al, u.progs[s][k])
    ensures Estimate(u, s, k + 1) == u.progs[s][k].est + Growth(al, u.progs[s][k])
    ensures k + 1 < |u.progs[s]| ==> ItemOk(al, u.progs[s][k + 1]) && Follows(al, u.progs[s][k], u.progs[s][k + 1])
    ensures k + 1 == |u.progs[s]| && Closed(al, u) ==> Stops(al, u.progs[s][k])
  {
    assert ProgOk(al, s, u.progs[s], u.sections[s].pos, u.sections[s].ofs);
    if Closed(al, u) {
      assert ClosedAt(al, u, s);
    }
  }

  lemma {:induction false} WalkStaysBelow(al: seq<nat>, u: Unit, s: nat, k: nat)
    requires UnitOk(al, u) && s < |u.progs| && k <= |u.progs[s]|
    ensures At(u, s, k) <= u.sections[s].pos
    decreases |u.progs[s]| - k
  {
    if k < |u.progs[s]| {
      WalkOn(al, u, s, k);
      WalkStaysBelow(al, u, s, k + 1);
    }
  }

  /** The walk of a section ends exactly when its last position is reached. */
  lemma WalkEnds(al: seq<nat>, u: Unit, s: nat, k: nat)
    requires UnitOk(al, u) && s < |u.progs| && k <= |u.progs[s]|
    requires k < |u.progs[s]| ==> u.progs[s][k].Begin?
    ensures At(u, s, k) == u.sections[s].pos <==> k == |u.progs[s]|
  {
    if k < |u.progs[s]| {
      WalkOn(al, u, s, k);
      WalkStaysBelow(al, u, s, k + 1);
    }
  }

  // ----- What pass 2 makes of the slots -----

  /** The walk has come to item k of section s: the label slots before it hold exact offsets, the others are as u left them. */
  ghost predicate LinkedSlot(al: seq<nat>, u: Unit, slots: Slots, s: nat, k: nat, r: nat, j: nat)
    requires r < |u.progs| && j < |u.progs[r]|
  {
    var x := u.progs[r][j];
    && Fits(al, x)
    && (SlotCount(al, x) == 1 ==>
          && x.at in slots && x.at in u.slots
          && slots[x.at] == if LabelItem(al, x) && Before(r, j, s, k) then Off(al, u.progs, r, j) else u.slots[x.at])
  }

  ghost predicate Linked(al: seq<nat>, u: Unit, slots: Slots, s: nat, k: nat)
  {
    && Place(u.progs, s, k)
    && forall r, j {:trigger LinkedSlot(al, u, slots, s, k, r, j)} | 0 <= r < |u.progs| && 0 <= j < |u.progs[r]| ::
         LinkedSlot(al, u, slots, s, k, r, j)
  }

  lemma NothingLinked(al: seq<nat>, u: Unit)
    requires UnitOk(al, u)
    ensures Linked(al, u, u.slots, 0, 0)
  {
    forall r, j | 0 <= r < |u.progs| && 0 <= j < |u.progs[r]|
      ensures LinkedSlot(al, u, u.slots, 0, 0, r, j)
    {
      assert SlotOk(al, u, r, j);
    }
  }

  lemma SectionLinked(al: seq<nat>, u: Unit, slots: Slots, s: nat)
    requires s < |u.progs| && Linked(al, u, slots, s, |u.progs[s]|)
    ensures Linked(al, u, slots, s + 1, 0)
    ensures Off(al, u.progs, s + 1, 0) == Off(al, u.progs, s, |u.progs[s]|)
  {
    var next := s + 1;
    forall r, j | 0 <= r < |u.progs| && 0 <= j < |u.progs[r]|
      ensures LinkedSlot(al, u, slots, next, 0, r, j)
    {
      assert LinkedSlot(al, u, slots, s, |u.progs[s]|, r, j);
    }
  }

  /** The slots when item x, with the running correction ofs in front of it, has been walked. */
  ghost function SlotsAfter(al: seq<nat>, x: Item, slots: Slots, ofs: int): Slots
    requires Fits(al, x)
  {
    if LabelItem(al, x) && x.at in slots then slots[x.at := slots[x.at] + ofs] else slots
  }

  /** The running correction after item x: what its alignment takes back from the estimate. */
  ghost function CorrectionAfter(al: seq<nat>, x: Item, ofs: int): int
    requires Fits(al, x)
  {
    if Aligns(al, x) then ofs - (x.est + Mask(Ins(al, x)) + ofs) % (Mask(Ins(al, x)) + 1) else ofs
  }

  /** Estimate and correction together are the exact offset, after item k again. */
  lemma CorrectionStays(al: seq<nat>, u: Unit, s: nat, k: nat, ofs: int)
    requires UnitOk(al, u) && s < |u.progs| && k < |u.progs[s]| && Fits(al, u.progs[s][k])
    requires ofs + Estimate(u, s, k) == Off(al, u.progs, s, k)
    ensures CorrectionAfter(al, u.progs[s][k], ofs) + Estimate(u, s, k + 1) == Off(al, u.progs, s, k + 1)
  {
    var x := u.progs[s][k];
    WalkOn(al, u, s, k);
    if Aligns(al, x) {
      RoundingUp(Off(al, u.progs, s, k), Mask(Ins(al, x)));
    }
  }

  lemma RoundingUp(o: nat, mask: nat)
    ensures o + mask - (o + mask) % (mask + 1) == o + Padding(o, mask)
  {
    var m := mask + 1;
    var q := -(o as int) / m;
    assert -(o as int) == q * m + Padding(o, mask);
    assert o + mask == -q * m + (mask - Padding(o, mask));
    DivModUnique(o + mask, m, -q, mask - Padding(o, mask));
  }

  lemma LinkedOn(al: seq<nat>, u: Unit, slots: Slots, s: nat, k: nat, ofs: int)
    requires UnitOk(al, u) && s < |u.progs| && k < |u.progs[s]| && Fits(al, u.progs[s][k])
    requires Linked(al, u, slots, s, k) && ofs + Estimate(u, s, k) == Off(al, u.progs, s, k)
    ensures Linked(al, u, SlotsAfter(al, u.progs[s][k], slots, ofs), s, k + 1)
  {
    var x := u.progs[s][k];
    var after, next := SlotsAfter(al, x, slots, ofs), k + 1;
    assert LinkedSlot(al, u, slots, s, k, s, k) && SlotOk(al, u, s, k);
    forall r, j | 0 <= r < |u.progs| && 0 <= j < |u.progs[r]|
      ensures LinkedSlot(al, u, after, s, next, r, j)
    {
      assert LinkedSlot(al, u, slots, s, k, r, j) && SlotOk(al, u, r, j);
    }
  }

  ghost predicate SlotShows(al: seq<nat>, u: Unit, slots: Slots, s: nat, k: nat, r: nat, j: nat)
    requires r < |u.progs| && j < |u.progs[r]| && Fits(al, u.progs[r][j])
  {
    var x := u.progs[r][j];
    SlotCount(al, x) == 0 ||
    (x.at in slots && if LabelItem(al, x) && Before(r, j, s, k) then slots[x.at] == Off(al, u.progs, r, j)
                      else Holds(al, x, slots[x.at]))
  }

  /** What the slot of item j of section r holds, as long as the walk has not passed it if it is a label. */
  lemma SlotFound(al: seq<nat>, u: Unit, slots: Slots, s: nat, k: nat, r: nat, j: nat)
    requires UnitOk(al, u) && r < |u.progs| && j < |u.progs[r]| && Linked(al, u, slots, s, k)
    ensures Fits(al, u.progs[r][j]) && SlotShows(al, u, slots, s, k, r, j)
  {
    assert LinkedSlot(al, u, slots, s, k, r, j) && SlotOk(al, u, r, j);
  }

  // ----- Undefined labels -----

  /** The slots with -n in all slots on the chains of the globals from 20 up to i: those not defined in the unit. */
  function Marked(slots: Slots, s: LabelState, i: nat): Slots
  {
    if i <= 20 then slots else Overwrite(Marked(slots, s, i - 1), Labels.Pending(s, LG(i - 1)), 1 - i)
  }

  ghost function MarkedUnit(u: Unit, i: nat): Unit
  {
    u.(slots := Marked(u.slots, Run(u.events), i))
  }

  /** The chains of the other labels are left alone. */
  lemma {:induction false} MarkedKeepsChain(lg: seq<int>, pc: seq<int>, slots: Slots, es: seq<Event>, i: nat, l: Label)
    requires LabelsOk(lg, pc, slots, es) && (l.LG? ==> l.n >= i || l.n < 20)
    ensures Chain(Marked(slots, Run(es), i), Labels.Pending(Run(es), l))
  {
    var s := Run(es);
    if i <= 20 {
      LabelsAreStored(lg, pc, slots, es);
      assert Chain(slots, Labels.Pending(s, l));
    } else {
      MarkedKeepsChain(lg, pc, slots, es, i - 1, l);
      var before := Marked(slots, s, i - 1);
      var ps, qs := Labels.Pending(s, l), Labels.Pending(s, LG(i - 1));
      forall p | p in ps
        ensures p !in qs
      {
        if p in qs {
          PendingIsDisjoint(es, l, LG(i - 1), p);
        }
      }
      ChainFrame(before, Overwrite(before, qs, 1 - i), ps);
    }
  }

  lemma {:induction false} MarkedUnitOk(al: seq<nat>, u: Unit, lg: seq<int>, pc: seq<int>, i: nat)
    requires UnitOk(al, u) && LabelsOk(lg, pc, u.slots, u.events)
    ensures UnitOk(al, MarkedUnit(u, i)) && (Closed(al, u) ==> Closed(al, MarkedUnit(u, i)))
    ensures AllResolved(u.events) ==> MarkedUnit(u, i) == u
  {
    if i > 20 {
      var ps := Labels.Pending(Run(u.events), LG(i - 1));
      MarkedUnitOk(al, u, lg, pc, i - 1);
      PendingAreReferences(u.events, LG(i - 1));
      OverwriteKeepsUnit(al, MarkedUnit(u, i - 1), ps, 1 - i);
      if AllResolved(u.events) {
        NothingPending(u.events, LG(i - 1));
        assert Overwrite(u.slots, [], 1 - i) == u.slots;
      }
    }
    if Closed(al, u) {
      ClosedStays(al, u, MarkedUnit(u, i));
    }
  }

  lemma ClosedStays(al: seq<nat>, u: Unit, w: Unit)
    requires UnitOk(al, u) && UnitOk(al, w) && Closed(al, u) && w.progs == u.progs
    ensures Closed(al, w)
  {
    forall s | 0 <= s < |w.progs|
      ensures ClosedAt(al, w, s)
    {
      assert ClosedAt(al, u, s);
    }
  }

  /** What the marking leaves in the slot at q. */
  lemma {:induction false} MarkedAt(slots: Slots, es: seq<Event>, i: nat, q: nat)
    requires DistinctPositions(es) && q in slots
    ensures q in Marked(slots, Run(es), i)
    ensures forall n | 20 <= n < i && q in Labels.Pending(Run(es), LG(n)) :: Marked(slots, Run(es), i)[q] == -n
    ensures (forall n | 20 <= n < i :: q !in Labels.Pending(Run(es), LG(n))) ==> Marked(slots, Run(es), i)[q] == slots[q]
  {
    if i > 20 {
      MarkedAt(slots, es, i - 1, q);
      forall n | 20 <= n < i && q in Labels.Pending(Run(es), LG(n))
        ensures Marked(slots, Run(es), i)[q] == -n
      {
        if q in Labels.Pending(Run(es), LG(i - 1)) {
          PendingIsDisjoint(es, LG(n), LG(i - 1), q);
        }
      }
    }
  }

  /**
   The loop marks exactly the references that wait for a global from the eleventh on: those to the first ten keep a
   link of their chain, which is no marker.
   */
  lemma ReferenceIsMarked(lg: seq<int>, pc: seq<int>, slots: Slots, es: seq<Event>, e: nat)
    requires LabelsOk(lg, pc, slots, es) && e < |es| && !es[e].Define?
    ensures es[e].pos in Marked(slots, Run(es), |lg|)
    ensures Marked(slots, Run(es), |lg|)[es[e].pos] < 0 <==> Resolve(es, e) < 0 && es[e].name.LG? && es[e].name.n >= 20
    ensures Marked(slots, Run(es), |lg|)[es[e].pos] < 0 ==> Marked(slots, Run(es), |lg|)[es[e].pos] == -(es[e].name.n as int)
  {
    var s, q := Run(es), es[e].pos;
    assert q in slots;
    MarkedAt(slots, es, |lg|, q);
    RunSettles(es, e);
    ReferenceIsNoMarker(lg, pc, slots, es, e);
    if Resolve(es, e) < 0 {
      forall n | 20 <= n < |lg| && q in Labels.Pending(s, LG(n))
        ensures LG(n) == es[e].name
      {
        PendingIsDisjoint(es, LG(n), es[e].name, q);
      }
    } else {
      forall n | 20 <= n < |lg|
        ensures q !in Labels.Pending(s, LG(n))
      {
        if q in Labels.Pending(s, LG(n)) {
          PendingIsUnsettled(es, LG(n), q);
        }
      }
    }
  }

  /** Pass 1 leaves a position or a link in the slot of a reference. */
  lemma ReferenceIsNoMarker(lg: seq<int>, pc: seq<int>, slots: Slots, es: seq<Event>, e: nat)
    requires LabelsOk(lg, pc, slots, es) && e < |es| && !es[e].Define?
    ensures es[e].pos in slots && slots[es[e].pos] >= 0
  {
    var s, q := Run(es), es[e].pos;
    RunSettles(es, e);
    LabelsAreStored(lg, pc, slots, es);
    if Resolve(es, e) < 0 {
      var ps := Labels.Pending(s, es[e].name);
      var j :| 0 <= j < |ps| && ps[j] == q;
      assert Chain(slots, ps) && ChainLink(slots, ps, j);
    }
  }

  // ----- The result -----

  /** Every reference has a definition to go to. */
  ghost predicate AllResolved(es: seq<Event>)
  {
    forall i {:trigger Resolve(es, i)} | 0 <= i < |es| && !es[i].Define? :: Resolve(es, i) >= 0
  }

  /** Then no chain is left, whatever the label. */
  lemma NothingPending(es: seq<Event>, l: Label)
    requires DistinctPositions(es) && AllResolved(es)
    ensures Labels.Pending(Run(es), l) == []
  {
    var ps := Labels.Pending(Run(es), l);
    if ps != [] {
      PendingComesFromEvents(es);
      assert ps[0] in ps;
      var i :| ReferenceTo(es, i, l, ps[0]);
      RunSettles(es, i);
      assert Resolve(es, i) >= 0;
      PendingIsUnsettled(es, l, ps[0]);
    }
  }

  /** The actions of all sections with the label events, and the place of each event's action. */
  datatype Program = Program(progs: seq<seq<Item>>, events: seq<Event>, owner: map<nat, (nat, nat)>)

  function ProgramOf(u: Unit): Program
  {
    Program(u.progs, u.events, u.owner)
  }

  /** The byte offset at which the definition with event d is reached. */
  function Address(al: seq<nat>, p: Program, d: nat): nat
    requires d < |p.events|
  {
    if p.events[d].pos in p.owner && Place(p.progs, p.owner[p.events[d].pos].0, p.owner[p.events[d].pos].1)
    then Off(al, p.progs, p.owner[p.events[d].pos].0, p.owner[p.events[d].pos].1) else 0
  }

  /** After pass 2 the slot of a label holds its address. */
  lemma DefinitionLinked(al: seq<nat>, u: Unit, slots: Slots, d: nat)
    requires UnitOk(al, u) && Linked(al, u, slots, |u.progs|, 0)
    requires d < |u.events| && u.events[d].Define?
    ensures u.events[d].pos in slots && slots[u.events[d].pos] == Address(al, ProgramOf(u), d)
  {
    assert EventOwned(al, u, d);
    var (s, k) := u.owner[u.events[d].pos];
    assert LinkedSlot(al, u, slots, |u.progs|, 0, s, k);
  }

  /** And the slot of a reference the position of the definition it is meant to reach. */
  lemma ReferenceLinked(al: seq<nat>, u: Unit, lg: seq<int>, pc: seq<int>, slots: Slots, s: nat, k: nat)
    requires UnitOk(al, u) && LabelsOk(lg, pc, u.slots, u.events) && AllResolved(u.events)
    requires Linked(al, u, slots, |u.progs|, 0) && s < |u.progs| && k < |u.progs[s]|
    requires Fits(al, u.progs[s][k]) && RefersItem(al, u.progs[s][k])
    ensures var x := u.progs[s][k];
      && x.event < |u.events| && !u.events[x.event].Define? && Resolve(u.events, x.event) >= 0
      && x.at in slots && slots[x.at] == u.events[Resolve(u.events, x.event)].pos
  {
    var x := u.progs[s][k];
    assert ItemEventOk(al, u, s, k);
    assert Resolve(u.events, x.event) >= 0;
    RunSettles(u.events, x.event);
    LabelsAreStored(lg, pc, u.slots, u.events);
    assert LinkedSlot(al, u, slots, |u.progs|, 0, s, k);
  }
}
