/**
 How dasm_arm.h stores label state: one integer per label, and the chain of waiting references threaded through the
 action buffers themselves. A positive integer heads a chain of buffer positions ended by 0, a negative one is minus
 the position of the definition.
 */
module LabelChains {
  import opened Labels

  type Slots = map<nat, int>

  ghost predicate ValidLabel(lg: seq<int>, pc: seq<int>, l: Label)
  {
    match l
    case LG(n) => n < |lg|
    case PC(n) => n < |pc|
  }

  ghost function Head(lg: seq<int>, pc: seq<int>, l: Label): int
    requires ValidLabel(lg, pc, l)
  {
    match l
    case LG(n) => lg[n]
    case PC(n) => pc[n]
  }

  ghost function HeadFor(s: LabelState, l: Label): int
  {
    if Pending(s, l) != [] then Pending(s, l)[0] else if l in s.defined then -(s.defined[l] as int) else 0
  }

  /** The slot at place j of a chain holds the next position, and the last one 0. */
  ghost predicate ChainLink(slots: Slots, ps: seq<nat>, j: nat)
    requires j < |ps|
  {
    ps[j] > 0 && ps[j] in slots && slots[ps[j]] == if j + 1 < |ps| then ps[j + 1] else 0
  }

  ghost predicate Chain(slots: Slots, ps: seq<nat>)
  {
    forall j {:trigger ChainLink(slots, ps, j)} | 0 <= j < |ps| :: ChainLink(slots, ps, j)
  }

  ghost predicate HeadsStored(lg: seq<int>, pc: seq<int>, s: LabelState)
  {
    forall l {:trigger Head(lg, pc, l)} | ValidLabel(lg, pc, l) :: Head(lg, pc, l) == HeadFor(s, l)
  }

  ghost predicate ChainsStored(slots: Slots, s: LabelState)
  {
    forall l {:trigger Chain(slots, Pending(s, l))} :: Chain(slots, Pending(s, l))
  }

  ghost predicate TargetsStored(slots: Slots, s: LabelState)
  {
    forall q | q in s.target :: q in slots && slots[q] == s.target[q]
  }

  ghost predicate LabelsStored(lg: seq<int>, pc: seq<int>, slots: Slots, s: LabelState)
  {
    HeadsStored(lg, pc, s) && ChainsStored(slots, s) && TargetsStored(slots, s)
  }

  ghost predicate EventsPlaced(slots: Slots, es: seq<Event>)
  {
    && DistinctPositions(es)
    && forall i | 0 <= i < |es| :: es[i].pos > 0 && es[i].pos in slots
  }

  ghost predicate EventsNamed(lg: seq<int>, pc: seq<int>, es: seq<Event>)
  {
    forall i | 0 <= i < |es| :: ValidLabel(lg, pc, es[i].name)
  }

  ghost predicate Tracks(s: LabelState, es: seq<Event>)
  {
    s == Run(es)
  }

  /** The label tables and chains store the bookkeeping of the events es. Tracks keeps Run folded where it is not needed. */
  ghost predicate LabelsOk(lg: seq<int>, pc: seq<int>, slots: Slots, es: seq<Event>)
  {
    && EventsPlaced(slots, es) && EventsNamed(lg, pc, es)
    && forall s {:trigger Tracks(s, es)} | Tracks(s, es) :: LabelsStored(lg, pc, slots, s)
  }

  lemma LabelsAreStored(lg: seq<int>, pc: seq<int>, slots: Slots, es: seq<Event>)
    requires LabelsOk(lg, pc, slots, es)
    ensures LabelsStored(lg, pc, slots, Run(es))
  {
    assert Tracks(Run(es), es);
  }

  /** slots with v at all the positions ps. */
  function Overwrite(slots: Slots, ps: seq<nat>, v: int): Slots
  {
    map q | q in slots :: if q in ps then v else slots[q]
  }

  lemma RunSnoc(es: seq<Event>, e: Event)
    ensures Run(es + [e]) == Step(Run(es), e)
  {
    assert (es + [e])[..|es|] == es;
  }

  lemma EventsPlacedSnoc(slots: Slots, es: seq<Event>, e: Event, v: int)
    requires EventsPlaced(slots, es) && e.pos > 0 && e.pos !in slots
    ensures EventsPlaced(slots[e.pos := v], es + [e])
  {
    forall i, j | 0 <= i < j < |es + [e]|
      ensures (es + [e])[i].pos != (es + [e])[j].pos
    {
    }
  }

  /** The label table with the entry of l replaced. */
  ghost predicate HeadReplaced(lg: seq<int>, pc: seq<int>, lg': seq<int>, pc': seq<int>, l: Label, v: int)
    requires ValidLabel(lg, pc, l)
  {
    match l
    case LG(n) => lg' == lg[n := v] && pc' == pc
    case PC(n) => lg' == lg && pc' == pc[n := v]
  }

  lemma HeadsStoredUpdate(lg: seq<int>, pc: seq<int>, lg': seq<int>, pc': seq<int>, l: Label, s: LabelState, t: LabelState)
    requires HeadsStored(lg, pc, s) && ValidLabel(lg, pc, l)
    requires HeadReplaced(lg, pc, lg', pc', l, HeadFor(t, l))
    requires forall m | m != l :: HeadFor(t, m) == HeadFor(s, m)
    ensures HeadsStored(lg', pc', t)
  {
    forall m | ValidLabel(lg', pc', m)
      ensures Head(lg', pc', m) == HeadFor(t, m)
    {
      assert Head(lg, pc, m) == HeadFor(s, m);
    }
  }

  lemma EventsNamedSnoc(lg: seq<int>, pc: seq<int>, lg': seq<int>, pc': seq<int>, es: seq<Event>, e: Event, v: int)
    requires EventsNamed(lg, pc, es) && ValidLabel(lg, pc, e.name) && HeadReplaced(lg, pc, lg', pc', e.name, v)
    ensures EventsNamed(lg', pc', es + [e])
  {
  }

  lemma ChainIsStored(slots: Slots, ps: seq<nat>)
    requires Chain(slots, ps)
    ensures forall j | 0 <= j < |ps| :: ps[j] in slots && ps[j] > 0
  {
    forall j | 0 <= j < |ps|
      ensures ps[j] in slots && ps[j] > 0
    {
      assert ChainLink(slots, ps, j);
    }
  }

  lemma ChainFrame(slots: Slots, slots': Slots, ps: seq<nat>)
    requires Chain(slots, ps)
    requires forall p | p in ps && p in slots :: p in slots' && slots'[p] == slots[p]
    ensures Chain(slots', ps)
  {
    forall j | 0 <= j < |ps|
      ensures ChainLink(slots', ps, j)
    {
      assert ChainLink(slots, ps, j);
    }
  }

  lemma ChainCons(slots: Slots, q: nat, ps: seq<nat>, v: int)
    requires Chain(slots, ps) && q > 0 && q !in slots && v == if ps == [] then 0 else ps[0]
    ensures Chain(slots[q := v], [q] + ps)
  {
    var qs, after := [q] + ps, slots[q := v];
    forall j | 0 <= j < |qs|
      ensures ChainLink(after, qs, j)
    {
      if j > 0 {
        assert ChainLink(slots, ps, j - 1);
        assert qs[j] == ps[j - 1] && (j < |ps| ==> qs[j + 1] == ps[j]);
      }
    }
  }

  /** A waiting reference at the front of its chain: its slot links to the old head and the label to the slot. */
  lemma LinkKeepsLabels(lg: seq<int>, pc: seq<int>, lg': seq<int>, pc': seq<int>, slots: Slots, es: seq<Event>, e: Event)
    requires LabelsOk(lg, pc, slots, es)
    requires !e.Define? && e.pos > 0 && e.pos !in slots && ValidLabel(lg, pc, e.name)
    requires e.Refer? ==> e.name !in Run(es).defined
    requires HeadReplaced(lg, pc, lg', pc', e.name, e.pos)
    ensures LabelsOk(lg', pc', slots[e.pos := if Head(lg, pc, e.name) > 0 then Head(lg, pc, e.name) else 0], es + [e])
  {
    LabelsAreStored(lg, pc, slots, es);
    var s, v := Run(es), if Head(lg, pc, e.name) > 0 then Head(lg, pc, e.name) else 0;
    assert v == if Pending(s, e.name) == [] then 0 else Pending(s, e.name)[0] by {
      assert Head(lg, pc, e.name) == HeadFor(s, e.name);
      assert Chain(slots, Pending(s, e.name));
      ChainIsStored(slots, Pending(s, e.name));
    }
    RunSnoc(es, e);
    EventsPlacedSnoc(slots, es, e, v);
    EventsNamedSnoc(lg, pc, lg', pc', es, e, e.pos);
    LinkKeepsHeads(lg, pc, lg', pc', s, e);
    LinkKeepsChains(slots, s, e, v);
    TargetsStay(slots, s, Step(s, e), e.pos, v);
  }

  lemma TargetsStay(slots: Slots, s: LabelState, t: LabelState, q: nat, v: int)
    requires TargetsStored(slots, s) && t.target == s.target && q !in slots
    ensures TargetsStored(slots[q := v], t)
  {
  }

  lemma LinkKeepsHeads(lg: seq<int>, pc: seq<int>, lg': seq<int>, pc': seq<int>, s: LabelState, e: Event)
    requires HeadsStored(lg, pc, s) && !e.Define? && ValidLabel(lg, pc, e.name)
    requires e.Refer? ==> e.name !in s.defined
    requires HeadReplaced(lg, pc, lg', pc', e.name, e.pos)
    ensures HeadsStored(lg', pc', Step(s, e))
  {
    var t := Step(s, e);
    forall m | m != e.name
      ensures HeadFor(t, m) == HeadFor(s, m)
    {
      assert Pending(t, m) == Pending(s, m);
    }
    HeadsStoredUpdate(lg, pc, lg', pc', e.name, s, t);
  }

  lemma LinkKeepsChains(slots: Slots, s: LabelState, e: Event, v: int)
    requires ChainsStored(slots, s) && !e.Define? && e.pos > 0 && e.pos !in slots
    requires e.Refer? ==> e.name !in s.defined
    requires v == if Pending(s, e.name) == [] then 0 else Pending(s, e.name)[0]
    ensures ChainsStored(slots[e.pos := v], Step(s, e))
  {
    forall l
      ensures Chain(slots[e.pos := v], Pending(Step(s, e), l))
    {
      assert Chain(slots, Pending(s, l));
      if l == e.name {
        ChainCons(slots, e.pos, Pending(s, l), v);
      } else {
        ChainFrame(slots, slots[e.pos := v], Pending(s, l));
      }
    }
  }

  /** A reference to a label that exists gets the position of its definition. */
  lemma ReferKeepsLabels(lg: seq<int>, pc: seq<int>, slots: Slots, es: seq<Event>, e: Event)
    requires LabelsOk(lg, pc, slots, es)
    requires e.Refer? && e.pos > 0 && e.pos !in slots && ValidLabel(lg, pc, e.name)
    requires e.name in Run(es).defined
    ensures LabelsOk(lg, pc, slots[e.pos := Run(es).defined[e.name]], es + [e])
  {
    LabelsAreStored(lg, pc, slots, es);
    var s := Run(es);
    RunSnoc(es, e);
    EventsPlacedSnoc(slots, es, e, s.defined[e.name]);
    var t := Step(s, e);
    OtherSlotKeepsChains(slots, s, e.pos, s.defined[e.name]);
    assert t.pending == s.pending && t.defined == s.defined;
    SameHeadsAndChains(lg, pc, slots[e.pos := s.defined[e.name]], s, t);
    assert TargetsStored(slots[e.pos := s.defined[e.name]], t);
  }

  lemma SameHeadsAndChains(lg: seq<int>, pc: seq<int>, slots: Slots, s: LabelState, t: LabelState)
    requires t.pending == s.pending && t.defined == s.defined
    requires HeadsStored(lg, pc, s) && ChainsStored(slots, s)
    ensures HeadsStored(lg, pc, t) && ChainsStored(slots, t)
  {
    forall l
      ensures Pending(t, l) == Pending(s, l) && HeadFor(t, l) == HeadFor(s, l)
    {
    }
  }

  lemma OtherSlotKeepsChains(slots: Slots, s: LabelState, q: nat, v: int)
    requires ChainsStored(slots, s) && q !in slots
    ensures ChainsStored(slots[q := v], s)
  {
    forall l
      ensures Chain(slots[q := v], Pending(s, l))
    {
      assert Chain(slots, Pending(s, l));
      ChainFrame(slots, slots[q := v], Pending(s, l));
    }
  }

  /** Writing to the slots waiting for l leaves all other chains alone. */
  lemma OverwriteKeepsChains(slots: Slots, es: seq<Event>, l: Label, m: Label, v: int)
    requires DistinctPositions(es) && ChainsStored(slots, Run(es)) && l != m
    ensures Chain(Overwrite(slots, Pending(Run(es), l), v), Pending(Run(es), m))
  {
    var s := Run(es);
    assert Chain(slots, Pending(s, m));
    forall p | p in Pending(s, m)
      ensures p !in Pending(s, l)
    {
      if p in Pending(s, l) {
        PendingIsDisjoint(es, l, m, p);
      }
    }
    ChainFrame(slots, Overwrite(slots, Pending(s, l), v), Pending(s, m));
  }

  /** A definition: all waiting references get its position. */
  lemma DefineKeepsLabels(lg: seq<int>, pc: seq<int>, lg': seq<int>, pc': seq<int>, slots: Slots, es: seq<Event>,
                          e: Event, v: int)
    requires LabelsOk(lg, pc, slots, es)
    requires e.Define? && e.pos > 0 && e.pos !in slots && ValidLabel(lg, pc, e.name)
    requires HeadReplaced(lg, pc, lg', pc', e.name, -(e.pos as int))
    ensures LabelsOk(lg', pc', Overwrite(slots, Pending(Run(es), e.name), e.pos)[e.pos := v], es + [e])
  {
    LabelsAreStored(lg, pc, slots, es);
    var s := Run(es);
    var written := Overwrite(slots, Pending(s, e.name), e.pos);
    RunSnoc(es, e);
    EventsPlacedSnoc(written, es, e, v);
    EventsNamedSnoc(lg, pc, lg', pc', es, e, -(e.pos as int));
    DefineKeepsHeads(lg, pc, lg', pc', s, e);
    DefineKeepsChains(slots, es, e, v);
    DefineKeepsTargets(slots, es, e, v);
  }

  lemma DefineKeepsHeads(lg: seq<int>, pc: seq<int>, lg': seq<int>, pc': seq<int>, s: LabelState, e: Event)
    requires HeadsStored(lg, pc, s) && e.Define? && ValidLabel(lg, pc, e.name)
    requires HeadReplaced(lg, pc, lg', pc', e.name, -(e.pos as int))
    ensures HeadsStored(lg', pc', Step(s, e))
  {
    var t := Step(s, e);
    forall m | m != e.name
      ensures HeadFor(t, m) == HeadFor(s, m)
    {
      assert Pending(t, m) == Pending(s, m);
    }
    HeadsStoredUpdate(lg, pc, lg', pc', e.name, s, t);
  }

  lemma DefineKeepsChains(slots: Slots, es: seq<Event>, e: Event, v: int)
    requires DistinctPositions(es) && ChainsStored(slots, Run(es)) && e.Define? && e.pos !in slots
    ensures ChainsStored(Overwrite(slots, Pending(Run(es), e.name), e.pos)[e.pos := v], Step(Run(es), e))
  {
    var s := Run(es);
    var written := Overwrite(slots, Pending(s, e.name), e.pos);
    forall l
      ensures Chain(written[e.pos := v], Pending(Step(s, e), l))
    {
      if l != e.name {
        OverwriteKeepsChains(slots, es, e.name, l, e.pos);
        ChainFrame(written, written[e.pos := v], Pending(s, l));
      }
    }
  }

  lemma DefineKeepsTargets(slots: Slots, es: seq<Event>, e: Event, v: int)
    requires ChainsStored(slots, Run(es)) && TargetsStored(slots, Run(es)) && e.Define? && e.pos !in slots
    ensures TargetsStored(Overwrite(slots, Pending(Run(es), e.name), e.pos)[e.pos := v], Step(Run(es), e))
  {
    assert Chain(slots, Pending(Run(es), e.name));
    ChainIsStored(slots, Pending(Run(es), e.name));
  }

  /** A position that is no reference and no definition may be added. */
  lemma OtherSlotKeepsLabels(lg: seq<int>, pc: seq<int>, slots: Slots, es: seq<Event>, q: nat, v: int)
    requires LabelsOk(lg, pc, slots, es) && q !in slots
    ensures LabelsOk(lg, pc, slots[q := v], es)
  {
    LabelsAreStored(lg, pc, slots, es);
    OtherSlotKeepsChains(slots, Run(es), q, v);
  }
}
