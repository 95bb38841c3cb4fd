/**
 Label resolution of a DynASM unit, apart from how it is stored: the sequence of references and definitions as dasm_put
 meets them, which definition each reference is meant to reach, and the bookkeeping that finds it in one pass.
 */
module Labels {

  /** Local and global labels share one table (numbers below 10 are local); PC labels have their own. */
  datatype Label = LG(n: nat) | PC(n: nat)

  /** pos is the buffer position of the reference or definition. */
  datatype Event =
    | Forward(name: Label, pos: nat)   // >1: the next definition
    | Refer(name: Label, pos: nat)     // <1, a global or a PC label: a definition before or after
    | Define(name: Label, pos: nat)

  // ----- What is meant -----

  /** The latest definition of l, unless a forward reference to l came after it; -1 if there is none. */
  function VisibleDefinition(es: seq<Event>, l: Label): (k: int)
    ensures -1 <= k < |es|
    ensures k >= 0 ==> es[k].Define? && es[k].name == l
  {
    if es == [] then -1 else
      var n := |es| - 1;
      if es[n].name == l && es[n].Define? then n
      else if es[n].name == l && es[n].Forward? then -1
      else VisibleDefinition(es[..n], l)
  }

  /** The first definition of l from i on; -1 if there is none. */
  function NextDefinition(es: seq<Event>, i: nat, l: Label): (k: int)
    requires i <= |es|
    ensures k == -1 || (i <= k < |es| && es[k].Define? && es[k].name == l)
    decreases |es| - i
  {
    if i == |es| then -1
    else if es[i].name == l && es[i].Define? then i
    else NextDefinition(es, i + 1, l)
  }

  /** The definition that reference i reaches: an earlier one where that is visible, else the next one. */
  function Resolve(es: seq<Event>, i: nat): (k: int)
    requires i < |es| && !es[i].Define?
    ensures k == -1 || (0 <= k < |es| && es[k].Define? && es[k].name == es[i].name)
  {
    var before := if es[i].Forward? then -1 else VisibleDefinition(es[..i], es[i].name);
    if before >= 0 then before else NextDefinition(es, i + 1, es[i].name)
  }

  /**
   The nearest definition is meant: the last one before a reference with no forward reference to the label in between,
   else, and for forward references, the first one behind it.
   */
  lemma ResolveIsNearest(es: seq<Event>, i: nat)
    requires i < |es| && !es[i].Define?
    ensures var k, l := Resolve(es, i), es[i].name;
      && (0 <= k < i ==> es[i].Refer? && forall j | k < j < i && es[j].name == l :: es[j].Refer?)
      && (k > i || k == -1 ==>
            && (forall j | i < j < (if k == -1 then |es| else k) && es[j].name == l :: !es[j].Define?)
            && (es[i].Forward? || HiddenBefore(es[..i], l)))
  {
    VisibleIsLast(es[..i], es[i].name);
    NextIsFirst(es, i + 1, es[i].name);
  }

  /** l has no definition, or a forward reference behind the last one. */
  ghost predicate HiddenBefore(es: seq<Event>, l: Label)
  {
    forall d | 0 <= d < |es| && es[d].Define? && es[d].name == l ::
      exists f :: d < f < |es| && es[f].name == l && es[f].Forward?
  }

  lemma {:induction false} VisibleIsLast(es: seq<Event>, l: Label)
    ensures var k := VisibleDefinition(es, l);
      && (k >= 0 ==> forall j | k < j < |es| && es[j].name == l :: es[j].Refer?)
      && (k == -1 ==> HiddenBefore(es, l))
  {
    if es != [] {
      var n := |es| - 1;
      VisibleIsLast(es[..n], l);
      if VisibleDefinition(es, l) == -1 && !(es[n].name == l && es[n].Forward?) {
        forall d | 0 <= d < |es| && es[d].Define? && es[d].name == l
          ensures exists f :: d < f < |es| && es[f].name == l && es[f].Forward?
        {
          assert es[..n][d].Define?;
          var f :| d < f < n && es[..n][f].name == l && es[..n][f].Forward?;
          assert es[f].name == l && es[f].Forward?;
        }
      }
    }
  }

  lemma {:induction false} NextIsFirst(es: seq<Event>, i: nat, l: Label)
    requires i <= |es|
    ensures var k := NextDefinition(es, i, l);
      forall j | i <= j < (if k == -1 then |es| else k) && es[j].name == l :: !es[j].Define?
    decreases |es| - i
  {
    if i < |es| {
      NextIsFirst(es, i + 1, l);
    }
  }

  // ----- One-pass bookkeeping -----

  /**
   For each label the positions of references still waiting, newest first, and the position of a usable definition;
   for each settled reference the position of its definition.
   */
  datatype LabelState = LabelState(pending: map<Label, seq<nat>>, defined: map<Label, nat>, target: map<nat, nat>)

  function Pending(s: LabelState, l: Label): seq<nat>
  {
    if l in s.pending then s.pending[l] else []
  }

  function Settle(target: map<nat, nat>, refs: seq<nat>, pos: nat): map<nat, nat>
  {
    map q | q in target.Keys + (set r | r in refs) :: if q in refs then pos else target[q]
  }

  function Step(s: LabelState, e: Event): LabelState
  {
    var l := e.name;
    match e
    case Forward(_, pos) =>
      s.(pending := s.pending[l := [pos] + Pending(s, l)], defined := s.defined - {l})
    case Refer(_, pos) =>
      if l in s.defined then s.(target := s.target[pos := s.defined[l]])
      else s.(pending := s.pending[l := [pos] + Pending(s, l)])
    case Define(_, pos) =>
      LabelState(s.pending[l := []], s.defined[l := pos], Settle(s.target, Pending(s, l), pos))
  }

  function Run(es: seq<Event>): LabelState
  {
    if es == [] then LabelState(map[], map[], map[]) else Step(Run(es[..|es| - 1]), es[|es| - 1])
  }

  // ----- The bookkeeping finds what is meant -----

  predicate DistinctPositions(es: seq<Event>)
  {
    forall i, j | 0 <= i < j < |es| :: es[i].pos != es[j].pos
  }

  lemma {:induction false} NextDefinitionSnoc(es: seq<Event>, e: Event, i: nat, l: Label)
    requires i <= |es|
    ensures NextDefinition(es + [e], i, l) ==
      if NextDefinition(es, i, l) >= 0 then NextDefinition(es, i, l)
      else if e.Define? && e.name == l then |es| else -1
    decreases |es| - i
  {
    if i < |es| {
      NextDefinitionSnoc(es, e, i + 1, l);
    } else {
      assert NextDefinition(es + [e], i + 1, l) == -1;
    }
  }

  lemma ResolveSnoc(es: seq<Event>, e: Event, i: nat)
    requires i < |es| && !es[i].Define?
    ensures Resolve(es + [e], i) ==
      if Resolve(es, i) >= 0 then Resolve(es, i)
      else if e.Define? && e.name == es[i].name then |es| else -1
  {
    assert (es + [e])[..i] == es[..i];
    NextDefinitionSnoc(es, e, i + 1, es[i].name);
  }

  /** The usable definition is the visible one. */
  lemma {:induction false} DefinedIsVisible(es: seq<Event>, l: Label)
    ensures l in Run(es).defined <==> VisibleDefinition(es, l) >= 0
    ensures l in Run(es).defined ==> Run(es).defined[l] == es[VisibleDefinition(es, l)].pos
  {
    if es != [] {
      DefinedIsVisible(es[..|es| - 1], l);
    }
  }

  /** Reference i is settled with the definition it is meant to reach, or waits because there is none yet. */
  ghost predicate Settled(es: seq<Event>, s: LabelState, i: nat)
    requires i < |es| && !es[i].Define?
  {
    var k := Resolve(es, i);
    if k >= 0 then es[i].pos in s.target && s.target[es[i].pos] == es[k].pos
    else es[i].pos !in s.target && es[i].pos in Pending(s, es[i].name)
  }

  ghost predicate ReferenceAt(es: seq<Event>, i: int, q: nat)
  {
    0 <= i < |es| && !es[i].Define? && es[i].pos == q
  }

  ghost predicate ReferenceTo(es: seq<Event>, i: int, l: Label, q: nat)
  {
    ReferenceAt(es, i, q) && es[i].name == l
  }

  /** Only positions of references to l wait for l, and only positions of references are settled. */
  ghost predicate PendingFrom(es: seq<Event>, s: LabelState)
  {
    && (forall l, q | q in Pending(s, l) :: exists i :: ReferenceTo(es, i, l, q))
    && (forall q | q in s.target :: exists i :: ReferenceAt(es, i, q))
  }

  lemma {:induction false} PendingComesFromEvents(es: seq<Event>)
    ensures PendingFrom(es, Run(es))
  {
    if es != [] {
      var n := |es| - 1;
      PendingComesFromEvents(es[..n]);
      PendingFromStep(es[..n], es[n], Run(es[..n]));
      assert es == es[..n] + [es[n]];
    }
  }

  lemma PendingFromStep(es: seq<Event>, e: Event, s: LabelState)
    requires PendingFrom(es, s)
    ensures PendingFrom(es + [e], Step(s, e))
  {
    var fs, t := es + [e], Step(s, e);
    forall l, q | q in Pending(t, l)
      ensures exists i :: ReferenceTo(fs, i, l, q)
    {
      if q in Pending(s, l) {
        var i :| ReferenceTo(es, i, l, q);
        assert ReferenceTo(fs, i, l, q);
      } else {
        assert ReferenceTo(fs, |es|, l, q);
      }
    }
    forall q | q in t.target
      ensures exists i :: ReferenceAt(fs, i, q)
    {
      if q in s.target {
        var i :| ReferenceAt(es, i, q);
        assert ReferenceAt(fs, i, q);
      } else if q in Pending(s, e.name) {
        var i :| ReferenceTo(es, i, e.name, q);
        assert ReferenceAt(fs, i, q);
      } else {
        assert ReferenceAt(fs, |es|, q);
      }
    }
  }

  /** After any run, every reference is settled as meant. */
  lemma {:induction false} RunSettles(es: seq<Event>, i: nat)
    requires DistinctPositions(es) && i < |es| && !es[i].Define?
    ensures Settled(es, Run(es), i)
    decreases |es|
  {
    var n := |es| - 1;
    var ds, e := es[..n], es[n];
    assert es == ds + [e];
    if i < n {
      assert ds[i] == es[i];
      RunSettles(ds, i);
      ResolveSnoc(ds, e, i);
      SettledStep(ds, e, i);
    } else {
      DefinedIsVisible(ds, e.name);
      PendingComesFromEvents(ds);
      assert NextDefinition(es, n + 1, e.name) == -1;
      assert es[..i] == ds;
    }
  }

  lemma SettledStep(es: seq<Event>, e: Event, i: nat)
    requires i < |es| && !es[i].Define?
    requires Settled(es, Run(es), i) && DistinctPositions(es + [e])
    ensures Settled(es + [e], Step(Run(es), e), i)
  {
    var s, fs := Run(es), es + [e];
    var t := Step(s, e);
    ResolveSnoc(es, e, i);
    assert fs[i] == es[i] && fs[|es|] == e;
    assert es[i].pos != e.pos;
    if Resolve(es, i) >= 0 {
      assert fs[Resolve(es, i)] == es[Resolve(es, i)];
      SettledStays(es, e, es[i].pos);
    } else if e.Define? {
      SettledByDefinition(es, e, i);
    } else {
      StillWaits(es, e, i);
    }
  }

  /** A reference that waits goes on waiting, unless the event is a definition. */
  lemma StillWaits(es: seq<Event>, e: Event, i: nat)
    requires i < |es| && !es[i].Define? && !e.Define? && es[i].pos != e.pos
    requires es[i].pos !in Run(es).target && es[i].pos in Pending(Run(es), es[i].name)
    ensures es[i].pos !in Step(Run(es), e).target && es[i].pos in Pending(Step(Run(es), e), es[i].name)
  {
  }

  /** A settled reference keeps its definition. */
  lemma SettledStays(es: seq<Event>, e: Event, q: nat)
    requires q in Run(es).target && q != e.pos && DistinctPositions(es)
    ensures q in Step(Run(es), e).target && Step(Run(es), e).target[q] == Run(es).target[q]
  {
    if q in Pending(Run(es), e.name) {
      PendingIsUnsettled(es, e.name, q);
    }
  }

  /** A definition settles the references waiting for it and no others. */
  lemma SettledByDefinition(es: seq<Event>, e: Event, i: nat)
    requires i < |es| && !es[i].Define? && e.Define? && DistinctPositions(es)
    requires es[i].pos !in Run(es).target && es[i].pos in Pending(Run(es), es[i].name)
    ensures var t := Step(Run(es), e);
      if es[i].name == e.name then es[i].pos in t.target && t.target[es[i].pos] == e.pos
      else es[i].pos !in t.target && es[i].pos in Pending(t, es[i].name)
  {
    if es[i].name != e.name && es[i].pos in Pending(Run(es), e.name) {
      PendingIsDisjoint(es, es[i].name, e.name, es[i].pos);
    }
  }

  /** No position waits for two labels. */
  lemma PendingIsDisjoint(es: seq<Event>, l: Label, m: Label, q: nat)
    requires DistinctPositions(es)
    requires q in Pending(Run(es), l) && q in Pending(Run(es), m)
    ensures l == m
  {
    PendingComesFromEvents(es);
    var i :| ReferenceTo(es, i, l, q);
    var j :| ReferenceTo(es, j, m, q);
    assert i == j;
  }

  lemma NewPositionIsUnsettled(es: seq<Event>, e: Event)
    requires DistinctPositions(es + [e])
    ensures e.pos !in Run(es).target
  {
    PendingComesFromEvents(es);
    forall q | q in Run(es).target
      ensures q != e.pos
    {
      var i :| ReferenceAt(es, i, q);
      var fs := es + [e];
      assert fs[i].pos == q && fs[|es|].pos == e.pos;
    }
  }

  /** A settled reference does not wait for any label. */
  lemma {:induction false} PendingIsUnsettled(es: seq<Event>, l: Label, q: nat)
    requires DistinctPositions(es)
    requires q in Pending(Run(es), l)
    ensures q !in Run(es).target
  {
    if es != [] {
      var n := |es| - 1;
      var ds, e := es[..n], es[n];
      var s := Run(ds);
      assert es == ds + [e];
      PendingComesFromEvents(ds);
      if q in Pending(s, l) {
        PendingIsUnsettled(ds, l, q);
        var i :| ReferenceTo(ds, i, l, q);
        assert es[i].pos == q;
        if e.Define? && q in Pending(s, e.name) {
          PendingIsDisjoint(ds, l, e.name, q);
        }
      } else {
        assert q == e.pos;
        NewPositionIsUnsettled(ds, e);
      }
    }
  }

  /** A label with a usable definition has no waiting references. */
  lemma {:induction false} DefinedHasNonePending(es: seq<Event>, l: Label)
    requires l in Run(es).defined
    ensures Pending(Run(es), l) == []
  {
    if es != [] {
      var n := |es| - 1;
      if l in Run(es[..n]).defined {
        DefinedHasNonePending(es[..n], l);
      }
    }
  }

  lemma PendingAreReferences(es: seq<Event>, l: Label)
    ensures forall q | q in Pending(Run(es), l) :: exists e :: ReferenceAt(es, e, q)
  {
    PendingComesFromEvents(es);
    forall q | q in Pending(Run(es), l)
      ensures exists e :: ReferenceAt(es, e, q)
    {
      var e :| ReferenceTo(es, e, l, q);
    }
  }

  /** Some reference to l has no definition to go to. */
  ghost predicate AnyWaits(es: seq<Event>, l: Label)
  {
    exists i :: Waits(es, i, l)
  }

  ghost predicate Waits(es: seq<Event>, i: int, l: Label)
  {
    0 <= i < |es| && !es[i].Define? && es[i].name == l && Resolve(es, i) < 0
  }

  /** Exactly then the label has a chain. */
  lemma PendingWaits(es: seq<Event>, l: Label)
    requires DistinctPositions(es)
    ensures Pending(Run(es), l) != [] <==> AnyWaits(es, l)
  {
    var ps := Pending(Run(es), l);
    if ps != [] {
      PendingComesFromEvents(es);
      assert ps[0] in ps;
      var i :| ReferenceTo(es, i, l, ps[0]);
      RunSettles(es, i);
      PendingIsUnsettled(es, l, ps[0]);
      assert Waits(es, i, l);
    }
    if AnyWaits(es, l) {
      var i :| Waits(es, i, l);
      RunSettles(es, i);
    }
  }

  /** No position waits twice. */
  lemma {:induction false} PendingIsDistinct(es: seq<Event>, l: Label, j: nat, k: nat)
    requires DistinctPositions(es)
    requires j < k < |Pending(Run(es), l)|
    ensures Pending(Run(es), l)[j] != Pending(Run(es), l)[k]
    decreases |es|
  {
    var n := |es| - 1;
    var ds, e := es[..n], es[n];
    assert es == ds + [e];
    var ps := Pending(Run(ds), l);
    if Pending(Run(es), l) == ps {
      PendingIsDistinct(ds, l, j, k);
    } else if j > 0 {
      PendingIsDistinct(ds, l, j - 1, k - 1);
    } else {
      PendingComesFromEvents(ds);
      assert ps[k - 1] in ps;
      var i :| ReferenceTo(ds, i, l, ps[k - 1]);
      assert es[i].pos == ps[k - 1];
    }
  }

  /**
   A label with a single definition and no forward references, as every PC label is used: all its references, before
   or after, reach that definition.
   */
  lemma SingleDefinitionIsReached(es: seq<Event>, l: Label, d: nat, i: nat)
    requires d < |es| && es[d].Define? && es[d].name == l
    requires forall j | 0 <= j < |es| && j != d && es[j].name == l :: es[j].Refer?
    requires i < |es| && es[i].Refer? && es[i].name == l
    ensures Resolve(es, i) == d
  {
    if i > d {
      VisibleIs(es[..i], l, d);
    } else {
      VisibleIsNone(es[..i], l);
      NextIs(es, i + 1, l, d);
    }
  }

  lemma {:induction false} VisibleIs(es: seq<Event>, l: Label, d: nat)
    requires d < |es| && es[d].Define? && es[d].name == l
    requires forall j | d < j < |es| && es[j].name == l :: es[j].Refer?
    ensures VisibleDefinition(es, l) == d
  {
    if d < |es| - 1 {
      VisibleIs(es[..|es| - 1], l, d);
    }
  }

  lemma {:induction false} VisibleIsNone(es: seq<Event>, l: Label)
    requires forall j | 0 <= j < |es| && es[j].name == l :: es[j].Refer?
    ensures VisibleDefinition(es, l) == -1
  {
    if es != [] {
      VisibleIsNone(es[..|es| - 1], l);
    }
  }

  lemma {:induction false} NextIs(es: seq<Event>, i: nat, l: Label, d: nat)
    requires i <= d < |es| && es[d].Define? && es[d].name == l
    requires forall j | i <= j < d && es[j].name == l :: !es[j].Define?
    ensures NextDefinition(es, i, l) == d
    decreases d - i
  {
    if i < d {
      NextIs(es, i + 1, l, d);
    }
  }
}
