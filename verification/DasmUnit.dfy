/**
 What the buffers of the DynASM ARM engine hold between passes, as a value.

 Every dasm_put call leaves the start of its action list and one slot per action that needs one. The actions it walked
 are recorded as items next to the buffers; all three passes are proved to walk exactly these items, in step.
 */
module DasmUnit {
  import opened DasmActions
  import opened Labels
  import opened LabelChains

  /** Buffer positions carry their section in the bits above these (DASM_SEC2POS). */
  const SECTION_SIZE: nat := 0x100_0000
  const MAXSECPOS: nat := 25

  /** One section: buffer size in bytes, biased position, biased limit for a put, and byte offset. */
  datatype Section = Section(bsize: nat, pos: nat, epos: nat, ofs: int)

  /**
   A step of a walk: the start of a dasm_put call, or the action at p. at is the buffer position it stands at, est the
   offset estimated before it, word whether the call has emitted a word yet, event its place in the label events.
   */
  datatype Item =
    | Begin(at: nat, est: int, start: nat)
    | Act(at: nat, est: int, p: nat, word: bool, arg: int, event: nat)

  predicate Fits(al: seq<nat>, x: Item)
  {
    x.Act? ==> x.p < |al| && (Action(al[x.p]) == ESC ==> x.p + 1 < |al|)
  }

  function Ins(al: seq<nat>, x: Item): nat
    requires x.Act? && Fits(al, x)
  {
    al[x.p]
  }

  function SlotCount(al: seq<nat>, x: Item): nat
    requires Fits(al, x)
  {
    if x.Begin? || HasSlot(Ins(al, x)) then 1 else 0
  }

  predicate Emits(al: seq<nat>, x: Item)
    requires Fits(al, x)
  {
    x.Act? && (IsWord(Ins(al, x)) || Action(Ins(al, x)) == ESC)
  }

  predicate Stops(al: seq<nat>, x: Item)
    requires Fits(al, x)
  {
    x.Act? && Action(Ins(al, x)) <= SECTION
  }

  predicate Aligns(al: seq<nat>, x: Item)
    requires Fits(al, x)
  {
    x.Act? && Action(Ins(al, x)) == ALIGN
  }

  /** The alignment mask of the action word. */
  function Mask(ins: nat): nat
  {
    ins % 0x100
  }

  /** How much pass 1 adds to its offset estimate. */
  function Growth(al: seq<nat>, x: Item): nat
    requires Fits(al, x)
  {
    if Emits(al, x) then 4 else if Aligns(al, x) then Mask(Ins(al, x)) else 0
  }

  /** y is the step after x. */
  predicate Follows(al: seq<nat>, x: Item, y: Item)
    requires Fits(al, x)
  {
    && y.at == x.at + SlotCount(al, x)
    && y.est == x.est + Growth(al, x)
    && match x
       case Begin(_, _, start) => y.Act? && y.p == start && !y.word
       case Act(_, _, p, word, _, _) =>
         if Stops(al, x) then y.Begin?
         else y.Act? && y.p == After(al, p) && y.word == WordAfter(al[p], word)
  }

  /** The value pass 1 stores for an immediate argument. */
  function Stored(ins: nat, arg: int): int
  {
    if Action(ins) == IMMV8 then arg / 4 else arg
  }

  predicate HasEvent(al: seq<nat>, x: Item)
    requires Fits(al, x)
  {
    x.Act? && (IsReference(Ins(al, x)) || IsLabel(Ins(al, x)))
  }

  predicate RefersItem(al: seq<nat>, x: Item)
    requires Fits(al, x)
  {
    x.Act? && IsReference(Ins(al, x))
  }

  predicate LabelItem(al: seq<nat>, x: Item)
    requires Fits(al, x)
  {
    x.Act? && IsLabel(Ins(al, x))
  }

  /** The label that an action names: a number in the action word, or a PC label given as argument. */
  function NameOf(ins: nat, arg: int): Label
  {
    if Action(ins) == REL_PC || Action(ins) == LABEL_PC then PC(if arg >= 0 then arg else 0)
    else if ins % 0x800 >= 10 then LG(ins % 0x800 - 10)
    else LG(ins % 0x800)
  }

  function EventOf(al: seq<nat>, x: Item): Event
    requires Fits(al, x) && HasEvent(al, x)
  {
    var ins := Ins(al, x);
    if IsLabel(ins) then Define(NameOf(ins, x.arg), x.at)
    else if Action(ins) == REL_LG && ins % 0x800 < 10 then Forward(NameOf(ins, x.arg), x.at)
    else Refer(NameOf(ins, x.arg), x.at)
  }

  /**
   The label numbers of the preprocessor, whatever the flags above them: n for the next definition of local label n,
   10 + n for the last one and for defining it, and 20 + g for global g, which stands behind the ten local labels.
   */
  lemma LabelNumbers(al: seq<nat>, x: Item, flags: nat, n: nat)
    requires x.Act? && x.p < |al| && flags < 32 && n < 0x800
    ensures al[x.p] == REL_LG * 0x1_0000 + flags * 0x800 + n ==>
      Fits(al, x) && HasEvent(al, x) && EventOf(al, x) == if n < 10 then Forward(LG(n), x.at) else Refer(LG(n - 10), x.at)
    ensures al[x.p] == LABEL_LG * 0x1_0000 + flags * 0x800 + n && n >= 10 ==>
      Fits(al, x) && HasEvent(al, x) && EventOf(al, x) == Define(LG(n - 10), x.at)
  {
    NumberedWord(REL_LG, flags, n);
    NumberedWord(LABEL_LG, flags, n);
  }

  /** The number in the low byte: of an alignment its mask, of a section switch the section. */
  lemma LowByte(action: nat, n: nat)
    requires n < 0x100
    ensures var ins := action * 0x1_0000 + n; Action(ins) == action && Mask(ins) == ins % 0x100 == n
  {
  }

  lemma NumberedWord(action: nat, flags: nat, n: nat)
    requires flags < 32 && n < 0x800
    ensures var ins := action * 0x1_0000 + flags * 0x800 + n; Action(ins) == action && ins % 0x800 == n
  {
  }

  // ----- The invariant between puts -----

  datatype Unit = Unit(slots: Slots, sections: seq<Section>, progs: seq<seq<Item>>, owner: map<nat, (nat, nat)>,
                       events: seq<Event>)

  /** An item that pass 3 can encode: patches have a word before them, masks are 2^k - 1. */
  predicate ItemOk(al: seq<nat>, x: Item)
  {
    && Fits(al, x)
    && (x.Act? && IsPatch(Ins(al, x)) ==> x.word)
    && (Aligns(al, x) ==> IsMask(Mask(Ins(al, x))))
  }

  ghost predicate ProgOk(al: seq<nat>, s: nat, prog: seq<Item>, pos: nat, ofs: int)
  {
    && (forall k | 0 <= k < |prog| :: ItemOk(al, prog[k]))
    && (forall k | 0 <= k < |prog| - 1 :: Follows(al, prog[k], prog[k + 1]))
    && if prog == [] then pos == s * SECTION_SIZE && ofs == 0
       else
         var x := prog[|prog| - 1];
         && prog[0].Begin? && prog[0].at == s * SECTION_SIZE && prog[0].est == 0
         && pos == x.at + SlotCount(al, x) && ofs == x.est + Growth(al, x)
  }

  ghost predicate ProgsOk(al: seq<nat>, u: Unit)
  {
    && |u.progs| == |u.sections|
    && forall s {:trigger ProgOk(al, s, u.progs[s], u.sections[s].pos, u.sections[s].ofs)} | 0 <= s < |u.sections| ::
         ProgOk(al, s, u.progs[s], u.sections[s].pos, u.sections[s].ofs)
  }

  /** What pass 1 leaves in the slot of x. Slots of references belong to the label chains. */
  ghost predicate Holds(al: seq<nat>, x: Item, v: int)
    requires Fits(al, x)
  {
    match x
    case Begin(_, _, start) => v == start
    case Act(_, est, _, _, arg, _) =>
      var ins := Ins(al, x);
      && (Action(ins) == ALIGN ==> v == est + Mask(ins))
      && (IsLabel(ins) ==> v == est)
      && (IsImmediate(ins) ==> v == Stored(ins, arg))
  }

  ghost predicate SlotOk(al: seq<nat>, u: Unit, s: nat, k: nat)
    requires s < |u.progs| && k < |u.progs[s]|
  {
    var x := u.progs[s][k];
    && Fits(al, x)
    && (SlotCount(al, x) == 1 ==>
          x.at in u.slots && x.at in u.owner && u.owner[x.at] == (s, k) && Holds(al, x, u.slots[x.at]))
  }

  ghost predicate SlotsOk(al: seq<nat>, u: Unit)
  {
    forall s, k {:trigger SlotOk(al, u, s, k)} | 0 <= s < |u.progs| && 0 <= k < |u.progs[s]| :: SlotOk(al, u, s, k)
  }

  /** Each section's slots fill its range of positions from the bottom, and nothing else is a slot. */
  ghost predicate Below(u: Unit, q: nat)
  {
    q / SECTION_SIZE < |u.sections| && q < u.sections[q / SECTION_SIZE].pos
  }

  ghost predicate RangesOk(u: Unit)
  {
    && (forall s | 0 <= s < |u.sections| ::
          s * SECTION_SIZE <= u.sections[s].pos <= s * SECTION_SIZE + SECTION_SIZE)
    && (forall q {:trigger Below(u, q)} | q in u.slots :: Below(u, q))
  }

  /** The item that owns the position of event e is the item of that event. */
  ghost predicate EventOwned(al: seq<nat>, u: Unit, e: nat)
    requires e < |u.events|
  {
    && u.events[e].pos in u.owner
    && var (s, k) := u.owner[u.events[e].pos];
    && s < |u.progs| && k < |u.progs[s]|
    && var x := u.progs[s][k];
    && Fits(al, x) && HasEvent(al, x) && x.event == e && u.events[e] == EventOf(al, x)
  }

  ghost predicate ItemEventOk(al: seq<nat>, u: Unit, s: nat, k: nat)
    requires s < |u.progs| && k < |u.progs[s]|
  {
    var x := u.progs[s][k];
    && Fits(al, x)
    && (HasEvent(al, x) ==> x.event < |u.events| && u.events[x.event] == EventOf(al, x))
  }

  ghost predicate EventsOk(al: seq<nat>, u: Unit)
  {
    && (forall e {:trigger EventOwned(al, u, e)} | 0 <= e < |u.events| :: EventOwned(al, u, e))
    && (forall s, k {:trigger ItemEventOk(al, u, s, k)} | 0 <= s < |u.progs| && 0 <= k < |u.progs[s]| ::
          ItemEventOk(al, u, s, k))
  }

  ghost predicate UnitOk(al: seq<nat>, u: Unit)
  {
    ProgsOk(al, u) && SlotsOk(al, u) && RangesOk(u) && EventsOk(al, u)
  }

  /** No put is in progress. */
  ghost predicate Closed(al: seq<nat>, u: Unit)
    requires UnitOk(al, u)
  {
    forall s | 0 <= s < |u.progs| :: ClosedAt(al, u, s)
  }

  ghost predicate ClosedAt(al: seq<nat>, u: Unit, s: nat)
    requires UnitOk(al, u) && s < |u.progs|
  {
    u.progs[s] == [] || (assert ProgOk(al, s, u.progs[s], u.sections[s].pos, u.sections[s].ofs);
                         Stops(al, u.progs[s][|u.progs[s]| - 1]))
  }

  // ----- Recording one more item -----

  /** x may come next in section s. */
  ghost predicate ComesNext(al: seq<nat>, u: Unit, s: nat, x: Item)
    requires s < |u.progs| && ProgsOk(al, u)
  {
    && ItemOk(al, x)
    && if u.progs[s] == [] then x.Begin? && x.at == s * SECTION_SIZE && x.est == 0
       else
         assert ProgOk(al, s, u.progs[s], u.sections[s].pos, u.sections[s].ofs);
         Follows(al, u.progs[s][|u.progs[s]| - 1], x)
  }

  ghost function Append(al: seq<nat>, u: Unit, s: nat, x: Item, v: int): Unit
    requires Fits(al, x) && s < |u.progs| == |u.sections|
  {
    var sec := u.sections[s];
    var moved := sec.(pos := sec.pos + SlotCount(al, x), ofs := sec.ofs + Growth(al, x));
    u.(progs := u.progs[s := u.progs[s] + [x]],
       sections := u.sections[s := moved],
       slots := if SlotCount(al, x) == 1 then u.slots[x.at := v] else u.slots,
       owner := if SlotCount(al, x) == 1 then u.owner[x.at := (s, |u.progs[s]|)] else u.owner,
       events := if HasEvent(al, x) then u.events + [EventOf(al, x)] else u.events)
  }

  lemma AppendKeepsProgs(al: seq<nat>, u: Unit, s: nat, x: Item, v: int)
    requires ProgsOk(al, u) && s < |u.progs| && ComesNext(al, u, s, x)
    ensures ProgsOk(al, Append(al, u, s, x, v))
    ensures x.at == u.sections[s].pos && x.est == u.sections[s].ofs
  {
    var prog := u.progs[s];
    var more := prog + [x];
    assert ProgOk(al, s, prog, u.sections[s].pos, u.sections[s].ofs);
    forall k | 0 <= k < |more| - 1
      ensures Follows(al, more[k], more[k + 1])
    {
      if k < |prog| - 1 {
        assert Follows(al, prog[k], prog[k + 1]);
      }
    }
    var w := Append(al, u, s, x, v);
    forall r | 0 <= r < |w.sections|
      ensures ProgOk(al, r, w.progs[r], w.sections[r].pos, w.sections[r].ofs)
    {
      if r != s {
        assert ProgOk(al, r, u.progs[r], u.sections[r].pos, u.sections[r].ofs);
      }
    }
  }

  /** The next position of a section is not a slot yet. */
  lemma NextPositionIsFree(u: Unit, s: nat)
    requires RangesOk(u) && s < |u.sections| && u.sections[s].pos < s * SECTION_SIZE + SECTION_SIZE
    ensures u.sections[s].pos / SECTION_SIZE == s && u.sections[s].pos !in u.slots
  {
    SectionOfPosition(s, u.sections[s].pos);
    assert !Below(u, u.sections[s].pos);
  }

  lemma SectionOfPosition(s: nat, q: nat)
    requires s * SECTION_SIZE <= q < s * SECTION_SIZE + SECTION_SIZE
    ensures q / SECTION_SIZE == s
  {
  }

  lemma AppendKeepsRanges(al: seq<nat>, u: Unit, s: nat, x: Item, v: int)
    requires RangesOk(u) && s < |u.progs| == |u.sections| && Fits(al, x) && x.at == u.sections[s].pos
    requires u.sections[s].pos < s * SECTION_SIZE + SECTION_SIZE
    ensures RangesOk(Append(al, u, s, x, v))
  {
    NextPositionIsFree(u, s);
    var w := Append(al, u, s, x, v);
    forall q | q in w.slots
      ensures Below(w, q)
    {
      if q in u.slots {
        assert Below(u, q);
      }
    }
  }

  lemma AppendKeepsSlots(al: seq<nat>, u: Unit, s: nat, x: Item, v: int)
    requires SlotsOk(al, u) && s < |u.progs| == |u.sections| && Fits(al, x)
    requires x.at !in u.slots && (SlotCount(al, x) == 1 ==> Holds(al, x, v))
    ensures SlotsOk(al, Append(al, u, s, x, v))
  {
    var w := Append(al, u, s, x, v);
    forall r, k | 0 <= r < |w.progs| && 0 <= k < |w.progs[r]|
      ensures SlotOk(al, w, r, k)
    {
      if r != s || k < |u.progs[s]| {
        assert SlotOk(al, u, r, k);
        assert w.progs[r][k] == u.progs[r][k];
      }
    }
  }

  lemma AppendKeepsEvents(al: seq<nat>, u: Unit, s: nat, x: Item, v: int)
    requires EventsOk(al, u) && s < |u.progs| == |u.sections| && Fits(al, x)
    requires forall e | 0 <= e < |u.events| :: u.events[e].pos != x.at
    requires HasEvent(al, x) ==> x.event == |u.events|
    ensures EventsOk(al, Append(al, u, s, x, v))
  {
    var w := Append(al, u, s, x, v);
    forall e | 0 <= e < |w.events|
      ensures EventOwned(al, w, e)
    {
      if e < |u.events| {
        assert EventOwned(al, u, e);
        var (r, k) := u.owner[u.events[e].pos];
        assert w.progs[r][k] == u.progs[r][k];
        assert w.owner[w.events[e].pos] == (r, k);
      } else {
        assert w.progs[s][|u.progs[s]|] == x;
      }
    }
    forall r, k | 0 <= r < |w.progs| && 0 <= k < |w.progs[r]|
      ensures ItemEventOk(al, w, r, k)
    {
      if r != s || k < |u.progs[s]| {
        assert ItemEventOk(al, u, r, k);
        assert w.progs[r][k] == u.progs[r][k];
      }
    }
  }

  /** Writing to slots of references changes nothing else that the passes rely on. */
  lemma OverwriteKeepsUnit(al: seq<nat>, u: Unit, ps: seq<nat>, v: int)
    requires UnitOk(al, u)
    requires forall q | q in ps :: exists e :: ReferenceAt(u.events, e, q)
    ensures UnitOk(al, u.(slots := Overwrite(u.slots, ps, v)))
  {
    var w := u.(slots := Overwrite(u.slots, ps, v));
    forall s, k | 0 <= s < |w.progs| && 0 <= k < |w.progs[s]|
      ensures SlotOk(al, w, s, k)
    {
      var x := u.progs[s][k];
      assert SlotOk(al, u, s, k);
      if SlotCount(al, x) == 1 && x.at in ps {
        var e :| ReferenceAt(u.events, e, x.at);
        assert EventOwned(al, u, e);
      }
    }
    forall q | q in w.slots
      ensures Below(w, q)
    {
      assert Below(u, q);
    }
    forall e | 0 <= e < |w.events|
      ensures EventOwned(al, w, e)
    {
      assert EventOwned(al, u, e);
    }
    forall s, k | 0 <= s < |w.progs| && 0 <= k < |w.progs[s]|
      ensures ItemEventOk(al, w, s, k)
    {
      assert ItemEventOk(al, u, s, k);
    }
  }

  /** Recording an item keeps the invariant. */
  lemma AppendKeepsUnit(al: seq<nat>, u: Unit, s: nat, x: Item, v: int)
    requires UnitOk(al, u) && s < |u.progs| && ComesNext(al, u, s, x)
    requires u.sections[s].pos < s * SECTION_SIZE + SECTION_SIZE
    requires SlotCount(al, x) == 1 ==> Holds(al, x, v)
    requires HasEvent(al, x) ==> x.event == |u.events|
    requires forall e | 0 <= e < |u.events| :: u.events[e].pos in u.slots
    ensures UnitOk(al, Append(al, u, s, x, v))
    ensures x.at !in u.slots
  {
    AppendKeepsProgs(al, u, s, x, v);
    NextPositionIsFree(u, s);
    AppendKeepsRanges(al, u, s, x, v);
    AppendKeepsSlots(al, u, s, x, v);
    AppendKeepsEvents(al, u, s, x, v);
  }

  // ----- The program that the calls describe -----

  /** A step of the program, apart from where its slot is and what is estimated: a call, or an action with its argument. */
  datatype Op = Call(start: nat) | Do(p: nat, arg: int)

  function OpOf(x: Item): Op
  {
    match x
    case Begin(_, _, start) => Call(start)
    case Act(_, _, p, _, arg, _) => Do(p, arg)
  }

  function Ops(xs: seq<Item>): (ops: seq<Op>)
    ensures |ops| == |xs|
    ensures forall k | 0 <= k < |xs| :: ops[k] == OpOf(xs[k])
  {
    if xs == [] then [] else Ops(xs[..|xs| - 1]) + [OpOf(xs[|xs| - 1])]
  }

  /** Where the action after the one at p is; ESC is followed by a literal word. */
  function After(al: seq<nat>, p: nat): (q: nat)
    requires p < |al|
    ensures q > p
  {
    if Action(al[p]) == ESC then p + 2 else p + 1
  }

  /** The argument of the action word, if it takes one, is the first of those left. */
  function Argument(ins: nat, args: seq<int>): int
  {
    if HasArgument(ins) && args != [] then args[0] else 0
  }

  function ArgumentsAfter(ins: nat, args: seq<int>): seq<int>
  {
    if HasArgument(ins) && args != [] then args[1..] else args
  }

  /** The actions from p to the next stop, with the arguments handed out in order. */
  function Actions(al: seq<nat>, p: nat, args: seq<int>): seq<Op>
    decreases |al| - p
  {
    if p >= |al| then []
    else if Action(al[p]) <= SECTION then [Do(p, 0)]
    else [Do(p, Argument(al[p], args))] + Actions(al, After(al, p), ArgumentsAfter(al[p], args))
  }

  /** The label events of the items, in order. */
  function EventsOf(al: seq<nat>, xs: seq<Item>): seq<Event>
    requires forall x | x in xs :: Fits(al, x)
  {
    if xs == [] then [] else
      var x := xs[|xs| - 1];
      EventsOf(al, xs[..|xs| - 1]) + if HasEvent(al, x) then [EventOf(al, x)] else []
  }

  /** The labels that an action may name. */
  predicate NameOk(ins: nat, arg: int, lgCount: nat, pcCount: nat)
  {
    && (Action(ins) == REL_LG ==> ins % 0x800 < 10 + lgCount)
    && (Action(ins) == LABEL_LG ==> 10 <= ins % 0x800 < 10 + lgCount)
    && (Action(ins) == REL_PC || Action(ins) == LABEL_PC ==> 0 <= arg < pcCount)
  }

  /**
   What dasm_put demands of an action list from p on and of its arguments: it reaches a stop within the list, patches
   come after a word, masks are 2^k - 1, labels and sections exist, at most room more buffer positions are needed, and
   there is exactly one argument per action that takes one.
   */
  predicate CallOk(al: seq<nat>, p: nat, word: bool, args: seq<int>, room: nat,
                   lgCount: nat, pcCount: nat, maxSection: nat)
    decreases |al| - p
  {
    && p < |al|
    && var ins := al[p];
    if Action(ins) <= SECTION then args == [] && (Action(ins) == SECTION ==> ins % 0x100 < maxSection)
    else
      && (Action(ins) == ESC ==> p + 1 < |al|)
      && (IsPatch(ins) ==> word)
      && (Action(ins) == ALIGN ==> IsMask(Mask(ins)))
      && (HasArgument(ins) ==> args != [])
      && NameOk(ins, Argument(ins, args), lgCount, pcCount)
      && (HasSlot(ins) ==> room > 0)
      && CallOk(al, After(al, p), WordAfter(ins, word), ArgumentsAfter(ins, args), RoomAfter(ins, room),
                lgCount, pcCount, maxSection)
  }

  /** The arguments that the steps take. */
  function ArgumentsOf(al: seq<nat>, ops: seq<Op>): seq<int>
  {
    if ops == [] then [] else
      (match ops[0]
       case Do(p, arg) => if p < |al| && HasArgument(al[p]) then [arg] else []
       case Call(_) => [])
      + ArgumentsOf(al, ops[1..])
  }

  /** The arguments of a call are taken in their order, and all of them. */
  lemma {:induction false} ArgumentsInOrder(al: seq<nat>, p: nat, word: bool, args: seq<int>, room: nat,
                                            lgCount: nat, pcCount: nat, maxSection: nat)
    requires CallOk(al, p, word, args, room, lgCount, pcCount, maxSection)
    ensures ArgumentsOf(al, Actions(al, p, args)) == args
    decreases |al| - p
  {
    if Action(al[p]) > SECTION {
      var rest := ArgumentsAfter(al[p], args);
      var ops := Actions(al, After(al, p), rest);
      ArgumentsInOrder(al, After(al, p), WordAfter(al[p], word), rest, RoomAfter(al[p], room), lgCount, pcCount, maxSection);
      FirstArgument(al, p, args, ops);
    } else {
      FirstArgument(al, p, args, []);
    }
  }

  lemma {:induction false} FirstArgument(al: seq<nat>, p: nat, args: seq<int>, ops: seq<Op>)
    requires p < |al| && (HasArgument(al[p]) ==> args != [])
    requires ArgumentsOf(al, ops) == ArgumentsAfter(al[p], args)
    ensures ArgumentsOf(al, [Do(p, Argument(al[p], args))] + ops) == args
  {
    var all := [Do(p, Argument(al[p], args))] + ops;
    assert all[1..] == ops;
  }

  /** The steps of a call: a literal word is skipped behind its ESC, and the call ends with STOP or SECTION. */
  lemma {:induction false} ActionsStep(al: seq<nat>, p: nat, args: seq<int>)
    requires p < |al|
    ensures Actions(al, p, args) != [] && Actions(al, p, args)[0].Do? && Actions(al, p, args)[0].p == p
    ensures Action(al[p]) == 0 || Action(al[p]) == 1 ==> |Actions(al, p, args)| == 1
    ensures Action(al[p]) > 1 && |Actions(al, p, args)| > 1 ==>
      var next := Actions(al, p, args)[1]; next.Do? && next.p == if Action(al[p]) == 2 then p + 2 else p + 1
  {
    if Action(al[p]) > SECTION && After(al, p) < |al| {
      assert Actions(al, After(al, p), ArgumentsAfter(al[p], args)) != [];
    }
  }

  /** Whether a word has been emitted after the action. */
  predicate WordAfter(ins: nat, word: bool)
  {
    word || IsWord(ins) || Action(ins) == ESC
  }

  function RoomAfter(ins: nat, room: nat): nat
  {
    if HasSlot(ins) && room > 0 then room - 1 else room
  }
}
