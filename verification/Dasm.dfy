/**
 The DynASM ARM engine (dasm_arm.h): dasm_put stores actions and arguments and links labels, dasm_link fixes offsets,
 dasm_encode emits code. Buffers are addressed by biased positions, as DASM_POS2PTR does.
 */
module Dasm {
  import opened Options
  import opened DasmActions
  import opened Labels
  import opened LabelChains
  import opened DasmUnit
  import opened DasmLink
  import opened DasmCode

  /** The loop of DASM_M_GROW. */
  method Grown(size: nat, need: nat) returns (r: nat)
    requires size % 4 == 0
    ensures r % 4 == 0 && r >= size && r >= need && (size < need ==> r >= 16)
  {
    r := size;
    if r < need {
      if r < 16 { r := 16; }
      while r < need
        invariant r >= 16 && r >= size && r % 4 == 0
        decreases need - r
      {
        r := r + r;
      }
    }
  }

  /** The limit of section s leaves room for the positions of one put. */
  ghost predicate BufferOk(s: nat, sec: Section)
  {
    && sec.bsize % 4 == 0
    && s * SECTION_SIZE <= sec.pos <= s * SECTION_SIZE + sec.bsize / 4
    && if sec.bsize == 0 then sec.epos == 0
       else sec.bsize >= 200 && sec.epos == s * SECTION_SIZE + sec.bsize / 4 - MAXSECPOS
  }

  ghost predicate BuffersOk(sections: seq<Section>)
  {
    forall s {:trigger BufferOk(s, sections[s])} | 0 <= s < |sections| :: BufferOk(s, sections[s])
  }

  /** The invariant of the assembler's fields, also in the middle of a put. */
  ghost predicate StateOk(al: seq<nat>, slots: Slots, sections: seq<Section>, section: nat,
                          lg: seq<int>, pc: seq<int>, u: Unit)
  {
    && u.slots == slots && u.sections == sections
    && UnitOk(al, u)
    && LabelsOk(lg, pc, slots, u.events)
    && BuffersOk(sections)
    && section < |sections|
    && |lg| >= 10
  }

  ghost predicate Room(sec: Section, s: nat)
  {
    && sec.pos < s * SECTION_SIZE + sec.bsize / 4
    && sec.pos < s * SECTION_SIZE + SECTION_SIZE
  }

  /** w is u with x recorded in section s, whatever the slots hold. */
  ghost predicate Recorded(al: seq<nat>, u: Unit, w: Unit, s: nat, x: Item)
    requires s < |u.progs| == |u.sections| && Fits(al, x)
  {
    && w.progs == u.progs[s := u.progs[s] + [x]]
    && w.sections == u.sections[s := u.sections[s].(pos := u.sections[s].pos + SlotCount(al, x),
                                                    ofs := u.sections[s].ofs + Growth(al, x))]
    && w.events == u.events + if HasEvent(al, x) then [EventOf(al, x)] else []
  }

  /** The invariant holds with w, after v is pushed on section s of u and its offset grows. */
  ghost predicate Pushed(al: seq<nat>, u: Unit, section: nat, lg: seq<int>, pc: seq<int>, s: nat, v: int, growth: nat, w: Unit)
    requires s < |u.sections|
  {
    StateOk(al, u.slots[u.sections[s].pos := v],
            u.sections[s := u.sections[s].(pos := u.sections[s].pos + 1, ofs := u.sections[s].ofs + growth)],
            section, lg, pc, w)
  }

  /** Recording an item with a slot: the invariant holds again once the buffers and labels are updated accordingly. */
  lemma RecordKeepsState(al: seq<nat>, u: Unit, section: nat, lg: seq<int>, pc: seq<int>, s: nat, x: Item, v: int)
    requires UnitOk(al, u) && BuffersOk(u.sections) && section < |u.sections| && |lg| >= 10
    requires s < |u.progs| && ComesNext(al, u, s, x) && SlotCount(al, x) == 1 && Room(u.sections[s], s)
    requires Holds(al, x, v) && (HasEvent(al, x) ==> x.event == |u.events|)
    requires forall e | 0 <= e < |u.events| :: u.events[e].pos in u.slots
    requires LabelsOk(lg, pc, u.slots[u.sections[s].pos := v],
                      if HasEvent(al, x) then u.events + [EventOf(al, x)] else u.events)
    ensures Pushed(al, u, section, lg, pc, s, v, Growth(al, x), Append(al, u, s, x, v))
    ensures Recorded(al, u, Append(al, u, s, x, v), s, x)
  {
    AppendKeepsUnit(al, u, s, x, v);
    AppendedSlot(al, u, s, x, v);
    var sec := u.sections[s];
    assert BufferOk(s, sec);
    BuffersUpdate(u.sections, s, sec.(pos := sec.pos + 1, ofs := sec.ofs + Growth(al, x)));
  }

  lemma BuffersUpdate(sections: seq<Section>, s: nat, sec: Section)
    requires BuffersOk(sections) && s < |sections| && BufferOk(s, sec)
    ensures BuffersOk(sections[s := sec])
  {
    var after := sections[s := sec];
    forall r | 0 <= r < |after|
      ensures BufferOk(r, after[r])
    {
      assert BufferOk(r, sections[r]);
    }
  }

  /** The same for an item without a slot. */
  lemma AdvanceKeepsState(al: seq<nat>, u: Unit, section: nat, lg: seq<int>, pc: seq<int>, s: nat, x: Item)
    requires StateOk(al, u.slots, u.sections, section, lg, pc, u)
    requires s < |u.progs| && ComesNext(al, u, s, x) && SlotCount(al, x) == 0
    requires u.sections[s].pos < s * SECTION_SIZE + SECTION_SIZE
    ensures StateOk(al, u.slots, u.sections[s := u.sections[s].(ofs := u.sections[s].ofs + Growth(al, x))],
                    section, lg, pc, Append(al, u, s, x, 0))
    ensures Recorded(al, u, Append(al, u, s, x, 0), s, x)
  {
    AppendKeepsUnit(al, u, s, x, 0);
    AppendedPlain(al, u, s, x);
    assert BufferOk(s, u.sections[s]);
    BuffersUpdate(u.sections, s, u.sections[s].(ofs := u.sections[s].ofs + Growth(al, x)));
  }

  /** The event e of item x may be recorded next. */
  ghost predicate EventComesNext(al: seq<nat>, u: Unit, section: nat, s: nat, x: Item, e: Event)
  {
    && UnitOk(al, u) && BuffersOk(u.sections) && section < |u.sections|
    && s < |u.progs| && ComesNext(al, u, s, x) && Room(u.sections[s], s)
    && HasEvent(al, x) && e == EventOf(al, x) && x.event == |u.events|
    && forall i | 0 <= i < |u.events| :: u.events[i].pos in u.slots
  }

  /** The same for a reference or a label, whose offset estimate does not move. */
  lemma RecordEventKeepsState(al: seq<nat>, u: Unit, section: nat, lg: seq<int>, pc: seq<int>, s: nat, x: Item, v: int,
                              e: Event)
    requires EventComesNext(al, u, section, s, x, e) && |lg| >= 10
    requires e.Define? ==> v == u.sections[s].ofs
    requires LabelsOk(lg, pc, u.slots[u.sections[s].pos := v], u.events + [e])
    ensures Pushed(al, u, section, lg, pc, s, v, 0, Append(al, u, s, x, v))
    ensures Recorded(al, u, Append(al, u, s, x, v), s, x)
  {
    NextPositionIsPositive(al, u, s, x);
    RecordKeepsState(al, u, section, lg, pc, s, x, v);
  }

  /** The same for a label, when the references waiting for it have its position already. */
  lemma RecordLabelKeepsState(al: seq<nat>, u0: Unit, u: Unit, section: nat, lg: seq<int>, pc: seq<int>, s: nat, x: Item,
                              v: int, e: Event)
    requires EventComesNext(al, u0, section, s, x, e) && |lg| >= 10
    requires e.Define? && v == u0.sections[s].ofs
    requires u == u0.(slots := Overwrite(u0.slots, Labels.Pending(Run(u0.events), e.name), e.pos))
    requires LabelsOk(lg, pc, u.slots[u0.sections[s].pos := v], u0.events + [e])
    ensures UnitOk(al, u)
    ensures Pushed(al, u, section, lg, pc, s, v, 0, Append(al, u, s, x, v))
    ensures Recorded(al, u0, Append(al, u, s, x, v), s, x)
    ensures u.sections[s] == u0.sections[s]
  {
    PendingAreReferences(u0.events, e.name);
    OverwriteKeepsUnit(al, u0, Labels.Pending(Run(u0.events), e.name), e.pos);
    assert ProgOk(al, s, u0.progs[s], u0.sections[s].pos, u0.sections[s].ofs);
    RecordEventKeepsState(al, u, section, lg, pc, s, x, v, e);
  }

  function FreshSections(maxSection: nat): seq<Section>
  {
    seq(maxSection, s requires 0 <= s < maxSection => Section(0, s * SECTION_SIZE, 0, 0))
  }

  function Zeros(n: nat): seq<int>
  {
    seq(n, _ => 0)
  }

  ghost function FreshUnit(maxSection: nat): Unit
  {
    Unit(map[], FreshSections(maxSection), seq(maxSection, _ => []), map[], [])
  }

  lemma FreshState(al: seq<nat>, maxSection: nat, maxGlobal: nat, maxPc: nat)
    requires maxSection > 0
    ensures var u := FreshUnit(maxSection);
      StateOk(al, map[], FreshSections(maxSection), 0, Zeros(10 + maxGlobal), Zeros(maxPc), u) && Closed(al, u)
  {
  }

  class Assembler {
    const actions: seq<nat>
    const externs: Externs
    var slots: Slots             // all section buffers, by biased position
    var sections: seq<Section>
    var section: nat
    var lg: seq<int>             // lglabels: locals 0 to 9, then globals
    var pc: seq<int>             // pclabels
    var globals: seq<Option<nat>>   // byte offsets of global labels
    var codesize: nat
    ghost var unit: Unit         // the buffers with the items walked

    ghost predicate Open()
      reads this
    {
      StateOk(actions, slots, sections, section, lg, pc, unit)
    }

    ghost predicate Valid()
      reads this
    {
      Open() && Closed(actions, unit) && |lg| == 10 + |globals|
    }

    /** dasm_init, dasm_setupglobal, dasm_growpc and dasm_setup. */
    constructor (al: seq<nat>, ext: Externs, maxSection: nat, maxGlobal: nat, maxPc: nat)
      requires maxSection > 0
      ensures Valid() && actions == al && externs == ext && |sections| == maxSection && |lg| == 10 + maxGlobal && |pc| == maxPc
      ensures forall s | 0 <= s < maxSection :: unit.progs[s] == []
      ensures unit.events == [] && section == 0
    {
      actions, externs := al, ext;
      globals := seq(maxGlobal, _ => None);
      slots := map[];
      sections := FreshSections(maxSection);
      section := 0;
      lg, pc := Zeros(10 + maxGlobal), Zeros(maxPc);
      unit := FreshUnit(maxSection);
      FreshState(al, maxSection, maxGlobal, maxPc);
    }

    /** Making room for the buffer positions of one put. */
    method Reserve(cur: nat)
      requires Open() && cur < |sections|
      modifies this`sections, this`unit
      ensures Open() && |sections| == |old(sections)|
      ensures sections[cur].pos == old(sections)[cur].pos
      ensures sections[cur].pos + MAXSECPOS + 1 <= cur * SECTION_SIZE + sections[cur].bsize / 4
      ensures unit == old(unit).(sections := sections)
      ensures forall s | 0 <= s < |sections| && s != cur :: sections[s] == old(sections)[s]
    {
      var sec := sections[cur];
      assert BufferOk(cur, sec);
      if sec.pos >= sec.epos {
        var bsize := Grown(sec.bsize, sec.bsize + 2 * MAXSECPOS * 4);
        ResizeKeepsUnit(actions, unit, cur, bsize, bsize / 4 - MAXSECPOS + cur * SECTION_SIZE);
        sections := sections[cur := sec.(bsize := bsize, epos := bsize / 4 - MAXSECPOS + cur * SECTION_SIZE)];
        unit := unit.(sections := sections);
      }
    }

    /** A step without a buffer position: only the offset moves. */
    method Advance(cur: nat, growth: nat, ghost x: Item)
      requires Open() && cur < |unit.progs| && ComesNext(actions, unit, cur, x)
      requires SlotCount(actions, x) == 0 && growth == Growth(actions, x)
      requires sections[cur].pos < cur * SECTION_SIZE + SECTION_SIZE
      modifies this`sections, this`unit
      ensures Open() && Recorded(actions, old(unit), unit, cur, x)
    {
      ghost var w := Append(actions, unit, cur, x, 0);
      AdvanceKeepsState(actions, unit, section, lg, pc, cur, x);
      sections := sections[cur := sections[cur].(ofs := sections[cur].ofs + growth)];
      unit := w;
    }

    /** b[pos++] = v, when w describes the result. */
    method Push(cur: nat, v: int, growth: nat, ghost u: Unit, ghost w: Unit)
      requires u.slots == slots && u.sections == sections && cur < |sections|
      requires Pushed(actions, u, section, lg, pc, cur, v, growth, w)
      modifies this`slots, this`sections, this`unit
      ensures Open() && unit == w
    {
      slots := slots[sections[cur].pos := v];
      sections := sections[cur := sections[cur].(pos := sections[cur].pos + 1, ofs := sections[cur].ofs + growth)];
      unit := w;
    }

    /** A value for a position that is no label and no reference. */
    method Store(cur: nat, v: int, growth: nat, ghost x: Item)
      requires Open() && cur < |unit.progs| && ComesNext(actions, unit, cur, x) && Room(sections[cur], cur)
      requires SlotCount(actions, x) == 1 && growth == Growth(actions, x) && !HasEvent(actions, x)
      requires Holds(actions, x, v)
      modifies this`slots, this`sections, this`unit
      ensures Open() && Recorded(actions, old(unit), unit, cur, x)
    {
      var pos := sections[cur].pos;
      NextPositionIsFree(unit, cur);
      OtherSlotKeepsLabels(lg, pc, slots, unit.events, pos, v);
      RecordKeepsState(actions, unit, section, lg, pc, cur, x, v);
      Push(cur, v, growth, unit, Append(actions, unit, cur, x, v));
    }

    /** Reading the table entry that pl points to. */
    method GetLabel(l: Label) returns (n: int)
      requires ValidLabel(lg, pc, l)
      ensures n == Head(lg, pc, l)
    {
      match l
      case LG(i) => return lg[i];
      case PC(i) => return pc[i];
    }

    method SetLabel(l: Label, v: int)
      requires ValidLabel(lg, pc, l)
      modifies this`lg, this`pc
      ensures HeadReplaced(old(lg), old(pc), lg, pc, l, v)
    {
      match l
      case LG(i) => lg := lg[i := v];
      case PC(i) => pc := pc[i := v];
    }

    /** A reference: its slot gets the label's position, or joins the chain of waiting references. */
    method StoreReference(cur: nat, ghost x: Item, e: Event)
      requires Open() && cur < |unit.progs| && ComesNext(actions, unit, cur, x) && Room(sections[cur], cur)
      requires HasEvent(actions, x) && e == EventOf(actions, x) && !e.Define? && x.event == |unit.events|
      requires e.pos == sections[cur].pos && ValidLabel(lg, pc, e.name)
      modifies this`slots, this`sections, this`unit, this`lg, this`pc
      ensures Open() && Recorded(actions, old(unit), unit, cur, x)
      ensures |lg| == |old(lg)| && |pc| == |old(pc)|
    {
      NextPositionIsPositive(actions, unit, cur, x);
      var v;
      ghost var w;
      v, w := LinkReference(cur, x, e);
      Push(cur, v, 0, unit, w);
    }

    /** The event e of item x may be recorded, and its label linked, next. */
    ghost predicate LinkReady(cur: nat, x: Item, e: Event)
      reads this
    {
      && EventComesNext(actions, unit, section, cur, x, e) && unit.slots == slots && unit.sections == sections
      && LabelsOk(lg, pc, slots, unit.events) && |lg| >= 10 && ValidLabel(lg, pc, e.name)
      && e.pos > 0 && e.pos !in slots && e.pos == sections[cur].pos
    }

    /** The value for the slot of the reference, and what pushing it makes of the unit. */
    method LinkReference(cur: nat, ghost x: Item, e: Event) returns (v: int, ghost w: Unit)
      requires LinkReady(cur, x, e) && !e.Define?
      modifies this`lg, this`pc
      ensures unit.slots == slots && unit.sections == sections && cur < |sections|
      ensures Pushed(actions, unit, section, lg, pc, cur, v, 0, w) && Recorded(actions, unit, w, cur, x)
      ensures |lg| == |old(lg)| && |pc| == |old(pc)|
    {
      ghost var u := unit;
      v := ChainReference(e);
      w := Append(actions, u, cur, x, v);
      RecordEventKeepsState(actions, u, section, lg, pc, cur, x, v, e);
    }

    /** The value for the slot of reference e, which is stored next. */
    method ChainReference(e: Event) returns (v: int)
      requires LabelsOk(lg, pc, slots, unit.events)
      requires !e.Define? && e.pos > 0 && e.pos !in slots && ValidLabel(lg, pc, e.name)
      modifies this`lg, this`pc
      ensures LabelsOk(lg, pc, slots[e.pos := v], unit.events + [e])
      ensures |lg| == |old(lg)| && |pc| == |old(pc)|
    {
      HeadsMean(lg, pc, slots, unit.events, e.name);
      var n := GetLabel(e.name);
      if n < 0 && e.Refer? {
        v := -n;
        ReferKeepsLabels(lg, pc, slots, unit.events, e);
      } else {
        v := if n < 0 then 0 else n;
        ghost var lg0, pc0 := lg, pc;
        SetLabel(e.name, e.pos);
        LinkKeepsLabels(lg0, pc0, lg, pc, slots, unit.events, e);
      }
    }

    /** Collapsing a chain: every slot on it gets v. */
    method Collapse(head: int, v: int, ghost ps: seq<nat>)
      requires Chain(slots, ps) && if ps == [] then head <= 0 else head == ps[0]
      requires forall j, k | 0 <= j < k < |ps| :: ps[j] != ps[k]
      modifies this`slots
      ensures slots == Overwrite(old(slots), ps, v)
    {
      ChainIsStored(slots, ps);
      var n := head;
      ghost var j := 0;
      while n > 0
        invariant 0 <= j <= |ps|
        invariant if j < |ps| then n == ps[j] > 0 else n <= 0
        invariant slots == Overwrite(old(slots), ps[..j], v)
        decreases |ps| - j
      {
        OverwriteMore(old(slots), ps, j, v);
        var next := slots[n];
        slots := slots[n := v];
        n, j := next, j + 1;
      }
      assert ps[..j] == ps;
    }

    /** A definition: waiting references get its position, and its slot the offset estimate. */
    method StoreLabel(cur: nat, ghost x: Item, e: Event)
      requires Open() && cur < |unit.progs| && ComesNext(actions, unit, cur, x) && Room(sections[cur], cur)
      requires HasEvent(actions, x) && e == EventOf(actions, x) && e.Define? && x.event == |unit.events|
      requires e.pos == sections[cur].pos && ValidLabel(lg, pc, e.name)
      modifies this`slots, this`sections, this`unit, this`lg, this`pc
      ensures Open() && Recorded(actions, old(unit), unit, cur, x)
      ensures |lg| == |old(lg)| && |pc| == |old(pc)|
    {
      NextPositionIsPositive(actions, unit, cur, x);
      ghost var u, w := LinkLabel(cur, x, e);
      Push(cur, sections[cur].ofs, 0, u, w);
    }

    /** The label is defined: what that makes of the unit, before and after its slot is pushed. */
    method LinkLabel(cur: nat, ghost x: Item, e: Event) returns (ghost u: Unit, ghost w: Unit)
      requires LinkReady(cur, x, e) && e.Define?
      modifies this`slots, this`lg, this`pc
      ensures u == unit.(slots := slots) && u.sections == sections
      ensures Pushed(actions, u, section, lg, pc, cur, sections[cur].ofs, 0, w) && Recorded(actions, unit, w, cur, x)
      ensures |lg| == |old(lg)| && |pc| == |old(pc)|
    {
      ghost var ofs, u0 := sections[cur].ofs, unit;
      DefineLabel(e, ofs);
      u := u0.(slots := slots);
      w := Append(actions, u, cur, x, ofs);
      RecordLabelKeepsState(actions, u0, u, section, lg, pc, cur, x, ofs, e);
    }

    /** Collapsing the chain of the label and marking it as defined. v is stored at its position next. */
    method DefineLabel(e: Event, ghost v: int)
      requires LabelsOk(lg, pc, slots, unit.events)
      requires e.Define? && e.pos > 0 && e.pos !in slots && ValidLabel(lg, pc, e.name)
      modifies this`lg, this`pc, this`slots
      ensures LabelsOk(lg, pc, slots[e.pos := v], unit.events + [e])
      ensures slots == Overwrite(old(slots), Labels.Pending(Run(unit.events), e.name), e.pos)
      ensures |lg| == |old(lg)| && |pc| == |old(pc)|
    {
      ghost var ps := Labels.Pending(Run(unit.events), e.name);
      HeadsMean(lg, pc, slots, unit.events, e.name);
      PendingChainIsDistinct(unit.events, e.name);
      var n := GetLabel(e.name);
      ghost var slots0, lg0, pc0 := slots, lg, pc;
      Collapse(n, e.pos, ps);
      SetLabel(e.name, -(e.pos as int));
      DefineKeepsLabels(lg0, pc0, lg, pc, slots0, unit.events, e, v);
    }

    /** The switch of dasm_put for the action at p, which is no stop. word tells whether a word was emitted before. */
    method PutAction(cur: nat, p: nat, ghost word: bool, arg: int)
      requires Open() && cur < |unit.progs| && p < |actions|
      requires ComesNext(actions, unit, cur, NextAct(unit, cur, p, word, arg)) && Action(actions[p]) > SECTION
      requires NameOk(actions[p], arg, |lg|, |pc|)
      requires sections[cur].pos < cur * SECTION_SIZE + SECTION_SIZE
      requires HasSlot(actions[p]) ==> Room(sections[cur], cur)
      modifies this`slots, this`sections, this`unit, this`lg, this`pc
      ensures Open() && Recorded(actions, old(unit), unit, cur, NextAct(old(unit), cur, p, word, arg))
      ensures |lg| == |old(lg)| && |pc| == |old(pc)|
    {
      ghost var x := NextAct(unit, cur, p, word, arg);
      var ins := actions[p];
      var pos := sections[cur].pos;
      if IsWord(ins) || Action(ins) == ESC {
        Advance(cur, 4, x);
      } else if Action(ins) == REL_EXT {
        Advance(cur, 0, x);
      } else if Action(ins) == ALIGN {
        Store(cur, sections[cur].ofs + Mask(ins), Mask(ins), x);
      } else if Action(ins) == REL_LG {
        if ins % 0x800 < 10 {
          StoreReference(cur, x, Forward(LG(ins % 0x800), pos));
        } else {
          StoreReference(cur, x, Refer(LG(ins % 0x800 - 10), pos));
        }
      } else if Action(ins) == REL_PC {
        StoreReference(cur, x, Refer(PC(arg), pos));
      } else if Action(ins) == LABEL_LG {
        StoreLabel(cur, x, Define(LG(ins % 0x800 - 10), pos));
      } else if Action(ins) == LABEL_PC {
        StoreLabel(cur, x, Define(PC(arg), pos));
      } else if Action(ins) == IMMV8 {
        Store(cur, arg / 4, 0, x);
      } else {
        Store(cur, arg, 0, x);
      }
    }

    /** In the middle of a put into section cur. */
    ghost predicate Putting(cur: nat, p: nat, word: bool, rest: seq<int>, room: nat,
                            u0: Unit, xs: seq<Item>, ops: seq<Op>)
      reads this
    {
      Open() && Walking(actions, unit, |lg|, |pc|, cur, p, word, rest, room, u0, xs, ops)
    }

    method PutBegin(cur: nat, start: nat, args: seq<int>) returns (ghost xs: seq<Item>)
      requires Valid() && cur < |sections|
      requires CallOk(actions, start, false, args, MAXSECPOS, |lg|, |pc|, |sections|)
      requires sections[cur].pos + MAXSECPOS + 1 < cur * SECTION_SIZE + SECTION_SIZE
      modifies this`slots, this`sections, this`unit
      ensures |sections| == |old(sections)|
      ensures Putting(cur, start, false, args, MAXSECPOS, old(unit), xs, [Call(start)] + Actions(actions, start, args))
    {
      ghost var u0 := unit;
      Reserve(cur);
      ghost var u := unit;
      ghost var x := Begin(sections[cur].pos, sections[cur].ofs, start);
      ResizedBeginComesNext(actions, u0, u, cur, start);
      Store(cur, start, 0, x);
      BeginRecorded(actions, u0, u, unit, cur, x);
      xs := [x];
      assert Walking(actions, unit, |lg|, |pc|, cur, start, false, args, MAXSECPOS, u0, xs,
                     [Call(start)] + Actions(actions, start, args));
    }

    method PutStep(cur: nat, p: nat, ghost word: bool, rest: seq<int>, ghost room: nat,
                   ghost u0: Unit, ghost xs: seq<Item>, ghost ops: seq<Op>)
      returns (q: nat, rest': seq<int>, ghost word': bool, ghost room': nat, ghost ys: seq<Item>)
      requires Putting(cur, p, word, rest, room, u0, xs, ops) && Action(actions[p]) > SECTION
      modifies this`slots, this`sections, this`unit, this`lg, this`pc
      ensures |lg| == |old(lg)| && |pc| == |old(pc)| && |sections| == |old(sections)|
      ensures p < q && Putting(cur, q, word', rest', room', u0, ys, ops)
    {
      var ins := actions[p];
      var arg := Argument(ins, rest);
      ghost var x := NextAct(unit, cur, p, word, arg);
      ActComesNext(actions, unit, cur, p, word, arg, rest, room, |lg|, |pc|, |sections|);
      ghost var u := unit;
      PutAction(cur, p, word, arg);
      WalkMore(actions, u, unit, |lg|, |pc|, cur, p, word, rest, room, u0, xs, ops);
      ys := xs + [x];
      q := After(actions, p);
      rest' := ArgumentsAfter(ins, rest);
      word' := WordAfter(ins, word);
      room' := RoomAfter(ins, room);
    }

    method PutStop(cur: nat, p: nat, ghost word: bool, ghost rest: seq<int>, ghost room: nat,
                   ghost u0: Unit, ghost xs: seq<Item>, ghost ops: seq<Op>)
      requires Putting(cur, p, word, rest, room, u0, xs, ops) && Action(actions[p]) <= SECTION
      requires UnitOk(actions, u0) && Closed(actions, u0)
      modifies this`sections, this`unit
      ensures Open() && Closed(actions, unit) && |sections| == |old(sections)|
      ensures Extends(actions, u0, unit, cur, ops)
      ensures LastStop(actions, unit, cur) == p
    {
      ghost var x := NextAct(unit, cur, p, word, 0);
      ActComesNext(actions, unit, cur, p, word, 0, rest, room, |lg|, |pc|, |sections|);
      ghost var u := unit;
      Advance(cur, 0, x);
      WalkStops(actions, u, unit, |lg|, |pc|, cur, p, word, rest, room, u0, xs, ops);
    }

    /** The walk of dasm_put from start to its stop at p. */
    method PutWalk(cur: nat, start: nat, args: seq<int>)
      returns (p: nat, ghost word: bool, ghost rest: seq<int>, ghost room: nat, ghost xs: seq<Item>)
      requires Valid() && cur < |sections|
      requires CallOk(actions, start, false, args, MAXSECPOS, |lg|, |pc|, |sections|)
      requires sections[cur].pos + MAXSECPOS + 1 < cur * SECTION_SIZE + SECTION_SIZE
      modifies this`slots, this`sections, this`unit, this`lg, this`pc
      ensures |lg| == |old(lg)| && |pc| == |old(pc)| && |sections| == |old(sections)|
      ensures Putting(cur, p, word, rest, room, old(unit), xs, [Call(start)] + Actions(actions, start, args))
      ensures Action(actions[p]) <= SECTION
    {
      ghost var ops := [Call(start)] + Actions(actions, start, args);
      var left := args;
      p, word, rest, room := start, false, args, MAXSECPOS;
      xs := PutBegin(cur, start, args);
      while Action(actions[p]) > SECTION
        invariant |lg| == |old(lg)| && |pc| == |old(pc)| && |sections| == |old(sections)| && rest == left
        invariant Putting(cur, p, word, rest, room, old(unit), xs, ops)
        decreases |actions| - p
      {
        p, left, word, room, xs := PutStep(cur, p, word, left, room, old(unit), xs, ops);
        rest := left;
      }
    }

    /**
     dasm_put: pass 1. The actions from start to the next stop are recorded in the active section with their
     arguments, in order, and nothing else is; a SECTION action at the end makes another section active.
     */
    method Put(start: nat, args: seq<int>)
      requires Valid()
      requires CallOk(actions, start, false, args, MAXSECPOS, |lg|, |pc|, |sections|)
      requires sections[section].pos + MAXSECPOS + 1 < section * SECTION_SIZE + SECTION_SIZE
      modifies this`slots, this`sections, this`section, this`unit, this`lg, this`pc
      ensures Valid()
      ensures |lg| == |old(lg)| && |pc| == |old(pc)| && |sections| == |old(sections)|
      ensures Extends(actions, old(unit), unit, old(section), [Call(start)] + Actions(actions, start, args))
      ensures var stop := LastStop(actions, unit, old(section));
        stop < |actions| &&
        section == if Action(actions[stop]) == SECTION then actions[stop] % 0x100 else old(section)
    {
      var p;
      ghost var word, rest, room, xs;
      p, word, rest, room, xs := PutWalk(section, start, args);
      PutStop(section, p, word, rest, room, old(unit), xs, [Call(start)] + Actions(actions, start, args));
      if Action(actions[p]) == SECTION {
        Activate(actions[p] % 0x100);
      }
    }

    method Activate(n: nat)
      requires Valid() && n < |sections|
      modifies this`section
      ensures Valid() && section == n
    {
      section := n;
    }

    // ----- Pass 2 -----

    /** The puts are done. */
    ghost predicate Complete()
      reads this`sections, this`lg, this`pc, this`unit
    {
      && UnitOk(actions, unit) && Closed(actions, unit) && unit.sections == sections
      && LabelsOk(lg, pc, unit.slots, unit.events) && |lg| >= 10
    }

    /** Pass 2 over the slots of b stands before item k of section s, at buffer position pos, with the correction ofs. */
    ghost predicate Linking(b: Unit, s: nat, k: nat, pos: nat, ofs: int)
      reads this`sections, this`slots
    {
      && UnitOk(actions, b) && Closed(actions, b) && b.sections == sections
      && s < |b.progs| && k <= |b.progs[s]|
      && Linked(actions, b, slots, s, k)
      && pos == At(b, s, k)
      && ofs + Estimate(b, s, k) == Off(actions, b.progs, s, k)
    }

    /** The switch of dasm_link for the action at p. */
    method LinkStep(ghost b: Unit, s: nat, ghost k: nat, p: nat, pos: nat, ofs: int) returns (q: nat, pos': nat, ofs': int)
      requires Linking(b, s, k, pos, ofs) && ActAt(actions, b, s, k, p) && Action(actions[p]) > SECTION
      modifies this`slots
      ensures Linking(b, s, k + 1, pos', ofs') && ActAt(actions, b, s, k + 1, q)
    {
      WalkOn(actions, b, s, k);
      SlotFound(actions, b, slots, s, k, s, k);
      LinkedOn(actions, b, slots, s, k, ofs);
      CorrectionStays(actions, b, s, k, ofs);
      var ins := actions[p];
      q, pos', ofs' := p + 1, pos, ofs;
      if Action(ins) == ESC {
        q := p + 2;
      } else if Action(ins) == ALIGN {
        ofs' := ofs - (slots[pos] + ofs) % (Mask(ins) + 1);
        pos' := pos + 1;
      } else if IsLabel(ins) {
        slots := slots[pos := slots[pos] + ofs];
        pos' := pos + 1;
      } else if IsReference(ins) || IsImmediate(ins) {
        pos' := pos + 1;
      }
    }

    /** One section of dasm_link. */
    method LinkSection(ghost b: Unit, s: nat, ofs: int) returns (ofs': int)
      requires Linking(b, s, 0, s * SECTION_SIZE, ofs)
      modifies this`slots
      ensures Linking(b, s, |b.progs[s]|, sections[s].pos, ofs')
    {
      var pos: nat := s * SECTION_SIZE;
      ghost var k: nat := 0;
      ofs' := ofs;
      SectionOpens(actions, b, s);
      WalkEnds(actions, b, s, k);
      while pos != sections[s].pos
        invariant Linking(b, s, k, pos, ofs')
        invariant k < |b.progs[s]| ==> b.progs[s][k].Begin?
        invariant pos == sections[s].pos <==> k == |b.progs[s]|
        decreases |b.progs[s]| - k
      {
        WalkOn(actions, b, s, k);
        SlotFound(actions, b, slots, s, k, s, k);
        LinkedOn(actions, b, slots, s, k, ofs');
        CorrectionStays(actions, b, s, k, ofs');
        var p: nat := slots[pos];
        pos, k := pos + 1, k + 1;
        while Action(actions[p]) > SECTION
          invariant Linking(b, s, k, pos, ofs') && ActAt(actions, b, s, k, p)
          decreases |b.progs[s]| - k
        {
          p, pos, ofs' := LinkStep(b, s, k, p, pos, ofs');
          k := k + 1;
        }
        WalkOn(actions, b, s, k);
        LinkedOn(actions, b, slots, s, k, ofs');
        CorrectionStays(actions, b, s, k, ofs');
        k := k + 1;
        WalkEnds(actions, b, s, k);
      }
    }

    /**
     dasm_link: pass 2. References to undefined globals get their markers, every label slot the byte offset where its
     label will stand, and no other slot changes. The code size is the size of all sections.
     */
    method Link()
      requires Valid()
      modifies this`slots, this`codesize
      ensures Complete() && Linked(actions, MarkedUnit(unit, |lg|), slots, |unit.progs|, 0)
      ensures AllResolved(unit.events) ==> Linked(actions, unit, slots, |unit.progs|, 0)
      ensures codesize == CodeSize(actions, unit.progs)
    {
      ghost var b := MarkedUnit(unit, |lg|);
      MarkedUnitOk(actions, unit, lg, pc, |lg|);
      NothingLinked(actions, b);
      MarkUndefined();
      codesize := LinkSections(b);
    }

    method LinkSections(ghost b: Unit) returns (ofs: nat)
      requires UnitOk(actions, b) && Closed(actions, b) && b.sections == sections && b.slots == slots
      modifies this`slots
      ensures Linked(actions, b, slots, |b.progs|, 0) && ofs == CodeSize(actions, b.progs)
    {
      NothingLinked(actions, b);
      var o := 0;
      var s := 0;
      while s < |sections|
        invariant 0 <= s <= |sections|
        invariant Linked(actions, b, slots, s, 0) && o == Off(actions, b.progs, s, 0)
      {
        SectionOpens(actions, b, s);
        o := LinkSection(b, s, o);
        SectionLinked(actions, b, slots, s);
        o := o + sections[s].ofs;
        s := s + 1;
      }
      ofs := o;
    }

    /** The loop for globals that are not defined in the unit, as far as it goes: it starts with the eleventh. */
    method MarkUndefined()
      requires Complete() && slots == unit.slots
      modifies this`slots
      ensures slots == MarkedUnit(unit, |lg|).slots
    {
      var idx := 20;
      ghost var s := Run(unit.events);
      while idx < |lg|
        invariant 20 <= idx && (idx <= |lg| || idx == 20) && Complete()
        invariant slots == Marked(unit.slots, s, idx)
      {
        MarkGlobal(idx, s);
        idx := idx + 1;
      }
      assert |lg| <= 20 ==> Marked(unit.slots, s, |lg|) == unit.slots;
    }

    method MarkGlobal(idx: nat, ghost s: LabelState)
      requires Complete() && 20 <= idx < |lg| && s == Run(unit.events) && slots == Marked(unit.slots, s, idx)
      modifies this`slots
      ensures slots == Marked(unit.slots, s, idx + 1)
    {
      HeadsMean(lg, pc, unit.slots, unit.events, LG(idx));
      MarkedKeepsChain(lg, pc, unit.slots, unit.events, idx, LG(idx));
      PendingChainIsDistinct(unit.events, LG(idx));
      Collapse(lg[idx], -(idx as int), Labels.Pending(s, LG(idx)));
    }

    // ----- Pass 3 -----

    ghost predicate LinkedAll()
      reads this
    {
      && Complete() && AllResolved(unit.events) && Words(actions) && Linked(actions, unit, slots, |unit.progs|, 0)
      && codesize == CodeSize(actions, unit.progs)
    }

    /** Pass 3 stands before item k of section s, at buffer position pos, with c words emitted. */
    ghost predicate Encoding(s: nat, k: nat, pos: nat, buffer: array<Word32>, c: nat, globals0: seq<Option<nat>>)
      reads this, buffer
    {
      && LinkedAll() && codesize <= 4 * buffer.Length
      && s < |unit.progs| && k <= |unit.progs[s]| && pos == At(unit, s, k)
      && c <= buffer.Length && buffer[..c] == Code(actions, ProgramOf(unit), externs, s, k)
      && |lg| == 10 + |globals| && globals == Globals(actions, unit.progs, globals0, s, k)
    }

    method Emit(buffer: array<Word32>, c: nat, w: Word32)
      requires c < buffer.Length
      modifies buffer
      ensures buffer[..c + 1] == old(buffer[..c]) + [w]
    {
      buffer[c] := w;
    }

    method Patch(buffer: array<Word32>, c: nat, f: Word32)
      requires 0 < c <= buffer.Length
      modifies buffer
      ensures buffer[..c] == Patched(old(buffer[..c]), f)
    {
      buffer[c - 1] := Or(buffer[c - 1], f);
    }

    method Pad(buffer: array<Word32>, c: nat, mask: nat) returns (d: nat)
      requires IsMask(mask) && 4 * c + Padding(4 * c, mask) <= 4 * buffer.Length
      modifies buffer
      ensures d == c + Padding(4 * c, mask) / 4 <= buffer.Length
      ensures buffer[..d] == old(buffer[..c]) + Nops(Padding(4 * c, mask) / 4)
    {
      d := c;
      PaddingStarts(c, mask);
      ghost var n: nat := Padding(4 * c, mask) / 4;
      while 4 * d % (mask + 1) != 0
        invariant c <= d && n == c + Padding(4 * c, mask) / 4 - d && PaddingLeft(d, mask, n)
        invariant d + n <= buffer.Length && buffer[..d] == old(buffer[..c]) + Nops(d - c)
        decreases n
      {
        PaddingStep(d, mask, n);
        Emit(buffer, d, NOP);
        d, n := d + 1, n - 1;
        assert Nops(d - c) == Nops(d - 1 - c) + [NOP];
      }
    }

    /** The field for the action word ins, whose slot holds n, with c words emitted. */
    method FieldFor(ins: nat, n: int, c: nat) returns (f: Word32)
      requires IsPatch(ins) && (IsReference(ins) ==> n >= 0 && n in slots)
      ensures f == SlotField(externs, slots, ins, n, 4 * c)
    {
      if Action(ins) == REL_EXT {
        f := RelativeField(ins, externs(4 * c, ins % 0x800, ins / 0x800 % 2 == 0));
      } else if IsReference(ins) {
        f := RelativeField(ins, slots[n] - 4 * c - 4);
      } else if Action(ins) == IMM12 {
        var imm := ComputeImm12(Word(n));
        f := Word(imm);
      } else {
        f := ImmediateField(ins, n);
      }
    }

    /** The output of dasm_encode for the action at p, whose slot holds n. */
    method EncodeAction(s: nat, ghost k: nat, p: nat, pos: nat, n: int, buffer: array<Word32>, c: nat,
                        ghost globals0: seq<Option<nat>>)
      returns (d: nat)
      requires Encoding(s, k, pos, buffer, c, globals0) && ActAt(actions, unit, s, k, p)
      requires HasSlot(actions[p]) ==> pos in slots && n == slots[pos]
      modifies buffer
      ensures d <= buffer.Length && buffer[..d] == Code(actions, ProgramOf(unit), externs, s, k + 1)
    {
      ghost var x := unit.progs[s][k];
      var ins := actions[p];
      WalkOn(actions, unit, s, k);
      CodeLength(actions, unit, externs, s, k);
      RoomForItem(actions, unit, s, k);
      d := c;
      if IsWord(ins) {
        Emit(buffer, c, ins);
        d := c + 1;
      } else if Action(ins) == ESC {
        Emit(buffer, c, actions[p + 1]);
        d := c + 1;
      } else if Action(ins) == ALIGN {
        d := Pad(buffer, c, Mask(ins));
      } else if IsPatch(ins) {
        FieldFromSlots(actions, unit, lg, pc, slots, externs, s, k, 4 * c);
        WordToPatch(actions, unit, s, k);
        var f := FieldFor(ins, n, c);
        Patch(buffer, c, f);
      }
    }

    /** The switch of dasm_encode for the action at p. */
    method EncodeStep(s: nat, ghost k: nat, p: nat, pos: nat, buffer: array<Word32>, c: nat,
                      ghost globals0: seq<Option<nat>>)
      returns (q: nat, pos': nat, d: nat)
      requires Encoding(s, k, pos, buffer, c, globals0) && ActAt(actions, unit, s, k, p) && Action(actions[p]) > SECTION
      modifies buffer, this`globals
      ensures Encoding(s, k + 1, pos', buffer, d, globals0) && ActAt(actions, unit, s, k + 1, q)
    {
      ghost var x := unit.progs[s][k];
      WalkOn(actions, unit, s, k);
      SlotFound(actions, unit, slots, |unit.progs|, 0, s, k);
      var ins := actions[p];
      var n := 0;
      q, pos' := p + 1, pos;
      if HasSlot(ins) {
        n, pos' := slots[pos], pos + 1;
      }
      if Action(ins) == ESC {
        q := p + 2;
      }
      d := EncodeAction(s, k, p, pos, n, buffer, c, globals0);
      if Action(ins) == LABEL_LG && ins % 0x800 >= 20 {
        GlobalInRange(actions, unit, lg, pc, s, k);
        globals := globals[ins % 0x800 - 20 := Some(n)];
      }
    }

    /** One section of dasm_encode. */
    method EncodeSection(s: nat, buffer: array<Word32>, c: nat, ghost globals0: seq<Option<nat>>) returns (d: nat)
      requires Encoding(s, 0, s * SECTION_SIZE, buffer, c, globals0)
      modifies buffer, this`globals
      ensures Encoding(s, |unit.progs[s]|, sections[s].pos, buffer, d, globals0)
    {
      var pos: nat := s * SECTION_SIZE;
      ghost var k: nat := 0;
      d := c;
      SectionOpens(actions, unit, s);
      WalkEnds(actions, unit, s, k);
      while pos != sections[s].pos
        invariant Encoding(s, k, pos, buffer, d, globals0)
        invariant k < |unit.progs[s]| ==> unit.progs[s][k].Begin?
        invariant pos == sections[s].pos <==> k == |unit.progs[s]|
        decreases |unit.progs[s]| - k
      {
        WalkOn(actions, unit, s, k);
        SlotFound(actions, unit, slots, |unit.progs|, 0, s, k);
        var p: nat := slots[pos];
        pos, k := pos + 1, k + 1;
        while Action(actions[p]) > SECTION
          invariant Encoding(s, k, pos, buffer, d, globals0) && ActAt(actions, unit, s, k, p)
          decreases |unit.progs[s]| - k
        {
          p, pos, d := EncodeStep(s, k, p, pos, buffer, d, globals0);
          k := k + 1;
        }
        WalkOn(actions, unit, s, k);
        k := k + 1;
        WalkEnds(actions, unit, s, k);
      }
    }

    /**
     dasm_encode: pass 3. The buffer gets the code of the naive assembler, which knows every address, and the table of
     globals their byte offsets. A buffer of codesize bytes is enough, and the phase error never happens.
     */
    method Encode(buffer: array<Word32>) returns (phaseError: bool)
      requires LinkedAll() && codesize <= 4 * buffer.Length && |lg| == 10 + |globals|
      modifies buffer, this`globals
      ensures LinkedAll() && !phaseError
      ensures codesize == 4 * |Code(actions, ProgramOf(unit), externs, |unit.progs|, 0)|
      ensures buffer[..codesize / 4] == Code(actions, ProgramOf(unit), externs, |unit.progs|, 0)
      ensures globals == Globals(actions, unit.progs, old(globals), |unit.progs|, 0)
    {
      var s := 0;
      var c := 0;
      while s < |sections|
        invariant 0 <= s <= |sections| && 0 <= c <= buffer.Length && LinkedAll() && |lg| == 10 + |globals|
        invariant buffer[..c] == Code(actions, ProgramOf(unit), externs, s, 0)
        invariant globals == Globals(actions, unit.progs, old(globals), s, 0)
      {
        SectionOpens(actions, unit, s);
        c := EncodeSection(s, buffer, c, old(globals));
        s := s + 1;
      }
      CodeLength(actions, unit, externs, |unit.progs|, 0);
      phaseError := codesize != 4 * c;
    }

    /**
     dasm_getpclabel after dasm_link: the byte offset of a defined PC label, -1 for one that references wait for, and -2
     for one that is unused or out of range.
     */
    method GetPcLabel(n: nat) returns (r: int)
      requires Complete() && Linked(actions, MarkedUnit(unit, |lg|), slots, |unit.progs|, 0)
      ensures r == if n >= |pc| then -2
                   else if VisibleDefinition(unit.events, PC(n)) >= 0
                   then Address(actions, ProgramOf(unit), VisibleDefinition(unit.events, PC(n)))
                   else if AnyWaits(unit.events, PC(n)) then -1 else -2
    {
      if n < |pc| {
        var pos := pc[n];
        DefinedIsVisible(unit.events, PC(n));
        PendingWaits(unit.events, PC(n));
        HeadsMean(lg, pc, unit.slots, unit.events, PC(n));
        if pos < 0 {
          MarkedUnitOk(actions, unit, lg, pc, |lg|);
          DefinitionLinked(actions, MarkedUnit(unit, |lg|), slots, VisibleDefinition(unit.events, PC(n)));
          return slots[-pos];
        }
        if pos > 0 {
          return -1;
        }
      }
      return -2;
    }
  }

  lemma ResizedBeginComesNext(al: seq<nat>, u: Unit, v: Unit, s: nat, start: nat)
    requires UnitOk(al, u) && Closed(al, u) && UnitOk(al, v) && v.progs == u.progs && s < |u.progs|
    ensures ComesNext(al, v, s, Begin(v.sections[s].pos, v.sections[s].ofs, start))
  {
    assert ProgOk(al, s, v.progs[s], v.sections[s].pos, v.sections[s].ofs);
    assert ClosedAt(al, u, s);
  }

  lemma BeginRecorded(al: seq<nat>, u: Unit, v: Unit, w: Unit, s: nat, x: Item)
    requires s < |u.progs| == |u.sections| == |v.sections| && v.progs == u.progs && v.events == u.events
    requires x.Begin? && Recorded(al, v, w, s, x)
    ensures ExtendsBy(al, u, w, s, [x]) && AwaitsAct(al, w, s, x.start, false) && Ops([x]) == [Call(x.start)]
  {
    RecordedAwaits(al, v, w, s, x);
    ExtendsNothing(al, u, v, s);
    ExtendsMore(al, u, v, w, s, [], x);
    assert [] + [x] == [x];
  }

  /**
   In the middle of a put into section cur: the items xs are recorded on top of u0, the walk stands at p with the
   arguments rest, and the whole walk is the program ops.
   */
  ghost predicate Walking(al: seq<nat>, u: Unit, lgCount: nat, pcCount: nat, cur: nat, p: nat, word: bool,
                          rest: seq<int>, room: nat, u0: Unit, xs: seq<Item>, ops: seq<Op>)
  {
    && cur < |u.progs| == |u.sections|
    && CallOk(al, p, word, rest, room, lgCount, pcCount, |u.sections|)
    && u.sections[cur].pos + room <= cur * SECTION_SIZE + u.sections[cur].bsize / 4
    && u.sections[cur].pos + room < cur * SECTION_SIZE + SECTION_SIZE
    && ExtendsBy(al, u0, u, cur, xs)
    && Ops(xs) + Actions(al, p, rest) == ops
    && AwaitsAct(al, u, cur, p, word)
  }

  lemma WalkMore(al: seq<nat>, u: Unit, w: Unit, lgCount: nat, pcCount: nat, cur: nat, p: nat, word: bool,
                 rest: seq<int>, room: nat, u0: Unit, xs: seq<Item>, ops: seq<Op>)
    requires Walking(al, u, lgCount, pcCount, cur, p, word, rest, room, u0, xs, ops) && Action(al[p]) > SECTION
    requires var x := NextAct(u, cur, p, word, Argument(al[p], rest)); Fits(al, x) && Recorded(al, u, w, cur, x)
    ensures var x := NextAct(u, cur, p, word, Argument(al[p], rest));
      Walking(al, w, lgCount, pcCount, cur, After(al, p), WordAfter(al[p], word), ArgumentsAfter(al[p], rest),
              RoomAfter(al[p], room), u0, xs + [x], ops)
  {
    var x := NextAct(u, cur, p, word, Argument(al[p], rest));
    RecordedAwaits(al, u, w, cur, x);
    ExtendsMore(al, u0, u, w, cur, xs, x);
    OpsSnoc(xs, x);
    ActionsStep(al, p, rest, Ops(xs), ops);
  }

  lemma WalkStops(al: seq<nat>, u: Unit, w: Unit, lgCount: nat, pcCount: nat, cur: nat, p: nat, word: bool,
                  rest: seq<int>, room: nat, u0: Unit, xs: seq<Item>, ops: seq<Op>)
    requires Walking(al, u, lgCount, pcCount, cur, p, word, rest, room, u0, xs, ops) && Action(al[p]) <= SECTION
    requires Recorded(al, u, w, cur, NextAct(u, cur, p, word, 0))
    requires UnitOk(al, u0) && Closed(al, u0) && UnitOk(al, w)
    ensures Closed(al, w) && Extends(al, u0, w, cur, ops) && LastStop(al, w, cur) == p
  {
    var x := NextAct(u, cur, p, word, 0);
    ExtendsMore(al, u0, u, w, cur, xs, x);
    OpsSnoc(xs, x);
    FinishCloses(al, u0, w, cur, xs + [x]);
    assert ExtendsBy(al, u0, w, cur, xs + [x]) && Ops(xs + [x]) == ops;
  }

  /** One more action of the walk is recorded, the others are still to come. */
  lemma ActionsStep(al: seq<nat>, p: nat, rest: seq<int>, done: seq<Op>, ops: seq<Op>)
    requires p < |al| && Action(al[p]) > SECTION && done + Actions(al, p, rest) == ops
    ensures done + [Do(p, Argument(al[p], rest))] + Actions(al, After(al, p), ArgumentsAfter(al[p], rest)) == ops
  {
    var op, more := Do(p, Argument(al[p], rest)), Actions(al, After(al, p), ArgumentsAfter(al[p], rest));
    assert done + ([op] + more) == done + [op] + more;
  }

  /** The last item of section s is an action; where its word is. */
  ghost function LastStop(al: seq<nat>, u: Unit, s: nat): nat
  {
    if s < |u.progs| && u.progs[s] != [] && u.progs[s][|u.progs[s]| - 1].Act? then u.progs[s][|u.progs[s]| - 1].p else 0
  }

  /** w is u with the items xs recorded in section s. */
  ghost predicate ExtendsBy(al: seq<nat>, u: Unit, w: Unit, s: nat, xs: seq<Item>)
  {
    && s < |u.progs| && |w.progs| == |u.progs|
    && w.progs == u.progs[s := u.progs[s] + xs]
    && (forall x | x in xs :: Fits(al, x))
    && w.events == u.events + EventsOf(al, xs)
  }

  /** w is u with a program of the given steps recorded in section s. */
  ghost predicate Extends(al: seq<nat>, u: Unit, w: Unit, s: nat, ops: seq<Op>)
  {
    exists xs :: ExtendsBy(al, u, w, s, xs) && Ops(xs) == ops
  }

  /** A put is in progress in section s and stands before the action at p. */
  ghost predicate AwaitsAct(al: seq<nat>, u: Unit, s: nat, p: nat, word: bool)
  {
    && s < |u.progs| && u.progs[s] != []
    && var x := u.progs[s][|u.progs[s]| - 1];
    && Fits(al, x) && !Stops(al, x)
    && match x
       case Begin(_, _, start) => p == start && !word
       case Act(_, _, q, w, _, _) => p == After(al, q) && word == WordAfter(al[q], w)
  }

  lemma ActComesNext(al: seq<nat>, u: Unit, s: nat, p: nat, word: bool, arg: int, args: seq<int>, room: nat,
                     lgCount: nat, pcCount: nat, maxSection: nat)
    requires UnitOk(al, u) && AwaitsAct(al, u, s, p, word)
    requires CallOk(al, p, word, args, room, lgCount, pcCount, maxSection)
    ensures ComesNext(al, u, s, NextAct(u, s, p, word, arg))
  {
    assert ProgOk(al, s, u.progs[s], u.sections[s].pos, u.sections[s].ofs);
  }

  lemma RecordedAwaits(al: seq<nat>, u: Unit, w: Unit, s: nat, x: Item)
    requires s < |u.progs| == |u.sections| && Fits(al, x) && Recorded(al, u, w, s, x) && !Stops(al, x)
    ensures match x
      case Begin(_, _, start) => AwaitsAct(al, w, s, start, false)
      case Act(_, _, q, word, _, _) => AwaitsAct(al, w, s, After(al, q), WordAfter(al[q], word))
  {
  }

  lemma EventsOfSnoc(al: seq<nat>, xs: seq<Item>, x: Item)
    requires (forall y | y in xs :: Fits(al, y)) && Fits(al, x)
    ensures EventsOf(al, xs + [x]) == EventsOf(al, xs) + if HasEvent(al, x) then [EventOf(al, x)] else []
  {
    assert (xs + [x])[..|xs|] == xs;
  }

  lemma ExtendsNothing(al: seq<nat>, u: Unit, v: Unit, s: nat)
    requires s < |u.progs| && v.progs == u.progs && v.events == u.events
    ensures ExtendsBy(al, u, v, s, [])
  {
    assert u.progs[s] + [] == u.progs[s];
  }

  lemma ExtendsMore(al: seq<nat>, u: Unit, v: Unit, w: Unit, s: nat, xs: seq<Item>, x: Item)
    requires ExtendsBy(al, u, v, s, xs) && |v.sections| == |v.progs| && Fits(al, x) && Recorded(al, v, w, s, x)
    ensures ExtendsBy(al, u, w, s, xs + [x])
  {
    EventsOfSnoc(al, xs, x);
    assert u.progs[s] + (xs + [x]) == u.progs[s] + xs + [x];
  }

  lemma OpsSnoc(xs: seq<Item>, x: Item)
    ensures Ops(xs + [x]) == Ops(xs) + [OpOf(x)]
  {
    assert (xs + [x])[..|xs|] == xs;
  }

  /** When the put ends, no put is in progress anywhere. */
  lemma FinishCloses(al: seq<nat>, u: Unit, w: Unit, s: nat, xs: seq<Item>)
    requires UnitOk(al, u) && UnitOk(al, w) && Closed(al, u)
    requires ExtendsBy(al, u, w, s, xs) && xs != [] && Stops(al, xs[|xs| - 1])
    ensures Closed(al, w)
  {
    forall r | 0 <= r < |w.progs|
      ensures ClosedAt(al, w, r)
    {
      assert ClosedAt(al, u, r);
    }
  }

  /** The item for the action at p, when it comes next in section s. */
  ghost function NextAct(u: Unit, s: nat, p: nat, word: bool, arg: int): Item
    requires s < |u.sections|
  {
    Act(u.sections[s].pos, u.sections[s].ofs, p, word, arg, |u.events|)
  }

  lemma OverwriteMore(slots: Slots, ps: seq<nat>, j: nat, v: int)
    requires j < |ps| && Chain(slots, ps) && forall i, k | 0 <= i < k < |ps| :: ps[i] != ps[k]
    ensures ps[j] in slots && Overwrite(slots, ps[..j], v)[ps[j]] == slots[ps[j]]
    ensures slots[ps[j]] == if j + 1 < |ps| then ps[j + 1] else 0
    ensures Overwrite(slots, ps[..j], v)[ps[j] := v] == Overwrite(slots, ps[..j + 1], v)
  {
    assert ChainLink(slots, ps, j) && ps[..j + 1] == ps[..j] + [ps[j]];
  }

  /** What recording an item with a slot changes in the buffers. */
  lemma AppendedSlot(al: seq<nat>, u: Unit, s: nat, x: Item, v: int)
    requires UnitOk(al, u) && s < |u.progs| && ComesNext(al, u, s, x) && SlotCount(al, x) == 1
    requires u.sections[s].pos < s * SECTION_SIZE + SECTION_SIZE
    ensures var w := Append(al, u, s, x, v);
      && w.slots == u.slots[u.sections[s].pos := v]
      && w.sections == u.sections[s := u.sections[s].(pos := u.sections[s].pos + 1, ofs := u.sections[s].ofs + Growth(al, x))]
      && w.events == (if HasEvent(al, x) then u.events + [EventOf(al, x)] else u.events)
      && u.sections[s].pos !in u.slots && x.at == u.sections[s].pos && x.est == u.sections[s].ofs
  {
    AppendKeepsProgs(al, u, s, x, v);
    NextPositionIsFree(u, s);
  }

  lemma AppendedPlain(al: seq<nat>, u: Unit, s: nat, x: Item)
    requires s < |u.progs| == |u.sections| && Fits(al, x) && SlotCount(al, x) == 0
    ensures var w := Append(al, u, s, x, 0);
      && w.slots == u.slots && w.events == u.events
      && w.sections == u.sections[s := u.sections[s].(ofs := u.sections[s].ofs + Growth(al, x))]
  {
    var sec := u.sections[s];
    assert sec.(pos := sec.pos + 0, ofs := sec.ofs + Growth(al, x)) == sec.(ofs := sec.ofs + Growth(al, x));
  }

  /** Position 0 is the first start slot, so it can end chains: labels and references stand further up. */
  lemma NextPositionIsPositive(al: seq<nat>, u: Unit, s: nat, x: Item)
    requires UnitOk(al, u) && s < |u.progs| && ComesNext(al, u, s, x) && x.Act?
    requires u.sections[s].pos < s * SECTION_SIZE + SECTION_SIZE
    ensures x.at > 0 && x.at == u.sections[s].pos && x.est == u.sections[s].ofs && x.at !in u.slots
  {
    AppendKeepsProgs(al, u, s, x, 0);
    NextPositionIsFree(u, s);
    assert ProgOk(al, s, u.progs[s], u.sections[s].pos, u.sections[s].ofs);
    assert SlotOk(al, u, s, 0);
  }

  lemma HeadsMean(lg: seq<int>, pc: seq<int>, slots: Slots, es: seq<Event>, l: Label)
    requires LabelsOk(lg, pc, slots, es) && ValidLabel(lg, pc, l)
    ensures var n := Head(lg, pc, l);
      && Chain(slots, Labels.Pending(Run(es), l))
      && (n < 0 <==> l in Run(es).defined && Labels.Pending(Run(es), l) == [])
      && (n > 0 <==> Labels.Pending(Run(es), l) != [])
      && (n > 0 ==> n == Labels.Pending(Run(es), l)[0])
      && (l in Run(es).defined ==> n == -(Run(es).defined[l] as int))
  {
    LabelsAreStored(lg, pc, slots, es);
    assert Chain(slots, Labels.Pending(Run(es), l));
    ChainIsStored(slots, Labels.Pending(Run(es), l));
    if l in Run(es).defined {
      DefinedHasNonePending(es, l);
      DefinedIsVisible(es, l);
    }
  }

  lemma PendingChainIsDistinct(es: seq<Event>, l: Label)
    requires DistinctPositions(es)
    ensures var ps := Labels.Pending(Run(es), l); forall j, k | 0 <= j < k < |ps| :: ps[j] != ps[k]
  {
    var ps := Labels.Pending(Run(es), l);
    forall j, k | 0 <= j < k < |ps|
      ensures ps[j] != ps[k]
    {
      PendingIsDistinct(es, l, j, k);
    }
  }

  lemma ResizeKeepsUnit(al: seq<nat>, u: Unit, s: nat, bsize: nat, epos: nat)
    requires UnitOk(al, u) && s < |u.sections|
    ensures UnitOk(al, u.(sections := u.sections[s := u.sections[s].(bsize := bsize, epos := epos)]))
  {
    var w := u.(sections := u.sections[s := u.sections[s].(bsize := bsize, epos := epos)]);
    forall r | 0 <= r < |w.sections|
      ensures ProgOk(al, r, w.progs[r], w.sections[r].pos, w.sections[r].ofs)
    {
      assert ProgOk(al, r, u.progs[r], u.sections[r].pos, u.sections[r].ofs);
    }
    forall r, k | 0 <= r < |w.progs| && 0 <= k < |w.progs[r]|
      ensures SlotOk(al, w, r, k) && ItemEventOk(al, w, r, k)
    {
      assert SlotOk(al, u, r, k) && ItemEventOk(al, u, r, k);
    }
    forall q | q in w.slots
      ensures Below(w, q)
    {
      assert Below(u, q);
    }
    forall e | 0 <= e < |w.events|
      ensures EventOwned(al, w, e)
    {
      assert EventOwned(al, u, e);
    }
  }
}
