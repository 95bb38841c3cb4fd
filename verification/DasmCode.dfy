/**
 Pass 3 of the DynASM ARM engine as values: the code that a naive assembler makes of the recorded items, knowing the
 address of every label beforehand.
 */
module DasmCode {
  import opened Arithmetic
  import opened Options
  import opened DasmActions
  import opened Labels
  import opened LabelChains
  import opened DasmUnit
  import opened DasmLink

  /** Displacements to external symbols (DASM_EXTERN): from byte offset, symbol number and kind. */
  type Externs = (nat, nat, bool) -> int

  // ----- The code -----

  predicate Words(al: seq<nat>)
  {
    forall i | 0 <= i < |al| :: al[i] < TWO_32
  }

  /** The code with f or-ed into its last word. */
  function Patched(code: seq<Word32>, f: Word32): seq<Word32>
  {
    if code == [] then [] else code[..|code| - 1] + [Or(code[|code| - 1], f)]
  }

  function Nops(n: nat): seq<Word32>
  {
    seq(n, _ => NOP)
  }

  /** The address of the definition that the reference x is meant to reach. */
  function Target(al: seq<nat>, p: Program, x: Item): nat
  {
    if x.Act? && x.event < |p.events| && !p.events[x.event].Define? && Resolve(p.events, x.event) >= 0
    then Address(al, p, Resolve(p.events, x.event)) else 0
  }

  /** The field that x patches into the word before byte offset o. */
  function Field(al: seq<nat>, p: Program, ext: Externs, x: Item, o: nat): Word32
    requires Fits(al, x) && x.Act? && IsPatch(Ins(al, x))
  {
    var ins := Ins(al, x);
    if Action(ins) == REL_EXT then RelativeField(ins, ext(o, ins % 0x800, ins / 0x800 % 2 == 0))
    else if IsReference(ins) then RelativeField(ins, Target(al, p, x) - o - 4)
    else ImmediateField(ins, Stored(ins, x.arg))
  }

  /** The code with what x adds to it. */
  function Apply(al: seq<nat>, p: Program, ext: Externs, code: seq<Word32>, x: Item): seq<Word32>
    requires Words(al)
  {
    if !Fits(al, x) || x.Begin? then code
    else if IsWord(Ins(al, x)) then code + [Ins(al, x)]
    else if Action(Ins(al, x)) == ESC then code + [al[x.p + 1]]
    else if Aligns(al, x) then code + Nops(Padding(4 * |code|, Mask(Ins(al, x))) / 4)
    else if IsPatch(Ins(al, x)) then Patched(code, Field(al, p, ext, x, 4 * |code|))
    else code
  }

  /** The code in front of a place: section after section, item after item. */
  function Code(al: seq<nat>, p: Program, ext: Externs, s: nat, k: nat): seq<Word32>
    requires Words(al) && Place(p.progs, s, k)
    decreases s, k
  {
    if k > 0 then Apply(al, p, ext, Code(al, p, ext, s, k - 1), p.progs[s][k - 1])
    else if s > 0 then Code(al, p, ext, s - 1, |p.progs[s - 1]|)
    else []
  }

  lemma ItemFits(al: seq<nat>, u: Unit, s: nat, k: nat)
    requires UnitOk(al, u) && s < |u.progs| && k < |u.progs[s]|
    ensures ItemOk(al, u.progs[s][k])
  {
    assert ProgOk(al, s, u.progs[s], u.sections[s].pos, u.sections[s].ofs);
  }

  lemma PaddingOfWords(o: nat, mask: nat)
    requires o % 4 == 0 && IsMask(mask)
    ensures Padding(o, mask) % 4 == 0
  {
    if mask > 1 {
      PaddingByFour(o / 4, (mask + 1) / 4);
    } else {
      PaddingByTwo(o, mask);
    }
  }

  lemma PaddingByTwo(o: nat, mask: nat)
    requires o % 4 == 0 && mask <= 1
    ensures Padding(o, mask) == 0
  {
    if mask == 0 {
      DivModUnique(-(o as int), 1, -(o as int), 0);
    } else {
      DivModUnique(-(o as int), 2, -2 * (o / 4), 0);
    }
  }

  lemma PaddingByFour(t: nat, j: nat)
    requires j > 0
    ensures Padding(4 * t, 4 * j - 1) % 4 == 0
  {
    var q := -4 * t / (4 * j);
    assert -4 * t == q * (4 * j) + Padding(4 * t, 4 * j - 1);
    assert Padding(4 * t, 4 * j - 1) == 4 * (-(t as int) - q * j);
  }

  lemma AppliedLength(al: seq<nat>, p: Program, ext: Externs, code: seq<Word32>, x: Item)
    requires Words(al) && ItemOk(al, x)
    ensures 4 * |Apply(al, p, ext, code, x)| == 4 * |code| + Size(al, x, 4 * |code|)
  {
    if Aligns(al, x) {
      PaddingOfWords(4 * |code|, Mask(Ins(al, x)));
    }
  }

  /** Offsets count the bytes of the code. */
  lemma {:induction false} CodeLength(al: seq<nat>, u: Unit, ext: Externs, s: nat, k: nat)
    requires UnitOk(al, u) && Words(al) && Place(u.progs, s, k)
    ensures 4 * |Code(al, ProgramOf(u), ext, s, k)| == Off(al, u.progs, s, k)
    decreases s, k
  {
    if k > 0 {
      CodeLength(al, u, ext, s, k - 1);
      ItemFits(al, u, s, k - 1);
      AppliedLength(al, ProgramOf(u), ext, Code(al, ProgramOf(u), ext, s, k - 1), u.progs[s][k - 1]);
    } else if s > 0 {
      CodeLength(al, u, ext, s - 1, |u.progs[s - 1]|);
    }
  }

  /** Where a call has emitted a word, there is a word to patch. */
  lemma {:induction false} WordToPatch(al: seq<nat>, u: Unit, s: nat, k: nat)
    requires UnitOk(al, u) && s < |u.progs| && k < |u.progs[s]|
    requires u.progs[s][k].Act? && u.progs[s][k].word
    ensures Off(al, u.progs, s, k) > 0
    decreases k
  {
    SectionOpens(al, u, s);
    WalkOn(al, u, s, k - 1);
    var x := u.progs[s][k - 1];
    if !Emits(al, x) {
      WordToPatch(al, u, s, k - 1);
    }
  }

  /** There is room for what the next item emits. */
  lemma RoomForItem(al: seq<nat>, u: Unit, s: nat, k: nat)
    requires s < |u.progs| && k < |u.progs[s]|
    ensures Off(al, u.progs, s, k) + Size(al, u.progs[s][k], Off(al, u.progs, s, k)) <= CodeSize(al, u.progs)
  {
    OffGrows(al, u.progs, s, k + 1, |u.progs|, 0);
  }

  /** n no-ops bring d words to the next multiple of mask + 1, and no fewer. */
  ghost predicate PaddingLeft(d: nat, mask: nat, n: nat)
  {
    IsMask(mask) && Padding(4 * d, mask) == 4 * n && (4 * d % (mask + 1) == 0 <==> n == 0)
  }

  lemma PaddingStarts(d: nat, mask: nat)
    requires IsMask(mask)
    ensures PaddingLeft(d, mask, Padding(4 * d, mask) / 4)
  {
    var m, p := mask + 1, Padding(4 * d, mask);
    var q := -4 * d / m;
    assert -4 * d == q * m + p;
    PaddingOfWords(4 * d, mask);
    if p == 0 {
      DivModUnique(4 * d, m, -q, 0);
    } else {
      DivModUnique(4 * d, m, -q - 1, m - p);
    }
  }

  lemma PaddingStep(d: nat, mask: nat, n: nat)
    requires PaddingLeft(d, mask, n) && n > 0
    ensures PaddingLeft(d + 1, mask, n - 1)
  {
    var m := mask + 1;
    var q := -4 * d / m;
    assert -4 * d == q * m + 4 * n;
    DivModUnique(-4 * (d + 1), m, q, 4 * n - 4);
    PaddingStarts(d + 1, mask);
  }

  /** After pass 2, the slot of a reference leads to the address it is meant to reach. */
  lemma ReferenceReaches(al: seq<nat>, u: Unit, lg: seq<int>, pc: seq<int>, slots: Slots, s: nat, k: nat)
    requires UnitOk(al, u) && LabelsOk(lg, pc, u.slots, u.events) && AllResolved(u.events)
    requires Linked(al, u, slots, |u.progs|, 0) && s < |u.progs| && k < |u.progs[s]|
    requires Fits(al, u.progs[s][k]) && RefersItem(al, u.progs[s][k])
    ensures u.progs[s][k].at in slots && slots[u.progs[s][k].at] >= 0
    ensures var n: nat := slots[u.progs[s][k].at]; n in slots && slots[n] == Target(al, ProgramOf(u), u.progs[s][k])
  {
    var x := u.progs[s][k];
    ReferenceLinked(al, u, lg, pc, slots, s, k);
    DefinitionLinked(al, u, slots, Resolve(u.events, x.event));
  }

  /** The field for the action word ins, whose slot holds n, before byte offset o. */
  function SlotField(ext: Externs, slots: Slots, ins: nat, n: int, o: nat): Word32
    requires IsPatch(ins) && (IsReference(ins) ==> n >= 0 && n in slots)
  {
    if Action(ins) == REL_EXT then RelativeField(ins, ext(o, ins % 0x800, ins / 0x800 % 2 == 0))
    else if IsReference(ins) then RelativeField(ins, slots[n] - o - 4)
    else ImmediateField(ins, n)
  }

  /** The slots lead to the field that is meant. */
  lemma FieldFromSlots(al: seq<nat>, u: Unit, lg: seq<int>, pc: seq<int>, slots: Slots, ext: Externs, s: nat, k: nat,
                       o: nat)
    requires UnitOk(al, u) && LabelsOk(lg, pc, u.slots, u.events) && AllResolved(u.events)
    requires Linked(al, u, slots, |u.progs|, 0) && s < |u.progs| && k < |u.progs[s]|
    requires Fits(al, u.progs[s][k]) && u.progs[s][k].Act? && IsPatch(Ins(al, u.progs[s][k]))
    ensures var ins := Ins(al, u.progs[s][k]);
      HasSlot(ins) ==> u.progs[s][k].at in slots
    ensures var ins := Ins(al, u.progs[s][k]);
      var n := if HasSlot(ins) then slots[u.progs[s][k].at] else 0;
      && (IsReference(ins) ==> n >= 0 && n in slots)
      && Field(al, ProgramOf(u), ext, u.progs[s][k], o) == SlotField(ext, slots, ins, n, o)
  {
    var x := u.progs[s][k];
    SlotFound(al, u, slots, |u.progs|, 0, s, k);
    if RefersItem(al, x) {
      ReferenceReaches(al, u, lg, pc, slots, s, k);
    }
  }

  // ----- Global labels -----

  /** The table of global addresses with what x adds to it. */
  function GlobalsAfter(al: seq<nat>, globals: seq<Option<nat>>, x: Item, o: nat): (r: seq<Option<nat>>)
    ensures |r| == |globals|
  {
    if Fits(al, x) && DefinesGlobal(al, x) && Ins(al, x) % 0x800 - 20 < |globals|
    then globals[Ins(al, x) % 0x800 - 20 := Some(o)] else globals
  }

  predicate DefinesGlobal(al: seq<nat>, x: Item)
    requires Fits(al, x)
  {
    x.Act? && Action(Ins(al, x)) == LABEL_LG && Ins(al, x) % 0x800 >= 20
  }

  function Globals(al: seq<nat>, progs: seq<seq<Item>>, globals: seq<Option<nat>>, s: nat, k: nat): (r: seq<Option<nat>>)
    requires Place(progs, s, k)
    ensures |r| == |globals|
    decreases s, k
  {
    if k > 0 then GlobalsAfter(al, Globals(al, progs, globals, s, k - 1), progs[s][k - 1], Off(al, progs, s, k - 1))
    else if s > 0 then Globals(al, progs, globals, s - 1, |progs[s - 1]|)
    else globals
  }

  /** A global label that is defined is in the table. */
  lemma GlobalInRange(al: seq<nat>, u: Unit, lg: seq<int>, pc: seq<int>, s: nat, k: nat)
    requires UnitOk(al, u) && EventsNamed(lg, pc, u.events) && s < |u.progs| && k < |u.progs[s]|
    requires Fits(al, u.progs[s][k]) && DefinesGlobal(al, u.progs[s][k])
    ensures Ins(al, u.progs[s][k]) % 0x800 - 10 < |lg|
  {
    assert ItemEventOk(al, u, s, k);
  }

  /** Global g, when it has a single definition d, is found at the address of d. */
  lemma GlobalIsItsAddress(al: seq<nat>, u: Unit, globals: seq<Option<nat>>, g: nat, d: nat)
    requires UnitOk(al, u) && g < |globals| && SingleGlobal(u.events, g, d)
    ensures Globals(al, u.progs, globals, |u.progs|, 0)[g] == Some(Address(al, ProgramOf(u), d))
  {
    assert EventOwned(al, u, d);
    GlobalSoFar(al, u, globals, g, d, |u.progs|, 0);
  }

  ghost predicate SingleGlobal(es: seq<Event>, g: nat, d: nat)
  {
    && d < |es| && es[d].Define? && es[d].name == LG(g + 10)
    && forall i | 0 <= i < |es| && es[i].Define? && es[i].name == LG(g + 10) :: i == d
  }

  lemma {:induction false} GlobalSoFar(al: seq<nat>, u: Unit, globals: seq<Option<nat>>, g: nat, d: nat, s: nat, k: nat)
    requires UnitOk(al, u) && g < |globals| && SingleGlobal(u.events, g, d) && Place(u.progs, s, k)
    requires u.events[d].pos in u.owner
    ensures var (r, j) := u.owner[u.events[d].pos];
      Globals(al, u.progs, globals, s, k)[g] == if Before(r, j, s, k) then Some(Address(al, ProgramOf(u), d)) else globals[g]
    decreases s, k
  {
    assert EventOwned(al, u, d);
    var (r, j) := u.owner[u.events[d].pos];
    if k > 0 {
      GlobalSoFar(al, u, globals, g, d, s, k - 1);
      ItemFits(al, u, s, k - 1);
      OwnDefinition(al, u, g, d, s, k - 1);
    } else if s > 0 {
      GlobalSoFar(al, u, globals, g, d, s - 1, |u.progs[s - 1]|);
    }
  }

  lemma OwnDefinition(al: seq<nat>, u: Unit, g: nat, d: nat, s: nat, k: nat)
    requires UnitOk(al, u) && SingleGlobal(u.events, g, d) && s < |u.progs| && k < |u.progs[s]|
    requires Fits(al, u.progs[s][k]) && u.events[d].pos in u.owner
    ensures DefinesGlobal(al, u.progs[s][k]) && Ins(al, u.progs[s][k]) % 0x800 - 20 == g
      <==> u.owner[u.events[d].pos] == (s, k)
  {
    var x := u.progs[s][k];
    assert EventOwned(al, u, d) && ItemEventOk(al, u, s, k) && SlotOk(al, u, s, k);
    if DefinesGlobal(al, x) && Ins(al, x) % 0x800 - 20 == g {
      assert u.events[x.event].name == LG(g + 10);
    }
  }
}
