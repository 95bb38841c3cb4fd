/**
 What the emitted code does: every patched branch and load goes to the address that it is meant for, and every immediate
 is the argument that was given.
 */
module DasmLanding {
  import opened DasmActions
  import opened DasmFields
  import opened DasmUnit
  import opened DasmLink
  import opened DasmCode

  /** Where the processor gets to, from the instruction in front of byte offset o: it reads two words ahead. */
  function Landing(o: nat, reach: int): int
  {
    o - 4 + 8 + reach
  }

  /** The displacement to an external symbol, given by its number and kind in the action word. */
  function ExternOf(ext: Externs, ins: nat, o: nat): int
  {
    ext(o, ins % 0x800, ins / 0x800 % 2 == 0)
  }

  /** x has made w' of the instruction w in front of byte offset o, and the processor takes w' as x says. */
  ghost predicate WordLands(al: seq<nat>, p: Program, ext: Externs, x: Item, w: Word32, w': Word32, o: nat)
    requires Fits(al, x) && x.Act? && IsPatch(Ins(al, x))
  {
    var ins := Ins(al, x);
    if IsImmediate(ins) then
      ProperField(ins) && ConstantBlank(ins, w) ==> (Constant(ins, w') == Meant(ins, x.arg) <==> Expressible(ins, x.arg))
    else
      var form := FormOf(ins);
      var n := if IsReference(ins) then Target(al, p, x) - Landing(o, 0) else ExternOf(ext, ins, o);
      Blank(form, w) ==>
        && (IsReference(ins) ==> (Landing(o, Reach(form, w')) == Target(al, p, x) <==> InReach(form, n)))
        && (Action(ins) == REL_EXT ==> (Reach(form, w') == n <==> InReach(form, n)))
        && (InReach(form, n) ==> Around(form, w') == Around(form, w))
  }

  predicate PatchItem(al: seq<nat>, x: Item)
  {
    Fits(al, x) && x.Act? && IsPatch(Ins(al, x))
  }

  /** If item k of section s is a patch, it changes the word in front alone, so that it lands. */
  ghost predicate PatchLands(al: seq<nat>, p: Program, ext: Externs, s: nat, k: nat)
    requires Words(al) && s < |p.progs| && k < |p.progs[s]|
  {
    PatchItem(al, p.progs[s][k]) ==>
      var before, after := Code(al, p, ext, s, k), Code(al, p, ext, s, k + 1);
      var i := |before| - 1;
      && 0 < |before| == |after| && after[..i] == before[..i]
      && WordLands(al, p, ext, p.progs[s][k], before[i], after[i], 4 * |before|)
  }

  lemma FieldLands(al: seq<nat>, p: Program, ext: Externs, x: Item, w: Word32, o: nat)
    requires PatchItem(al, x)
    ensures WordLands(al, p, ext, x, w, Or(w, Field(al, p, ext, x, o)), o)
  {
    var ins := Ins(al, x);
    if IsImmediate(ins) {
      if ProperField(ins) && ConstantBlank(ins, w) {
        ConstantIsRead(ins, w, x.arg);
      }
    } else if Blank(FormOf(ins), w) {
      PatchedReaches(ins, w, if IsReference(ins) then Target(al, p, x) - o - 4 else ExternOf(ext, ins, o));
    }
  }

  lemma CodeLands(al: seq<nat>, p: Program, ext: Externs, s: nat, k: nat)
    requires Words(al) && s < |p.progs| && k < |p.progs[s]|
    requires PatchItem(al, p.progs[s][k]) ==> Code(al, p, ext, s, k) != []
    ensures PatchLands(al, p, ext, s, k)
  {
    var x, before := p.progs[s][k], Code(al, p, ext, s, k);
    if PatchItem(al, x) {
      FieldLands(al, p, ext, x, before[|before| - 1], 4 * |before|);
    }
  }

  /** The word in front of a patch is there in every recorded unit. */
  lemma PatchHasWord(al: seq<nat>, u: Unit, ext: Externs, s: nat, k: nat)
    requires UnitOk(al, u) && Words(al) && s < |u.progs| && k < |u.progs[s]| && PatchItem(al, u.progs[s][k])
    ensures Code(al, ProgramOf(u), ext, s, k) != []
  {
    ItemFits(al, u, s, k);
    WordToPatch(al, u, s, k);
    CodeLength(al, u, ext, s, k);
  }

  /** Once more words follow, a word does not change again. */
  lemma {:induction false} WordsStay(al: seq<nat>, p: Program, ext: Externs, r: nat, j: nat, s: nat, k: nat)
    requires Words(al) && Place(p.progs, r, j) && Place(p.progs, s, k) && (r < s || (r == s && j <= k))
    requires Code(al, p, ext, r, j) != []
    ensures var c, d := Code(al, p, ext, r, j), Code(al, p, ext, s, k);
      |c| <= |d| && d[..|c| - 1] == c[..|c| - 1]
    decreases s, k
  {
    if r < s || j < k {
      if k > 0 {
        WordsStay(al, p, ext, r, j, s, k - 1);
      } else {
        WordsStay(al, p, ext, r, j, s - 1, |p.progs[s - 1]|);
      }
    }
  }

  /** From item k of section s on, a word is emitted before there is another patch, or there is none. */
  predicate NoPatchNext(al: seq<nat>, p: Program, s: nat, k: nat)
    requires Place(p.progs, s, k)
    decreases |p.progs| - s, if s < |p.progs| then |p.progs[s]| - k else 0
  {
    if s == |p.progs| then true
    else if k == |p.progs[s]| then NoPatchNext(al, p, s + 1, 0)
    else
      var x := p.progs[s][k];
      (Fits(al, x) && Emits(al, x)) || (!PatchItem(al, x) && NoPatchNext(al, p, s, k + 1))
  }

  /** So the last patch of a word leaves it as it is in the finished code. */
  lemma {:induction false} LastPatchIsFinal(al: seq<nat>, p: Program, ext: Externs, s: nat, k: nat)
    requires Words(al) && Place(p.progs, s, k) && NoPatchNext(al, p, s, k) && Code(al, p, ext, s, k) != []
    ensures Code(al, p, ext, s, k) <= Code(al, p, ext, |p.progs|, 0)
    decreases |p.progs| - s, if s < |p.progs| then |p.progs[s]| - k else 0
  {
    if s < |p.progs| {
      if k == |p.progs[s]| {
        LastPatchIsFinal(al, p, ext, s + 1, 0);
      } else {
        var x, c := p.progs[s][k], Code(al, p, ext, s, k);
        if Fits(al, x) && Emits(al, x) {
          WordsStay(al, p, ext, s, k + 1, |p.progs|, 0);
          assert Code(al, p, ext, s, k + 1)[..|c|] == c;
        } else {
          LastPatchIsFinal(al, p, ext, s, k + 1);
        }
      }
    }
  }
}
