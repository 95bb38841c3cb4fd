/**
 The action words of the DynASM ARM engine (dasm_arm.h) and the bit fields they patch into instructions.
 */
module DasmActions {
  import opened Arithmetic

  const STOP: nat := 0
  const SECTION: nat := 1
  const ESC: nat := 2
  const REL_EXT: nat := 3
  const ALIGN: nat := 4
  const REL_LG: nat := 5
  const LABEL_LG: nat := 6
  const REL_PC: nat := 7
  const LABEL_PC: nat := 8
  const IMM: nat := 9
  const IMM12: nat := 10
  const IMM16: nat := 11
  const IMML8: nat := 12
  const IMML12: nat := 13
  const IMMV8: nat := 14
  const MAX_ACTION: nat := 15

  const TWO_32 := 0x1_0000_0000
  type Word32 = w: nat | w < TWO_32
  const NOP: Word32 := 0xe1a00000

  function Action(ins: nat): nat
  {
    ins / 0x1_0000
  }

  /** A plain instruction word, copied to the output. */
  predicate IsWord(ins: nat)
  {
    Action(ins) >= MAX_ACTION
  }

  /** The actions that take a buffer position. */
  predicate HasSlot(ins: nat)
  {
    ALIGN <= Action(ins) < MAX_ACTION
  }

  /** The actions that take an argument of dasm_put. */
  predicate HasArgument(ins: nat)
  {
    REL_PC <= Action(ins) < MAX_ACTION
  }

  predicate IsReference(ins: nat)
  {
    Action(ins) == REL_LG || Action(ins) == REL_PC
  }

  predicate IsLabel(ins: nat)
  {
    Action(ins) == LABEL_LG || Action(ins) == LABEL_PC
  }

  predicate IsImmediate(ins: nat)
  {
    IMM <= Action(ins) <= IMMV8
  }

  /** The actions that patch the word before them. */
  predicate IsPatch(ins: nat)
  {
    Action(ins) == REL_EXT || IsReference(ins) || IsImmediate(ins)
  }

  /** The alignment masks 2^k - 1 that fit the action byte. */
  predicate IsMask(m: nat)
  {
    m == 0 || m == 1 || m == 3 || m == 7 || m == 15 || m == 31 || m == 63 || m == 127 || m == 255
  }

  // ----- ARM's rotated 12-bit immediates -----

  /** n rotated left by two bits, as the loop of dasm_imm12 does. */
  function RotateLeft2(n: nat): (r: nat)
    requires n < TWO_32
    ensures r < TWO_32
  {
    n % 0x4000_0000 * 4 + n / 0x4000_0000
  }

  function RotateRight2(n: nat): (r: nat)
    requires n < TWO_32
    ensures r < TWO_32
    ensures RotateLeft2(r) == n
  {
    n / 4 + n % 4 * 0x4000_0000
  }

  /** What an ARM processor makes of the immediate field: an 8-bit value rotated right by twice the 4-bit rotation. */
  function Rotated(imm8: nat, rotation: nat): (r: nat)
    requires imm8 < TWO_32
    ensures r < TWO_32
  {
    if rotation == 0 then imm8 else RotateRight2(Rotated(imm8, rotation - 1))
  }

  lemma RotateRightLeft(n: nat)
    requires n < TWO_32
    ensures RotateRight2(RotateLeft2(n)) == n
  {
    Split4(n % 0x4000_0000, n / 0x4000_0000);
  }

  lemma Split4(q: int, r: nat)
    requires r < 4
    ensures (q * 4 + r) / 4 == q && (q * 4 + r) % 4 == r
  {
  }

  /** n rotated left k times. */
  function Unrotated(n: nat, k: nat): (r: nat)
    requires n < TWO_32
    ensures r < TWO_32
  {
    if k == 0 then n else RotateLeft2(Unrotated(n, k - 1))
  }

  lemma {:induction false} RotatedUnrotated(n: nat, k: nat)
    requires n < TWO_32
    ensures Rotated(Unrotated(n, k), k) == n
  {
    if k > 0 {
      RotatedCommutes(RotateLeft2(Unrotated(n, k - 1)), k - 1);
      RotateRightLeft(Unrotated(n, k - 1));
      RotatedUnrotated(n, k - 1);
    }
  }

  lemma {:induction false} RotatedCommutes(n: nat, k: nat)
    requires n < TWO_32
    ensures RotateRight2(Rotated(n, k)) == Rotated(RotateRight2(n), k)
  {
    if k > 0 {
      RotatedCommutes(n, k - 1);
    }
  }

  lemma {:induction false} UnrotatedRotated(n: nat, k: nat)
    requires n < TWO_32
    ensures Unrotated(Rotated(n, k), k) == n
  {
    if k > 0 {
      UnrotatedCommutes(Rotated(n, k), k - 1);
      UnrotatedRotated(n, k - 1);
    }
  }

  lemma {:induction false} UnrotatedCommutes(n: nat, k: nat)
    requires n < TWO_32
    ensures RotateLeft2(Unrotated(n, k)) == Unrotated(RotateLeft2(n), k)
  {
    if k > 0 {
      UnrotatedCommutes(n, k - 1);
    }
  }

  function Imm12From(n: nat, i: nat): int
    requires n < TWO_32 && i <= 16
    decreases 16 - i
  {
    if i == 16 then -1 else if n <= 255 then n + 0x100 * i else Imm12From(RotateLeft2(n), i + 1)
  }

  /** The immediate field for the constant n, or -1. */
  function Imm12(n: nat): int
    requires n < TWO_32
  {
    Imm12From(n, 0)
  }

  /** No rotation below k of an 8-bit value is n, if none of n's inverse rotations below k is an 8-bit value. */
  lemma NoneBelow(n: nat, k: nat)
    requires n < TWO_32
    requires forall i | 0 <= i < k :: Unrotated(n, i) > 255
    ensures forall imm8: nat, i: nat | imm8 <= 255 && i < k :: Rotated(imm8, i) != n
  {
    forall imm8: nat, i: nat | imm8 <= 255 && i < k
      ensures Rotated(imm8, i) != n
    {
      UnrotatedRotated(imm8, i);
    }
  }

  lemma ImmediateFound(n: nat, i: nat, m: nat)
    requires n < TWO_32 && i < 16 && m == Unrotated(n, i) <= 255
    ensures var r := m + 0x100 * i; r < 0x1000 && r / 0x100 == i && r % 0x100 == m && Rotated(m, i) == n
  {
    RotatedUnrotated(n, i);
  }

  /**
   dasm_imm12: a field comes back exactly when some 8-bit value under some rotation is n, and it denotes n, with the
   smallest rotation that does.
   */
  method ComputeImm12(n: nat) returns (r: int)
    requires n < TWO_32
    ensures r == Imm12(n)
    ensures r != -1 ==> 0 <= r < 0x1000 && Rotated(r % 0x100, r / 0x100) == n
    ensures r != -1 ==> forall imm8: nat, k: nat | imm8 <= 255 && k < r / 0x100 :: Rotated(imm8, k) != n
    ensures r == -1 ==> forall imm8: nat, k: nat | imm8 <= 255 && k < 16 :: Rotated(imm8, k) != n
  {
    var m := n;
    var i := 0;
    while i < 16 && m > 255
      invariant 0 <= i <= 16 && m < TWO_32 && m == Unrotated(n, i)
      invariant Imm12(n) == Imm12From(m, i)
      invariant forall k | 0 <= k < i :: Unrotated(n, k) > 255
    {
      assert Unrotated(n, i + 1) == RotateLeft2(m);
      i, m := i + 1, RotateLeft2(m);
    }
    NoneBelow(n, i);
    if i == 16 {
      return -1;
    }
    ImmediateFound(n, i, m);
    r := m + 0x100 * i;
  }

  /** The field denotes n, and there is none only if no 8-bit value under any rotation is n. */
  lemma Imm12Denotes(n: nat)
    requires n < TWO_32
    ensures Imm12(n) != -1 ==> 0 <= Imm12(n) < 0x1000 && Rotated(Imm12(n) % 0x100, Imm12(n) / 0x100) == n
    ensures Imm12(n) == -1 ==> forall imm8: nat, k: nat | imm8 <= 255 && k < 16 :: Rotated(imm8, k) != n
  {
    SearchDenotes(n, n, 0);
  }

  lemma {:induction false} SearchDenotes(n: nat, m: nat, i: nat)
    requires n < TWO_32 && i <= 16 && m == Unrotated(n, i) && forall k | 0 <= k < i :: Unrotated(n, k) > 255
    ensures Imm12From(m, i) != -1 ==>
      0 <= Imm12From(m, i) < 0x1000 && Rotated(Imm12From(m, i) % 0x100, Imm12From(m, i) / 0x100) == n
    ensures Imm12From(m, i) == -1 ==> forall imm8: nat, k: nat | imm8 <= 255 && k < 16 :: Rotated(imm8, k) != n
    decreases 16 - i
  {
    if i == 16 {
      NoneBelow(n, 16);
    } else if m <= 255 {
      ImmediateFound(n, i, m);
    } else {
      assert Unrotated(n, i + 1) == RotateLeft2(m);
      SearchDenotes(n, RotateLeft2(m), i + 1);
    }
  }

  // ----- Patching -----

  /** Bitwise or of k-bit numbers. */
  function OrBits(w: nat, f: nat, k: nat): (r: nat)
    requires w < Pow2(k) && f < Pow2(k)
    ensures r < Pow2(k)
  {
    if k == 0 then 0
    else 2 * OrBits(w / 2, f / 2, k - 1) + if w % 2 == 1 || f % 2 == 1 then 1 else 0
  }

  /** Bitwise or of 32-bit words. */
  function Or(w: nat, f: nat): (r: nat)
    requires w < TWO_32 && f < TWO_32
    ensures r < TWO_32
  {
    Pow2Values();
    OrBits(w, f, 32)
  }

  lemma {:induction false} OrNothing(k: nat)
    ensures OrBits(0, 0, k) == 0
  {
    if k > 0 {
      OrNothing(k - 1);
    }
  }

  /** Or with a bit above all others sets that bit. */
  lemma {:induction false} OrSetsBit(j: nat, n: nat, k: nat)
    requires j < k && n < Pow2(j) && Pow2(j) < Pow2(k) && n < Pow2(k)
    ensures OrBits(Pow2(j), n, k) == Pow2(j) + n
  {
    if j == 0 {
      OrNothing(k - 1);
    } else {
      OrSetsBit(j - 1, n / 2, k - 1);
    }
  }

  /** A C int as the unsigned word that has its bits. */
  function Word(n: int): (w: nat)
    ensures w < TWO_32
  {
    n % TWO_32
  }

  /** The U bit and the split 8-bit offset of a load or store. */
  function SplitOffset(n: int): (f: nat)
    ensures f < TWO_32
  {
    if n >= 0 then 0x80_0000 + n % 16 + n / 16 % 16 * 0x100 else (-n) % 16 + (-n) / 16 % 16 * 0x100
  }

  /** The U bit and the offset of a load or store. */
  function Offset(n: int): (f: nat)
    ensures f < TWO_32
  {
    if n >= 0 then Or(0x80_0000, Word(n)) else Word(-n)
  }

  /** The field for a branch or PC-relative access by n bytes, selected by the bits of the action word. */
  function RelativeField(ins: nat, n: int): (f: nat)
    ensures f < TWO_32
  {
    if ins / 0x800 % 2 == 0 then n / 4 % 0x100_0000
    else if ins / 0x1000 % 2 == 1 then SplitOffset(n)
    else if ins / 0x2000 % 2 == 0 then Offset(n)
    else Offset(n / 4)
  }

  /** The field for an immediate argument. */
  function ImmediateField(ins: nat, n: int): (f: nat)
    requires IsImmediate(ins)
    ensures f < TWO_32
  {
    match Action(ins)
    case 9 => Word(n / Pow2(ins / 0x400 % 32) % Pow2(ins / 0x20 % 32) * Pow2(ins % 32))
    case 10 => Word(Imm12(Word(n)))
    case 11 => n / 0x1000 % 16 * 0x1_0000 + n % 0x1000
    case 12 => SplitOffset(n)
    case _ => Offset(n)
  }

  // ----- Which displacements the fields can express -----

  /** A branch adds four times the sign-extended 24-bit field. */
  function BranchReach(f: nat): int
    requires f < 0x100_0000
  {
    4 * if f < 0x80_0000 then f else f - 0x100_0000
  }

  /** The range check for branches accepts exactly the displacements that survive. */
  lemma BranchFieldReaches(ins: nat, n: int)
    requires ins / 0x800 % 2 == 0
    ensures BranchReach(RelativeField(ins, n)) == n <==> n % 4 == 0 && 0 <= n + 0x200_0000 < 0x400_0000
  {
  }

  /** A split offset reads back as the two nibbles under the U bit. */
  function SplitReach(f: nat): int
  {
    if f / 0x80_0000 % 2 == 1 then Nibbles(f) else -Nibbles(f)
  }

  function Nibbles(f: nat): int
  {
    f % 16 + f / 0x100 % 16 * 16
  }

  lemma NibblesOf(lo: nat, hi: nat, u: nat)
    requires lo < 16 && hi < 16 && u < 2
    ensures Nibbles(0x80_0000 * u + lo + hi * 0x100) == lo + hi * 16
    ensures (0x80_0000 * u + lo + hi * 0x100) / 0x80_0000 % 2 == u
  {
    Split16(0x8_0000 * u + hi * 0x10, lo);
    Split256(0x8000 * u + hi, lo);
    Split16(0x800 * u, hi);
  }

  lemma Split16(q: int, r: nat)
    requires r < 16
    ensures (16 * q + r) / 16 == q && (16 * q + r) % 16 == r
  {
  }

  lemma Split256(q: int, r: nat)
    requires r < 256
    ensures (256 * q + r) / 256 == q
  {
  }

  /** Offsets survive the split form exactly up to 255 in magnitude. */
  lemma SplitOffsetReaches(n: int)
    ensures SplitReach(SplitOffset(n)) == n <==> -256 < n < 256
  {
    if n >= 0 {
      NibblesOf(n % 16, n / 16 % 16, 1);
      TwoNibbles(n);
    } else {
      NibblesOf((-n) % 16, (-n) / 16 % 16, 0);
      TwoNibbles(-n);
    }
  }

  lemma TwoNibbles(m: nat)
    ensures m % 16 + m / 16 % 16 * 16 == m <==> m < 256
  {
    var q := m / 16;
    assert m == 16 * q + m % 16;
    assert q % 16 == q <==> q < 16;
  }

  /** The check in front of it also lets 256 and -256 through, which are then encoded as 0. */
  lemma SplitRangeCheckIsTooWide()
    ensures 256 % 4 == 0 && SplitReach(SplitOffset(256)) == 0 && SplitReach(SplitOffset(-256)) == 0
  {
  }

  /** A 12-bit offset reads back as the low bits under the U bit. */
  function OffsetReach(f: nat): int
  {
    if f / 0x80_0000 % 2 == 1 then f % 0x1000 else -(f % 0x1000)
  }

  lemma OrSetsU(n: nat)
    requires n < 0x80_0000
    ensures Or(0x80_0000, n) == 0x80_0000 + n
  {
    Pow2Values();
    OrSetsBit(23, n, 32);
  }

  lemma OffsetOf(n: int)
    requires -0x1000 < n < 0x1000
    ensures Offset(n) == if n >= 0 then 0x80_0000 + n else -n
  {
    WordOf(if n >= 0 then n else -n);
    if n >= 0 {
      OrSetsU(n);
    }
  }

  lemma WordOf(n: nat)
    requires n < TWO_32
    ensures Word(n) == n
  {
  }

  /** Offsets survive the 12-bit form exactly up to 4095 in magnitude. */
  lemma OffsetReaches(n: int)
    ensures OffsetReach(Offset(n)) == n <==> -0x1000 < n < 0x1000
  {
    var f := Offset(n);
    OffsetReachIsShort(f);
    if 0 <= n < 0x1000 {
      OffsetOf(n);
      OffsetBits(n, 1);
    } else if -0x1000 < n < 0 {
      OffsetOf(n);
      OffsetBits(-n, 0);
    }
  }

  lemma OffsetReachIsShort(f: nat)
    ensures -0x1000 < OffsetReach(f) < 0x1000
  {
  }

  lemma OffsetBits(m: nat, u: nat)
    requires m < 0x1000 && u < 2
    ensures OffsetReach(0x80_0000 * u + m) == if u == 1 then m else -(m as int)
  {
  }

  /** The check in front of it also lets 4096 and -4096 through, which set the bit above the field, in the register. */
  lemma OffsetRangeCheckIsTooWide()
    ensures 0x1000 % 4 == 0 && Offset(-0x1000) == 0x1000 && Offset(0x1000) == 0x80_1000
  {
    WordOf(0x1000);
    OrSetsU(0x1000);
  }
}
