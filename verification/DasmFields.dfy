/**
 The patched instruction words as an ARM processor reads them: displacements and immediate constants out of the bits of
 a word into which dasm_encode has or-ed a field.
 */
module DasmFields {
  import opened Arithmetic
  import opened DasmActions

  // ----- Groups of bits -----

  /** n without its i lowest bits. */
  function Drop(n: nat, i: nat): (r: nat)
  {
    if i == 0 then n else Drop(n / 2, i - 1)
  }

  /** The j lowest bits of n. */
  function Take(n: nat, j: nat): (r: nat)
    ensures r < Pow2(j)
  {
    if j == 0 then 0 else 2 * Take(n / 2, j - 1) + n % 2
  }

  /** The number in the j bits of w from bit i on. */
  function Bits(w: nat, i: nat, j: nat): (r: nat)
    ensures r < Pow2(j)
  {
    Take(Drop(w, i), j)
  }

  lemma {:induction false} DropIs(n: nat, i: nat)
    ensures Drop(n, i) == n / Pow2(i)
  {
    if i > 0 {
      DropIs(n / 2, i - 1);
      DivTwice(n, Pow2(i - 1));
    }
  }

  lemma {:induction false} TakeIs(n: nat, j: nat)
    ensures Take(n, j) == n % Pow2(j)
  {
    if j > 0 {
      TakeIs(n / 2, j - 1);
      DivTwice(n, Pow2(j - 1));
    }
  }

  lemma BitsAre(w: nat, i: nat, j: nat)
    ensures Bits(w, i, j) == w / Pow2(i) % Pow2(j)
  {
    DropIs(w, i);
    TakeIs(Drop(w, i), j);
  }

  lemma DivTwice(n: nat, p: nat)
    requires p > 0
    ensures n / 2 / p == n / (2 * p) && n % (2 * p) == 2 * (n / 2 % p) + n % 2
  {
    var q, r := n / 2 / p, n / 2 % p;
    assert n / 2 == q * p + r;
    Doubled(q, p);
    DivModUnique(n, 2 * p, q, 2 * r + n % 2);
  }

  lemma Doubled(q: nat, p: nat)
    ensures 2 * (q * p) == q * (2 * p)
  {
  }

  lemma {:induction false} DropFits(n: nat, i: nat, k: nat)
    requires i <= k && n < Pow2(k)
    ensures Drop(n, i) < Pow2(k - i)
  {
    if i > 0 {
      DropFits(n / 2, i - 1, k - 1);
    }
  }

  lemma {:induction false} OrDrops(w: nat, f: nat, k: nat, i: nat)
    requires i <= k && w < Pow2(k) && f < Pow2(k)
    requires Drop(w, i) < Pow2(k - i) && Drop(f, i) < Pow2(k - i)
    ensures Drop(OrBits(w, f, k), i) == OrBits(Drop(w, i), Drop(f, i), k - i)
  {
    if i > 0 {
      OrDrops(w / 2, f / 2, k - 1, i - 1);
    }
  }

  lemma {:induction false} OrTakes(w: nat, f: nat, k: nat, j: nat)
    requires j <= k && w < Pow2(k) && f < Pow2(k)
    ensures Take(OrBits(w, f, k), j) == OrBits(Take(w, j), Take(f, j), j)
  {
    if j > 0 {
      OrTakes(w / 2, f / 2, k - 1, j - 1);
    }
  }

  lemma {:induction false} OrWithZero(n: nat, k: nat)
    requires n < Pow2(k)
    ensures OrBits(0, n, k) == n && OrBits(n, 0, k) == n
  {
    if k > 0 {
      OrWithZero(n / 2, k - 1);
    }
  }

  /** A group of bits of a word is made of the same bits of both words. */
  lemma OrBitsOf(w: Word32, f: Word32, i: nat, j: nat)
    requires i + j <= 32
    ensures Bits(Or(w, f), i, j) == OrBits(Bits(w, i, j), Bits(f, i, j), j)
  {
    Pow2Values();
    DropFits(w, i, 32);
    DropFits(f, i, 32);
    OrDrops(w, f, 32, i);
    OrTakes(Drop(w, i), Drop(f, i), 32 - i, j);
  }

  /** Bits that are clear in one word are those of the other. */
  lemma OrGroup(w: Word32, f: Word32, i: nat, j: nat)
    requires i + j <= 32
    ensures Bits(w, i, j) == 0 ==> Bits(Or(w, f), i, j) == Bits(f, i, j)
    ensures Bits(f, i, j) == 0 ==> Bits(Or(w, f), i, j) == Bits(w, i, j)
  {
    OrBitsOf(w, f, i, j);
    OrWithZero(Bits(f, i, j), j);
    OrWithZero(Bits(w, i, j), j);
  }

  /** Each bit is set if it is set in one of the words. */
  lemma OrBit(w: Word32, f: Word32, i: nat)
    requires i < 32
    ensures Bits(Or(w, f), i, 1) == if Bits(w, i, 1) == 1 || Bits(f, i, 1) == 1 then 1 else 0
  {
    OrBitsOf(w, f, i, 1);
    assert Pow2(1) == 2;
  }

  // ----- Rotations -----

  lemma {:induction false} DropSum(q: nat, m: nat, i: nat, k: nat)
    requires i <= k
    ensures Drop(q + m * Pow2(k), i) == Drop(q, i) + m * Pow2(k - i)
  {
    if i > 0 {
      TwiceMore(m, k);
      HalfSum(q, m * Pow2(k - 1));
      DropSum(q / 2, m, i - 1, k - 1);
    }
  }

  lemma {:induction false} TwiceMore(m: nat, k: nat)
    requires k > 0
    ensures m * Pow2(k) == 2 * (m * Pow2(k - 1))
  {
  }

  lemma HalfSum(q: nat, h: nat)
    ensures (q + 2 * h) / 2 == q / 2 + h
  {
  }

  lemma {:induction false} DropMore(n: nat, i: nat)
    ensures Drop(n, i + 1) == Drop(n, i) / 2
  {
    if i > 0 {
      DropMore(n / 2, i - 1);
    }
  }

  lemma BitIs(n: nat, i: nat)
    ensures Bits(n, i, 1) == Drop(n, i) % 2
  {
    assert Take(Drop(n, i) / 2, 0) == 0;
  }

  lemma Pow2Of30()
    ensures Pow2(30) == 0x4000_0000
  {
    assert Pow2(10) == 0x400;
    Pow2Sum(10, 10);
    Pow2Sum(10, 20);
  }

  lemma {:induction false} MultipleIsEven(m: nat, j: nat)
    requires j > 0
    ensures m * Pow2(j) % 2 == 0
  {
    TwiceMore(m, j);
  }

  lemma SumParity(r: nat, q: nat, e: nat)
    requires r == q + e && e % 2 == 0
    ensures r % 2 == q % 2
  {
  }

  /** The bits of q with m on top of it, in place k. */
  lemma {:induction false} LowerBits(r: nat, q: nat, m: nat, i: nat, k: nat)
    requires i < k && r == q + m * Pow2(k)
    ensures Drop(r, i) % 2 == Drop(q, i) % 2
  {
    DropSum(q, m, i, k);
    MultipleIsEven(m, k - i);
    SumParity(Drop(r, i), Drop(q, i), m * Pow2(k - i));
  }

  lemma {:induction false} UpperBits(r: nat, q: nat, m: nat, k: nat)
    requires q < Pow2(k) && r == q + m * Pow2(k)
    ensures Drop(r, k) == m && Drop(r, k + 1) == m / 2
  {
    DropSum(q, m, k, k);
    DropFits(q, k, k);
    DropMore(r, k);
  }

  lemma {:induction false} RotatedLow(n: nat, r: nat, m: nat, i: nat, k: nat)
    requires i < k && r == n / 4 + m * Pow2(k)
    ensures Bits(r, i, 1) == Bits(n, i + 2, 1)
  {
    BitIs(r, i);
    BitIs(n, i + 2);
    LowerBits(r, n / 4, m, i, k);
    DropTwo(n, i);
  }

  lemma {:induction false} RotatedHigh(n: nat, r: nat, m: nat, k: nat)
    requires Drop(r, k) == m && Drop(r, k + 1) == m / 2 && m == n % 4
    ensures Bits(r, k, 1) == Bits(n, 0, 1) && Bits(r, k + 1, 1) == Bits(n, 1, 1)
  {
    BitIs(r, k);
    BitIs(r, k + 1);
    BitIs(n, 0);
    BitIs(n, 1);
    DropMore(n, 0);
  }

  lemma {:induction false} DropTwo(n: nat, i: nat)
    ensures Drop(n, i + 2) == Drop(n / 4, i)
  {
    assert n / 2 / 2 == n / 4;
  }

  lemma {:induction false} RotatedAt(n: nat, r: nat, i: nat, k: nat, top: nat)
    requires i < k + 2 && top == Pow2(k) && n / 4 < top && r == n / 4 + n % 4 * top
    ensures Bits(r, i, 1) == if i < k then Bits(n, i + 2, 1) else Bits(n, i - k, 1)
  {
    if i < k {
      RotatedLow(n, r, n % 4, i, k);
    } else {
      UpperBits(r, n / 4, n % 4, k);
      RotatedHigh(n, r, n % 4, k);
    }
  }

  /** Rotating right by two bits moves every bit two places down, and the two lowest to the top. */
  lemma {:induction false} RotateBit(n: Word32, i: nat)
    requires i < 32
    ensures Bits(RotateRight2(n), i, 1) == Bits(n, (i + 2) % 32, 1)
  {
    Pow2Of30();
    RotatedAt(n, RotateRight2(n), i, 30, 0x4000_0000);
    TwoAround(i);
  }

  lemma TwoAround(i: nat)
    requires i < 32
    ensures (i + 2) % 32 == if i < 30 then i + 2 else i - 30
  {
  }

  lemma AroundTheWord(i: nat, k: nat)
    ensures ((i + 2) % 32 + 2 * k) % 32 == (i + 2 * (k + 1)) % 32
  {
    var q, r := (i + 2) / 32, (i + 2) % 32;
    DivModUnique(i + 2 * (k + 1), 32, q + (r + 2 * k) / 32, (r + 2 * k) % 32);
  }

  /** A rotated constant has the bits of its 8-bit value, each 2 * k places further down, around the word. */
  lemma {:induction false} RotatedBit(imm8: Word32, k: nat, i: nat)
    requires i < 32
    ensures Bits(Rotated(imm8, k), i, 1) == Bits(imm8, (i + 2 * k) % 32, 1)
    decreases k
  {
    if k > 0 {
      RotateBit(Rotated(imm8, k - 1), i);
      RotatedBit(imm8, k - 1, (i + 2) % 32);
      AroundTheWord(i, k - 1);
    }
  }

  // ----- Displacements -----

  /** The forms of the instructions that take a displacement. */
  datatype Form =
    | Branch      // B, BL: 24 bits, in words
    | SplitForm   // LDRH, LDRD, ...: two nibbles
    | WideForm    // LDR, STR, ...: 12 bits
    | VfpForm     // VLDR, VSTR: 8 bits, in words

  function FormOf(ins: nat): Form
  {
    if ins / 0x800 % 2 == 0 then Branch
    else if ins / 0x1000 % 2 == 1 then SplitForm
    else if ins / 0x2000 % 2 == 0 then WideForm
    else VfpForm
  }

  /** What the processor adds to the program counter. */
  function Reach(form: Form, w: nat): int
  {
    match form
    case Branch => BranchReach(w % 0x100_0000)
    case SplitForm => SplitReach(w)
    case WideForm => OffsetReach(w)
    case VfpForm => VfpReach(w)
  }

  function VfpReach(w: nat): int
  {
    4 * if w / 0x80_0000 % 2 == 1 then w % 0x100 else -(w % 0x100)
  }

  /** The instruction that is to be patched has zeros where the field goes. */
  predicate Blank(form: Form, w: nat)
  {
    match form
    case Branch => w % 0x100_0000 == 0
    case SplitForm => w % 16 == 0 && w / 0x100 % 16 == 0 && w / 0x80_0000 % 2 == 0
    case WideForm => w % 0x1000 == 0 && w / 0x80_0000 % 2 == 0
    case VfpForm => w % 0x100 == 0 && w / 0x80_0000 % 2 == 0
  }

  /** The bits of the instruction around the field. */
  function Around(form: Form, w: nat): seq<nat>
  {
    match form
    case Branch => [Bits(w, 24, 8)]
    case SplitForm => [Bits(w, 4, 4), Bits(w, 12, 11), Bits(w, 24, 8)]
    case WideForm => [Bits(w, 12, 11), Bits(w, 24, 8)]
    case VfpForm => [Bits(w, 8, 15), Bits(w, 24, 8)]
  }

  /** The displacements that a field can express. */
  predicate InReach(form: Form, n: int)
  {
    match form
    case Branch => n % 4 == 0 && -0x200_0000 <= n < 0x200_0000
    case SplitForm => -0x100 < n < 0x100
    case WideForm => -0x1000 < n < 0x1000
    case VfpForm => n % 4 == 0 && -0x400 < n < 0x400
  }

  /** The range checks of dasm_encode, which are only compiled in for debugging. */
  predicate RangeChecked(form: Form, n: int)
  {
    n % 4 == 0 && match form
      case Branch => (n + 0x200_0000) / 0x400_0000 == 0
      case SplitForm => -256 <= n <= 256
      case WideForm => -4096 <= n <= 4096
      case VfpForm => -1020 <= n <= 1020
  }

  /** For displacements of whole words, the checks are right up to one value on each side of two forms. */
  lemma CheckedIsInReach(form: Form, n: int)
    requires n % 4 == 0
    ensures RangeChecked(form, n) <==>
      InReach(form, n) || (form.SplitForm? && (n == 256 || n == -256)) || (form.WideForm? && (n == 4096 || n == -4096))
  {
  }

  lemma GroupValues()
    ensures Pow2(0) == 1 && Pow2(1) == 2 && Pow2(4) == 16 && Pow2(8) == 0x100 && Pow2(12) == 0x1000
    ensures Pow2(23) == 0x80_0000 && Pow2(24) == 0x100_0000
  {
    Pow2Values();
    assert Pow2(4) == 16;
    Pow2Sum(4, 4);
    Pow2Sum(4, 8);
  }

  /** The groups that are fields. */
  lemma FieldGroups(w: nat)
    ensures Bits(w, 0, 24) == w % 0x100_0000 && Bits(w, 0, 12) == w % 0x1000 && Bits(w, 0, 8) == w % 0x100
    ensures Bits(w, 0, 4) == w % 16 && Bits(w, 8, 4) == w / 0x100 % 16 && Bits(w, 23, 1) == w / 0x80_0000 % 2
  {
    GroupValues();
    BitsAre(w, 0, 24);
    BitsAre(w, 0, 12);
    BitsAre(w, 0, 8);
    BitsAre(w, 0, 4);
    BitsAre(w, 8, 4);
    BitsAre(w, 23, 1);
  }

  /** The groups around fields. */
  lemma OtherGroups(w: nat)
    ensures Bits(w, 4, 4) == w / 0x10 % 0x10 && Bits(w, 12, 11) == w / 0x1000 % 0x800
    ensures Bits(w, 8, 15) == w / 0x100 % 0x8000 && Bits(w, 24, 8) == w / 0x100_0000 % 0x100
  {
    GroupValues();
    Pow2Sum(4, 7);
    Pow2Sum(7, 8);
    BitsAre(w, 4, 4);
    BitsAre(w, 12, 11);
    BitsAre(w, 8, 15);
    BitsAre(w, 24, 8);
  }

  /** In a blank word, the processor reads what was or-ed in. */
  lemma OrIsRead(form: Form, w: Word32, f: Word32)
    requires Blank(form, w)
    ensures Reach(form, Or(w, f)) == Reach(form, f)
  {
    FieldGroups(w);
    FieldGroups(f);
    FieldGroups(Or(w, f));
    match form
    case Branch => OrGroup(w, f, 0, 24);
    case SplitForm =>
      OrGroup(w, f, 0, 4);
      OrGroup(w, f, 8, 4);
      OrGroup(w, f, 23, 1);
    case WideForm =>
      OrGroup(w, f, 0, 12);
      OrGroup(w, f, 23, 1);
    case VfpForm =>
      OrGroup(w, f, 0, 8);
      OrGroup(w, f, 23, 1);
  }

  lemma VfpReachIsShort(w: nat)
    ensures -0x400 < VfpReach(w) < 0x400 && VfpReach(w) % 4 == 0
  {
  }

  lemma VfpBits(m: nat, u: nat)
    requires m < 0x100 && u < 2
    ensures VfpReach(0x80_0000 * u + m) == if u == 1 then 4 * m else -4 * m
  {
  }

  lemma VfpOffsetReaches(n: int)
    ensures VfpReach(Offset(n / 4)) == n <==> InReach(VfpForm, n)
  {
    VfpReachIsShort(Offset(n / 4));
    if InReach(VfpForm, n) {
      var m := n / 4;
      OffsetOf(m);
      VfpBits(if m >= 0 then m else -m, if m >= 0 then 1 else 0);
    }
  }

  lemma SplitFieldReaches(ins: nat, n: int)
    requires FormOf(ins) == SplitForm
    ensures SplitReach(RelativeField(ins, n)) == n <==> InReach(SplitForm, n)
  {
    SplitOffsetReaches(n);
  }

  lemma WideFieldReaches(ins: nat, n: int)
    requires FormOf(ins) == WideForm
    ensures OffsetReach(RelativeField(ins, n)) == n <==> InReach(WideForm, n)
  {
    OffsetReaches(n);
  }

  lemma VfpFieldReaches(ins: nat, n: int)
    requires FormOf(ins) == VfpForm
    ensures VfpReach(RelativeField(ins, n)) == n <==> InReach(VfpForm, n)
  {
    VfpOffsetReaches(n);
  }

  /** The field for a displacement reads back exactly when it is in reach. */
  lemma FieldReaches(ins: nat, n: int)
    ensures Reach(FormOf(ins), RelativeField(ins, n)) == n <==> InReach(FormOf(ins), n)
  {
    match FormOf(ins)
    case Branch => BranchFieldReaches(ins, n);
    case SplitForm => SplitFieldReaches(ins, n);
    case WideForm => WideFieldReaches(ins, n);
    case VfpForm => VfpFieldReaches(ins, n);
  }

  /** The field has no bits around its place in the instruction. */
  predicate Narrow(form: Form, f: nat)
  {
    match form
    case Branch => Bits(f, 24, 8) == 0
    case SplitForm => Bits(f, 4, 4) == 0 && Bits(f, 12, 11) == 0 && Bits(f, 24, 8) == 0
    case WideForm => Bits(f, 12, 11) == 0 && Bits(f, 24, 8) == 0
    case VfpForm => Bits(f, 8, 15) == 0 && Bits(f, 24, 8) == 0
  }

  lemma NibblesAreNarrow(f: nat, u: nat, lo: nat, hi: nat)
    requires u < 2 && lo < 16 && hi < 16 && f == 0x80_0000 * u + lo + hi * 0x100
    ensures f / 0x10 % 0x10 == 0 && f / 0x1000 % 0x800 == 0 && f / 0x100_0000 == 0
  {
  }

  lemma SplitIsNarrow(n: int)
    ensures Narrow(SplitForm, SplitOffset(n))
  {
    var m := if n >= 0 then n else -n;
    NibblesAreNarrow(SplitOffset(n), if n >= 0 then 1 else 0, m % 16, m / 16 % 16);
    OtherGroups(SplitOffset(n));
  }

  lemma GroupAbove(f: nat, d: nat, g: nat, m: nat, u: nat)
    requires m < d && u < 2 && g > 1 && f == g * u * d + m
    ensures f / d == g * u && f / d % g == 0
  {
    DivModUnique(f, d, g * u, m);
    DivModUnique(g * u, g, u, 0);
  }

  lemma WideIsNarrow(f: nat, m: nat, u: nat)
    requires m < 0x1000 && u < 2 && f == 0x80_0000 * u + m
    ensures Narrow(WideForm, f)
  {
    GroupAbove(f, 0x1000, 0x800, m, u);
    DivModUnique(f, 0x100_0000, 0, f);
    OtherGroups(f);
  }

  lemma VfpIsNarrow(f: nat, m: nat, u: nat)
    requires m < 0x100 && u < 2 && f == 0x80_0000 * u + m
    ensures Narrow(VfpForm, f)
  {
    GroupAbove(f, 0x100, 0x8000, m, u);
    DivModUnique(f, 0x100_0000, 0, f);
    OtherGroups(f);
  }

  lemma OffsetIsNarrow(n: int)
    ensures -0x1000 < n < 0x1000 ==> Narrow(WideForm, Offset(n))
    ensures -0x100 < n < 0x100 ==> Narrow(VfpForm, Offset(n))
  {
    var m, u := if n >= 0 then n else -n, if n >= 0 then 1 else 0;
    if m < 0x1000 {
      OffsetOf(n);
      WideIsNarrow(Offset(n), m, u);
      if m < 0x100 {
        VfpIsNarrow(Offset(n), m, u);
      }
    }
  }

  lemma BranchIsNarrow(f: nat)
    requires f < 0x100_0000
    ensures Narrow(Branch, f)
  {
    DivModUnique(f, 0x100_0000, 0, f);
    GroupValues();
    BitsAre(f, 24, 8);
  }

  lemma FieldIsNarrow(ins: nat, n: int)
    requires InReach(FormOf(ins), n)
    ensures Narrow(FormOf(ins), RelativeField(ins, n))
  {
    match FormOf(ins)
    case Branch => BranchIsNarrow(RelativeField(ins, n));
    case SplitForm => SplitIsNarrow(n);
    case WideForm => OffsetIsNarrow(n);
    case VfpForm => OffsetIsNarrow(n / 4);
  }

  /** Then it leaves the rest of the instruction alone. */
  lemma NarrowKeepsRest(form: Form, w: Word32, f: Word32)
    requires Narrow(form, f)
    ensures Around(form, Or(w, f)) == Around(form, w)
  {
    match form
    case Branch => OrGroup(w, f, 24, 8);
    case SplitForm =>
      OrGroup(w, f, 4, 4);
      OrGroup(w, f, 12, 11);
      OrGroup(w, f, 24, 8);
    case WideForm =>
      OrGroup(w, f, 12, 11);
      OrGroup(w, f, 24, 8);
    case VfpForm =>
      OrGroup(w, f, 8, 15);
      OrGroup(w, f, 24, 8);
  }

  /**
   A displacement n patched into a blank instruction is what the processor adds to the program counter, exactly when it
   is in reach; then nothing else in the instruction changes.
   */
  lemma PatchedReaches(ins: nat, w: Word32, n: int)
    requires Blank(FormOf(ins), w)
    ensures var patched := Or(w, RelativeField(ins, n));
      && (Reach(FormOf(ins), patched) == n <==> InReach(FormOf(ins), n))
      && (InReach(FormOf(ins), n) ==> Around(FormOf(ins), patched) == Around(FormOf(ins), w))
  {
    OrIsRead(FormOf(ins), w, RelativeField(ins, n));
    FieldReaches(ins, n);
    if InReach(FormOf(ins), n) {
      FieldIsNarrow(ins, n);
      NarrowKeepsRest(FormOf(ins), w, RelativeField(ins, n));
    }
  }

  // ----- Immediate constants -----

  /** The fields of an action word for a plain immediate: n >> scale goes to width bits from shift on. */
  function Shift(ins: nat): nat
  {
    ins % 32
  }

  function Width(ins: nat): nat
  {
    ins / 0x20 % 32
  }

  function Scale(ins: nat): nat
  {
    ins / 0x400 % 32
  }

  predicate SignedField(ins: nat)
  {
    ins / 0x8000 % 2 == 1
  }

  /** The flags and fields of action words, as the preprocessor composes them. */
  lemma ActionFields(action: nat, shift: nat, width: nat, scale: nat, sign: nat)
    requires shift < 32 && width < 32 && scale < 32 && sign < 2
    ensures var ins := action * 0x1_0000 + sign * 0x8000 + scale * 0x400 + width * 0x20 + shift;
      Action(ins) == action && Shift(ins) == shift && Width(ins) == width && Scale(ins) == scale
      && (SignedField(ins) <==> sign == 1)
  {
    var top := action * 2 + sign;
    var ins := top * 0x8000 + scale * 0x400 + width * 0x20 + shift;
    DivModUnique(ins, 0x20, top * 0x400 + scale * 0x20 + width, shift);
    DivModUnique(top * 0x400 + scale * 0x20 + width, 0x20, top * 0x20 + scale, width);
    DivModUnique(ins, 0x400, top * 0x20 + scale, width * 0x20 + shift);
    DivModUnique(top * 0x20 + scale, 0x20, top, scale);
    DivModUnique(ins, 0x8000, top, scale * 0x400 + width * 0x20 + shift);
    DivModUnique(top, 2, action, sign);
    DivModUnique(ins, 0x1_0000, action, sign * 0x8000 + scale * 0x400 + width * 0x20 + shift);
  }

  lemma FormFlags(action: nat, number: nat, load: nat, split: nat, short: nat)
    requires number < 0x800 && load < 2 && split < 2 && short < 2
    ensures var ins := action * 0x1_0000 + short * 0x2000 + split * 0x1000 + load * 0x800 + number;
      Action(ins) == action && ins % 0x800 == number
      && FormOf(ins) == if load == 0 then Branch else if split == 1 then SplitForm else if short == 0 then WideForm else VfpForm
  {
    var top := action * 8 + short;
    var ins := top * 0x2000 + split * 0x1000 + load * 0x800 + number;
    DivModUnique(ins, 0x800, top * 4 + split * 2 + load, number);
    DivModUnique(top * 4 + split * 2 + load, 2, top * 2 + split, load);
    DivModUnique(ins, 0x1000, top * 2 + split, load * 0x800 + number);
    DivModUnique(top * 2 + split, 2, top, split);
    DivModUnique(ins, 0x2000, top, split * 0x1000 + load * 0x800 + number);
    DivModUnique(top, 2, action * 4, short);
    DivModUnique(ins, 0x1_0000, action, short * 0x2000 + split * 0x1000 + load * 0x800 + number);
  }

  /** A plain immediate has a field, inside the word. */
  predicate ProperField(ins: nat)
  {
    Action(ins) == IMM ==> Width(ins) > 0 && Shift(ins) + Width(ins) <= 32
  }

  /** v in b bits, as an unsigned number or in two's complement. */
  function Extended(v: nat, b: nat, signed: bool): int
  {
    if signed && 2 * v >= Pow2(b) then v - Pow2(b) else v
  }

  /** The constant that the processor takes from the instruction. */
  function Constant(ins: nat, w: nat): int
    requires IsImmediate(ins)
  {
    match Action(ins)
    case 9 => Extended(Bits(w, Shift(ins), Width(ins)), Width(ins), SignedField(ins)) * Pow2(Scale(ins))
    case 10 => Rotated(w % 0x100, w / 0x100 % 16)
    case 11 => w / 0x1_0000 % 16 * 0x1000 + w % 0x1000
    case 12 => SplitReach(w)
    case 13 => OffsetReach(w)
    case _ => VfpReach(w)
  }

  predicate ConstantBlank(ins: nat, w: nat)
    requires IsImmediate(ins)
  {
    match Action(ins)
    case 9 => Bits(w, Shift(ins), Width(ins)) == 0
    case 10 => w % 0x1000 == 0
    case 11 => w % 0x1000 == 0 && w / 0x1_0000 % 16 == 0
    case 12 => Blank(SplitForm, w)
    case 13 => Blank(WideForm, w)
    case _ => Blank(VfpForm, w)
  }

  /** What the argument stands for: a rotated constant is a 32-bit pattern. */
  function Meant(ins: nat, arg: int): int
  {
    if Action(ins) == IMM12 then Word(arg) else arg
  }

  /** n is an 8-bit value under some rotation. */
  ghost predicate IsRotated(n: nat)
  {
    exists imm8: nat, k: nat :: imm8 <= 255 && k < 16 && Rotated(imm8, k) == n
  }

  /** The arguments that the field can express. */
  ghost predicate Expressible(ins: nat, arg: int)
    requires IsImmediate(ins)
  {
    match Action(ins)
    case 9 =>
      arg % Pow2(Scale(ins)) == 0 && InField(arg / Pow2(Scale(ins)), Width(ins), SignedField(ins))
    case 10 => IsRotated(Word(arg))
    case 11 => 0 <= arg < 0x1_0000
    case 12 => InReach(SplitForm, arg)
    case 13 => InReach(WideForm, arg)
    case _ => InReach(VfpForm, arg)
  }

  predicate InField(q: int, b: nat, signed: bool)
  {
    if signed then -(Pow2(b) as int) <= 2 * q < Pow2(b) else 0 <= q < Pow2(b)
  }

  lemma ExtendedIs(q: int, b: nat, signed: bool)
    requires b > 0
    ensures Extended(q % Pow2(b), b, signed) == q <==> InField(q, b, signed)
  {
    var p := Pow2(b);
    if 0 <= q < p {
      DivModUnique(q, p, 0, q);
    } else if -p <= q < 0 {
      DivModUnique(q, p, -1, q + p);
    }
  }

  lemma ScaledIs(v: int, n: int, p: nat)
    requires p > 0
    ensures v * p == n <==> n % p == 0 && v == n / p
  {
    if v * p == n {
      DivModUnique(n, p, v, 0);
    }
  }

  /** A number of b bits at bit i of an otherwise clear word. */
  lemma FieldAt(f: nat, v: nat, i: nat, b: nat)
    requires v < Pow2(b) && i + b <= 32 && f == v * Pow2(i)
    ensures f < 0x1_0000_0000 && Bits(f, i, b) == v
  {
    ShiftedFits(v, i, b);
    BitsAre(f, i, b);
    ShiftedBack(f, v, Pow2(i), Pow2(b));
  }

  lemma ShiftedBack(f: nat, v: nat, p: nat, q: nat)
    requires v < q && p > 0 && f == v * p
    ensures f / p % q == v
  {
    DivModUnique(f, p, v, 0);
    DivModUnique(v, q, 0, v);
  }

  lemma ShiftedFits(v: nat, i: nat, b: nat)
    requires v < Pow2(b) && i + b <= 32
    ensures v * Pow2(i) < 0x1_0000_0000
  {
    Pow2Values();
    Pow2Sum(b, i);
    Pow2Grows(b + i, 32);
    Less(v, Pow2(b), Pow2(i));
  }

  lemma Less(v: nat, p: nat, q: nat)
    requires v < p && q > 0
    ensures v * q < p * q
  {
  }

  lemma PlainIsRead(ins: nat, w: Word32, n: int)
    requires Action(ins) == IMM && ProperField(ins) && ConstantBlank(ins, w)
    ensures Constant(ins, Or(w, ImmediateField(ins, n))) == n <==> Expressible(ins, n)
  {
    var i, b, p := Shift(ins), Width(ins), Pow2(Scale(ins));
    var v := n / p % Pow2(b);
    var f := v * Pow2(i);
    FieldAt(f, v, i, b);
    WordOf(f);
    OrGroup(w, f, i, b);
    ExtendedIs(n / p, b, SignedField(ins));
    ScaledIs(Extended(v, b, SignedField(ins)), n, p);
  }

  lemma LowBitsAreRead(w: Word32, f: Word32)
    requires w % 0x1000 == 0
    ensures Or(w, f) % 0x1000 == f % 0x1000
  {
    FieldGroups(w);
    FieldGroups(f);
    FieldGroups(Or(w, f));
    OrGroup(w, f, 0, 12);
  }

  lemma HighBitsAreRead(w: Word32, f: Word32)
    requires w / 0x1_0000 % 16 == 0
    ensures Or(w, f) / 0x1_0000 % 16 == f / 0x1_0000 % 16
  {
    HighGroup(w);
    HighGroup(f);
    HighGroup(Or(w, f));
    OrGroup(w, f, 16, 4);
  }

  lemma LowTwelve(w: nat, f: nat)
    requires w % 0x1000 == f
    ensures w % 0x100 == f % 0x100 && w / 0x100 % 16 == f / 0x100
  {
  }

  /** Rotated constants that can be expressed are those that dasm_imm12 finds. */
  lemma RotatedIsFound(n: nat)
    requires n < TWO_32
    ensures IsRotated(n) <==> Imm12(n) != -1
  {
    Imm12Denotes(n);
    if Imm12(n) != -1 {
      assert Rotated(Imm12(n) % 0x100, Imm12(n) / 0x100) == n;
    }
  }

  lemma FoundIsRead(w: Word32, f: nat)
    requires w % 0x1000 == 0 && f < 0x1000
    ensures var w' := Or(w, f); Rotated(w' % 0x100, w' / 0x100 % 16) == Rotated(f % 0x100, f / 0x100)
  {
    LowBitsAreRead(w, f);
    DivModUnique(f, 0x1000, 0, f);
    LowTwelve(Or(w, f), f);
  }

  lemma RotatedIsRead(ins: nat, w: Word32, n: int)
    requires Action(ins) == IMM12 && w % 0x1000 == 0
    ensures Constant(ins, Or(w, ImmediateField(ins, n))) == Word(n) <==> IsRotated(Word(n))
  {
    RotatedIsFound(Word(n));
    Imm12Denotes(Word(n));
    if Imm12(Word(n)) != -1 {
      WordOf(Imm12(Word(n)));
      FoundIsRead(w, Imm12(Word(n)));
    }
  }

  lemma SixteenIsRead(ins: nat, w: Word32, n: int)
    requires Action(ins) == IMM16 && ConstantBlank(ins, w)
    ensures Constant(ins, Or(w, ImmediateField(ins, n))) == n <==> 0 <= n < 0x1_0000
  {
    var hi, lo := n / 0x1000 % 16, n % 0x1000;
    var f: Word32 := hi * 0x1_0000 + lo;
    TwoGroups(hi, lo);
    LowBitsAreRead(w, f);
    HighBitsAreRead(w, f);
    Sixteen(n);
  }

  lemma TwoGroups(hi: nat, lo: nat)
    requires hi < 16 && lo < 0x1000
    ensures (hi * 0x1_0000 + lo) / 0x1_0000 % 16 == hi && (hi * 0x1_0000 + lo) % 0x1000 == lo
  {
  }

  lemma Sixteen(n: int)
    ensures n / 0x1000 % 16 * 0x1000 + n % 0x1000 == n <==> 0 <= n < 0x1_0000
  {
  }

  lemma HighGroup(w: nat)
    ensures Bits(w, 16, 4) == w / 0x1_0000 % 16
  {
    GroupValues();
    Pow2Sum(8, 8);
    BitsAre(w, 16, 4);
  }

  /** An immediate argument patched into a blank instruction is the constant that the processor uses, if it fits. */
  lemma ConstantIsRead(ins: nat, w: Word32, arg: int)
    requires IsImmediate(ins) && ProperField(ins) && ConstantBlank(ins, w)
    ensures Constant(ins, Or(w, ImmediateField(ins, if Action(ins) == IMMV8 then arg / 4 else arg))) == Meant(ins, arg)
            <==> Expressible(ins, arg)
  {
    match Action(ins)
    case 9 => PlainIsRead(ins, w, arg);
    case 10 => RotatedIsRead(ins, w, arg);
    case 11 => SixteenIsRead(ins, w, arg);
    case 12 =>
      OrIsRead(SplitForm, w, SplitOffset(arg));
      SplitOffsetReaches(arg);
    case 13 =>
      OrIsRead(WideForm, w, Offset(arg));
      OffsetReaches(arg);
    case _ =>
      OrIsRead(VfpForm, w, Offset(arg / 4));
      VfpOffsetReaches(arg);
  }
}
