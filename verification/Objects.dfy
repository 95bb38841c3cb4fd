/** The dynamically typed objects of msgpack (object.h, objectc.c). */
module Objects {
  import opened Bytes

  /** msgpack_object. A double is its 64-bit pattern. */
  datatype Object =
    | Nil
    | Boolean(b: bool)
    | PositiveInteger(u64: nat)
    | NegativeInteger(i64: int)
    | Double(bits: nat)
    | Raw(bytes: seq<byte>)
    | Array(items: seq<Object>)
    | Map(entries: seq<Entry>)

  datatype Entry = Entry(key: Object, val: Object)

  const TWO_32 := 0x1_0000_0000
  const TWO_63 := 0x8000_0000_0000_0000
  const TWO_64 := 0x1_0000_0000_0000_0000

  /** Every field fits its C type: 64-bit integers, 64-bit doubles, 32-bit sizes. */
  predicate WellFormed(o: Object)
  {
    match o
    case Nil => true
    case Boolean(_) => true
    case PositiveInteger(u) => u < TWO_64
    case NegativeInteger(i) => -TWO_63 <= i < TWO_63
    case Double(bits) => bits < TWO_64
    case Raw(bytes) => |bytes| < TWO_32
    case Array(items) => |items| < TWO_32 && forall x | x in items :: WellFormed(x)
    case Map(entries) => |entries| < TWO_32 && forall e | e in entries :: WellFormed(e.key) && WellFormed(e.val)
  }

  /** No integer tagged negative is non-negative. The C type allows it; no decoder produces it. */
  predicate Canonical(o: Object)
  {
    match o
    case NegativeInteger(i) => i < 0
    case Array(items) => forall x | x in items :: Canonical(x)
    case Map(entries) => forall e | e in entries :: Canonical(e.key) && Canonical(e.val)
    case _ => true
  }

  /** The entries of a map as one list: key, value, key, value, ... */
  function Flatten(entries: seq<Entry>): (xs: seq<Object>)
    ensures |xs| == 2 * |entries|
  {
    seq(2 * |entries|, k requires 0 <= k < 2 * |entries| =>
      if k % 2 == 0 then entries[k / 2].key else entries[k / 2].val)
  }

  /** The inverse of Flatten. */
  function Pair(xs: seq<Object>): (entries: seq<Entry>)
    ensures |entries| == |xs| / 2
  {
    seq(|xs| / 2, k requires 0 <= k < |xs| / 2 => Entry(xs[2 * k], xs[2 * k + 1]))
  }

  lemma PairFlatten(entries: seq<Entry>)
    ensures Pair(Flatten(entries)) == entries
  {
    forall k | 0 <= k < |entries|
      ensures Pair(Flatten(entries))[k] == entries[k]
    {
      assert (2 * k) / 2 == k && (2 * k + 1) / 2 == k;
    }
  }

  /** A container from its children in wire order. */
  function Build(isMap: bool, xs: seq<Object>): (o: Object)
  {
    if isMap then Map(Pair(xs)) else Array(xs)
  }

  /** The non-empty byte strings inside an object. In memory each of them is a pointer into the input buffer. */
  ghost function Raws(o: Object): set<seq<byte>>
  {
    match o
    case Raw(bytes) => if bytes == [] then {} else {bytes}
    case Array(items) => set x, r | x in items && r in Raws(x) :: r
    case Map(entries) => set e, r | e in entries && r in Raws(e.key) + Raws(e.val) :: r
    case _ => {}
  }
}
