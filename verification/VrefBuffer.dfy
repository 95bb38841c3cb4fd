/**
 The vectored referencing buffer of vrefbuffer.c over a flat memory: a list of address ranges whose contents, one after
 the other, are what was appended. Short data are copied into chunks, long data are referenced where they stand.
 */
module VrefBuffer {
  import opened Bytes

  type Memory = map<nat, byte>

  /** sizeof(msgpack_vrefbuffer_chunk): the link in front of a chunk's data. */
  const HEADER: nat := 8

  /** The initial number of ranges: 72 / sizeof(struct iovec). */
  const FIRST: nat := 4

  datatype Range = Range(base: nat, len: nat)

  predicate Within(r: Range, a: nat)
  {
    r.base <= a < r.base + r.len
  }

  ghost predicate Mapped(m: Memory, r: Range)
  {
    forall a | Within(r, a) :: a in m
  }

  ghost predicate Disjoint(r: Range, q: Range)
  {
    forall a | Within(r, a) :: !Within(q, a)
  }

  /** The bytes at r. */
  function Contents(m: Memory, r: Range): (s: seq<byte>)
    requires Mapped(m, r)
    ensures |s| == r.len
  {
    seq(r.len, i requires 0 <= i < r.len => assert Within(r, r.base + i); m[r.base + i])
  }

  ghost predicate AllMapped(m: Memory, rs: seq<Range>)
  {
    forall i | 0 <= i < |rs| :: Mapped(m, rs[i])
  }

  function Gathered(m: Memory, rs: seq<Range>): seq<byte>
    requires AllMapped(m, rs)
  {
    if rs == [] then [] else Gathered(m, rs[..|rs| - 1]) + Contents(m, rs[|rs| - 1])
  }

  /** The memory with s at address a. */
  function Written(m: Memory, a: nat, s: seq<byte>): (w: Memory)
    ensures forall x :: x in w <==> x in m || a <= x < a + |s|
    ensures forall x | x in w :: w[x] == if a <= x < a + |s| then s[x - a] else m[x]
  {
    if s == [] then m else Written(m, a, s[..|s| - 1])[a + |s| - 1 := s[|s| - 1]]
  }

  /** The ranges outside of what is written keep their bytes. */
  lemma ContentsStay(m: Memory, w: Memory, r: Range)
    requires Mapped(m, r) && forall a | Within(r, a) :: a in w && w[a] == m[a]
    ensures Mapped(w, r) && Contents(w, r) == Contents(m, r)
  {
    forall i | 0 <= i < r.len
      ensures Contents(w, r)[i] == Contents(m, r)[i]
    {
      assert Within(r, r.base + i);
    }
  }

  lemma {:induction false} GatheredStays(m: Memory, w: Memory, rs: seq<Range>, free: Range)
    requires AllMapped(m, rs) && forall i | 0 <= i < |rs| :: Disjoint(rs[i], free)
    requires forall a | a in m && !Within(free, a) :: a in w && w[a] == m[a]
    ensures AllMapped(w, rs) && Gathered(w, rs) == Gathered(m, rs)
  {
    if rs != [] {
      var n := |rs| - 1;
      assert Disjoint(rs[n], free);
      GatheredStays(m, w, rs[..n], free);
      ContentsStay(m, w, rs[n]);
      forall i | 0 <= i < |rs|
        ensures Mapped(w, rs[i])
      {
        assert i == n || Mapped(w, rs[..n][i]);
      }
    }
  }

  lemma GatheredSnoc(m: Memory, rs: seq<Range>, r: Range)
    requires AllMapped(m, rs) && Mapped(m, r)
    ensures AllMapped(m, rs + [r]) && Gathered(m, rs + [r]) == Gathered(m, rs) + Contents(m, r)
  {
    assert (rs + [r])[..|rs|] == rs;
  }

  lemma ContentsSplit(m: Memory, r: Range, n: nat)
    requires Mapped(m, Range(r.base, r.len + n))
    ensures Mapped(m, r) && Mapped(m, Range(r.base + r.len, n))
    ensures Contents(m, Range(r.base, r.len + n)) == Contents(m, r) + Contents(m, Range(r.base + r.len, n))
  {
    forall a | Within(r, a) || Within(Range(r.base + r.len, n), a)
      ensures Within(Range(r.base, r.len + n), a)
    {
    }
  }

  lemma ContentsWritten(m: Memory, a: nat, s: seq<byte>)
    ensures Mapped(Written(m, a, s), Range(a, |s|)) && Contents(Written(m, a, s), Range(a, |s|)) == s
  {
    var w, r := Written(m, a, s), Range(a, |s|);
    forall i | 0 <= i < |s|
      ensures Contents(w, r)[i] == s[i]
    {
      assert Within(r, a + i);
    }
  }

  /** Making the last range longer appends the bytes behind it. */
  lemma GatheredExtended(m: Memory, rs: seq<Range>, n: nat)
    requires AllMapped(m, rs) && rs != []
    requires var last := rs[|rs| - 1]; Mapped(m, Range(last.base + last.len, n))
    ensures var last := rs[|rs| - 1];
      var longer := rs[..|rs| - 1] + [Range(last.base, last.len + n)];
      AllMapped(m, longer) && Gathered(m, longer) == Gathered(m, rs) + Contents(m, Range(last.base + last.len, n))
  {
    var init, last := rs[..|rs| - 1], rs[|rs| - 1];
    var whole := Range(last.base, last.len + n);
    forall a | Within(whole, a)
      ensures a in m
    {
      assert Within(last, a) || Within(Range(last.base + last.len, n), a);
    }
    forall i | 0 <= i < |init|
      ensures Mapped(m, init[i])
    {
      assert Mapped(m, rs[i]);
    }
    ContentsSplit(m, last, n);
    GatheredSnoc(m, init, whole);
  }

  // ----- What is not referenced -----

  /** Nothing in q is referenced. */
  ghost predicate ClearOf(rs: seq<Range>, q: Range)
  {
    forall i | 0 <= i < |rs| :: Disjoint(rs[i], q)
  }

  lemma ClearLonger(rs: seq<Range>, n: nat, q: Range)
    requires ClearOf(rs, q) && rs != []
    requires var last := rs[|rs| - 1]; Disjoint(Range(last.base + last.len, n), q)
    ensures var last := rs[|rs| - 1]; ClearOf(rs[..|rs| - 1] + [Range(last.base, last.len + n)], q)
  {
    var last := rs[|rs| - 1];
    forall a | Within(Range(last.base, last.len + n), a)
      ensures !Within(q, a)
    {
      assert Within(last, a) || Within(Range(last.base + last.len, n), a);
    }
  }

  /** The last range is made longer, up to the free range. */
  lemma ExtendedKeeps(m: Memory, rs: seq<Range>, n: nat, free: Range)
    requires AllMapped(m, rs) && ClearOf(rs, free) && rs != []
    requires var last := rs[|rs| - 1]; last.base + last.len + n == free.base && Mapped(m, Range(free.base - n, n))
    ensures var last := rs[|rs| - 1];
      var longer := rs[..|rs| - 1] + [Range(last.base, last.len + n)];
      && AllMapped(m, longer) && ClearOf(longer, free)
      && Gathered(m, longer) == Gathered(m, rs) + Contents(m, Range(free.base - n, n))
  {
    GatheredExtended(m, rs, n);
    ClearLonger(rs, n, free);
  }

  /** What q points to may change afterwards: the parts stay what they are. */
  lemma ClearIsIndependent(m: Memory, w: Memory, rs: seq<Range>, q: Range)
    requires AllMapped(m, rs) && ClearOf(rs, q)
    requires forall a | a in m && !Within(q, a) :: a in w && w[a] == m[a]
    ensures AllMapped(w, rs) && Gathered(w, rs) == Gathered(m, rs)
  {
    GatheredStays(m, w, rs, q);
  }

  class Buffer {
    var memory: Memory
    var vec: array<Range>       // array and end
    var used: nat               // tail - array
    const chunkSize: nat
    const refSize: nat
    var free: nat
    var ptr: nat
    ghost var contents: seq<byte>

    ghost function Free(): Range
      reads this
    {
      Range(ptr, free)
    }

    /** Nothing referenced lies where the next copies go. */
    ghost predicate Valid()
      reads this, vec
    {
      && used <= vec.Length && vec.Length >= FIRST
      && Mapped(memory, Free())
      && AllMapped(memory, vec[..used])
      && ClearOf(vec[..used], Free())
      && Gathered(memory, vec[..used]) == contents
    }

    /** What malloc promises about a new block. */
    ghost predicate Unmapped(at: nat, size: nat)
      reads this
    {
      forall a | at <= a < at + size :: a !in memory
    }

    /** msgpack_vrefbuffer_init; the first chunk is allocated at the address at. */
    constructor (m: Memory, chunkSize: nat, refSize: nat, at: nat)
      requires forall a | at <= a < at + HEADER + chunkSize :: a !in m
      ensures Valid() && contents == [] && this.chunkSize == chunkSize && this.refSize == refSize && fresh(vec)
      ensures forall a | a in m :: a in memory && memory[a] == m[a]
    {
      memory := Written(m, at, seq(HEADER + chunkSize, _ => 0));
      vec := new Range[FIRST](_ => Range(0, 0));
      used := 0;
      this.chunkSize, this.refSize := chunkSize, refSize;
      free, ptr := chunkSize, at + HEADER;
      contents := [];
    }

    /** append_ref: the bytes at r, which the caller keeps, become the next part. */
    method AppendRef(r: Range)
      requires Valid() && Mapped(memory, r) && Disjoint(r, Free())
      modifies this`vec, this`used, this`contents, vec
      ensures Valid() && (vec == old(vec) || fresh(vec))
      ensures contents == old(contents) + Contents(memory, r)
      ensures vec[..used] == old(vec[..used]) + [r]
    {
      ghost var rs := vec[..used];
      if used == vec.Length {
        var wider := new Range[used * 2](i requires 0 <= i < used * 2 reads this, vec =>
          if i < vec.Length then vec[i] else Range(0, 0));
        assert wider[..used] == rs;
        vec := wider;
      }
      vec[used] := r;
      used := used + 1;
      assert vec[..used] == rs + [r];
      GatheredSnoc(memory, rs, r);
      contents := contents + Contents(memory, r);
    }

    /** append_copy; a chunk that is needed is allocated at the address at. Nothing in the range q gets referenced. */
    method AppendCopy(data: seq<byte>, at: nat, ghost q: Range)
      requires Valid()
      requires free < |data| ==> Unmapped(at, HEADER + if chunkSize < |data| then |data| else chunkSize)
      modifies this, vec
      ensures Valid() && (vec == old(vec) || fresh(vec))
      ensures contents == old(contents) + data
      ensures forall a | a in old(memory) && !Within(old(Free()), a) :: a in memory && memory[a] == old(memory)[a]
      ensures old(Mapped(memory, q) && Disjoint(q, Free()) && ClearOf(vec[..used], q)) ==> ClearOf(vec[..used], q)
    {
      MakeRoom(|data|, at, q);
      var m := ptr;
      CopyIn(data);
      AppendCopied(m, |data|, q);
    }

    /** Enough free bytes, in a new chunk if need be. */
    method MakeRoom(n: nat, at: nat, ghost q: Range)
      requires Valid()
      requires free < n ==> Unmapped(at, HEADER + if chunkSize < n then n else chunkSize)
      modifies this`memory, this`free, this`ptr
      ensures Valid() && free >= n
      ensures forall a | a in old(memory) :: a in memory && memory[a] == old(memory)[a]
      ensures forall a | a in old(memory) && Within(Free(), a) :: Within(old(Free()), a)
      ensures old(Mapped(memory, q) && Disjoint(q, Free())) ==> Disjoint(q, Free())
    {
      if free < n {
        NewChunk(if chunkSize < n then n else chunkSize, at);
      }
    }

    /** The end of append_copy: the last range is made longer, or there is a new one. */
    method AppendCopied(m: nat, n: nat, ghost q: Range)
      requires Valid() && Mapped(memory, Range(m, n)) && m + n == ptr
      modifies this`vec, this`used, this`contents, vec
      ensures Valid() && (vec == old(vec) || fresh(vec))
      ensures contents == old(contents) + Contents(memory, Range(m, n))
      ensures Disjoint(Range(m, n), q) && ClearOf(old(vec[..used]), q) ==> ClearOf(vec[..used], q)
    {
      if used != 0 && m == vec[used - 1].base + vec[used - 1].len {
        ghost var rs := vec[..used];
        Coalesce(n);
        if Disjoint(Range(m, n), q) && ClearOf(rs, q) {
          ClearLonger(rs, n, q);
        }
      } else {
        AppendRef(Range(m, n));
      }
    }

    method NewChunk(size: nat, at: nat)
      requires Valid() && Unmapped(at, HEADER + size)
      modifies this`memory, this`free, this`ptr
      ensures Valid() && Free() == Range(at + HEADER, size)
      ensures forall a | a in old(memory) :: a in memory && memory[a] == old(memory)[a]
    {
      ghost var block := Range(at, HEADER + size);
      ghost var before := memory;
      memory := Written(memory, at, seq(HEADER + size, _ => 0));
      free, ptr := size, at + HEADER;
      forall i | 0 <= i < used
        ensures Disjoint(vec[..used][i], block)
      {
        assert Mapped(before, vec[..used][i]);
      }
      GatheredStays(before, memory, vec[..used], block);
      forall i | 0 <= i < used
        ensures Disjoint(vec[i], Free())
      {
        assert Disjoint(vec[..used][i], block);
      }
    }

    /** The copy itself: the bytes are written at the start of the free range, which shrinks. */
    method CopyIn(data: seq<byte>)
      requires Valid() && |data| <= free
      modifies this`memory, this`free, this`ptr
      ensures Valid()
      ensures Free() == Range(old(ptr) + |data|, old(free) - |data|)
      ensures Mapped(memory, Range(old(ptr), |data|)) && Contents(memory, Range(old(ptr), |data|)) == data
      ensures forall a | a in old(memory) && !Within(old(Free()), a) :: a in memory && memory[a] == old(memory)[a]
    {
      ghost var before, old_free := memory, Free();
      memory := Written(memory, ptr, data);
      ContentsWritten(before, ptr, data);
      free := free - |data|;
      ptr := ptr + |data|;
      assert forall i | 0 <= i < used :: vec[..used][i] == vec[i];
      GatheredStays(before, memory, vec[..used], old_free);
      forall a | Within(Free(), a)
        ensures a in memory && Within(old_free, a)
      {
      }
    }

    /** The copied bytes follow the last range directly, so that it is made longer. */
    method Coalesce(n: nat)
      requires Valid() && used != 0
      requires var last := vec[used - 1]; last.base + last.len + n == ptr && Mapped(memory, Range(last.base + last.len, n))
      modifies this`contents, vec
      ensures Valid()
      ensures contents == old(contents) + Contents(memory, Range(ptr - n, n))
      ensures var last := old(vec[used - 1]);
        vec[..used] == old(vec[..used - 1]) + [Range(last.base, last.len + n)]
    {
      ghost var rs, last := vec[..used], vec[used - 1];
      ExtendedKeeps(memory, rs, n, Free());
      vec[used - 1] := Range(vec[used - 1].base, vec[used - 1].len + n);
      assert vec[..used] == rs[..used - 1] + [Range(last.base, last.len + n)];
      contents := contents + Contents(memory, Range(ptr - n, n));
    }

    /**
     write: short data are copied, so that the buffer does not depend on them afterwards; others are referenced where
     they are, and nothing is copied.
     */
    method Write(r: Range, at: nat)
      requires Valid() && Mapped(memory, r) && Disjoint(r, Free())
      requires free < r.len ==> Unmapped(at, HEADER + if chunkSize < r.len then r.len else chunkSize)
      modifies this, vec
      ensures Valid() && (vec == old(vec) || fresh(vec))
      ensures contents == old(contents) + old(Contents(memory, r))
      ensures forall a | a in old(memory) && !Within(old(Free()), a) :: a in memory && memory[a] == old(memory)[a]
      ensures r.len < refSize && old(ClearOf(vec[..used], r)) ==> ClearOf(vec[..used], r)
      ensures r.len >= refSize ==> vec[..used] == old(vec[..used]) + [r] && memory == old(memory)
    {
      if r.len < refSize {
        AppendCopy(Contents(memory, r), at, r);
      } else {
        AppendRef(r);
      }
    }
  }
}
