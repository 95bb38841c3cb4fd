/**
 The streaming unpacker of unpack.c and unpack.h: one growing input buffer that decoded raws point into, shared by
 reference count with the memory zones handed out to the caller.

 Memory is explicit: heap maps the address of each live buffer to its count and bytes, zones maps each live zone to its
 finalizers (all of them decl_count on some buffer). Addresses are supplied by the allocator as parameters.
 */
module Unpacker {
  import opened Bytes
  import opened Objects
  import opened Format
  import opened Machine
  import opened Options

  /** sizeof(_msgpack_atomic_counter_t): the count lives in the first bytes of the buffer. */
  const COUNTER_SIZE: nat := 4

  datatype Block = Block(count: nat, bytes: seq<byte>)

  // ----- The objects of a byte stream -----

  datatype Stream = Stream(objects: seq<Object>, broken: bool)

  /** The objects that a byte stream holds, in order, and whether a parse error ends them. */
  function StreamOf(s: seq<byte>): Stream
    decreases |s|
  {
    match Decode(s, MAX_NESTING)
    case Done(o, rest) => Stream([o] + StreamOf(rest).objects, StreamOf(rest).broken)
    case More => Stream([], false)
    case Fail => Stream([], true)
  }

  /** The objects of a stream whose first object is already known to have the outcome r. */
  function StreamFrom(r: Parse<Object>): Stream
  {
    match r
    case Done(o, rest) => Stream([o] + StreamOf(rest).objects, StreamOf(rest).broken)
    case More => Stream([], false)
    case Fail => Stream([], true)
  }

  function After(out: seq<Object>, s: Stream): Stream
  {
    Stream(out + s.objects, s.broken)
  }

  // ----- Reference counts -----

  /** All finalizers of the live zones. */
  ghost function Holders(zones: map<nat, seq<nat>>): multiset<nat>
    decreases |zones|
  {
    if zones == map[] then multiset{} else
      var z :| z in zones;
      multiset(zones[z]) + Holders(zones - {z})
  }

  /** Holders does not depend on the order in which it visits the zones. */
  lemma {:induction false} HoldersSplit(zones: map<nat, seq<nat>>, z: nat)
    requires z in zones
    ensures Holders(zones) == multiset(zones[z]) + Holders(zones - {z})
    decreases |zones|
  {
    var y :| y in zones && Holders(zones) == multiset(zones[y]) + Holders(zones - {y});
    if y != z {
      HoldersSplit(zones - {y}, z);
      HoldersSplit(zones - {z}, y);
      assert zones - {y} - {z} == zones - {z} - {y};
    }
  }

  lemma HoldersUpdate(zones: map<nat, seq<nat>>, z: nat, fs: seq<nat>)
    requires z in zones
    ensures Holders(zones[z := fs]) + multiset(zones[z]) == Holders(zones) + multiset(fs)
  {
    HoldersSplit(zones, z);
    HoldersSplit(zones[z := fs], z);
    assert zones[z := fs] - {z} == zones - {z};
  }

  lemma HoldersAdd(zones: map<nat, seq<nat>>, z: nat)
    requires z !in zones
    ensures Holders(zones[z := []]) == Holders(zones)
  {
    HoldersSplit(zones[z := []], z);
    assert zones[z := []] - {z} == zones;
  }

  lemma HoldersContain(zones: map<nat, seq<nat>>)
    ensures forall z, b | z in zones && b in zones[z] :: b in Holders(zones)
  {
    forall z, b | z in zones && b in zones[z]
      ensures b in Holders(zones)
    {
      HoldersSplit(zones, z);
    }
  }

  /** Every live buffer counts its owners: the unpacker, if it is the current one, and the finalizers that name it. */
  ghost predicate Counted(heap: map<nat, Block>, holders: multiset<nat>, buffer: nat)
  {
    && buffer in heap
    && (forall b | b in heap :: heap[b].count == holders[b] + (if b == buffer then 1 else 0) && heap[b].count > 0)
    && (forall b | b in holders :: b in heap)
  }

  /** A raw of some object in a zone: it points to bytes inside a buffer. */
  ghost predicate Readable(heap: map<nat, Block>, p: Pointer)
  {
    && p.buf in heap
    && COUNTER_SIZE <= p.start
    && p.start + |p.bytes| <= |heap[p.buf].bytes|
    && heap[p.buf].bytes[p.start..p.start + |p.bytes|] == p.bytes
  }

  datatype Pointer = Pointer(zone: nat, buf: nat, start: nat, bytes: seq<byte>)

  /** decl_count: gives up one share of buffer b, which is freed with the last one. */
  function DeclCount(heap: map<nat, Block>, b: nat): map<nat, Block>
    requires b in heap && heap[b].count > 0
  {
    if heap[b].count == 1 then heap - {b} else heap[b := heap[b].(count := heap[b].count - 1)]
  }

  // ----- Shared memory as a value -----

  /**
   Everything that memory safety depends on: the buffers, the finalizers of each live zone, the current buffer with its
   read offset, the zone under construction, whether its objects point into the current buffer without a finalizer yet,
   and where all raws of live objects point.
   */
  datatype World = World(heap: map<nat, Block>, zones: map<nat, seq<nat>>, buffer: nat, off: nat,
                         z: nat, referenced: bool, pointers: set<Pointer>)
  {
    /** The zone of p owns a share of its buffer, or will once it is flushed. */
    ghost predicate Held(p: Pointer)
    {
      && p.zone in zones
      && (p.buf in zones[p.zone] || (p.zone == z && p.buf == buffer && referenced))
      && (p.buf == buffer ==> p.start + |p.bytes| <= off)
    }

    ghost predicate Consistent()
    {
      && z in zones
      && Counted(heap, Holders(zones), buffer)
      && (off == COUNTER_SIZE ==> buffer !in Holders(zones) && !referenced)
      && (forall p | p in pointers :: Held(p) && Readable(heap, p))
    }

    /** Consistent, but folded: the methods carry this along and leave what it means to the lemmas about worlds. */
    ghost predicate Safe()
    {
      && buffer in heap && heap[buffer].count > 0 && z in zones
      && forall w: World {:trigger IsWorld(w, this)} | IsWorld(w, this) :: w.Consistent()
    }
  }

  ghost predicate IsWorld(v: World, w: World)
  {
    v == w
  }

  lemma SafeMeans(w: World)
    requires w.Safe()
    ensures w.Consistent()
  {
    assert IsWorld(w, w);
  }

  /** Bytes behind the read offset may change freely: no live raw points there. */
  lemma WriteIsSafe(w: World, bytes: seq<byte>)
    requires w.Safe() && w.off <= |w.heap[w.buffer].bytes| <= |bytes|
    requires bytes[..w.off] == w.heap[w.buffer].bytes[..w.off]
    ensures w.(heap := w.heap[w.buffer := w.heap[w.buffer].(bytes := bytes)]).Safe()
  {
    SafeMeans(w);
    var v := w.(heap := w.heap[w.buffer := w.heap[w.buffer].(bytes := bytes)]);
    forall p | p in w.pointers
      ensures v.Held(p) && Readable(v.heap, p)
    {
      if p.buf == w.buffer {
        SameSlice(w.heap[w.buffer].bytes, bytes, w.off, p.start, p.start + |p.bytes|);
      }
    }
  }

  lemma SameSlice(a: seq<byte>, b: seq<byte>, n: nat, lo: nat, hi: nat)
    requires n <= |a| && n <= |b| && a[..n] == b[..n] && lo <= hi <= n
    ensures a[lo..hi] == b[lo..hi]
  {
    assert a[lo..hi] == a[..n][lo..hi];
    assert b[lo..hi] == b[..n][lo..hi];
  }

  /** With one share and no pending reference, no live raw points into the current buffer. */
  lemma LoneBufferIsUnreferenced(w: World)
    requires w.Safe() && !w.referenced && w.buffer !in Holders(w.zones)
    ensures forall p | p in w.pointers :: p.buf != w.buffer
  {
    SafeMeans(w);
    HoldersContain(w.zones);
    forall p | p in w.pointers
      ensures p.buf != w.buffer
    {
      assert w.Held(p);
    }
  }

  lemma RewindIsSafe(w: World)
    requires w.Safe() && !w.referenced && w.heap[w.buffer].count == 1
    ensures w.(off := COUNTER_SIZE).Safe()
  {
    SafeMeans(w);
    LoneBufferIsUnreferenced(w);
    var v := w.(off := COUNTER_SIZE);
    forall p | p in w.pointers
      ensures v.Held(p)
    {
      assert w.Held(p);
    }
  }

  /** An unread buffer may move: nobody else points at it. */
  lemma MoveIsSafe(w: World, moved: nat, bytes: seq<byte>)
    requires w.Safe() && w.off == COUNTER_SIZE
    requires moved == w.buffer || moved !in w.heap
    ensures w.(heap := (w.heap - {w.buffer})[moved := Block(w.heap[w.buffer].count, bytes)], buffer := moved).Safe()
  {
    SafeMeans(w);
    LoneBufferIsUnreferenced(w);
    var v := w.(heap := (w.heap - {w.buffer})[moved := Block(w.heap[w.buffer].count, bytes)], buffer := moved);
    assert moved !in Holders(w.zones);
    forall p | p in w.pointers
      ensures v.Held(p) && Readable(v.heap, p)
    {
      assert w.Held(p) && Readable(w.heap, p);
      assert p.buf != moved;
    }
  }

  lemma PlusOne(a: multiset<nat>, b: multiset<nat>, fs: seq<nat>, x: nat)
    requires b + multiset(fs) == a + multiset(fs + [x])
    ensures b == a + multiset{x}
  {
    forall y: nat
      ensures b[y] == (a + multiset{x})[y]
    {
      assert (b + multiset(fs))[y] == (a + multiset(fs + [x]))[y];
    }
  }

  lemma HoldersPush(zones: map<nat, seq<nat>>, z: nat, b: nat)
    requires z in zones
    ensures Holders(zones[z := zones[z] + [b]]) == Holders(zones) + multiset{b}
  {
    HoldersUpdate(zones, z, zones[z] + [b]);
    PlusOne(Holders(zones), Holders(zones[z := zones[z] + [b]]), zones[z], b);
  }

  lemma CountedIncrement(heap: map<nat, Block>, holders: multiset<nat>, buffer: nat)
    requires Counted(heap, holders, buffer)
    ensures Counted(heap[buffer := heap[buffer].(count := heap[buffer].count + 1)], holders + multiset{buffer}, buffer)
  {
  }

  /** Pushing a finalizer for the current buffer together with one more share of it. */
  lemma FlushIsSafe(w: World)
    requires w.Safe() && w.referenced
    ensures w.(heap := w.heap[w.buffer := w.heap[w.buffer].(count := w.heap[w.buffer].count + 1)],
               zones := w.zones[w.z := w.zones[w.z] + [w.buffer]], referenced := false).Safe()
  {
    SafeMeans(w);
    var fs := w.zones[w.z] + [w.buffer];
    HoldersPush(w.zones, w.z, w.buffer);
    CountedIncrement(w.heap, Holders(w.zones), w.buffer);
    var v := w.(heap := w.heap[w.buffer := w.heap[w.buffer].(count := w.heap[w.buffer].count + 1)],
                zones := w.zones[w.z := fs], referenced := false);
    forall p | p in w.pointers
      ensures v.Held(p) && Readable(v.heap, p)
    {
      assert w.Held(p) && Readable(w.heap, p);
    }
  }

  lemma CountedHandOver(heap: map<nat, Block>, holders: multiset<nat>, buffer: nat, tmp: nat, bytes: seq<byte>)
    requires Counted(heap, holders, buffer) && tmp !in heap
    ensures Counted(heap[tmp := Block(1, bytes)], holders + multiset{buffer}, tmp)
  {
    assert tmp !in holders;
  }

  /** Leaving a referenced buffer to the zone: its share passes from the unpacker to the new finalizer. */
  lemma HandOverIsSafe(w: World, tmp: nat, bytes: seq<byte>)
    requires w.Safe() && w.referenced && tmp !in w.heap
    ensures w.(heap := w.heap[tmp := Block(1, bytes)], zones := w.zones[w.z := w.zones[w.z] + [w.buffer]],
               buffer := tmp, off := COUNTER_SIZE, referenced := false).Safe()
  {
    SafeMeans(w);
    var fs := w.zones[w.z] + [w.buffer];
    HoldersPush(w.zones, w.z, w.buffer);
    var v := w.(heap := w.heap[tmp := Block(1, bytes)], zones := w.zones[w.z := fs],
                buffer := tmp, off := COUNTER_SIZE, referenced := false);
    CountedHandOver(w.heap, Holders(w.zones), w.buffer, tmp, bytes);
    assert tmp !in Holders(w.zones);
    forall p | p in w.pointers
      ensures v.Held(p) && Readable(v.heap, p)
    {
      assert w.Held(p) && Readable(w.heap, p);
    }
  }

  /** Leaving an unreferenced buffer: its share is given up, and it is freed unless a zone still holds it. */
  lemma AbandonIsSafe(w: World, tmp: nat, bytes: seq<byte>)
    requires w.Safe() && !w.referenced && tmp !in w.heap
    ensures w.(heap := DeclCount(w.heap[tmp := Block(1, bytes)], w.buffer), buffer := tmp, off := COUNTER_SIZE).Safe()
  {
    SafeMeans(w);
    var v := w.(heap := DeclCount(w.heap[tmp := Block(1, bytes)], w.buffer), buffer := tmp, off := COUNTER_SIZE);
    HoldersContain(w.zones);
    assert tmp !in Holders(w.zones);
    forall p | p in w.pointers
      ensures v.Held(p) && Readable(v.heap, p)
    {
      assert w.Held(p) && Readable(w.heap, p);
      assert p.buf in Holders(w.zones);
    }
  }

  lemma DeclCountIsCounted(heap: map<nat, Block>, holders: multiset<nat>, buffer: nat, b: nat)
    requires Counted(heap, holders + multiset{b}, buffer)
    ensures b in heap && heap[b].count > 0
    ensures Counted(DeclCount(heap, b), holders, buffer)
  {
    assert b in holders + multiset{b};
    forall c | c in holders
      ensures c in DeclCount(heap, b)
    {
      assert c in holders + multiset{b};
    }
  }

  /** The pointers of all other zones. */
  ghost function Outside(pointers: set<Pointer>, k: nat): set<Pointer>
  {
    set p | p in pointers && p.zone != k
  }

  /** Objects of a zone that is about to be freed no longer matter. */
  lemma ForgetIsSafe(w: World, k: nat)
    requires w.Safe()
    ensures w.(pointers := Outside(w.pointers, k)).Safe()
  {
    SafeMeans(w);
    var v := w.(pointers := Outside(w.pointers, k));
    forall p | p in v.pointers
      ensures v.Held(p)
    {
      assert w.Held(p);
    }
  }

  /** Running the last finalizer of a zone whose objects are gone. */
  lemma FinalizeIsSafe(w: World, k: nat)
    requires w.Safe() && k in w.zones && w.zones[k] != []
    requires forall p | p in w.pointers :: p.zone != k
    ensures var n := |w.zones[k]| - 1;
      && w.zones[k][n] in w.heap && w.heap[w.zones[k][n]].count > 0
      && w.(heap := DeclCount(w.heap, w.zones[k][n]), zones := w.zones[k := w.zones[k][..n]]).Safe()
  {
    SafeMeans(w);
    var n := |w.zones[k]| - 1;
    var b := w.zones[k][n];
    assert w.zones[k] == w.zones[k][..n] + [b];
    var zones' := w.zones[k := w.zones[k][..n]];
    HoldersUpdate(w.zones, k, w.zones[k][..n]);
    PlusOne(Holders(zones'), Holders(w.zones), w.zones[k][..n], b);
    DeclCountIsCounted(w.heap, Holders(zones'), w.buffer, b);
    HoldersContain(zones');
    var v := w.(heap := DeclCount(w.heap, b), zones := zones');
    forall p | p in w.pointers
      ensures v.Held(p) && Readable(v.heap, p)
    {
      assert w.Held(p) && Readable(w.heap, p);
      assert zones'[p.zone] == w.zones[p.zone];
      assert p.buf in v.heap && v.heap[p.buf].bytes == w.heap[p.buf].bytes;
    }
  }

  /** A zone without finalizers can go. */
  lemma DropZoneIsSafe(w: World, k: nat)
    requires w.Safe() && k in w.zones && k != w.z && w.zones[k] == []
    requires forall p | p in w.pointers :: p.zone != k
    ensures w.(zones := w.zones - {k}).Safe()
  {
    SafeMeans(w);
    HoldersSplit(w.zones, k);
    var v := w.(zones := w.zones - {k});
    forall p | p in w.pointers
      ensures v.Held(p)
    {
      assert w.Held(p);
    }
  }

  class Unpacker {
    var heap: map<nat, Block>
    var zones: map<nat, seq<nat>>
    var buffer: nat
    var used: nat
    var free: nat
    var off: nat
    var parsed: nat
    var initialBufferSize: nat
    var z: nat
    const ctx: Context
    ghost var pointers: set<Pointer>   // every raw of an object in a live zone
    ghost var fed: seq<byte>           // all bytes ever fed
    ghost var out: seq<Object>         // all objects ever returned
    ghost var broken: bool             // a parse error was met

    ghost function Memory(): World
      reads this, ctx
    {
      World(heap, zones, buffer, off, z, ctx.referenced, pointers)
    }

    ghost predicate Shaped()
      reads this
    {
      && buffer in heap && |heap[buffer].bytes| == used + free
      && COUNTER_SIZE <= off <= used
      && COUNTER_SIZE <= initialBufferSize
    }

    ghost predicate MemoryOk()
      reads this, ctx
    {
      Shaped() && Memory().Safe()
    }

    ghost function Unparsed(): seq<byte>
      reads this
      requires Shaped()
    {
      heap[buffer].bytes[off..used]
    }

    /** Every raw of the object under construction is in the zone under construction. */
    ghost predicate Building()
      reads this, ctx, ctx.stack
      requires ctx.ValidStack()
    {
      RawsIn(StackRaws(ctx.stack[..ctx.top]), z, pointers)
    }

    /** What was returned so far, and what the machine will make of the unparsed bytes, is the fed stream. */
    ghost predicate Streaming()
      reads this, ctx, ctx.stack
      requires Shaped() && ctx.Valid()
    {
      Follows(fed, out, broken, ctx.stack[..ctx.top], Pending(ctx.cs, ctx.trail), Unparsed())
    }

    ghost predicate Valid()
      reads this, ctx, ctx.stack
    {
      && Shaped()
      && ctx.Valid()
      && Memory().Safe()
      && Building()
      && Streaming()
    }

    /** msgpack_unpacker_init. */
    constructor (initial: nat, address: nat, zone: nat)
      ensures Valid() && fresh(ctx) && fresh(ctx.stack)
      ensures fed == [] && out == [] && !broken && pointers == {}
    {
      var size := if initial < COUNTER_SIZE then COUNTER_SIZE else initial;
      heap := map[address := Block(1, seq(size, _ => 0))];
      buffer, used, free, off, parsed := address, COUNTER_SIZE, size - COUNTER_SIZE, COUNTER_SIZE, 0;
      initialBufferSize := size;
      zones := map[zone := []];
      z := zone;
      ctx := new Context();
      pointers, fed, out, broken := {}, [], [], false;
      new;
      FirstWorldIsSafe(address, zone, heap[address].bytes);
      StreamStart();
      assert ctx.stack[..ctx.top] == [] && Unparsed() == [] && fed == [] && out == [];
    }

    /** msgpack_zone_free on a zone that was handed out: runs its finalizers, last first. */
    method FreeZone(k: nat)
      requires Valid() && k in zones && k != z
      modifies this`heap, this`zones, this`pointers
      ensures Valid()
      ensures zones == old(zones) - {k}
      ensures pointers == Outside(old(pointers), k)
      ensures Unparsed() == old(Unparsed())
    {
      OutsideKeepsRaws(StackRaws(ctx.stack[..ctx.top]), z, pointers, k);
      DestroyZone(k);
    }

    method DestroyZone(k: nat)
      requires MemoryOk() && k in zones && k != z
      modifies this`heap, this`zones, this`pointers
      ensures MemoryOk()
      ensures zones == old(zones) - {k}
      ensures pointers == Outside(old(pointers), k)
      ensures heap[buffer].bytes == old(heap[buffer].bytes)
    {
      RunFinalizers(k);
      DropZoneIsSafe(Memory(), k);
      zones := zones - {k};
    }

    method RunFinalizers(k: nat)
      requires MemoryOk() && k in zones
      modifies this`heap, this`zones, this`pointers
      ensures MemoryOk()
      ensures zones == old(zones)[k := []]
      ensures pointers == Outside(old(pointers), k)
      ensures heap[buffer].bytes == old(heap[buffer].bytes)
    {
      ForgetIsSafe(Memory(), k);
      pointers := Outside(pointers, k);
      while zones[k] != []
        invariant pointers == Outside(old(pointers), k)
        invariant k in zones && zones == old(zones)[k := zones[k]]
        invariant Memory().Safe()
        invariant heap[buffer].bytes == old(heap[buffer].bytes)
        decreases |zones[k]|
      {
        RunLastFinalizer(k);
      }
    }

    method RunLastFinalizer(k: nat)
      requires Memory().Safe() && k in zones && zones[k] != []
      requires forall p | p in pointers :: p.zone != k
      modifies this`heap, this`zones
      ensures Memory().Safe()
      ensures zones == old(zones)[k := old(zones)[k][..|old(zones)[k]| - 1]]
      ensures heap[buffer].bytes == old(heap[buffer].bytes)
    {
      FinalizeIsSafe(Memory(), k);
      var fin := |zones[k]| - 1;
      heap := DeclCount(heap, zones[k][fin]);
      zones := zones[k := zones[k][..fin]];
    }

    /** Rewinding a buffer that is read to the end and shared with nobody. */
    method Rewind()
      requires MemoryOk() && used == off && heap[buffer].count == 1 && !ctx.referenced
      modifies this`free, this`used, this`off
      ensures MemoryOk() && off == used == COUNTER_SIZE && Unparsed() == old(Unparsed())
    {
      RewindIsSafe(Memory());
      free := free + (used - COUNTER_SIZE);
      used := COUNTER_SIZE;
      off := COUNTER_SIZE;
    }

    /** Growing an unread buffer in place, or moving it; the old address is dead afterwards. */
    method Realloc(nextSize: nat, moved: nat)
      requires MemoryOk() && off == COUNTER_SIZE && used + free <= nextSize
      requires moved == buffer || moved !in heap
      modifies this`heap, this`buffer, this`free
      ensures MemoryOk() && free == nextSize - used && Unparsed() == old(Unparsed())
    {
      var bytes := heap[buffer].bytes + seq(nextSize - (used + free), _ => 0);
      assert bytes[off..used] == heap[buffer].bytes[off..used];
      MoveIsSafe(Memory(), moved, bytes);
      heap := (heap - {buffer})[moved := Block(heap[buffer].count, bytes)];
      buffer := moved;
      free := nextSize - used;
    }

    /** Copying the unread bytes to a new buffer. The old one goes to the zone if its objects point into it. */
    method Replace(nextSize: nat, tmp: nat)
      requires MemoryOk() && COUNTER_SIZE + (used - off) <= nextSize
      requires tmp !in heap
      modifies this`heap, this`zones, this`buffer, this`used, this`free, this`off, ctx`referenced
      ensures MemoryOk() && free == nextSize - used && off == COUNTER_SIZE && Unparsed() == old(Unparsed())
      ensures zones.Keys == old(zones).Keys
    {
      var notParsed := used - off;
      var bytes := seq(COUNTER_SIZE, _ => 0) + heap[buffer].bytes[off..used]
                   + seq(nextSize - COUNTER_SIZE - notParsed, _ => 0);
      assert bytes[COUNTER_SIZE..COUNTER_SIZE + notParsed] == heap[buffer].bytes[off..used];
      if ctx.referenced {
        HandOverIsSafe(Memory(), tmp, bytes);
        heap := heap[tmp := Block(1, bytes)];
        zones := zones[z := zones[z] + [buffer]];
        ctx.referenced := false;
      } else {
        AbandonIsSafe(Memory(), tmp, bytes);
        heap := DeclCount(heap[tmp := Block(1, bytes)], buffer);
      }
      buffer := tmp;
      used := notParsed + COUNTER_SIZE;
      free := nextSize - used;
      off := COUNTER_SIZE;
    }

    /** msgpack_unpacker_expand_buffer. The allocator supplies the address tmp, and moved for a realloc. */
    method ExpandBuffer(size: nat, tmp: nat, moved: nat)
      requires MemoryOk() && tmp !in heap && (moved == buffer || moved !in heap)
      modifies this`heap, this`zones, this`buffer, this`used, this`free, this`off, ctx`referenced
      ensures MemoryOk() && free >= size && Unparsed() == old(Unparsed())
      ensures zones.Keys == old(zones).Keys
    {
      if used == off && heap[buffer].count == 1 && !ctx.referenced {
        Rewind();
        if free >= size { return; }
      }
      if off == COUNTER_SIZE {
        var nextSize := (used + free) * 2;
        while nextSize < size + used
          invariant nextSize >= used + free && nextSize > 0
          decreases size + used - nextSize
        {
          nextSize := nextSize * 2;
        }
        Realloc(nextSize, moved);
      } else {
        var nextSize := initialBufferSize;
        var notParsed := used - off;
        while nextSize < size + notParsed + COUNTER_SIZE
          invariant nextSize > 0
          decreases size + notParsed + COUNTER_SIZE - nextSize
        {
          nextSize := nextSize * 2;
        }
        Replace(nextSize, tmp);
      }
    }

    /** msgpack_unpacker_reserve_buffer. */
    method ReserveBuffer(size: nat, tmp: nat, moved: nat)
      requires Valid() && tmp !in heap && (moved == buffer || moved !in heap)
      modifies this`heap, this`zones, this`buffer, this`used, this`free, this`off, ctx`referenced
      ensures Valid() && free >= size && Unparsed() == old(Unparsed())
      ensures zones.Keys == old(zones).Keys
    {
      ghost var fs := ctx.stack[..ctx.top];
      if free < size {
        ExpandBuffer(size, tmp, moved);
      }
      assert ctx.stack[..ctx.top] == fs;
    }

    /** The caller copies bytes to msgpack_unpacker_buffer and calls msgpack_unpacker_buffer_consumed. */
    method Feed(bytes: seq<byte>)
      requires Valid() && |bytes| <= free
      modifies this`heap, this`used, this`free, this`fed
      ensures Valid() && free == old(free) - |bytes|
      ensures fed == old(fed) + bytes && Unparsed() == old(Unparsed()) + bytes
    {
      ghost var fs := ctx.stack[..ctx.top];
      FollowsFeed(fed, out, broken, fs, Pending(ctx.cs, ctx.trail), Unparsed(), bytes);
      Write(bytes);
      fed := fed + bytes;
      assert ctx.stack[..ctx.top] == fs;
    }

    method Write(bytes: seq<byte>)
      requires MemoryOk() && |bytes| <= free
      modifies this`heap, this`used, this`free
      ensures MemoryOk() && free == old(free) - |bytes|
      ensures Unparsed() == old(Unparsed()) + bytes
    {
      var mem := heap[buffer].bytes;
      var filled := mem[..used] + bytes + mem[used + |bytes|..];
      assert filled[off..used + |bytes|] == mem[off..used] + bytes;
      assert filled[..off] == mem[..off];
      WriteIsSafe(Memory(), filled);
      heap := heap[buffer := heap[buffer].(bytes := filled)];
      used := used + |bytes|;
      free := free - |bytes|;
    }

    /** msgpack_unpacker_execute: the memory side of a decoding step, and what the decoder says about it. */
    method ExecuteBuffer() returns (ret: int)
      requires MemoryOk() && ctx.Valid() && Building()
      modifies this`off, this`parsed, this`pointers, ctx, ctx.stack
      ensures MemoryOk() && ctx.ValidStack() && old(pointers) <= pointers
      ensures -1 <= ret <= 1
      ensures ret == 1 ==> ctx.top == 0 && RawsIn(Raws(ctx.stack[0].obj), z, pointers)
      ensures ret != 1 ==> ctx.Valid() && Building()
      ensures ret == 1 ==>
        Finishes(old(ctx.stack[..ctx.top]), old(Pending(ctx.cs, ctx.trail)), old(Unparsed()), ctx.stack[0].obj, Unparsed())
      ensures ret == 0 ==> Resumes(old(ctx.stack[..ctx.top]), old(Pending(ctx.cs, ctx.trail)), old(Unparsed()),
        ctx.stack[..ctx.top], Pending(ctx.cs, ctx.trail), Unparsed())
      ensures ret == 0 ==> Meaning(ctx.stack[..ctx.top], Pending(ctx.cs, ctx.trail), Unparsed()) == More
      ensures ret == -1 ==> Fails(old(ctx.stack[..ctx.top]), old(Pending(ctx.cs, ctx.trail)), old(Unparsed()))
      ensures ret == -1 ==> Hopeless(ctx.stack[..ctx.top], Pending(ctx.cs, ctx.trail), Unparsed())
    {
      ghost var fs, w := ctx.stack[..ctx.top], Memory();
      var data := heap[buffer].bytes[..used];
      assert data[off..] == Unparsed();
      var before := off;
      ghost var slices;
      ret, off, slices := ctx.Execute(data, off);
      if off > before {
        parsed := parsed + (off - before);
      }
      assert data[off..] == Unparsed();
      AdvanceIsSafe(w, used, off, slices);
      AdvanceKeepsRaws(w, used, slices, StackRaws(fs));
      pointers := pointers + NewPointers(w, used, slices);
    }

    /** A decoding step, seen from the stream. After a parse error no object comes out any more. */
    method DecodeNext() returns (ret: int)
      requires Valid()
      modifies this`off, this`parsed, this`pointers, this`broken, ctx, ctx.stack
      ensures MemoryOk() && ctx.ValidStack() && old(pointers) <= pointers
      ensures -1 <= ret <= 1
      ensures ret == 1 ==> ctx.top == 0 && RawsIn(Raws(ctx.stack[0].obj), z, pointers) && !old(broken) && !broken
      ensures ret == 1 ==> Streams(fed, out + [ctx.stack[0].obj], [], [], Unparsed())
      ensures ret != 1 ==> Valid() && StreamOf(fed) == Stream(out, broken)
      ensures ret == 0 ==> broken == old(broken)
      ensures ret == -1 ==> broken
    {
      ghost var fs, pending, s0 := ctx.stack[..ctx.top], Pending(ctx.cs, ctx.trail), Unparsed();
      ret := ExecuteBuffer();
      if ret == 1 {
        FollowsFinishes(fed, out, broken, fs, pending, s0, ctx.stack[0].obj, Unparsed());
      } else if ret == 0 {
        FollowsResumes(fed, out, broken, fs, pending, s0, ctx.stack[..ctx.top], Pending(ctx.cs, ctx.trail), Unparsed());
      } else {
        FollowsFails(fed, out, broken, fs, pending, s0, ctx.stack[..ctx.top], Pending(ctx.cs, ctx.trail), Unparsed());
        broken := true;
      }
    }

    /** msgpack_unpacker_flush_zone: the zone takes its share of a buffer that its objects point into. */
    method FlushZone()
      requires MemoryOk()
      modifies this`heap, this`zones, ctx`referenced
      ensures MemoryOk() && !ctx.referenced && zones.Keys == old(zones).Keys
      ensures heap[buffer].bytes == old(heap[buffer].bytes)
    {
      if ctx.referenced {
        FlushIsSafe(Memory());
        zones := zones[z := zones[z] + [buffer]];
        ctx.referenced := false;
        heap := heap[buffer := heap[buffer].(count := heap[buffer].count + 1)];
      }
    }

    /** msgpack_unpacker_release_zone. The allocator supplies the new zone r. */
    method ReleaseZone(r: nat) returns (released: nat)
      requires MemoryOk() && r !in zones
      modifies this`heap, this`zones, this`z, ctx`referenced
      ensures MemoryOk() && !ctx.referenced
      ensures released == old(z) && z == r && zones.Keys == old(zones).Keys + {r}
      ensures heap[buffer].bytes == old(heap[buffer].bytes)
    {
      FlushZone();
      NewZoneIsSafe(Memory(), r);
      released := z;
      zones := zones[r := []];
      z := r;
    }

    /**
     msgpack_unpacker_next: frees the zone of the previous result, if any, and returns the next complete object with
     the zone that keeps the bytes of its raws alive.
     */
    method Next(previous: Option<nat>, r: nat) returns (ok: bool, zone: nat, data: Object)
      requires Valid() && r !in zones
      requires previous.Some? ==> previous.value in zones && previous.value != z
      modifies this`heap, this`zones, this`z, this`off, this`parsed, this`pointers, this`out, this`broken, ctx, ctx.stack
      ensures Valid()
      // the objects returned are those of the fed stream, in order and without omission, and none after a parse error
      ensures ok ==> out == old(out) + [data] && !broken
      ensures old(broken) ==> !ok
      ensures !ok ==> out == old(out) && StreamOf(fed) == Stream(out, broken)
      // raws of earlier objects stay readable as long as their zone lives, and so do those of the new object
      ensures (if previous.Some? then Outside(old(pointers), previous.value) else old(pointers)) <= pointers
      ensures ok ==> zone == old(z) && zone in zones && zone != z && RawsIn(Raws(data), zone, pointers)
      ensures zones.Keys == old(zones).Keys - (if previous.Some? then {previous.value} else {}) + if ok then {r} else {}
    {
      if previous.Some? {
        FreeZone(previous.value);
      }
      ok, zone, data := NextObject(r);
    }

    method NextObject(r: nat) returns (ok: bool, zone: nat, data: Object)
      requires Valid() && r !in zones
      modifies this`heap, this`zones, this`z, this`off, this`parsed, this`pointers, this`out, this`broken, ctx, ctx.stack
      ensures Valid()
      ensures ok ==> out == old(out) + [data] && !broken
      ensures old(broken) ==> !ok
      ensures !ok ==> out == old(out) && StreamOf(fed) == Stream(out, broken)
      ensures old(pointers) <= pointers
      ensures ok ==> zone == old(z) && zone in zones && zone != z && RawsIn(Raws(data), zone, pointers)
      ensures zones.Keys == old(zones).Keys + if ok then {r} else {}
    {
      var ret := DecodeNext();
      if ret <= 0 {
        return false, 0, Nil;
      }
      zone, data := TakeObject(r);
      ok := true;
    }

    /** The result of a decoding that is complete: its zone is released and the machine reset. */
    method TakeObject(r: nat) returns (zone: nat, data: Object)
      requires MemoryOk() && ctx.ValidStack() && r !in zones
      requires !broken && Streams(fed, out + [ctx.stack[0].obj], [], [], Unparsed())
      modifies this`heap, this`zones, this`z, this`parsed, this`out, ctx, ctx.stack
      ensures Valid()
      ensures data == old(ctx.stack[0].obj) && out == old(out) + [data]
      ensures zone == old(z) && zone in zones && zone != z && zones.Keys == old(zones).Keys + {r}
    {
      zone := ReleaseZone(r);
      data := ctx.stack[0].obj;
      ctx.Init();
      parsed := 0;
      out := out + [data];
      assert ctx.stack[..ctx.top] == [] && Pending(ctx.cs, ctx.trail) == [];
      assert StackRaws([]) == {};
    }

    /**
     msgpack_unpacker_destroy. Afterwards exactly the buffers held by zones still in the caller's hands are live, and
     their raws are still readable.
     */
    method Destroy()
      requires Valid()
      modifies this`heap, this`zones, this`pointers
      ensures zones == old(zones) - {z}
      ensures pointers == Outside(old(pointers), z)
      ensures Orphaned(heap, zones, pointers)
    {
      RunFinalizers(z);
      LeaveIsSafe(Memory());
      zones := zones - {z};
      heap := DeclCount(heap, buffer);
    }
  }

  /** Memory without an unpacker: every live buffer counts the finalizers that name it. */
  ghost predicate Orphaned(heap: map<nat, Block>, zones: map<nat, seq<nat>>, pointers: set<Pointer>)
  {
    && (forall b | b in heap :: heap[b].count == Holders(zones)[b] > 0)
    && (forall b | b in Holders(zones) :: b in heap)
    && (forall p | p in pointers :: p.zone in zones && p.buf in zones[p.zone] && Readable(heap, p))
  }

  lemma LeaveIsSafe(w: World)
    requires w.Safe() && w.zones[w.z] == [] && forall p | p in w.pointers :: p.zone != w.z
    ensures Orphaned(DeclCount(w.heap, w.buffer), w.zones - {w.z}, w.pointers)
  {
    SafeMeans(w);
    HoldersSplit(w.zones, w.z);
    HoldersContain(w.zones - {w.z});
    forall p | p in w.pointers
      ensures p.buf in (w.zones - {w.z})[p.zone] && Readable(DeclCount(w.heap, w.buffer), p)
    {
      assert w.Held(p) && Readable(w.heap, p);
      assert p.buf in Holders(w.zones - {w.z});
    }
  }

  /** Once the unpacker and all zones are gone, no buffer is left allocated. */
  lemma NothingLeaks(heap: map<nat, Block>, pointers: set<Pointer>)
    requires Orphaned(heap, map[], pointers)
    ensures heap == map[]
  {
    assert Holders(map[]) == multiset{};
    forall b
      ensures b !in heap
    {
    }
  }

  lemma FirstWorldIsSafe(address: nat, zone: nat, bytes: seq<byte>)
    ensures World(map[address := Block(1, bytes)], map[zone := []], address, COUNTER_SIZE, zone, false, {}).Safe()
  {
    var none: map<nat, seq<nat>> := map[];
    HoldersAdd(none, zone);
    assert map[zone := []] == none[zone := []];
    assert Holders(map[]) == multiset{};
  }

  lemma NewZoneIsSafe(w: World, r: nat)
    requires w.Safe() && !w.referenced && r !in w.zones
    ensures w.(zones := w.zones[r := []], z := r).Safe()
  {
    SafeMeans(w);
    HoldersAdd(w.zones, r);
    var v := w.(zones := w.zones[r := []], z := r);
    forall p | p in w.pointers
      ensures v.Held(p)
    {
      assert w.Held(p);
    }
  }

  /** Where the raws of the objects just decoded point. */
  ghost function NewPointers(w: World, used: nat, slices: seq<(nat, nat)>): set<Pointer>
    requires w.buffer in w.heap && used <= |w.heap[w.buffer].bytes|
    requires SlicesWithin(slices, 0, used)
  {
    var data := w.heap[w.buffer].bytes[..used];
    set i | 0 <= i < |slices| ::
      Pointer(w.z, w.buffer, slices[i].0, data[slices[i].0..slices[i].0 + slices[i].1])
  }

  /** Decoding up to q: the new raws lie before q, and from now on the buffer is referenced. */
  lemma AdvanceIsSafe(w: World, used: nat, q: nat, slices: seq<(nat, nat)>)
    requires w.Safe() && COUNTER_SIZE <= w.off <= q <= used <= |w.heap[w.buffer].bytes|
    requires SlicesWithin(slices, w.off, q) && (slices != [] ==> w.off < q)
    ensures w.(off := q, referenced := w.referenced || slices != [],
               pointers := w.pointers + NewPointers(w, used, slices)).Safe()
  {
    SafeMeans(w);
    var more := NewPointers(w, used, slices);
    var v := w.(off := q, referenced := w.referenced || slices != [], pointers := w.pointers + more);
    forall p | p in v.pointers
      ensures v.Held(p) && Readable(v.heap, p)
    {
      if p in w.pointers {
        assert w.Held(p);
      } else {
        var i :| 0 <= i < |slices| && p.start == slices[i].0 && |p.bytes| == slices[i].1
          && p.zone == w.z && p.buf == w.buffer
          && p.bytes == w.heap[w.buffer].bytes[..used][slices[i].0..slices[i].0 + slices[i].1];
        var all := w.heap[w.buffer].bytes;
        assert all[..used][..used] == all[..used];
        SameSlice(all, all[..used], used, p.start, p.start + |p.bytes|);
        assert p.bytes == all[p.start..p.start + |p.bytes|];
      }
    }
  }

  lemma AdvanceKeepsRaws(w: World, used: nat, slices: seq<(nat, nat)>, rs: set<seq<byte>>)
    requires w.buffer in w.heap && used <= |w.heap[w.buffer].bytes|
    requires SlicesWithin(slices, 0, used)
    requires RawsIn(rs, w.z, w.pointers)
    ensures RawsIn(rs + Contents(w.heap[w.buffer].bytes[..used], slices), w.z, w.pointers + NewPointers(w, used, slices))
  {
    var data := w.heap[w.buffer].bytes[..used];
    var all := w.pointers + NewPointers(w, used, slices);
    forall r | r in rs + Contents(data, slices)
      ensures exists p :: p in all && p.zone == w.z && p.bytes == r
    {
      if r in rs {
        var p :| p in w.pointers && p.zone == w.z && p.bytes == r;
        assert p in all;
      } else {
        var i :| 0 <= i < |slices| && r == data[slices[i].0..slices[i].0 + slices[i].1];
        assert Pointer(w.z, w.buffer, slices[i].0, r) in all;
      }
    }
  }

  /** Every byte string in rs is what some pointer of zone z points to. */
  ghost predicate RawsIn(rs: set<seq<byte>>, z: nat, pointers: set<Pointer>)
  {
    forall r | r in rs :: exists p :: p in pointers && p.zone == z && p.bytes == r
  }

  lemma OutsideKeepsRaws(rs: set<seq<byte>>, z: nat, pointers: set<Pointer>, k: nat)
    requires RawsIn(rs, z, pointers) && k != z
    ensures RawsIn(rs, z, Outside(pointers, k))
  {
    forall r | r in rs
      ensures exists p :: p in Outside(pointers, k) && p.zone == z && p.bytes == r
    {
      var p :| p in pointers && p.zone == z && p.bytes == r;
      assert p in Outside(pointers, k);
    }
  }

  /** The objects returned, then what the machine makes of its unparsed bytes, are the objects of the fed stream. */
  ghost predicate Streams(fed: seq<byte>, out: seq<Object>, fs: seq<Frame>, pending: seq<byte>, unparsed: seq<byte>)
    requires ValidFrames(fs)
  {
    forall t :: StreamsAt(fed + t, out, fs, pending, unparsed + t)
  }

  ghost predicate StreamsAt(fed: seq<byte>, out: seq<Object>, fs: seq<Frame>, pending: seq<byte>, unparsed: seq<byte>)
    requires ValidFrames(fs)
  {
    StreamOf(fed) == After(out, StreamFrom(Meaning(fs, pending, unparsed)))
  }

  /** Either the stream goes on, or a parse error has ended it and the machine will not find another object. */
  ghost predicate GoesOn(fed: seq<byte>, out: seq<Object>, broken: bool, fs: seq<Frame>, pending: seq<byte>,
                         unparsed: seq<byte>)
    requires ValidFrames(fs)
  {
    if broken then StreamOf(fed) == Stream(out, true) && Hopeless(fs, pending, unparsed)
    else Streams(fed, out, fs, pending, unparsed)
  }

  ghost predicate IsInput(s: seq<byte>, t: seq<byte>)
  {
    s == t
  }

  /** GoesOn, but folded: the methods carry this along. */
  ghost predicate Follows(fed: seq<byte>, out: seq<Object>, broken: bool, fs: seq<Frame>, pending: seq<byte>,
                          unparsed: seq<byte>)
    requires ValidFrames(fs)
  {
    forall s {:trigger IsInput(s, fed)} | IsInput(s, fed) :: GoesOn(s, out, broken, fs, pending, unparsed)
  }

  lemma FollowsMeans(fed: seq<byte>, out: seq<Object>, broken: bool, fs: seq<Frame>, pending: seq<byte>,
                     unparsed: seq<byte>)
    requires ValidFrames(fs) && Follows(fed, out, broken, fs, pending, unparsed)
    ensures GoesOn(fed, out, broken, fs, pending, unparsed)
  {
    assert IsInput(fed, fed);
  }

  /** Once a stream is broken, nothing that is fed matters. */
  lemma {:induction false} BrokenStays(s: seq<byte>, t: seq<byte>)
    requires StreamOf(s).broken
    ensures StreamOf(s + t) == StreamOf(s)
    decreases |s|
  {
    DecodeExtend(s, MAX_NESTING, t);
    var r := Decode(s, MAX_NESTING);
    if r.Done? {
      BrokenStays(r.rest, t);
    }
  }

  lemma FollowsFeed(fed: seq<byte>, out: seq<Object>, broken: bool, fs: seq<Frame>, pending: seq<byte>,
                    unparsed: seq<byte>, bytes: seq<byte>)
    requires ValidFrames(fs) && Follows(fed, out, broken, fs, pending, unparsed)
    ensures Follows(fed + bytes, out, broken, fs, pending, unparsed + bytes)
  {
    FollowsMeans(fed, out, broken, fs, pending, unparsed);
    if broken {
      BrokenStays(fed, bytes);
      HopelessExtends(fs, pending, unparsed, bytes);
    } else {
      StreamFeed(fed, out, fs, pending, unparsed, bytes);
    }
  }

  lemma FollowsFinishes(fed: seq<byte>, out: seq<Object>, broken: bool, fs: seq<Frame>, pending: seq<byte>,
                        s0: seq<byte>, o: Object, s1: seq<byte>)
    requires ValidFrames(fs) && Follows(fed, out, broken, fs, pending, s0) && Finishes(fs, pending, s0, o, s1)
    ensures !broken && Streams(fed, out + [o], [], [], s1)
  {
    FollowsMeans(fed, out, broken, fs, pending, s0);
    if broken {
      HopelessNeverFinishes(fs, pending, s0, o, s1);
    } else {
      StreamFinishes(fed, out, fs, pending, s0, o, s1);
    }
  }

  lemma FollowsResumes(fed: seq<byte>, out: seq<Object>, broken: bool, fs0: seq<Frame>, pending0: seq<byte>, s0: seq<byte>,
                       fs1: seq<Frame>, pending1: seq<byte>, s1: seq<byte>)
    requires ValidFrames(fs0) && ValidFrames(fs1) && Follows(fed, out, broken, fs0, pending0, s0)
    requires Resumes(fs0, pending0, s0, fs1, pending1, s1) && Meaning(fs1, pending1, s1) == More
    ensures Follows(fed, out, broken, fs1, pending1, s1) && StreamOf(fed) == Stream(out, broken)
  {
    FollowsMeans(fed, out, broken, fs0, pending0, s0);
    if broken {
      HopelessStays(fs0, pending0, s0, fs1, pending1, s1);
    } else {
      StreamResumes(fed, out, fs0, pending0, s0, fs1, pending1, s1);
    }
  }

  lemma FollowsFails(fed: seq<byte>, out: seq<Object>, broken: bool, fs0: seq<Frame>, pending0: seq<byte>, s0: seq<byte>,
                     fs1: seq<Frame>, pending1: seq<byte>, s1: seq<byte>)
    requires ValidFrames(fs0) && ValidFrames(fs1) && Follows(fed, out, broken, fs0, pending0, s0)
    requires Fails(fs0, pending0, s0) && Hopeless(fs1, pending1, s1)
    ensures Follows(fed, out, true, fs1, pending1, s1) && StreamOf(fed) == Stream(out, true)
  {
    FollowsMeans(fed, out, broken, fs0, pending0, s0);
    if !broken {
      StreamFails(fed, out, fs0, pending0, s0);
    }
  }

  lemma StreamFeed(fed: seq<byte>, out: seq<Object>, fs: seq<Frame>, pending: seq<byte>, unparsed: seq<byte>,
                   bytes: seq<byte>)
    requires ValidFrames(fs)
    ensures Streams(fed, out, fs, pending, unparsed) ==> Streams(fed + bytes, out, fs, pending, unparsed + bytes)
  {
    if Streams(fed, out, fs, pending, unparsed) {
      forall t
        ensures StreamsAt(fed + bytes + t, out, fs, pending, unparsed + bytes + t)
      {
        assert StreamsAt(fed + (bytes + t), out, fs, pending, unparsed + (bytes + t));
        assert fed + bytes + t == fed + (bytes + t) && unparsed + bytes + t == unparsed + (bytes + t);
      }
    }
  }

  lemma StreamFinishes(fed: seq<byte>, out: seq<Object>, fs: seq<Frame>, pending: seq<byte>, s0: seq<byte>,
                       o: Object, s1: seq<byte>)
    requires ValidFrames(fs) && Streams(fed, out, fs, pending, s0) && Finishes(fs, pending, s0, o, s1)
    ensures Streams(fed, out + [o], [], [], s1)
  {
    forall t
      ensures StreamsAt(fed + t, out + [o], [], [], s1 + t)
    {
      assert StreamsAt(fed + t, out, fs, pending, s0 + t);
      assert Meaning(fs, pending, s0 + t) == Done(o, s1 + t);
      FreshMeaning(s1 + t);
      AfterOne(out, o, s1 + t);
    }
  }

  lemma AfterOne(out: seq<Object>, o: Object, s: seq<byte>)
    ensures After(out, StreamFrom(Done(o, s))) == After(out + [o], StreamFrom(Decode(s, MAX_NESTING)))
  {
    StreamFromDecode(s);
    var rest := StreamOf(s);
    assert StreamFrom(Done(o, s)) == Stream([o] + rest.objects, rest.broken);
    assert out + ([o] + rest.objects) == out + [o] + rest.objects;
  }

  lemma StreamFromDecode(s: seq<byte>)
    ensures StreamFrom(Decode(s, MAX_NESTING)) == StreamOf(s)
  {
  }

  lemma StreamResumes(fed: seq<byte>, out: seq<Object>, fs0: seq<Frame>, pending0: seq<byte>, s0: seq<byte>,
                      fs1: seq<Frame>, pending1: seq<byte>, s1: seq<byte>)
    requires ValidFrames(fs0) && ValidFrames(fs1)
    requires Streams(fed, out, fs0, pending0, s0) && Resumes(fs0, pending0, s0, fs1, pending1, s1)
    requires Meaning(fs1, pending1, s1) == More
    ensures Streams(fed, out, fs1, pending1, s1)
    ensures StreamOf(fed) == Stream(out, false)
  {
    forall t
      ensures StreamsAt(fed + t, out, fs1, pending1, s1 + t)
    {
      assert StreamsAt(fed + t, out, fs0, pending0, s0 + t);
    }
    assert StreamsAt(fed + [], out, fs0, pending0, s0 + []);
    assert fed + [] == fed && s0 + [] == s0 && s1 + [] == s1 && out + [] == out;
    assert Meaning(fs0, pending0, s0 + []) == Meaning(fs1, pending1, s1 + []);
  }

  lemma StreamFails(fed: seq<byte>, out: seq<Object>, fs: seq<Frame>, pending: seq<byte>, s0: seq<byte>)
    requires ValidFrames(fs) && Streams(fed, out, fs, pending, s0) && Fails(fs, pending, s0)
    ensures StreamOf(fed) == Stream(out, true)
  {
    assert StreamsAt(fed + [], out, fs, pending, s0 + []);
    assert fed + [] == fed && s0 + [] == s0 && out + [] == out;
    assert Meaning(fs, pending, s0 + []) == Fail;
  }

  lemma StreamStart()
    ensures Streams([], [], [], [], [])
  {
    forall t
      ensures StreamsAt([] + t, [], [], [], [] + t)
    {
      FreshMeaning([] + t);
    }
  }
}
