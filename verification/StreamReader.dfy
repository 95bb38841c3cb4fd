/** The usage of the unpacker: a stream arrives in pieces, and every complete object is taken out after each piece. */
module StreamReader {
  import opened Bytes
  import opened Objects
  import opened Machine
  import opened Options
  import opened Unpacker

  function Joined(chunks: seq<seq<byte>>, i: nat): seq<byte>
    requires i <= |chunks|
  {
    if i == 0 then [] else Joined(chunks, i - 1) + chunks[i - 1]
  }

  ghost predicate StreamIs(s: seq<byte>, st: Stream)
  {
    st == StreamOf(s)
  }

  // The next two say something about StreamOf(s) without unfolding it.

  ghost predicate StreamHas(s: seq<byte>, os: seq<Object>, broken: bool)
  {
    forall st {:trigger StreamIs(s, st)} | StreamIs(s, st) :: st == Stream(os, broken)
  }

  ghost predicate ObjectsStartWith(s: seq<byte>, os: seq<Object>, left: nat)
  {
    forall st {:trigger StreamIs(s, st)} | StreamIs(s, st) :: os <= st.objects && |st.objects| == |os| + left
  }

  lemma NothingFed(u: Unpacker)
    requires u.Valid() && u.fed == [] && u.out == []
    ensures !u.broken && StreamHas([], [], false)
  {
    FollowsMeans(u.fed, u.out, u.broken, u.ctx.stack[..u.ctx.top], Pending(u.ctx.cs, u.ctx.trail), u.Unparsed());
  }

  /** The objects returned so far are among those of the stream; how many are left. */
  lemma ReturnedInStream(u: Unpacker) returns (left: nat)
    requires u.Valid()
    ensures ObjectsStartWith(u.fed, u.out, left)
  {
    FollowsMeans(u.fed, u.out, u.broken, u.ctx.stack[..u.ctx.top], Pending(u.ctx.cs, u.ctx.trail), u.Unparsed());
    if !u.broken {
      assert StreamsAt(u.fed + [], u.out, u.ctx.stack[..u.ctx.top], Pending(u.ctx.cs, u.ctx.trail), u.Unparsed() + []);
      assert u.fed + [] == u.fed;
    }
    left := |StreamOf(u.fed).objects| - |u.out|;
  }

  /** An address or zone that is not in use. */
  method FreshKey<T>(m: map<nat, T>) returns (a: nat)
    ensures a !in m
  {
    ghost var rest := m.Keys;
    a := 0;
    while a in m
      invariant forall k :: k in rest <==> k in m && k >= a
      decreases |rest|
    {
      rest := rest - {a};
      a := a + 1;
    }
  }

  /** The reader holds the zone of the last object, if any. */
  ghost predicate Reading(u: Unpacker, last: Option<nat>)
    reads u, u.ctx, u.ctx.stack
  {
    u.Valid() && (last.Some? ==> last.value in u.zones && last.value != u.z)
  }

  /** One more object, if one is complete; left is how many there still were. */
  method TakeObject(u: Unpacker, previous: Option<nat>, ghost left: nat) returns (data: Option<Object>, last: Option<nat>)
    requires Reading(u, previous) && ObjectsStartWith(u.fed, u.out, left)
    modifies u, u.ctx, u.ctx.stack
    ensures Reading(u, last) && u.fed == old(u.fed)
    ensures u.out == old(u.out) + if data.Some? then [data.value] else []
    ensures if data.Some? then left > 0 && ObjectsStartWith(u.fed, u.out, left - 1)
            else StreamHas(u.fed, u.out, u.broken)
  {
    assert StreamIs(u.fed, StreamOf(u.fed));
    var r := FreshKey(u.zones);
    var ok, zone, o := u.Next(previous, r);
    ghost var more := ReturnedInStream(u);
    if ok {
      data, last := Some(o), Some(zone);
    } else {
      data, last := None, None;
    }
  }

  /** All objects that are complete. */
  method TakeObjects(u: Unpacker, previous: Option<nat>) returns (os: seq<Object>, last: Option<nat>)
    requires Reading(u, previous)
    modifies u, u.ctx, u.ctx.stack
    ensures Reading(u, last) && u.fed == old(u.fed) && u.out == old(u.out) + os
    ensures StreamHas(u.fed, u.out, u.broken)
  {
    ghost var fed := u.fed;
    ghost var left := ReturnedInStream(u);
    os, last := [], previous;
    while true
      invariant Reading(u, last) && u.fed == fed && u.out == old(u.out) + os && ObjectsStartWith(fed, u.out, left)
      decreases left
    {
      var data;
      data, last := TakeObject(u, last, left);
      if data == None {
        return;
      }
      left := left - 1;
      os := os + [data.value];
    }
  }

  /** A piece of the stream is fed, and all objects that it completes are taken out. */
  method ReadChunk(u: Unpacker, chunk: seq<byte>, previous: Option<nat>) returns (os: seq<Object>, last: Option<nat>)
    requires Reading(u, previous)
    modifies u, u.ctx, u.ctx.stack
    ensures Reading(u, last) && u.fed == old(u.fed) + chunk && u.out == old(u.out) + os
    ensures StreamHas(u.fed, u.out, u.broken)
  {
    FeedChunk(u, chunk, previous);
    os, last := TakeObjects(u, previous);
  }

  method FeedChunk(u: Unpacker, chunk: seq<byte>, ghost previous: Option<nat>)
    requires Reading(u, previous)
    modifies u, u.ctx, u.ctx.stack
    ensures Reading(u, previous) && u.fed == old(u.fed) + chunk && u.out == old(u.out)
  {
    var tmp := FreshKey(u.heap);
    u.ReserveBuffer(|chunk|, tmp, u.buffer);
    u.Feed(chunk);
  }

  method ReadChunks(u: Unpacker, chunks: seq<seq<byte>>) returns (os: seq<Object>)
    requires Reading(u, None) && u.fed == [] && u.out == []
    modifies u, u.ctx, u.ctx.stack
    ensures u.Valid() && StreamHas(Joined(chunks, |chunks|), os, u.broken)
  {
    os := [];
    var last := None;
    var i := 0;
    NothingFed(u);
    while i < |chunks|
      invariant 0 <= i <= |chunks| && Reading(u, last)
      invariant u.fed == Joined(chunks, i) && u.out == os && StreamHas(u.fed, os, u.broken)
    {
      var more;
      more, last := ReadChunk(u, chunks[i], last);
      os := os + more;
      i := i + 1;
    }
  }

  /**
   However a stream is cut into pieces, exactly its objects come out, in order: all of them, or those before the first
   parse error.
   */
  method ReadStream(u: Unpacker, chunks: seq<seq<byte>>) returns (os: seq<Object>)
    requires u.Valid() && u.fed == [] && u.out == []
    modifies u, u.ctx, u.ctx.stack
    ensures u.Valid() && StreamOf(Joined(chunks, |chunks|)) == Stream(os, u.broken)
  {
    os := ReadChunks(u, chunks);
    assert StreamIs(Joined(chunks, |chunks|), StreamOf(Joined(chunks, |chunks|)));
  }
}
