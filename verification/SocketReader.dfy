/**
 The buffered reads of lk::Socket on a TCP connection. The kernel delivers the stream in pieces of any size; lines and
 byte counts are read through one buffer.
 */
module SocketReader {
  import opened Bytes
  import opened Options

  const MAX_BUFF_SIZE: nat := 8196
  const LF: byte := 10
  const CR: byte := 13

  // ----- What the reads mean for a stream -----

  function StripCR(s: seq<byte>): seq<byte>
  {
    if s == [] then []
    else StripCR(s[..|s| - 1]) + if s[|s| - 1] == CR then [] else [s[|s| - 1]]
  }

  /** The place of the first line feed from i on, or the length. */
  function LineEnd(s: seq<byte>, i: nat): (n: nat)
    requires i <= |s|
    ensures i <= n <= |s| && (n < |s| ==> s[n] == LF)
    ensures forall j | i <= j < n :: s[j] != LF
    decreases |s| - i
  {
    if i == |s| || s[i] == LF then i else LineEnd(s, i + 1)
  }

  datatype Request = Line | Count(n: nat)

  /** What a request yields from the stream s, if the stream has it. */
  function Reply(s: seq<byte>, q: Request): Option<seq<byte>>
  {
    match q
    case Line => if LineEnd(s, 0) < |s| then Some(StripCR(s[..LineEnd(s, 0)])) else None
    case Count(n) => if n <= |s| then Some(s[..n]) else None
  }

  /** What it leaves; when the connection closes too early, what was read is gone. */
  function Left(s: seq<byte>, q: Request): seq<byte>
  {
    match q
    case Line => if LineEnd(s, 0) < |s| then s[LineEnd(s, 0) + 1..] else []
    case Count(n) => if n <= |s| then s[n..] else []
  }

  /** What the requests from place i on yield. */
  function Replies(s: seq<byte>, qs: seq<Request>, i: nat): seq<Option<seq<byte>>>
    requires i <= |qs|
    decreases |qs| - i
  {
    if i == |qs| then [] else [Reply(s, qs[i])] + Replies(Left(s, qs[i]), qs, i + 1)
  }

  function LeftAll(s: seq<byte>, qs: seq<Request>, i: nat): seq<byte>
    requires i <= |qs|
    decreases |qs| - i
  {
    if i == |qs| then s else LeftAll(Left(s, qs[i]), qs, i + 1)
  }

  /** Bytes are conserved: a count and the counts it is split into read the same. */
  lemma CountsAddUp(s: seq<byte>, m: nat, n: nat)
    requires m + n <= |s|
    ensures Reply(s, Count(m + n)).value == Reply(s, Count(m)).value + Reply(Left(s, Count(m)), Count(n)).value
    ensures Left(s, Count(m + n)) == Left(Left(s, Count(m)), Count(n))
  {
  }

  /** A count yields that many bytes, if the stream has them, and what is left follows them. */
  lemma CountIsConserved(s: seq<byte>, n: nat)
    ensures Reply(s, Count(n)).Some? <==> n <= |s|
    ensures n <= |s| ==> var r := Reply(s, Count(n)).value; |r| == n && r + Left(s, Count(n)) == s
    ensures n > |s| ==> Left(s, Count(n)) == []
  {
  }

  /**
   A line yields the bytes up to the first line feed apart from their carriage returns, and what is left follows the
   line feed.
   */
  lemma LineIsFirst(s: seq<byte>)
    ensures Reply(s, Line).Some? <==> LF in s
    ensures LF !in s ==> Left(s, Line) == []
    ensures LF in s ==>
      exists line :: s == line + [LF] + Left(s, Line) && LF !in line && CR !in Reply(s, Line).value
        && WithoutCR(line, Reply(s, Line).value)
  {
    var n := LineEnd(s, 0);
    if n < |s| {
      var line := s[..n];
      StrippedIsWithout(line);
      assert s == line + [LF] + s[n + 1..];
    }
  }

  /** t is s without its carriage returns, with all other bytes in their order. */
  predicate WithoutCR(s: seq<byte>, t: seq<byte>)
  {
    if s == [] then t == []
    else if s[0] == CR then WithoutCR(s[1..], t)
    else t != [] && t[0] == s[0] && WithoutCR(s[1..], t[1..])
  }

  lemma {:induction false} StrippedIsWithout(s: seq<byte>)
    ensures WithoutCR(s, StripCR(s)) && CR !in StripCR(s)
  {
    if s != [] {
      var n := |s| - 1;
      StrippedIsWithout(s[..n]);
      WithoutSnoc(s[..n], StripCR(s[..n]), s[n]);
      assert s[..n] + [s[n]] == s;
      assert StripCR(s[..n]) + [] == StripCR(s[..n]);
    }
  }

  lemma {:induction false} WithoutSnoc(s: seq<byte>, t: seq<byte>, c: byte)
    requires WithoutCR(s, t)
    ensures WithoutCR(s + [c], t + if c == CR then [] else [c])
  {
    if s == [] {
      assert s + [c] == [c];
    } else {
      var end := if c == CR then [] else [c];
      assert (s + [c])[1..] == s[1..] + [c];
      if s[0] == CR {
        WithoutSnoc(s[1..], t, c);
      } else {
        WithoutSnoc(s[1..], t[1..], c);
        assert (t + end)[1..] == t[1..] + end;
      }
    }
  }

  /** The line end is the first line feed. */
  lemma {:induction false} LineEndIs(s: seq<byte>, i: nat, n: nat)
    requires i <= n <= |s| && (n < |s| ==> s[n] == LF)
    requires forall j | i <= j < n :: s[j] != LF
    ensures LineEnd(s, i) == n
    decreases n - i
  {
    if i < n {
      LineEndIs(s, i + 1, n);
    }
  }

  /** Lines written with LF or CR LF ends come back as written. */
  lemma LineRoundTrip(line: seq<byte>, rest: seq<byte>, cr: bool)
    requires forall i | 0 <= i < |line| :: line[i] != LF && line[i] != CR
    ensures var s := line + (if cr then [CR, LF] else [LF]) + rest;
      Reply(s, Line) == Some(line) && Left(s, Line) == rest
  {
    var body := if cr then line + [CR] else line;
    var s := line + (if cr then [CR, LF] else [LF]) + rest;
    assert s == body + ([LF] + rest);
    LineEndIs(s, 0, |body|);
    assert s[..|body|] == body && s[|body| + 1..] == rest;
    NoCR(line);
    assert StripCR(body) == line by {
      if cr {
        assert body[..|body| - 1] == line;
      }
    }
  }

  lemma {:induction false} NoCR(s: seq<byte>)
    requires forall i | 0 <= i < |s| :: s[i] != CR
    ensures StripCR(s) == s
  {
    if s != [] {
      NoCR(s[..|s| - 1]);
    }
  }

  // ----- The socket -----

  /** The kernel's side of the connection: what it has still to deliver before it is closed. */
  class Connection {
    var incoming: seq<byte>

    constructor (stream: seq<byte>)
      ensures incoming == stream
    {
      incoming := stream;
    }

    /** recv: any number of bytes from 1 to max; 0 when the connection is closed. */
    method Recv(buffer: array<byte>, max: nat) returns (n: nat)
      requires 0 < max <= buffer.Length
      modifies this, buffer
      ensures n <= max && (n == 0 <==> old(incoming) == [])
      ensures n <= |old(incoming)| && buffer[..n] == old(incoming)[..n] && incoming == old(incoming)[n..]
    {
      if incoming == [] {
        return 0;
      }
      n :| 0 < n <= max && n <= |incoming|;
      var i := 0;
      while i < n
        invariant 0 <= i <= n && buffer[..i] == incoming[..i]
        modifies buffer
      {
        buffer[i] := incoming[i];
        i := i + 1;
      }
      incoming := incoming[n..];
    }
  }

  function Slice(b: seq<byte>, next: nat, length: nat): seq<byte>
  {
    if next < length <= |b| then b[next..length] else []
  }

  class Socket {
    const buffer: array<byte>
    const connection: Connection
    var length: nat             // buffer_length_
    var next: nat               // buffer_i_

    ghost predicate Valid()
      reads this
    {
      buffer.Length == MAX_BUFF_SIZE && length <= MAX_BUFF_SIZE
    }

    ghost function Unread(): seq<byte>
      requires Valid()
      reads this, buffer
    {
      Slice(buffer[..], next, length)
    }

    /** All that is still to be read. */
    ghost function Remainder(): seq<byte>
      requires Valid()
      reads this, buffer, connection
    {
      Unread() + connection.incoming
    }

    constructor (c: Connection)
      ensures Valid() && Remainder() == c.incoming && fresh(buffer) && connection == c
    {
      buffer := new byte[MAX_BUFF_SIZE];
      connection := c;
      length, next := 0, 0;
    }

    /** The inner loop of recvLine: the buffer is read up to a line feed or its end; seen has been read before. */
    method ScanBuffer(line: seq<byte>, ghost seen: seq<byte>)
      returns (found: bool, line': seq<byte>, ghost seen': seq<byte>)
      requires Valid() && NoLF(seen) && line == StripCR(seen)
      modifies this`next
      ensures Valid() && NoLF(seen') && line' == StripCR(seen')
      ensures Scanned(buffer[..], old(next), next, length, seen, seen', found)
    {
      found, line', seen' := false, line, seen;
      ghost var start := next;
      while next < length
        invariant start <= next && if start < length then next <= length else next == start
        invariant NoLF(seen') && line' == StripCR(seen')
        invariant seen' == seen + Slice(buffer[..], start, next)
        decreases length - next
      {
        SliceStep(buffer[..], start, next);
        var c := buffer[next];
        next := next + 1;
        if c == LF {
          found := true;
          return;
        }
        StripCRSnoc(seen', c);
        if c != CR {
          line' := line' + [c];
        }
        seen' := seen' + [c];
      }
    }

    method ScanAhead(line: seq<byte>, ghost seen: seq<byte>, ghost stream: seq<byte>)
      returns (found: bool, line': seq<byte>, ghost seen': seq<byte>)
      requires Valid() && NoLF(seen) && line == StripCR(seen) && stream == seen + Remainder()
      modifies this`next
      ensures Valid() && NoLF(seen') && line' == StripCR(seen')
      ensures stream == if found then seen' + ([LF] + Remainder()) else seen' + Remainder()
      ensures !found ==> Unread() == []
    {
      ghost var start := next;
      found, line', seen' := ScanBuffer(line, seen);
      ScanMoves(buffer[..], start, next, length, seen, seen', found, connection.incoming);
    }

    /** recvLine: whatever pieces recv delivers, the bytes up to the first LF without any CR. */
    method RecvLine() returns (r: Option<seq<byte>>)
      requires Valid()
      modifies this, buffer, connection
      ensures Valid()
      ensures r == Reply(old(Remainder()), Line) && Remainder() == Left(old(Remainder()), Line)
    {
      var line := [];
      ghost var stream, seen := Remainder(), [];
      while true
        invariant Valid() && NoLF(seen) && line == StripCR(seen)
        invariant stream == seen + Remainder()
        decreases |connection.incoming|
      {
        var found;
        found, line, seen := ScanAhead(line, seen, stream);
        if found {
          LineFound(seen, Remainder());
          return Some(line);
        }
        var more := Refill();
        if !more {
          NoLineFound(seen);
          return None;
        }
      }
    }

    /** Reading into the empty buffer, unless the connection is closed. */
    method Refill() returns (more: bool)
      requires Valid() && Unread() == []
      modifies this`length, this`next, buffer, connection
      ensures Valid() && Remainder() == old(Remainder())
      ensures if more then |connection.incoming| < |old(connection.incoming)| else Remainder() == []
    {
      length := connection.Recv(buffer, MAX_BUFF_SIZE);
      more := length != 0;
      if more {
        next := 0;
      }
      assert Unread() == old(connection.incoming)[..length];
      assert [] + old(connection.incoming) == old(connection.incoming);
    }

    /** The branch of recvBytes for a count that the buffer has. */
    method TakeBuffered(n: nat) returns (taken: seq<byte>)
      requires Valid() && next < length && n <= length - next
      modifies this`next
      ensures Valid() && n <= |old(Remainder())|
      ensures taken == old(Remainder())[..n] && Remainder() == old(Remainder())[n..]
    {
      SliceSplit(buffer[..], next, next + n, length);
      TakeSlice(Slice(buffer[..], next, next + n), Slice(buffer[..], next + n, length), connection.incoming);
      taken := buffer[next..next + n];
      next := next + n;
    }

    /** recvBytes: whatever pieces recv delivers, the next n bytes. */
    method RecvBytes(n: nat) returns (r: Option<seq<byte>>)
      requires Valid()
      modifies this, buffer, connection
      ensures Valid()
      ensures r == Reply(old(Remainder()), Count(n)) && Remainder() == Left(old(Remainder()), Count(n))
    {
      ghost var stream := Remainder();
      var bytes := [];
      var sz := n;
      if next < length {
        if sz <= length - next {
          var taken := TakeBuffered(n);
          return Some(taken);
        }
        bytes := buffer[next..length];
        sz := sz - (length - next);
      }
      while sz > 0
        invariant Valid() && sz >= 0 && |bytes| + sz == n
        invariant stream == bytes + connection.incoming
        invariant sz == 0 ==> length <= next
        decreases sz
      {
        length := connection.Recv(buffer, if sz < MAX_BUFF_SIZE then sz else MAX_BUFF_SIZE);
        if length == 0 {
          return None;
        }
        bytes := bytes + buffer[..length];
        sz := sz - length;
        next := length;
      }
      TakeSlice(bytes, [], connection.incoming);
      assert stream == bytes + [] + connection.incoming && Unread() == [];
      r := Some(bytes);
    }

    /** Any mix of requests: the replies depend on the stream alone. */
    method Serve(qs: seq<Request>) returns (rs: seq<Option<seq<byte>>>)
      requires Valid()
      modifies this, buffer, connection
      ensures Valid()
      ensures rs == Replies(old(Remainder()), qs, 0) && Remainder() == LeftAll(old(Remainder()), qs, 0)
    {
      ghost var stream := Remainder();
      rs := [];
      var i := 0;
      while i < |qs|
        invariant Valid() && 0 <= i <= |qs|
        invariant rs + Replies(Remainder(), qs, i) == Replies(stream, qs, 0)
        invariant LeftAll(Remainder(), qs, i) == LeftAll(stream, qs, 0)
      {
        RepliesStep(Remainder(), qs, i, rs);
        var r := Answer(qs[i]);
        rs := rs + [r];
        i := i + 1;
      }
    }

    /** Either request. */
    method Answer(q: Request) returns (r: Option<seq<byte>>)
      requires Valid()
      modifies this, buffer, connection
      ensures Valid()
      ensures r == Reply(old(Remainder()), q) && Remainder() == Left(old(Remainder()), q)
    {
      match q
      case Line => r := RecvLine();
      case Count(n) => r := RecvBytes(n);
    }
  }

  lemma RepliesStep(s: seq<byte>, qs: seq<Request>, i: nat, rs: seq<Option<seq<byte>>>)
    requires i < |qs|
    ensures rs + Replies(s, qs, i) == rs + [Reply(s, qs[i])] + Replies(Left(s, qs[i]), qs, i + 1)
    ensures LeftAll(s, qs, i) == LeftAll(Left(s, qs[i]), qs, i + 1)
  {
  }

  predicate NoLF(s: seq<byte>)
  {
    forall i | 0 <= i < |s| :: s[i] != LF
  }

  lemma StripCRSnoc(s: seq<byte>, c: byte)
    ensures StripCR(s + [c]) == StripCR(s) + if c == CR then [] else [c]
  {
    assert (s + [c])[..|s|] == s;
  }

  lemma SliceStep(b: seq<byte>, start: nat, next: nat)
    requires start <= next < |b|
    ensures Slice(b, start, next + 1) == Slice(b, start, next) + [b[next]]
  {
  }

  lemma SliceSplit(b: seq<byte>, start: nat, next: nat, length: nat)
    requires start <= next <= length <= |b|
    ensures Slice(b, start, length) == Slice(b, start, next) + Slice(b, next, length)
  {
  }

  lemma TakeSlice(a: seq<byte>, b: seq<byte>, rest: seq<byte>)
    ensures (a + b + rest)[..|a|] == a && (a + b + rest)[|a|..] == b + rest
    ensures a + [] == a && [] + rest == rest
  {
  }

  /** From start to next the scan has added to seen what it read, apart from the line feed it found. */
  ghost predicate Scanned(b: seq<byte>, start: nat, next: nat, length: nat, seen: seq<byte>, seen': seq<byte>, found: bool)
  {
    if found then start < next <= length <= |b| && b[next - 1] == LF && seen' == seen + Slice(b, start, next - 1)
    else start <= next && length <= next && seen' == seen + Slice(b, start, length)
  }

  lemma ScanMoves(b: seq<byte>, start: nat, next: nat, length: nat, seen: seq<byte>, seen': seq<byte>, found: bool,
                  rest: seq<byte>)
    requires Scanned(b, start, next, length, seen, seen', found)
    ensures seen + (Slice(b, start, length) + rest)
            == if found then seen' + ([LF] + (Slice(b, next, length) + rest)) else seen' + (Slice(b, next, length) + rest)
    ensures !found ==> Slice(b, next, length) == []
  {
    if found {
      LineFeedSplit(b, start, next, length);
      RegroupFound(seen, Slice(b, start, next - 1), Slice(b, next, length), rest);
    } else {
      Regroup(seen, Slice(b, start, length), rest);
      assert Slice(b, next, length) == [];
      assert [] + rest == rest;
    }
  }

  lemma LineFeedSplit(b: seq<byte>, start: nat, next: nat, length: nat)
    requires start < next <= length <= |b| && b[next - 1] == LF
    ensures Slice(b, start, length) == Slice(b, start, next - 1) + ([LF] + Slice(b, next, length))
  {
    SliceSplit(b, start, next - 1, length);
    SliceSplit(b, next - 1, next, length);
    assert Slice(b, next - 1, next) == [LF];
  }

  lemma Regroup(a: seq<byte>, b: seq<byte>, c: seq<byte>)
    ensures a + (b + c) == (a + b) + c
  {
  }

  lemma RegroupFound(a: seq<byte>, b: seq<byte>, d: seq<byte>, e: seq<byte>)
    ensures a + ((b + ([LF] + d)) + e) == (a + b) + ([LF] + (d + e))
  {
    Regroup(b, [LF] + d, e);
    Regroup([LF], d, e);
    Regroup(a, b, [LF] + (d + e));
  }

  lemma LineFound(seen: seq<byte>, rest: seq<byte>)
    requires NoLF(seen)
    ensures Reply(seen + ([LF] + rest), Line) == Some(StripCR(seen)) && Left(seen + ([LF] + rest), Line) == rest
  {
    var s := seen + ([LF] + rest);
    LineEndIs(s, 0, |seen|);
    assert s[..|seen|] == seen && s[|seen| + 1..] == rest;
  }

  lemma NoLineFound(seen: seq<byte>)
    requires NoLF(seen)
    ensures Reply(seen, Line) == None && Left(seen, Line) == [] && seen + [] == seen
  {
    LineEndIs(seen, 0, |seen|);
  }
}
