/**
 * Reassembly of packets from a TCP byte stream. Each packet announces its own
 * length in the size field of its header; the resolver buffers bytes until a
 * header and then that many bytes are present, hands the packet out and starts
 * over. `Frames` says what the resolver does with a whole stream; class
 * `PacketResolver` does it chunk by chunk in place.
 */
module Resolver {
  import opened NetDefine
  import opened Packets
  import opened ByteOrder

  /** The length a stream's first header announces (the Size getter, a signed int16). */
  function DeclaredSize(s: seq<byte>): int
    requires |s| >= PacketHeaderLength
  {
    SizeOf(s)
  }

  /** Both sides read the same size field once the header is complete. */
  lemma DeclaredSizeOfPrefix(s: seq<byte>, t: seq<byte>)
    requires |s| >= PacketHeaderLength
    ensures DeclaredSize(s + t) == DeclaredSize(s)
  {
    assert (s + t)[6] == s[6] && (s + t)[7] == s[7];
  }

  /**
   * Every complete header of the stream, read packet after packet, announces a
   * length between the header length and the Binary capacity.
   */
  predicate WellFormed(s: seq<byte>)
    decreases |s|
  {
    |s| < PacketHeaderLength
    || (PacketHeaderLength <= DeclaredSize(s) <= MaxPacketBinaryLength
        && (|s| < DeclaredSize(s) || WellFormed(s[DeclaredSize(s)..])))
  }

  /** A stream fragment too short to hold the packet it has begun. */
  predicate Incomplete(s: seq<byte>) {
    |s| < PacketHeaderLength || |s| < DeclaredSize(s)
  }

  /** One reassembled packet: exactly as long as its size field says, and a legal length. */
  predicate IsFrame(p: seq<byte>) {
    PacketHeaderLength <= |p| <= MaxPacketBinaryLength && DeclaredSize(p) == |p|
  }

  /** The frames joined back into one byte sequence. */
  function Flatten(ps: seq<seq<byte>>): seq<byte> {
    if ps == [] then [] else ps[0] + Flatten(ps[1..])
  }

  lemma FlattenAppend(ps: seq<seq<byte>>, qs: seq<seq<byte>>)
    ensures Flatten(ps + qs) == Flatten(ps) + Flatten(qs)
  {
    if ps == [] {
      assert ps + qs == qs;
    } else {
      assert (ps + qs)[0] == ps[0];
      assert (ps + qs)[1..] == ps[1..] + qs;
      FlattenAppend(ps[1..], qs);
    }
  }

  /**
   * The packets a well-formed stream holds, in order, and the incomplete tail the
   * resolver keeps buffered. Frames and tail together are the stream again.
   */
  function Frames(s: seq<byte>): (seq<seq<byte>>, seq<byte>)
    requires WellFormed(s)
    decreases |s|
  {
    if Incomplete(s) then ([], s)
    else
      var n := DeclaredSize(s);
      var rest := Frames(s[n..]);
      ([s[..n]] + rest.0, rest.1)
  }

  /**
   * What `Frames` promises: the frames followed by the tail are the stream, each
   * frame is a legal packet, and the tail is too short for the packet it begins.
   */
  lemma {:induction false} FramesSpec(s: seq<byte>)
    requires WellFormed(s)
    ensures Flatten(Frames(s).0) + Frames(s).1 == s
    ensures forall i :: 0 <= i < |Frames(s).0| ==> IsFrame(Frames(s).0[i])
    ensures Incomplete(Frames(s).1) && WellFormed(Frames(s).1)
    decreases |s|
  {
    if !Incomplete(s) {
      var n := DeclaredSize(s);
      FramesSpec(s[n..]);
      var rest := Frames(s[n..]);
      ConsFrame(s, n, rest.0, rest.1);
    }
  }

  /** Putting the leading packet in front of the frames of what follows it. */
  lemma ConsFrame(s: seq<byte>, n: int, ps: seq<seq<byte>>, t: seq<byte>)
    requires PacketHeaderLength <= n <= |s| && n == DeclaredSize(s) && n <= MaxPacketBinaryLength
    requires Flatten(ps) + t == s[n..] && forall i :: 0 <= i < |ps| ==> IsFrame(ps[i])
    ensures Flatten([s[..n]] + ps) + t == s
    ensures forall i :: 0 <= i < |ps| + 1 ==> IsFrame(([s[..n]] + ps)[i])
  {
    var qs := [s[..n]] + ps;
    assert qs[0] == s[..n] && qs[1..] == ps;
    assert Flatten(qs) == s[..n] + Flatten(ps);
    calc {
      Flatten(qs) + t;
      (s[..n] + Flatten(ps)) + t;
      { AppendAssoc(s[..n], Flatten(ps), t); }
      s[..n] + (Flatten(ps) + t);
      s[..n] + s[n..];
      { SplitAt(s, n); }
      s;
    }
    assert IsFrame(qs[0]) by {
      SplitAt(s, n);
      DeclaredSizeOfPrefix(s[..n], s[n..]);
    }
    forall i | 1 <= i < |qs|
      ensures IsFrame(qs[i])
    {
      assert qs[i] == ps[i - 1];
    }
  }

  /** A prefix of a well-formed stream is well-formed. */
  lemma {:induction false} WellFormedPrefix(s: seq<byte>, t: seq<byte>)
    requires WellFormed(s + t)
    ensures WellFormed(s)
    decreases |s|
  {
    if |s| >= PacketHeaderLength {
      DeclaredSizeOfPrefix(s, t);
      var n := DeclaredSize(s);
      if n <= |s| {
        assert (s + t)[n..] == s[n..] + t;
        WellFormedPrefix(s[n..], t);
      }
    }
  }

  /**
   * Split independence: the frames of `a + b` are the frames of `a` followed by
   * the frames of a's incomplete tail continued by `b`. Where the stream is cut
   * into receive chunks makes no difference to the packets that come out.
   */
  lemma {:induction false} FramesAppend(a: seq<byte>, b: seq<byte>)
    requires WellFormed(a + b)
    ensures WellFormed(a) && WellFormed(Frames(a).1 + b)
    ensures Frames(a + b) == (Frames(a).0 + Frames(Frames(a).1 + b).0, Frames(Frames(a).1 + b).1)
    decreases |a|
  {
    WellFormedPrefix(a, b);
    if !Incomplete(a) {
      var n := DeclaredSize(a);
      DeclaredSizeOfPrefix(a, b);
      assert (a + b)[n..] == a[n..] + b;
      assert !Incomplete(a + b);
      FramesAppend(a[n..], b);
      assert (a + b)[..n] == a[..n];
      var tail := Frames(a[n..]);
      var cont := Frames(tail.1 + b);
      assert Frames(a[n..] + b) == (tail.0 + cont.0, cont.1);
      assert Frames(a) == ([a[..n]] + tail.0, tail.1);
      assert Frames(a + b) == ([a[..n]] + Frames(a[n..] + b).0, Frames(a[n..] + b).1);
      AppendAssoc([a[..n]], tail.0, cont.0);
    } else {
      assert Frames(a) == ([], a);
      assert [] + Frames(a + b).0 == Frames(a + b).0;
    }
  }

  lemma AppendAssoc<T>(x: seq<T>, y: seq<T>, z: seq<T>)
    ensures x + (y + z) == (x + y) + z
  {
  }

  lemma SplitAt<T>(s: seq<T>, n: int)
    requires 0 <= n <= |s|
    ensures s[..n] + s[n..] == s
  {
  }

  /** The chunks joined into the stream they came from. */
  function Concat(chunks: seq<seq<byte>>): seq<byte> {
    if chunks == [] then [] else chunks[0] + Concat(chunks[1..])
  }

  /**
   * Feeding `chunks` one after the other to a resolver holding `pending`: the
   * packets completed on the way and the tail left at the end.
   */
  function Feed(pending: seq<byte>, chunks: seq<seq<byte>>): (seq<seq<byte>>, seq<byte>)
    requires WellFormed(pending + Concat(chunks))
    decreases |chunks|
  {
    if chunks == [] then ([], pending)
    else
      assert pending + Concat(chunks) == (pending + chunks[0]) + Concat(chunks[1..]);
      WellFormedPrefix(pending + chunks[0], Concat(chunks[1..]));
      var step := Frames(pending + chunks[0]);
      FramesAppend(pending + chunks[0], Concat(chunks[1..]));
      var more := Feed(step.1, chunks[1..]);
      (step.0 + more.0, more.1)
  }

  /** Whatever the chunking, a resolver fed the chunks ends where one fed the whole stream does. */
  lemma {:induction false} SplitIndependence(pending: seq<byte>, chunks: seq<seq<byte>>)
    requires Incomplete(pending) && WellFormed(pending + Concat(chunks))
    ensures Feed(pending, chunks) == Frames(pending + Concat(chunks))
    decreases |chunks|
  {
    if chunks == [] {
      assert pending + Concat(chunks) == pending;
    } else {
      var whole := pending + Concat(chunks);
      assert whole == (pending + chunks[0]) + Concat(chunks[1..]);
      WellFormedPrefix(pending + chunks[0], Concat(chunks[1..]));
      FramesAppend(pending + chunks[0], Concat(chunks[1..]));
      var step := Frames(pending + chunks[0]);
      FramesSpec(pending + chunks[0]);
      SplitIndependence(step.1, chunks[1..]);
    }
  }

  /** A packet that is only a header comes out as soon as its eight bytes are in. */
  lemma HeaderOnlyPacket(p: seq<byte>, t: seq<byte>)
    requires |p| == PacketHeaderLength && DeclaredSize(p) == PacketHeaderLength && WellFormed(p + t)
    ensures Frames(p + t).0 != [] && Frames(p + t).0[0] == p
  {
    DeclaredSizeOfPrefix(p, t);
    assert (p + t)[..PacketHeaderLength] == p;
  }

  /** A frame followed by more stream comes out first, and the rest is resolved on its own. */
  lemma FramesOfFrame(p: seq<byte>, rest: seq<byte>)
    requires |p| >= PacketHeaderLength && DeclaredSize(p) == |p| && WellFormed(p + rest)
    ensures WellFormed(rest)
    ensures Frames(p + rest) == ([p] + Frames(rest).0, Frames(rest).1)
  {
    DeclaredSizeOfPrefix(p, rest);
    assert (p + rest)[..|p|] == p;
    assert (p + rest)[|p|..] == rest;
  }

  /** Copying `c` chunk bytes behind the buffered ones moves them from the stream's rest to the tail. */
  lemma CopyKeepsStream(b: seq<byte>, cur: int, chunk: seq<byte>, k: int, c: int)
    requires 0 <= cur && 0 <= k && 0 <= c && cur + c <= |b| && k + c <= |chunk|
    ensures WithBytes(b, cur, chunk[k..k + c])[..cur + c] == b[..cur] + chunk[k..k + c]
    ensures b[..cur] + chunk[k..k + c] + chunk[k + c..] == b[..cur] + chunk[k..]
  {
    assert chunk[k..k + c] + chunk[k + c..] == chunk[k..];
  }

  /** The size field of a Binary is already readable from its first eight bytes. */
  lemma SizeOfPrefix(b: seq<byte>, k: nat)
    requires PacketHeaderLength <= k <= |b|
    ensures SizeOf(b) == DeclaredSize(b[..k])
  {
    assert b[..k] + b[k..] == b;
    DeclaredSizeOfPrefix(b[..k], b[k..]);
  }

  /** The bytes a ResolveProcess call reads: `transfered` bytes from `offset`, none if it is not positive. */
  function Chunk(buffer: seq<byte>, offset: int, transfered: int): (c: seq<byte>)
    requires 0 <= offset && (transfered > 0 ==> offset + transfered <= |buffer|)
    ensures |c| == Max(transfered, 0)
  {
    if transfered <= 0 then [] else buffer[offset..offset + transfered]
  }

  /**
   * The number of bytes _ReadUntil copies: none when the position is already
   * past the chunk end and the target is reached, otherwise what is still
   * wanted, capped by what the chunk still holds, and none if that is not positive.
   */
  function CopySize(current: int, target: int, remain: int, offset: int, transfered: int): (c: int)
    ensures 0 <= c <= Max(0, remain) && current + c <= Max(current, target)
    ensures c == 0 <==> (current >= offset + transfered && target <= current) || target <= current || remain <= 0
  {
    if current >= offset + transfered && target <= current then 0
    else
      var want := Min(target - current, remain);
      if want <= 0 then 0 else want
  }

  /**
   * One turn of ResolveProcess's loop as written, once a header is buffered
   * (`current` >= 8), on the positions alone: the read target is the size the
   * header announces, the copy is `CopySize`, and the packet is handed out when
   * it is header-only or the target has been reached. The answer is the new
   * position, the bytes left in the chunk and whether a packet came out.
   */
  function LoopTurnAsWritten(current: int, size: int, remain: int, offset: int, transfered: int): (r: (int, int, bool))
    requires current >= PacketHeaderLength
    ensures r.1 <= remain
  {
    var c := CopySize(current, size, remain, offset, transfered);
    if size == PacketHeaderLength || (c > 0 && current + c >= size) then (0, remain - c, true)
    else (current + c, remain - c, false)
  }

  /**
   * A header announcing fewer than eight bytes stalls the loop as written: the
   * turn copies nothing and hands nothing out, so the position and the bytes
   * left stay as they were while the loop condition `remain > 0` still holds,
   * for every following turn as well. The stream `[1,0,0,0, 0,0, 0,0, 9]`
   * (size 0, one more byte) is such an input.
   */
  lemma ShortSizeStalls(size: int, remain: int, offset: int, transfered: int)
    requires size < PacketHeaderLength && remain > 0
    ensures LoopTurnAsWritten(PacketHeaderLength, size, remain, offset, transfered) == (PacketHeaderLength, remain, false)
  {
  }

  /** The stream of the example above holds a complete header that announces size 0. */
  lemma ShortSizeExample(s: seq<byte>)
    requires s == [1, 0, 0, 0, 0, 0, 0, 0, 9]
    ensures |s| > PacketHeaderLength && DeclaredSize(s) == 0 && !WellFormed(s)
  {
    assert UInt16Of(s[6], s[7]) == 0;
  }

  /** What a checking resolver makes of a stream: its packets and tail, or the packets before the first bad header. */
  datatype Reassembly = Reassembled(frames: seq<seq<byte>>, tail: seq<byte>) | Malformed(frames: seq<seq<byte>>)

  /**
   * Reassembly that checks each complete header: a size outside 8..1440 ends
   * reassembly as Malformed, so the receive can drop the connection instead of
   * looping or overrunning the buffer. It is total, so it ends on every stream.
   */
  function CheckedFrames(s: seq<byte>): Reassembly
    decreases |s|
  {
    if |s| < PacketHeaderLength then Reassembled([], s)
    else if !(PacketHeaderLength <= DeclaredSize(s) <= MaxPacketBinaryLength) then Malformed([])
    else if |s| < DeclaredSize(s) then Reassembled([], s)
    else
      var n := DeclaredSize(s);
      match CheckedFrames(s[n..])
      case Reassembled(ps, t) => Reassembled([s[..n]] + ps, t)
      case Malformed(ps) => Malformed([s[..n]] + ps)
  }

  /**
   * The checking resolver refuses exactly the streams that are not well-formed,
   * and on a well-formed stream it delivers what `Frames` gives, which is what
   * the code does on such a stream.
   */
  lemma {:induction false} CheckedFramesSpec(s: seq<byte>)
    ensures CheckedFrames(s).Malformed? <==> !WellFormed(s)
    ensures WellFormed(s) ==> CheckedFrames(s) == Reassembled(Frames(s).0, Frames(s).1)
    decreases |s|
  {
    if |s| >= PacketHeaderLength && PacketHeaderLength <= DeclaredSize(s) <= MaxPacketBinaryLength && |s| >= DeclaredSize(s) {
      CheckedFramesSpec(s[DeclaredSize(s)..]);
    }
  }

  /** Frames completed before and during a step, chained. */
  lemma Advance(total: seq<byte>, done: seq<seq<byte>>, step: seq<seq<byte>>, s: seq<byte>, s': seq<byte>)
    requires WellFormed(total) && WellFormed(s) && WellFormed(s')
    requires Frames(total) == (done + Frames(s).0, Frames(s).1)
    requires Frames(s) == (step + Frames(s').0, Frames(s').1)
    ensures Frames(total) == ((done + step) + Frames(s').0, Frames(s').1)
  {
    AppendAssoc(done, step, Frames(s').0);
  }

  /** An incomplete stream is all tail. */
  lemma FramesOfIncomplete(s: seq<byte>)
    requires Incomplete(s) && WellFormed(s)
    ensures Frames(s) == ([], s)
  {
  }

  /**
   * Copying the `c` chunk bytes at `src` behind the `cur` buffered ones moves
   * them from the unread rest of the chunk to the buffered bytes.
   */
  lemma CopyMovesStream(b0: seq<byte>, cur: int, buffer: seq<byte>, offset: int, transfered: int, src: int, c: int)
    requires 0 <= offset && offset + transfered <= |buffer| && 0 <= src - offset && 0 <= c && src - offset + c <= transfered
    requires 0 <= cur && cur + c <= |b0|
    ensures WithBytes(b0, cur, buffer[src..src + c])[..cur + c] + buffer[offset..offset + transfered][src + c - offset..]
      == b0[..cur] + buffer[offset..offset + transfered][src - offset..]
  {
    ChunkSlice(buffer, offset, transfered, src - offset, src + c - offset);
    CopyKeepsStream(b0, cur, buffer[offset..offset + transfered], src - offset, c);
  }

  /** A slice of the chunk is the matching slice of the receive buffer. */
  lemma ChunkSlice(buffer: seq<byte>, offset: int, transfered: int, i: int, j: int)
    requires 0 <= offset && offset + transfered <= |buffer| && 0 <= i <= j <= transfered
    ensures buffer[offset..offset + transfered][i..j] == buffer[offset + i..offset + j]
  {
    var c := buffer[offset..offset + transfered];
    assert forall k :: 0 <= k < j - i ==> c[i..j][k] == buffer[offset + i + k];
  }

  class PacketResolver {
    var currentPosition: int
    var positionToRead: int
    var remainSize: int
    /** The packet whose Binary collects the bytes of the packet being reassembled. */
    const recvBuffer: Packet

    /** The bytes of the packet reassembled so far. */
    ghost function Pending(): seq<byte>
      reads this, recvBuffer, recvBuffer.binary
      requires recvBuffer.Valid() && 0 <= currentPosition <= MaxPacketBinaryLength
    {
      recvBuffer.binary[..currentPosition]
    }

    /**
     * Between calls the buffered bytes are the incomplete start of one packet;
     * once its header is in, the read target is the length that header announces.
     */
    ghost predicate Valid()
      reads this, recvBuffer, recvBuffer.binary
    {
      && Buffered()
      && (currentPosition >= PacketHeaderLength ==> currentPosition < positionToRead)
    }

    /** Valid, except that the buffered packet may just have been completed. */
    ghost predicate Buffered()
      reads this, recvBuffer, recvBuffer.binary
    {
      && recvBuffer.Valid()
      && 0 <= currentPosition <= MaxPacketBinaryLength
      && (currentPosition >= PacketHeaderLength ==>
            && positionToRead == DeclaredSize(Pending())
            && currentPosition <= positionToRead <= MaxPacketBinaryLength)
    }

    constructor ()
      ensures Valid() && Pending() == [] && fresh(recvBuffer) && fresh(recvBuffer.binary)
      ensures positionToRead == 0 && remainSize == 0
    {
      var packet := new Packet.Empty();
      recvBuffer := packet;
      currentPosition := 0;
      positionToRead := 0;
      remainSize := 0;
      new;
      assert recvBuffer.Valid() && Pending() == [];
    }

    /**
     * _ReadUntil: copies as much of the wanted remainder as the chunk still
     * holds, and answers whether the read target has been reached. A position
     * already past the chunk end with nothing left to read, or nothing to copy,
     * leaves everything as it is.
     */
    method ReadUntil(buffer: seq<byte>, src: int, offset: int, transfered: int) returns (reached: bool, src': int)
      requires recvBuffer.Valid() && 0 <= currentPosition <= MaxPacketBinaryLength && 0 <= src
      requires var c := CopySize(currentPosition, positionToRead, remainSize, offset, transfered);
        src + c <= |buffer| && currentPosition + c <= MaxPacketBinaryLength
      modifies this, recvBuffer.binary
      ensures positionToRead == old(positionToRead)
      ensures var c := CopySize(old(currentPosition), positionToRead, old(remainSize), offset, transfered);
        && src' == src + c
        && currentPosition == old(currentPosition) + c && remainSize == old(remainSize) - c
        && recvBuffer.binary[..] == WithBytes(old(recvBuffer.binary[..]), old(currentPosition), buffer[src..src'])
        && reached == (c > 0 && currentPosition >= positionToRead)
    {
      if currentPosition >= offset + transfered {
        if positionToRead <= currentPosition {
          WithSameBytes(recvBuffer.binary[..], currentPosition, []);
          return false, src;
        }
      }
      var copySize := positionToRead - currentPosition;
      if remainSize < copySize {
        copySize := remainSize;
      }
      if copySize <= 0 {
        WithSameBytes(recvBuffer.binary[..], currentPosition, []);
        return false, src;
      }
      recvBuffer.BlockCopy(buffer[src..], currentPosition, copySize);
      assert buffer[src..][..copySize] == buffer[src..src + copySize];
      src' := src + copySize;
      currentPosition := currentPosition + copySize;
      remainSize := remainSize - copySize;
      if currentPosition < positionToRead {
        return false, src';
      }
      return true, src';
    }

    /**
     * ResolveProcess: consumes the chunk. The packets completed on the way are
     * returned in order (as the bytes the complete callback is shown), and the
     * buffered bytes become the new incomplete tail: together exactly what
     * `Frames` gives for the old tail followed by the chunk.
     */
    method ResolveProcess(buffer: seq<byte>, offset: int, transfered: int) returns (completions: seq<seq<byte>>)
      requires Valid() && 0 <= offset && (transfered > 0 ==> offset + transfered <= |buffer|)
      requires WellFormed(Pending() + Chunk(buffer, offset, transfered))
      modifies this, recvBuffer.binary
      ensures Valid()
      ensures (completions, Pending()) == Frames(old(Pending()) + Chunk(buffer, offset, transfered))
      ensures remainSize == if transfered > 0 then 0 else transfered
    {
      ghost var chunk := Chunk(buffer, offset, transfered);
      ghost var total := Pending() + chunk;
      remainSize := transfered;
      var srcPosition := offset;
      completions := [];
      assert chunk[0..] == chunk;
      assert [] + Frames(total).0 == Frames(total).0;
      while remainSize > 0
        invariant Valid()
        invariant 0 <= srcPosition - offset <= |chunk|
        invariant remainSize == if transfered > 0 then |chunk| - (srcPosition - offset) else transfered
        invariant Resolved(total, completions, chunk[srcPosition - offset..])
        decreases remainSize
      {
        var stop;
        completions, srcPosition, stop := Round(buffer, srcPosition, offset, transfered, chunk, total, completions);
        if stop {
          break;
        }
      }
      Finish(total, completions, chunk[srcPosition - offset..]);
    }

    /**
     * The packets `done` so far and the buffered bytes followed by the unread
     * `rest` of the chunk account for the whole stream `total`.
     */
    ghost predicate Resolved(total: seq<byte>, done: seq<seq<byte>>, rest: seq<byte>)
      reads this, recvBuffer, recvBuffer.binary
      requires recvBuffer.Valid() && 0 <= currentPosition <= MaxPacketBinaryLength
    {
      && WellFormed(total) && WellFormed(Pending() + rest)
      && Frames(total) == (done + Frames(Pending() + rest).0, Frames(Pending() + rest).1)
    }

    /** With the chunk used up, the packets done and the buffered bytes are the frames and tail of the stream. */
    lemma Finish(total: seq<byte>, done: seq<seq<byte>>, rest: seq<byte>)
      requires Valid() && rest == [] && Resolved(total, done, rest)
      ensures (done, Pending()) == Frames(total)
    {
      assert Pending() + rest == Pending();
      PendingIncomplete();
      FramesOfIncomplete(Pending());
      assert done + [] == done;
    }

    /**
     * One round of ResolveProcess's loop: read the header if it is not in yet
     * (stopping the whole call when the chunk runs out first), then read the
     * body, and hand the packet out once it is complete.
     */
    method Round(buffer: seq<byte>, src: int, offset: int, transfered: int, ghost chunk: seq<byte>,
                 ghost total: seq<byte>, done: seq<seq<byte>>)
      returns (done': seq<seq<byte>>, src': int, stop: bool)
      requires Valid() && remainSize > 0
      requires 0 <= offset && transfered > 0 && offset + transfered <= |buffer| && chunk == buffer[offset..offset + transfered]
      requires 0 <= src - offset <= |chunk| && remainSize == |chunk| - (src - offset)
      requires Resolved(total, done, chunk[src - offset..])
      modifies this, recvBuffer.binary
      ensures Valid()
      ensures 0 <= src' - offset <= |chunk| && remainSize == |chunk| - (src' - offset) && remainSize < old(remainSize)
      ensures stop ==> remainSize == 0
      ensures Resolved(total, done', chunk[src' - offset..])
    {
      src' := src;
      done' := done;
      stop := false;
      if currentPosition < PacketHeaderLength {
        var reached;
        reached, src' := ReadHeader(buffer, src', offset, transfered, chunk);
        if !reached {
          return done', src', true;
        }
      }
      var complete := recvBuffer.Size() == PacketHeaderLength;
      if !complete {
        complete, src' := ReadBody(buffer, src', offset, transfered, chunk);
      }
      if complete {
        ghost var rest := chunk[src' - offset..];
        var packet := TakePacket(rest);
        AppendAssoc(done, [packet], Frames(Pending() + rest).0);
        done' := done + [packet];
      }
    }

    /**
     * The header half of a loop round: aim at the header, read towards it, and
     * once it is complete aim at the size it announces.
     */
    method ReadHeader(buffer: seq<byte>, src: int, offset: int, transfered: int, ghost chunk: seq<byte>)
      returns (reached: bool, src': int)
      requires Valid() && currentPosition < PacketHeaderLength && remainSize > 0
      requires 0 <= offset && transfered > 0 && offset + transfered <= |buffer| && chunk == buffer[offset..offset + transfered]
      requires 0 <= src - offset <= |chunk| && remainSize == |chunk| - (src - offset)
      requires WellFormed(Pending() + chunk[src - offset..])
      modifies this, recvBuffer.binary
      ensures Buffered()
      ensures 0 <= src' - offset <= |chunk| && remainSize == |chunk| - (src' - offset) && remainSize < old(remainSize)
      ensures Pending() + chunk[src' - offset..] == old(Pending()) + chunk[src - offset..]
      ensures !reached ==> Valid() && remainSize == 0
      ensures reached ==> Buffered() && currentPosition == PacketHeaderLength
    {
      positionToRead := PacketHeaderLength;
      ghost var b0, cur0 := recvBuffer.binary[..], currentPosition;
      reached, src' := ReadUntil(buffer, src, offset, transfered);
      CopyMovesStream(b0, cur0, buffer, offset, transfered, src, src' - src);
      if reached {
        SizeOfPrefix(recvBuffer.binary[..], currentPosition);
        DeclaredSizeOfPrefix(Pending(), chunk[src' - offset..]);
        positionToRead := recvBuffer.Size();
      }
    }

    /** The payload half of a loop round: read towards the announced size. */
    method ReadBody(buffer: seq<byte>, src: int, offset: int, transfered: int, ghost chunk: seq<byte>)
      returns (reached: bool, src': int)
      requires Buffered() && PacketHeaderLength <= currentPosition < positionToRead
      requires 0 <= offset && transfered > 0 && offset + transfered <= |buffer| && chunk == buffer[offset..offset + transfered]
      requires 0 <= src - offset <= |chunk| && remainSize == |chunk| - (src - offset)
      modifies this, recvBuffer.binary
      ensures Buffered()
      ensures 0 <= src' - offset <= |chunk| && remainSize == |chunk| - (src' - offset)
      ensures old(remainSize) > 0 ==> remainSize < old(remainSize)
      ensures Pending() + chunk[src' - offset..] == old(Pending()) + chunk[src - offset..]
      ensures Buffered() && currentPosition >= PacketHeaderLength
      ensures reached == (currentPosition == positionToRead)
    {
      ghost var b0, cur0, p0 := recvBuffer.binary[..], currentPosition, Pending();
      reached, src' := ReadUntil(buffer, src, offset, transfered);
      CopyMovesStream(b0, cur0, buffer, offset, transfered, src, src' - src);
      DeclaredSizeOfPrefix(p0, Pending()[|p0|..]);
      assert p0 + Pending()[|p0|..] == Pending();
    }

    /**
     * The complete callback's view of the finished packet, then _ClearBuffer:
     * the packet is the first frame of the buffered bytes and what follows them.
     */
    method TakePacket(ghost rest: seq<byte>) returns (packet: seq<byte>)
      requires Buffered() && PacketHeaderLength <= currentPosition == positionToRead
      requires WellFormed(Pending() + rest)
      modifies this, recvBuffer.binary
      ensures packet == old(Pending()) && Valid() && Pending() == []
      ensures positionToRead == old(positionToRead) && remainSize == old(remainSize)
      ensures WellFormed(Pending() + rest)
      ensures Frames(old(Pending()) + rest) == ([packet] + Frames(Pending() + rest).0, Frames(Pending() + rest).1)
    {
      SizeOfPrefix(recvBuffer.binary[..], currentPosition);
      FramesOfFrame(Pending(), rest);
      packet := recvBuffer.binary[..recvBuffer.Size()];
      ClearBuffer();
      assert Pending() + rest == rest;
    }

    /** Between calls the buffered bytes do not yet hold a whole packet. */
    lemma PendingIncomplete()
      requires Valid()
      ensures Incomplete(Pending())
    {
    }

    /** _ClearBuffer: the whole Binary is zeroed and reassembly starts over. */
    method ClearBuffer()
      requires recvBuffer.Valid()
      modifies this, recvBuffer.binary
      ensures recvBuffer.binary[..] == Zeros(MaxPacketBinaryLength) && currentPosition == 0
      ensures positionToRead == old(positionToRead) && remainSize == old(remainSize)
    {
      forall i | 0 <= i < recvBuffer.binary.Length {
        recvBuffer.binary[i] := 0;
      }
      currentPosition := 0;
    }
  }
}
