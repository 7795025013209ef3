/** Receiving and sending on a connection: partial receives, in-place header swap, checksum test,
    hand-over to the ring, and the logon and logout exchange. */
module Session {
  import opened XsheTypes
  import opened ByteOrder
  import opened Codec
  import opened Checksum
  import opened Framing
  import opened RingQueue
  import opened Common

  /** The peer's bytes cut into the pieces that arrive; every cut is possible. */
  class Socket {
    var chunks: seq<seq<byte>>
    const ending: int          // what recv returns once the stream is over: 0 or an error

    constructor (chunks: seq<seq<byte>>, ending: int)
      requires ending <= 0 && forall i :: 0 <= i < |chunks| ==> chunks[i] != []
      ensures Valid() && this.chunks == chunks && this.ending == ending
    {
      this.chunks := chunks;
      this.ending := ending;
    }

    ghost predicate Valid()
      reads this
    {
      ending <= 0 && forall i :: 0 <= i < |chunks| ==> chunks[i] != []
    }

    ghost function Pending(): seq<byte>
      reads this
    {
      Flatten(chunks)
    }

    /** recv: at most `len` bytes of what has arrived; `inBounds` says whether they stay inside the buffer, and
        if they do not nothing is promised. */
    method Recv(buffer: array<byte>, at: nat, len: nat) returns (ret: int, inBounds: bool)
      requires Valid() && 0 < len && at <= buffer.Length
      modifies this, buffer
      ensures Valid()
      ensures !inBounds ==> at + Lesser(len, |old(Pending())|) > buffer.Length
      ensures inBounds && ret <= 0 ==> old(Pending()) == [] && Pending() == [] && ret == ending
      ensures inBounds && ret > 0 ==>
                && ret <= len && at + ret <= buffer.Length
                && ret <= |old(Pending())| && Pending() == old(Pending())[ret..]
                && buffer[at..at + ret] == old(Pending())[..ret]
      ensures forall k :: 0 <= k < buffer.Length && !(at <= k < at + len) ==> buffer[k] == old(buffer[k])
      ensures forall k :: 0 <= k < at ==> buffer[k] == old(buffer[k])
    {
      if chunks == [] {
        return ending, true;
      }
      var chunk := chunks[0];
      var n := if |chunk| <= len then |chunk| else len;
      if at + n > buffer.Length {
        return n, false;
      }
      for j := 0 to n
        invariant forall k :: 0 <= k < j ==> buffer[at + k] == chunk[k]
        invariant forall k :: 0 <= k < buffer.Length && !(at <= k < at + n) ==> buffer[k] == old(buffer[k])
        invariant chunks == old(chunks)
      {
        buffer[at + j] := chunk[j];
      }
      if n == |chunk| {
        chunks := chunks[1..];
        assert old(Pending()) == chunk + Pending();
      } else {
        chunks := [chunk[n..]] + chunks[1..];
        assert old(Pending()) == chunk + Flatten(old(chunks)[1..]);
        assert Pending() == chunk[n..] + Flatten(old(chunks)[1..]);
      }
      return n, true;
    }
  }

  /** myRecv: receive until `len` bytes are there.  It leaves the buffer exactly when the bytes it asks for do
      not fit and so many of them come, however they are cut. */
  method MyRecv(sock: Socket, buffer: array<byte>, at: nat, len: nat) returns (ret: int, inBounds: bool)
    requires sock.Valid() && 0 < len && at <= buffer.Length
    modifies sock, buffer
    ensures sock.Valid()
    ensures inBounds <==> at + Lesser(len, |old(sock.Pending())|) <= buffer.Length
    ensures inBounds ==> (ret > 0 <==> |old(sock.Pending())| >= len)
    ensures inBounds && ret > 0 ==>
              buffer[at..at + len] == old(sock.Pending())[..len] && sock.Pending() == old(sock.Pending())[len..]
    ensures inBounds && ret <= 0 ==> ret < 0 && sock.Pending() == []
    ensures forall k :: 0 <= k < buffer.Length && !(at <= k < at + len) ==> buffer[k] == old(buffer[k])
  {
    ghost var stream := sock.Pending();
    var recvlen := 0;
    ret, inBounds := 0, true;
    while recvlen < len
      invariant sock.Valid() && 0 <= recvlen <= len && recvlen <= |stream| && at + recvlen <= buffer.Length && inBounds
      invariant recvlen > 0 ==> ret > 0
      invariant forall k :: 0 <= k < recvlen ==> buffer[at + k] == stream[k]
      invariant sock.Pending() == stream[recvlen..]
      invariant forall k :: 0 <= k < buffer.Length && !(at <= k < at + len) ==> buffer[k] == old(buffer[k])
      decreases len - recvlen
    {
      ret, inBounds := sock.Recv(buffer, at + recvlen, len - recvlen);
      if !inBounds {
        return ret, false;
      } else if ret < 0 {
        return ret, true;
      } else if ret == 0 {
        return -1, true;
      } else {
        forall k | recvlen <= k < recvlen + ret ensures buffer[at + k] == stream[k] {
          ghost var piece := buffer[at + recvlen..at + recvlen + ret];
          PieceAt(piece, stream, recvlen, ret, k);
          assert buffer[at + k] == piece[k - recvlen];
        }
        recvlen := recvlen + ret;
      }
    }
  }

  lemma PieceAt(piece: seq<byte>, stream: seq<byte>, start: nat, n: nat, k: nat)
    requires start <= k < start + n <= |stream| && piece == stream[start..][..n]
    ensures piece[k - start] == stream[k]
  {
  }

  /** Success counts per message type. */
  class FuncStats {
    var success: map<uint32, nat>

    constructor ()
      ensures success == map[]
    {
      success := map[];
    }

    method Count(msgType: uint32)
      modifies this
      ensures success == Counted(old(success), msgType)
    {
      if msgType !in success {
        success := success[msgType := 1];
      } else {
        success := success[msgType := success[msgType] + 1];
      }
    }
  }

  function Counted(m: map<uint32, nat>, t: uint32): (c: map<uint32, nat>)
    ensures t in c && c[t] == (if t in m then m[t] + 1 else 1)
    ensures forall u :: u != t ==> (u in c <==> u in m) && (u in m ==> c[u] == m[u])
  {
    m[t := (if t in m then m[t] else 0) + 1]
  }

  /** The header, its words swapped in place. */
  method RecvHead(sock: Socket, buffer: array<byte>) returns (ret: int, msgType: uint32, bodyLength: uint32)
    requires sock.Valid() && buffer.Length == RECV_BUFFER_SIZE
    modifies sock, buffer
    ensures sock.Valid() && (ret > 0 <==> |old(sock.Pending())| >= HEAD_SIZE)
    ensures ret <= 0 ==> sock.Pending() == []
    ensures ret > 0 ==>
              var stream := old(sock.Pending());
              && msgType == TypeOf(stream) && bodyLength == LengthOf(stream) && sock.Pending() == stream[HEAD_SIZE..]
              && buffer[..HEAD_SIZE] == Reverse(stream[0..4]) + Reverse(stream[4..8])
  {
    ghost var stream := sock.Pending();
    msgType, bodyLength := 0, 0;
    var inBounds;
    ret, inBounds := MyRecv(sock, buffer, 0, HEAD_SIZE);
    if ret <= 0 {
      return;
    }
    msgType := U32At(Big, buffer[..], 0);
    bodyLength := U32At(Big, buffer[..], 4);
    assert buffer[0..4] == stream[0..4] && buffer[4..8] == stream[4..8];
    SwapHeader(buffer);
  }

  /** Header, body and tail through the buffer; the header words are swapped in place before the
      checksum is taken over them. */
  method RecvFrame(sock: Socket, buffer: array<byte>)
    returns (ret: int, msgType: uint32, bodyLength: uint32, inBounds: bool)
    requires sock.Valid() && buffer.Length == RECV_BUFFER_SIZE
    modifies sock, buffer
    ensures sock.Valid()
    ensures inBounds <==> Fits(old(sock.Pending()))
    ensures inBounds ==> ret == Receive(old(sock.Pending())).ret && sock.Pending() == Receive(old(sock.Pending())).rest
    ensures inBounds && ret == 0 ==>
              && bodyLength <= MAX_BODY
              && Receive(old(sock.Pending())).frame == Some(Frame(msgType, buffer[HEAD_SIZE..HEAD_SIZE + bodyLength]))
  {
    ghost var stream := sock.Pending();
    ret, msgType, bodyLength := RecvHead(sock, buffer);
    if ret <= 0 {
      return -1, 0, 0, true;
    }
    ghost var swapped := buffer[..HEAD_SIZE];
    ret, inBounds := MyRecv(sock, buffer, HEAD_SIZE, bodyLength + TAIL_SIZE);
    if !inBounds {
      return ret, msgType, bodyLength, false;
    }
    if ret <= 0 {
      return -2, msgType, bodyLength, true;
    }
    var fits := CheckBufferLength(HEAD_SIZE, bodyLength, TAIL_SIZE, RECV_BUFFER_SIZE);
    if fits < 0 {
      assert false;   // a body that has been received inside the buffer passes the test
    }
    assert buffer[..HEAD_SIZE] == swapped;
    SwappedHeaderSameTail(stream, buffer[..], bodyLength);
    ret := CmpCheckSum(buffer, 0, HEAD_SIZE + bodyLength, HEAD_SIZE + bodyLength);
    if ret < 0 {
      return -4, msgType, bodyLength, true;
    }
  }

  /** One frame off the stream: heartbeats are dropped and everything else goes to the ring. */
  method RecvMsg(sock: Socket, queue: MyFifoQueueNL<QueueData>, ioFs: FuncStats) returns (ret: int, inBounds: bool)
    requires sock.Valid() && queue.Valid()
    modifies sock, queue`writeIndex, queue.buffer, ioFs
    ensures sock.Valid() && queue.Valid()
    ensures inBounds <==> Fits(old(sock.Pending()))
    ensures inBounds ==>
              var r := Receive(old(sock.Pending()));
              && ret == r.ret && sock.Pending() == r.rest
              && (ret != 0 ==> queue.Contents() == old(queue.Contents()) && ioFs.success == old(ioFs.success))
    ensures inBounds && ret == 0 ==>
              var f, q := Receive(old(sock.Pending())).frame.value, old(queue.Contents());
              && WellFormed(f)
              && queue.Contents() == (if f.msgType != 3 && f.msgType != 390095 && |q| < queue.capacity - 1
                                      then q + [Queued(f)] else q)
              && ioFs.success == Counted(old(ioFs.success), f.msgType)
  {
    var buffer := new byte[RECV_BUFFER_SIZE](_ => 0);
    var msgType, bodyLength;
    ret, msgType, bodyLength, inBounds := RecvFrame(sock, buffer);
    if !inBounds || ret != 0 {
      return;
    }
    Dispatch(buffer, msgType, bodyLength, queue);
    ioFs.Count(msgType);
  }

  /** The switch on the message type; the answer of push is ignored. */
  method Dispatch(buffer: array<byte>, msgType: uint32, bodyLength: uint32, queue: MyFifoQueueNL<QueueData>)
    requires queue.Valid() && buffer.Length == RECV_BUFFER_SIZE && bodyLength <= MAX_BODY
    modifies queue`writeIndex, queue.buffer
    ensures queue.Valid()
    ensures var f := Frame(msgType, old(buffer[HEAD_SIZE..HEAD_SIZE + bodyLength]));
            queue.Contents() == if msgType == 3 || msgType == 390095 || |old(queue.Contents())| >= queue.capacity - 1
                                then old(queue.Contents()) else old(queue.Contents()) + [Queued(f)]
  {
    if !IsHeartbeat(msgType) {
      var queueData := QueueData(msgType, bodyLength, Padded(buffer[HEAD_SIZE..HEAD_SIZE + bodyLength]));
      var _ := queue.Push(queueData);
    }
  }

  /** The IO thread's receives on one connection: what comes from frames sealed one after the other, however the
      bytes are cut, is queued in order but for the heartbeats. */
  method ReceiveFrames(
      sock: Socket, queue: MyFifoQueueNL<QueueData>, ioFs: FuncStats, n: nat, ghost frames: seq<Frame>,
      ghost tail: seq<byte>)
    requires sock.Valid() && queue.Valid() && |frames| == n && forall i :: 0 <= i < n ==> WellFormed(frames[i])
    requires sock.Pending() == Stream(frames) + tail && |queue.Contents()| + |Items(frames)| < queue.capacity
    modifies sock, queue`writeIndex, queue.buffer, ioFs
    ensures sock.Valid() && queue.Valid()
    ensures sock.Pending() == tail && queue.Contents() == old(queue.Contents()) + Items(frames)
  {
    ghost var was, stream, got := queue.Contents(), sock.Pending(), queue.Contents();
    assert frames[0..] == frames && Items([]) == [];
    for i := 0 to n
      invariant sock.Valid() && queue.Valid() && sock.Pending() == stream && queue.Contents() == got
      invariant stream == Stream(frames[i..]) + tail && got == was + Items(frames[..i])
    {
      NextOfStream(frames, i, tail);
      var ret, inBounds := RecvMsg(sock, queue, ioFs);
      stream := Stream(frames[i + 1..]) + tail;
      got := got + ItemOf(frames[i]);
      JoinThree(was, Items(frames[..i]), ItemOf(frames[i]));
    }
    assert frames[..n] == frames && stream == [] + tail;
  }

  /** Frame `i` is the next to come, and with its item there are no more items than in the end. */
  lemma NextOfStream(frames: seq<Frame>, i: nat, tail: seq<byte>)
    requires i < |frames| && forall k :: 0 <= k < |frames| ==> WellFormed(frames[k])
    ensures Fits(Stream(frames[i..]) + tail)
    ensures Receive(Stream(frames[i..]) + tail) == Received(0, Stream(frames[i + 1..]) + tail, Some(frames[i]))
    ensures Items(frames[..i + 1]) == Items(frames[..i]) + ItemOf(frames[i])
    ensures |Items(frames[..i + 1])| <= |Items(frames)|
  {
    var f, more := frames[i], Stream(frames[i + 1..]);
    assert frames[i..][1..] == frames[i + 1..];
    JoinThree(Sealed(f), more, tail);
    ReceiveSealed(f, more + tail);
    assert frames[..i + 1] == frames[..i] + [f];
    ItemsSnoc(frames[..i], f);
    ItemsGrow(frames, i + 1);
  }

  lemma {:induction false} ItemsGrow(frames: seq<Frame>, k: nat)
    requires k <= |frames|
    ensures |Items(frames[..k])| <= |Items(frames)|
    decreases |frames|
  {
    if k == |frames| {
      assert frames[..k] == frames;
    } else {
      var init := frames[..|frames| - 1];
      ItemsGrow(init, k);
      assert init[..k] == frames[..k];
    }
  }

  /** Both header words swapped where they lie. */
  method SwapHeader(buffer: array<byte>)
    requires buffer.Length == RECV_BUFFER_SIZE
    modifies buffer
    ensures buffer[..HEAD_SIZE] == Reverse(old(buffer[0..4])) + Reverse(old(buffer[4..8]))
    ensures forall k :: HEAD_SIZE <= k < buffer.Length ==> buffer[k] == old(buffer[k])
  {
    var a, b := buffer[0..4], buffer[4..8];
    buffer[0], buffer[1], buffer[2], buffer[3] := a[3], a[2], a[1], a[0];
    buffer[4], buffer[5], buffer[6], buffer[7] := b[3], b[2], b[1], b[0];
    ReverseOfFour(a);
    ReverseOfFour(b);
    assert buffer[..HEAD_SIZE] == [a[3], a[2], a[1], a[0]] + [b[3], b[2], b[1], b[0]];
  }

  lemma ReverseOfFour(a: seq<byte>)
    requires |a| == 4
    ensures Reverse(a) == [a[3], a[2], a[1], a[0]]
  {
  }

  lemma {:induction false} ReversePermutes(s: seq<byte>)
    ensures multiset(Reverse(s)) == multiset(s)
    decreases |s|
  {
    if s == [] {
      assert Reverse(s) == [];
    } else {
      var n := |s| - 1;
      ReversePermutes(s[..n]);
      assert Reverse(s) == [s[n]] + Reverse(s[..n]);
      assert s == s[..n] + [s[n]];
    }
  }

  /** Swapping the header first does not change which tail is right. */
  lemma SwappedHeaderSameTail(stream: seq<byte>, img: seq<byte>, bodyLength: nat)
    requires bodyLength <= MAX_BODY && |img| == RECV_BUFFER_SIZE && HEAD_SIZE + bodyLength + TAIL_SIZE <= |stream|
    requires img[..HEAD_SIZE] == Reverse(stream[0..4]) + Reverse(stream[4..8])
    requires img[HEAD_SIZE..HEAD_SIZE + (bodyLength + TAIL_SIZE)] == stream[HEAD_SIZE..][..bodyLength + TAIL_SIZE]
    ensures var n := HEAD_SIZE + bodyLength;
            && Tail(img[0..n]) == Tail(stream[..n])
            && img[n..n + TAIL_SIZE] == stream[n..n + TAIL_SIZE]
            && img[HEAD_SIZE..n] == stream[HEAD_SIZE..n]
  {
    var n := HEAD_SIZE + bodyLength;
    var part := stream[HEAD_SIZE..][..bodyLength + TAIL_SIZE];
    assert part == stream[HEAD_SIZE..n + TAIL_SIZE];
    SubSlice(img, HEAD_SIZE, bodyLength + TAIL_SIZE, 0, bodyLength);
    SubSlice(stream, HEAD_SIZE, bodyLength + TAIL_SIZE, 0, bodyLength);
    SubSlice(img, HEAD_SIZE, bodyLength + TAIL_SIZE, bodyLength, bodyLength + TAIL_SIZE);
    SubSlice(stream, HEAD_SIZE, bodyLength + TAIL_SIZE, bodyLength, bodyLength + TAIL_SIZE);
    var a, b, body := stream[0..4], stream[4..8], stream[HEAD_SIZE..n];
    ReversePermutes(a);
    ReversePermutes(b);
    assert img[0..n] == Reverse(a) + Reverse(b) + body;
    assert stream[..n] == a + b + body;
    SumOfPermutation(img[0..n], stream[..n]);
  }
}
