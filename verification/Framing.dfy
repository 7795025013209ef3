/** Frames on the byte stream: what one receive takes off it, and what a sequence of frames is. */
module Framing {
  import opened XsheTypes
  import opened ByteOrder
  import opened Codec
  import opened Checksum
  import opened Common

  const HEAD_SIZE := 8
  const TAIL_SIZE := 4
  const RECV_BUFFER_SIZE := 4096
  const MAX_BODY := 4084         // the longest body the receive buffer holds

  const HEARTBEAT := 3
  const CHANNEL_HEARTBEAT := 390095

  /** What RecvMsg hands to the ring: the header in host order and the body, zero-padded. */
  datatype QueueData = QueueData(msgType: uint32, bodyLength: uint32, body: Body)

  datatype Frame = Frame(msgType: uint32, body: seq<byte>)

  function Queued(f: Frame): (q: QueueData)
    requires |f.body| <= MAX_BODY
    ensures q.msgType == f.msgType && q.bodyLength == |f.body| && q.body[..|f.body|] == f.body
    ensures forall k :: |f.body| <= k < 4096 ==> q.body[k] == 0
  {
    QueueData(f.msgType, |f.body|, Padded(f.body))
  }

  function Head(msgType: uint32, length: uint32): (h: seq<byte>)
    ensures |h| == HEAD_SIZE
  {
    ToBe(msgType, 4) + ToBe(length, 4)
  }

  predicate WellFormed(f: Frame) { |f.body| <= MAX_BODY }

  /** The bytes of a frame as a correct sender seals it. */
  function Sealed(f: Frame): (s: seq<byte>)
    requires WellFormed(f)
    ensures |s| == HEAD_SIZE + |f.body| + TAIL_SIZE
  {
    Head(f.msgType, |f.body|) + f.body + Tail(Head(f.msgType, |f.body|) + f.body)
  }

  function TypeOf(s: seq<byte>): uint32
    requires |s| >= HEAD_SIZE
  {
    U32At(Big, s, 0)
  }

  function LengthOf(s: seq<byte>): uint32
    requires |s| >= HEAD_SIZE
  {
    U32At(Big, s, 4)
  }

  /** The result of one RecvMsg: its return code, the stream left, and the frame if it was good. */
  datatype Received = Received(ret: int, rest: seq<byte>, frame: Option<Frame>)

  /** The types RecvMsg keeps from the ring. */
  predicate IsHeartbeat(msgType: uint32) { msgType == HEARTBEAT || msgType == CHANNEL_HEARTBEAT }

  function ItemOf(f: Frame): seq<QueueData>
    requires WellFormed(f)
  {
    if IsHeartbeat(f.msgType) then [] else [Queued(f)]
  }

  /** The items RecvMsg makes of frames: heartbeats are dropped. */
  function Items(frames: seq<Frame>): seq<QueueData> {
    if frames == [] then []
    else
      var f := frames[|frames| - 1];
      Items(frames[..|frames| - 1]) + if WellFormed(f) then ItemOf(f) else []
  }

  lemma ItemsSnoc(frames: seq<Frame>, f: Frame)
    requires WellFormed(f)
    ensures Items(frames + [f]) ==
            if f.msgType == 3 || f.msgType == 390095 then Items(frames) else Items(frames) + [Queued(f)]
  {
    assert (frames + [f])[..|frames|] == frames;
  }

  /** Receiving stays inside the receive buffer: the next frame announces a body that fits it, or too little
      comes to fill it.  The length test comes too late to ensure this. */
  predicate Fits(s: seq<byte>) { |s| > RECV_BUFFER_SIZE ==> LengthOf(s) <= MAX_BODY }

  function Receive(s: seq<byte>): Received
    requires Fits(s)
  {
    if |s| < HEAD_SIZE then Received(-1, [], None)
    else
      var n := LengthOf(s);
      if |s| < HEAD_SIZE + n + TAIL_SIZE then Received(-2, [], None)
      else
        var rest := s[HEAD_SIZE + n + TAIL_SIZE..];
        if s[HEAD_SIZE + n..HEAD_SIZE + n + TAIL_SIZE] != Tail(s[..HEAD_SIZE + n]) then Received(-4, rest, None)
        else Received(0, rest, Some(Frame(TypeOf(s), s[HEAD_SIZE..HEAD_SIZE + n])))
  }

  /** All of it in numbers: type and length are the first two big-endian words, the tail that is expected is the
      byte sum of everything before it modulo 256, and whatever is not received to its end is gone. */
  lemma ReceiveExact(s: seq<byte>)
    ensures Fits(s) <==> |s| <= 4096 || Be(s[4..8]) <= 4084
    ensures |s| < 8 ==> Receive(s) == Received(-1, [], None)
    ensures Fits(s) && |s| >= 8 ==>
              var n := Be(s[4..8]);
              && (|s| < 12 + n ==> Receive(s) == Received(-2, [], None))
              && (|s| >= 12 + n && Be(s[8 + n..12 + n]) != ByteSum(s[..8 + n]) % 256 ==>
                    Receive(s) == Received(-4, s[12 + n..], None))
              && (|s| >= 12 + n && Be(s[8 + n..12 + n]) == ByteSum(s[..8 + n]) % 256 ==>
                    && Receive(s).ret == 0 && Receive(s).rest == s[12 + n..] && Receive(s).frame.Some?
                    && Receive(s).frame.value.msgType == Be(s[0..4]) && Receive(s).frame.value.body == s[8..8 + n])
  {
    if |s| >= 8 {
      var n: nat := LengthOf(s);
      if |s| >= 12 + n { TailUnique(s[..8 + n], s[8 + n..12 + n]); }
    }
  }

  /** And what a sender writes. */
  lemma SealedLayout(f: Frame)
    requires |f.body| <= 4084
    ensures var s, n := Sealed(f), |f.body|;
            && |s| == 12 + n && Be(s[0..4]) == f.msgType && Be(s[4..8]) == n && s[8..8 + n] == f.body
            && Be(s[8 + n..12 + n]) == ByteSum(s[..8 + n]) % 256
  {
    ReceiveSealed(f, []);
    assert Sealed(f) + [] == Sealed(f);
    ReceiveExact(Sealed(f));
    HeadReads(f.msgType, |f.body|, Sealed(f));
  }

  /** Too long an announcement either leads the receive out of its buffer, as soon as enough bytes follow, or
      fails for want of bytes: no frame of more than MAX_BODY bytes is ever delivered. */
  lemma LongFrameNotDelivered(s: seq<byte>)
    requires |s| >= HEAD_SIZE && LengthOf(s) > MAX_BODY
    ensures Fits(s) <==> |s| <= RECV_BUFFER_SIZE
    ensures Fits(s) ==> Receive(s) == Received(-2, [], None)
  {
  }

  /** Such streams exist, for every length from 4085 up. */
  lemma LongFrameExists(msgType: uint32, length: uint32, rest: seq<byte>)
    requires length > MAX_BODY && |rest| > RECV_BUFFER_SIZE - HEAD_SIZE
    ensures !Fits(Head(msgType, length) + rest)
  {
    var s := Head(msgType, length) + rest;
    assert s[..HEAD_SIZE] == Head(msgType, length);
    HeadReads(msgType, length, s);
  }

  lemma HeadReads(msgType: uint32, length: uint32, s: seq<byte>)
    requires |s| >= HEAD_SIZE && s[..HEAD_SIZE] == Head(msgType, length)
    ensures TypeOf(s) == msgType && LengthOf(s) == length
  {
    var h := s[..HEAD_SIZE];
    assert s[0..4] == h[0..4] == ToBe(msgType, 4);
    assert s[4..8] == h[4..8] == ToBe(length, 4);
    Powers256();
    BeOfToBe(msgType, 4);
    BeOfToBe(length, 4);
  }

  /** Receiving takes exactly one sealed frame off the stream and gives it back. */
  lemma ReceiveSealed(f: Frame, tail: seq<byte>)
    requires WellFormed(f)
    ensures Fits(Sealed(f) + tail) && Receive(Sealed(f) + tail) == Received(0, tail, Some(f))
  {
    var h := Head(f.msgType, |f.body|);
    var s := Sealed(f) + tail;
    var n := HEAD_SIZE + |f.body|;
    assert s[..HEAD_SIZE] == h;
    HeadReads(f.msgType, |f.body|, s);
    assert s[..n] == h + f.body;
    assert s[n..n + TAIL_SIZE] == Tail(h + f.body);
    assert s[n + TAIL_SIZE..] == tail;
    assert s[HEAD_SIZE..n] == f.body;
  }

  /** And conversely: a frame is delivered only if the stream starts with its sealed bytes. */
  lemma ReceivedIsSealed(s: seq<byte>)
    requires Fits(s) && Receive(s).ret == 0
    ensures WellFormed(Receive(s).frame.value)
    ensures s == Sealed(Receive(s).frame.value) + Receive(s).rest
  {
    var f, n := Receive(s).frame.value, LengthOf(s);
    ToBeOfBe(s[0..4]);
    ToBeOfBe(s[4..8]);
    Join(s, 0, 4, 8);
    assert Head(f.msgType, n) == s[0..4] + s[4..8] == s[..HEAD_SIZE];
    assert s[..HEAD_SIZE + n] == Head(f.msgType, n) + f.body;
    assert s == s[..HEAD_SIZE + n] + s[HEAD_SIZE + n..HEAD_SIZE + n + TAIL_SIZE] + Receive(s).rest;
  }

  function Stream(frames: seq<Frame>): seq<byte>
    requires forall i :: 0 <= i < |frames| ==> WellFormed(frames[i])
    decreases |frames|
  {
    if frames == [] then [] else Sealed(frames[0]) + Stream(frames[1..])
  }

  /** Repeated receives take `frames` off `s`, one by one, and leave `rest`. */
  ghost predicate Delivers(s: seq<byte>, frames: seq<Frame>, rest: seq<byte>)
    decreases |frames|
  {
    if frames == [] then s == rest
    else
      && Fits(s) && Receive(s).ret == 0 && Receive(s).frame == Some(frames[0])
      && Delivers(Receive(s).rest, frames[1..], rest)
  }

  /** A stream of sealed frames, whatever follows, is received as exactly those frames. */
  lemma {:induction false} StreamDelivers(frames: seq<Frame>, tail: seq<byte>)
    requires forall i :: 0 <= i < |frames| ==> WellFormed(frames[i])
    ensures Delivers(Stream(frames) + tail, frames, tail)
    decreases |frames|
  {
    if frames == [] {
      assert Stream(frames) + tail == tail;
    } else {
      var f, more := frames[0], Stream(frames[1..]) + tail;
      StreamDelivers(frames[1..], tail);
      JoinThree(Sealed(f), Stream(frames[1..]), tail);
      ReceiveSealed(f, more);
    }
  }

  lemma JoinThree<T>(a: seq<T>, b: seq<T>, c: seq<T>)
    ensures a + (b + c) == a + b + c
  {
  }

  /** Only such a stream delivers them. */
  lemma {:induction false} DeliversIsStream(s: seq<byte>, frames: seq<Frame>, rest: seq<byte>)
    requires Delivers(s, frames, rest)
    ensures forall i :: 0 <= i < |frames| ==> WellFormed(frames[i])
    ensures s == Stream(frames) + rest
    decreases |frames|
  {
    if frames != [] {
      var f, more := frames[0], Receive(s).rest;
      assert WellFormed(f) && s == Sealed(f) + more by { ReceivedIsSealed(s); }
      assert (forall i :: 0 <= i < |frames| - 1 ==> WellFormed(frames[1..][i]))
             && more == Stream(frames[1..]) + rest by {
        DeliversIsStream(more, frames[1..], rest);
      }
      assert forall i :: 1 <= i < |frames| ==> frames[i] == frames[1..][i - 1];
      assert Stream(frames) == Sealed(f) + Stream(frames[1..]);
      JoinThree(Sealed(f), Stream(frames[1..]), rest);
    }
  }

  /** Changing any byte outside the length field makes the checksum test fail. */
  lemma CorruptionDetected(f: Frame, tail: seq<byte>, i: nat, v: byte)
    requires WellFormed(f) && i < |Sealed(f)| && v != Sealed(f)[i] && !(4 <= i < 8)
    ensures var s := Sealed(f)[i := v] + tail; Fits(s) && Receive(s) == Received(-4, tail, None)
  {
    var h, n := Head(f.msgType, |f.body|), HEAD_SIZE + |f.body|;
    var clean := h + f.body;
    var s := Sealed(f)[i := v] + tail;
    assert s[4..8] == h[4..8] == ToBe(|f.body|, 4);
    Powers256();
    BeOfToBe(|f.body|, 4);
    assert s[n + TAIL_SIZE..] == tail;
    if i < n {
      OneByteChange(clean, i, v);
      assert s[..n] == clean[i := v];
      assert s[n..n + TAIL_SIZE] == Tail(clean);
      TailReads(clean);
      TailReads(clean[i := v]);
    } else {
      assert s[..n] == clean;
      assert s[n..n + TAIL_SIZE][i - n] == v;
      assert Sealed(f)[i] == Tail(clean)[i - n];
    }
  }
}
