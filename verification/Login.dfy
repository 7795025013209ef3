/** The logon and logout exchange.

  The two send functions call appendTail with the end of the body as the buffer and the whole frame
  length as the length, so the checksum lands behind the bytes that are sent and the sent tail is
  zero.  A receiver that checks as this program does therefore accepts such a frame only by accident. */
module Login {
  import opened XsheTypes
  import opened ByteOrder
  import opened Codec
  import opened CodecRoundTrip
  import opened Checksum
  import opened Framing
  import opened Session

  const LOGON := 1
  const LOGOUT := 2
  const LOGON_SIZE := 92
  const LOGOUT_SIZE := 204
  const SEND_BUFFER_SIZE := 1024

  type int32 = x: int | -0x8000_0000 <= x < 0x8000_0000

  function Signed32(v: uint32): (x: int32)
    ensures x == v || x == v - 0x1_0000_0000
  {
    if v < 0x8000_0000 then v else v - 0x1_0000_0000
  }

  function Unsigned32(v: int32): (u: uint32)
    ensures Signed32(u) == v
  {
    if v >= 0 then v else v + 0x1_0000_0000
  }

  datatype LogonBody = LogonBody(sender: seq<byte>, target: seq<byte>, heartBtInt: int32, password: seq<byte>,
      version: seq<byte>)
  datatype LogoutBody = LogoutBody(status: int32, text: seq<byte>)

  ghost predicate LogonShape(b: LogonBody) {
    |b.sender| == 20 && |b.target| == 20 && |b.password| == 16 && |b.version| == 32
  }

  /** serializeLogonBody: the struct copied, its integer swapped. */
  function LogonWire(b: LogonBody): seq<byte> {
    b.sender + b.target + ToBe(Unsigned32(b.heartBtInt), 4) + b.password + b.version
  }

  function LogoutWire(b: LogoutBody): seq<byte> {
    ToBe(Unsigned32(b.status), 4) + b.text
  }

  /** The struct the receiver copies out, with its integer in host order. */
  function ReadLogon(s: seq<byte>): LogonBody
    requires |s| == LOGON_SIZE
  {
    LogonBody(s[0..20], s[20..40], Signed32(U32At(Big, s, 40)), s[44..60], s[60..92])
  }

  function ReadLogout(s: seq<byte>): LogoutBody
    requires |s| == LOGOUT_SIZE
  {
    LogoutBody(Signed32(U32At(Big, s, 0)), s[4..204])
  }

  /** Who sends comes before whom it is for; the heartbeat interval is a big-endian word, in two's complement. */
  lemma LogonLayout(b: LogonBody)
    requires LogonShape(b)
    ensures var s := LogonWire(b);
            && |s| == 92 && s[0..20] == b.sender && s[20..40] == b.target
            && (Be(s[40..44]) == b.heartBtInt || Be(s[40..44]) == b.heartBtInt + 0x1_0000_0000)
            && s[44..60] == b.password && s[60..92] == b.version
  {
    LogonRoundTrip(b);
    var s := LogonWire(b);
    assert s[40..44] == ToBe(Unsigned32(b.heartBtInt), 4);
    Powers256();
    BeOfToBe(Unsigned32(b.heartBtInt), 4);
  }

  lemma LogoutLayout(b: LogoutBody)
    requires |b.text| == 200
    ensures var s := LogoutWire(b);
            && |s| == 204 && s[4..204] == b.text
            && (Be(s[0..4]) == b.status || Be(s[0..4]) == b.status + 0x1_0000_0000)
  {
    var s := LogoutWire(b);
    assert s[0..4] == ToBe(Unsigned32(b.status), 4);
    Powers256();
    BeOfToBe(Unsigned32(b.status), 4);
  }

  lemma LogonRoundTrip(b: LogonBody)
    requires LogonShape(b)
    ensures |LogonWire(b)| == LOGON_SIZE && ReadLogon(LogonWire(b)) == b
  {
    var s := LogonWire(b);
    assert s[40..44] == ToBe(Unsigned32(b.heartBtInt), 4);
    U32RoundTrip(Unsigned32(b.heartBtInt), s, 40);
  }

  lemma LogoutRoundTrip(b: LogoutBody)
    requires |b.text| == 200
    ensures |LogoutWire(b)| == LOGOUT_SIZE && ReadLogout(LogoutWire(b)) == b
  {
    var s := LogoutWire(b);
    assert s[0..4] == ToBe(Unsigned32(b.status), 4);
    U32RoundTrip(Unsigned32(b.status), s, 0);
  }

  /** RecvLogon and RecvLogout: the return code, and the body when it is 0. */
  function Accept(s: seq<byte>, msgType: uint32, size: uint32): (int, seq<byte>)
    requires size <= MAX_BODY
  {
    if |s| < HEAD_SIZE || TypeOf(s) != msgType || LengthOf(s) != size then (-1, [])
    else if |s| < HEAD_SIZE + size + TAIL_SIZE then (-2, [])
    else if s[HEAD_SIZE + size..HEAD_SIZE + size + TAIL_SIZE] != Tail(s[..HEAD_SIZE + size]) then (-1, [])
    else (0, s[HEAD_SIZE..HEAD_SIZE + size])
  }

  /** In numbers: -1 for a header that does not come or is not the expected one, -2 for a frame that does not come to
      its end, -1 for a tail that is not the byte sum modulo 256. */
  lemma AcceptExact(s: seq<byte>, msgType: uint32, size: uint32)
    requires size <= 4084
    ensures Accept(s, msgType, size) ==
            if |s| < 8 || Be(s[0..4]) != msgType || Be(s[4..8]) != size then (-1, [])
            else if |s| < 12 + size then (-2, [])
            else if Be(s[8 + size..12 + size]) != ByteSum(s[..8 + size]) % 256 then (-1, [])
            else (0, s[8..8 + size])
  {
    if |s| >= 12 + size { TailUnique(s[..8 + size], s[8 + size..12 + size]); }
  }

  /** The checks both receive functions make, `size` being the size of the expected body. */
  method RecvLogin(sock: Socket, msgType: uint32, size: uint32) returns (ret: int, body: seq<byte>)
    requires sock.Valid() && HEAD_SIZE + size + TAIL_SIZE <= SEND_BUFFER_SIZE
    modifies sock
    ensures sock.Valid() && (ret, body) == Accept(old(sock.Pending()), msgType, size)
  {
    ghost var stream := sock.Pending();
    var buffer := new byte[SEND_BUFFER_SIZE](_ => 0);
    body := [];
    var inBounds;
    ret, inBounds := MyRecv(sock, buffer, 0, HEAD_SIZE);
    if ret <= 0 {
      return -1, [];
    }
    var gotType, gotLength := U32At(Big, buffer[..], 0), U32At(Big, buffer[..], 4);
    assert buffer[0..4] == stream[0..4] && buffer[4..8] == stream[4..8];
    if gotType != msgType || gotLength != size {
      return -1, [];
    }
    ret, inBounds := MyRecv(sock, buffer, HEAD_SIZE, size + TAIL_SIZE);
    if ret <= 0 {
      return -2, [];
    }
    BufferHoldsFrame(stream, buffer[..], size);
    ret := CmpCheckSum(buffer, 0, HEAD_SIZE + size, HEAD_SIZE + size);
    if ret != 0 {
      return -1, [];
    }
    return 0, buffer[HEAD_SIZE..HEAD_SIZE + size];
  }

  lemma BufferHoldsFrame(stream: seq<byte>, img: seq<byte>, size: nat)
    requires HEAD_SIZE + size + TAIL_SIZE <= |img| && HEAD_SIZE + size + TAIL_SIZE <= |stream|
    requires img[0..4] == stream[0..4] && img[4..8] == stream[4..8]
    requires img[HEAD_SIZE..HEAD_SIZE + (size + TAIL_SIZE)] == stream[HEAD_SIZE..][..size + TAIL_SIZE]
    ensures var n := HEAD_SIZE + size;
            && img[0..n] == stream[..n] && img[n..n + TAIL_SIZE] == stream[n..n + TAIL_SIZE]
            && img[HEAD_SIZE..n] == stream[HEAD_SIZE..n]
  {
    var n := HEAD_SIZE + size;
    assert stream[HEAD_SIZE..][..size + TAIL_SIZE] == stream[HEAD_SIZE..n + TAIL_SIZE];
    SubSlice(img, HEAD_SIZE, size + TAIL_SIZE, 0, size);
    SubSlice(stream, HEAD_SIZE, size + TAIL_SIZE, 0, size);
    SubSlice(img, HEAD_SIZE, size + TAIL_SIZE, size, size + TAIL_SIZE);
    SubSlice(stream, HEAD_SIZE, size + TAIL_SIZE, size, size + TAIL_SIZE);
    assert img[0..n] == img[0..4] + img[4..8] + img[HEAD_SIZE..n];
    assert stream[..n] == stream[0..4] + stream[4..8] + stream[HEAD_SIZE..n];
  }

  /** Head, body, and appendTail called on the end of the body: the bytes that go out. */
  method BuildFrame(msgType: uint32, body: seq<byte>) returns (sent: seq<byte>)
    requires 2 * (HEAD_SIZE + |body|) + TAIL_SIZE <= SEND_BUFFER_SIZE
    ensures sent == Sent(msgType, body)
  {
    var buf := new byte[SEND_BUFFER_SIZE](_ => 0);
    StoreAt(buf, 0, Head(msgType, |body|));
    StoreAt(buf, HEAD_SIZE, body);
    var end := HEAD_SIZE + |body|;
    ghost var frame := buf[..end + TAIL_SIZE];
    assert frame == Sent(msgType, body);
    AppendTail(buf, end, end);
    sent := buf[..end + TAIL_SIZE];
    assert sent == frame;
  }

  method StoreAt(buf: array<byte>, at: nat, bytes: seq<byte>)
    requires at + |bytes| <= buf.Length
    modifies buf
    ensures forall k :: 0 <= k < |bytes| ==> buf[at + k] == bytes[k]
    ensures forall k :: 0 <= k < buf.Length && !(at <= k < at + |bytes|) ==> buf[k] == old(buf[k])
  {
    for j := 0 to |bytes|
      invariant forall k :: 0 <= k < j ==> buf[at + k] == bytes[k]
      invariant forall k :: 0 <= k < buf.Length && !(at <= k < at + |bytes|) ==> buf[k] == old(buf[k])
    {
      buf[at + j] := bytes[j];
    }
  }

  /** SendLogon. */
  method SendLogon(body: LogonBody) returns (sent: seq<byte>)
    requires LogonShape(body)
    ensures sent == Sent(LOGON, LogonWire(body))
  {
    LogonRoundTrip(body);
    sent := BuildFrame(LOGON, LogonWire(body));
  }

  /** The text SendLogout copies into its zeroed body. */
  function LogoutText(): seq<byte> { [76, 111, 103, 111, 117, 116] + seq(194, _ => 0) }

  /** SendLogout. */
  method SendLogout() returns (sent: seq<byte>)
    ensures sent == Sent(LOGOUT, LogoutWire(LogoutBody(0, LogoutText())))
  {
    LogoutRoundTrip(LogoutBody(0, LogoutText()));
    sent := BuildFrame(LOGOUT, LogoutWire(LogoutBody(0, LogoutText())));
  }

  /** The tail that goes out: never written, so still zero. */
  function ZeroTail(): seq<byte> { [0, 0, 0, 0] }

  function Sent(msgType: uint32, body: seq<byte>): seq<byte>
    requires |body| <= MAX_BODY
  {
    Head(msgType, |body|) + body + ZeroTail()
  }

  /** What goes out: type, length, body, and four zeros where the checksum belongs. */
  lemma SentLayout(msgType: uint32, body: seq<byte>)
    requires |body| <= 4084
    ensures var s, n := Sent(msgType, body), |body|;
            && |s| == 12 + n && Be(s[0..4]) == msgType && Be(s[4..8]) == n && s[8..8 + n] == body
            && s[8 + n..12 + n] == [0, 0, 0, 0]
  {
    var s := Sent(msgType, body);
    assert s[..HEAD_SIZE] == Head(msgType, |body|);
    HeadReads(msgType, |body|, s);
  }

  // ---------------------------------------------------------------- what is accepted

  /** A frame sealed behind its body is accepted and gives the body back. */
  lemma SealedAccepted(msgType: uint32, body: seq<byte>, rest: seq<byte>)
    requires |body| <= MAX_BODY
    ensures Accept(Sealed(Frame(msgType, body)) + rest, msgType, |body|) == (0, body)
  {
    var f := Frame(msgType, body);
    var s := Sealed(f) + rest;
    assert s[..HEAD_SIZE] == Head(msgType, |body|);
    HeadReads(msgType, |body|, s);
    ReceiveSealed(f, rest);
  }

  lemma SealedLogonGivesBack(b: LogonBody)
    requires LogonShape(b)
    ensures |LogonWire(b)| == LOGON_SIZE
    ensures var (ret, body) := Accept(Sealed(Frame(LOGON, LogonWire(b))), LOGON, LOGON_SIZE);
            ret == 0 && |body| == LOGON_SIZE && ReadLogon(body) == b
  {
    LogonRoundTrip(b);
    SealedAccepted(LOGON, LogonWire(b), []);
    assert Sealed(Frame(LOGON, LogonWire(b))) + [] == Sealed(Frame(LOGON, LogonWire(b)));
  }

  lemma SealedLogoutGivesBack(b: LogoutBody)
    requires |b.text| == 200
    ensures |LogoutWire(b)| == LOGOUT_SIZE
    ensures var (ret, body) := Accept(Sealed(Frame(LOGOUT, LogoutWire(b))), LOGOUT, LOGOUT_SIZE);
            ret == 0 && |body| == LOGOUT_SIZE && ReadLogout(body) == b
  {
    LogoutRoundTrip(b);
    SealedAccepted(LOGOUT, LogoutWire(b), []);
    assert Sealed(Frame(LOGOUT, LogoutWire(b))) + [] == Sealed(Frame(LOGOUT, LogoutWire(b)));
  }

  /** Changing any single byte of a sealed logon or logout frame makes the receiver reject it. */
  lemma OneByteRejected(msgType: uint32, body: seq<byte>, i: nat, v: byte)
    requires |body| <= MAX_BODY
    requires i < |Sealed(Frame(msgType, body))| && v != Sealed(Frame(msgType, body))[i]
    ensures Accept(Sealed(Frame(msgType, body))[i := v], msgType, |body|).0 < 0
  {
    var f := Frame(msgType, body);
    var s := Sealed(f)[i := v];
    if 4 <= i < 8 {
      assert s[4..8] == Head(msgType, |body|)[4..8][i - 4 := v];
      assert Head(msgType, |body|)[4..8] == ToBe(|body|, 4);
      ToBeOfBe(s[4..8]);
    } else {
      CorruptionDetected(f, [], i, v);
      assert s + [] == s;
    }
  }

  lemma HeadSum(msgType: uint32, length: uint32)
    requires msgType < 256 && length < 256
    ensures ByteSum(Head(msgType, length)) == msgType + length
  {
    assert ToBe(0, 3) == [0, 0, 0] by { assert ToBe(0, 2) == [0, 0]; }
    var h := Head(msgType, length);
    assert h == [0, 0, 0, msgType, 0, 0, 0, length];
    assert SumTo(h, 1) == 0;
    assert SumTo(h, 2) == 0;
    assert SumTo(h, 4) == msgType;
    assert SumTo(h, 6) == msgType;
    assert SumTo(h, 7) == msgType;
    assert SumTo(h, 8) == msgType + length;
  }

  lemma {:induction false} ZerosTo(s: seq<byte>, n: nat)
    requires n <= |s| && forall i :: 0 <= i < |s| ==> s[i] == 0
    ensures SumTo(s, n) == 0
  {
    if n > 0 { ZerosTo(s, n - 1); }
  }

  lemma SumOfZeros(s: seq<byte>)
    requires forall i :: 0 <= i < |s| ==> s[i] == 0
    ensures ByteSum(s) == 0
  {
    ZerosTo(s, |s|);
  }

  lemma SentTailTest(msgType: uint32, body: seq<byte>)
    requires |body| <= MAX_BODY
    ensures Accept(Sent(msgType, body), msgType, |body|).0 == 0 <==> ZeroTail() == Tail(Head(msgType, |body|) + body)
  {
    var s, n := Sent(msgType, body), HEAD_SIZE + |body|;
    assert s[..HEAD_SIZE] == Head(msgType, |body|);
    HeadReads(msgType, |body|, s);
    assert s[..n] == Head(msgType, |body|) + body && s[n..n + TAIL_SIZE] == ZeroTail();
  }

  /** A frame as the send functions build it passes the matching receive checks exactly when its type,
      its length and the bytes of its body happen to add up to a multiple of 256. */
  lemma SentAcceptedIff(msgType: uint32, body: seq<byte>)
    requires msgType < 256 && |body| < 256
    ensures Accept(Sent(msgType, body), msgType, |body|).0 == 0 <==> (msgType + |body| + ByteSum(body)) % 256 == 0
  {
    var sealed := Head(msgType, |body|) + body;
    assert ByteSum(sealed) == msgType + |body| + ByteSum(body) by { FrameSum(msgType, body); }
    assert ZeroTail() == Tail(sealed) <==> ByteSum(sealed) % 256 == 0 by { ZeroTailIff(sealed); }
    SentTailTest(msgType, body);
  }

  lemma ZeroTailIff(s: seq<byte>)
    ensures ZeroTail() == Tail(s) <==> ByteSum(s) % 256 == 0
  {
    BeOfZeros(ZeroTail());
    TailUnique(s, ZeroTail());
  }

  lemma FrameSum(msgType: uint32, body: seq<byte>)
    requires msgType < 256 && |body| < 256
    ensures ByteSum(Head(msgType, |body|) + body) == msgType + |body| + ByteSum(body)
  {
    HeadSum(msgType, |body|);
    SumOfConcat(Head(msgType, |body|), body);
  }

  lemma LogoutSum()
    ensures ByteSum(LogoutWire(LogoutBody(0, LogoutText()))) == 634
  {
    var word, zeros := [76, 111, 103, 111, 117, 116], seq(194, _ => 0);
    assert ToBe(0, 4) == [0, 0, 0, 0] by { assert ToBe(0, 3) == [0, 0, 0] by { assert ToBe(0, 2) == [0, 0]; } }
    assert LogoutWire(LogoutBody(0, LogoutText())) == [0, 0, 0, 0] + (word + zeros);
    SumOfConcat([0, 0, 0, 0], word + zeros);
    SumOfConcat(word, zeros);
    SumOfZeros([0, 0, 0, 0]);
    SumOfZeros(zeros);
    WordSum();
  }

  /** The logout frame this program sends never passes its own check. */
  lemma SentLogoutRejected()
    ensures var body := LogoutWire(LogoutBody(0, LogoutText()));
            |body| == LOGOUT_SIZE && Accept(Sent(LOGOUT, body), LOGOUT, LOGOUT_SIZE).0 != 0
  {
    LogoutRoundTrip(LogoutBody(0, LogoutText()));
    LogoutSum();
    SentAcceptedIff(LOGOUT, LogoutWire(LogoutBody(0, LogoutText())));
  }

  lemma WordSum()
    ensures ByteSum([76, 111, 103, 111, 117, 116]) == 634
  {
    var s: seq<byte> := [76, 111, 103, 111, 117, 116];
    assert SumTo(s, 1) == 76;
    assert SumTo(s, 2) == 187;
    assert SumTo(s, 3) == 290;
    assert SumTo(s, 4) == 401;
    assert SumTo(s, 5) == 518;
  }
}
