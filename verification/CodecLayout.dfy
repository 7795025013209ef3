/** Where the fields of every body lie on the wire, byte by byte, and which bodies the decoders accept. */
module CodecLayout {
  import opened XsheTypes
  import opened ByteOrder
  import opened Codec
  import opened CodecRoundTrip

  lemma {:induction false} ReadAllAt<E>(read: seq<byte> --> E, w: nat, n: nat, s: seq<byte>, i: nat, at: nat)
    requires forall c :: |c| == w ==> read.requires(c)
    requires i < n && at == w * i && at + w <= |s|
    ensures i < |ReadAll(read, w, n, s)| && ReadAll(read, w, n, s)[i] == read(s[at..at + w])
    decreases i
  {
    if i > 0 {
      OneLess(w, i);
      ReadAllAt(read, w, n - 1, s[w..], i - 1, at - w);
      SliceOfRest(s, w, at - w, at);
    }
  }

  lemma SliceOfRest(s: seq<byte>, w: nat, lo: nat, hi: nat)
    requires lo <= hi && w + hi <= |s|
    ensures s[w..][lo..hi] == s[w + lo..w + hi]
  {
    SubSlice(s, w, |s| - w, lo, hi);
    assert s[w..w + (|s| - w)] == s[w..];
  }

  lemma OneLess(w: nat, i: nat)
    requires i > 0
    ensures w * i == w * (i - 1) + w
  {
  }

  lemma {:induction false} ReadAllLength<E>(read: seq<byte> --> E, w: nat, n: nat, s: seq<byte>)
    requires forall c :: |c| == w ==> read.requires(c)
    requires w * n <= |s|
    ensures |ReadAll(read, w, n, s)| == n
    decreases n
  {
    if n > 0 {
      OneLess(w, n);
      ReadAllLength(read, w, n - 1, s[w..]);
    }
  }

  /** The part that messages 300111 and 306311 share. */
  lemma PrefixAt(b: Body)
    ensures var p := WireMD(b).prefix;
            && p.origTime == Int64(b[0..8]) && p.channelNo == Be(b[8..10]) && p.mdStreamId == b[10..13]
            && p.securityId == b[13..21] && p.securityIdSource == b[21..25] && p.tradingPhaseCode == b[25..33]
            && p.prevClosePx == Int64(b[33..41]) && p.numTrades == Int64(b[41..49])
            && p.totalVolumeTrade == Int64(b[49..57]) && p.totalValueTrade == Int64(b[57..65])
    ensures MDCount(b) == Be(b[65..69])
    ensures MDCount(b) <= 30 ==> HkMessageOf(b).prefix == WireHk(b).prefix == WireMD(b).prefix
    ensures MDCount(b) <= 30 ==> HkMessageOf(b).entries == WireHk(b).entries
  {
  }

  lemma MDEntryRead(b: Body, i: nat)
    requires i < MDCount(b) <= 30
    ensures |WireMD(b).entries| == MDCount(b)
    ensures WireMD(b).entries[i] == ReadMDEntry(Big, b[69 + 32 * i..69 + 32 * i + 32])
  {
    var n, rest := MDCount(b), b[PREFIX_SIZE..];
    assert |WireMD(b).entries| == n by { ReadAllLength(MDReader(Big), MD_ENTRY_SIZE, n, rest); }
    var c := rest[32 * i..32 * i + 32];
    assert WireMD(b).entries[i] == MDReader(Big)(c) by { ReadAllAt(MDReader(Big), MD_ENTRY_SIZE, n, rest, i, 32 * i); }
    SliceOfRest(b, PREFIX_SIZE, 32 * i, 32 * i + 32);
  }

  /** Entry `i` of message 300111: 32 bytes each, from byte 69 on. */
  lemma MDEntryAt(b: Body, i: nat)
    requires i < Be(b[65..69]) <= 30
    ensures |WireMD(b).entries| == Be(b[65..69])
    ensures var e, at := WireMD(b).entries[i], 69 + 32 * i;
            && e.entryType == b[at..at + 2] && e.px == Int64(b[at + 2..at + 10])
            && e.size == Int64(b[at + 10..at + 18]) && e.level == Be(b[at + 18..at + 20])
            && e.numberOfOrders == Int64(b[at + 20..at + 28]) && e.noOrders == Be(b[at + 28..at + 32])
  {
    MDEntryRead(b, i);
    var at := 69 + 32 * i;
    SubSlice(b, at, 32, 0, 2);
    SubSlice(b, at, 32, 2, 10);
    SubSlice(b, at, 32, 10, 18);
    SubSlice(b, at, 32, 18, 20);
    SubSlice(b, at, 32, 20, 28);
    SubSlice(b, at, 32, 28, 32);
  }

  lemma HkEntryRead(b: Body, i: nat)
    requires i < MDCount(b) <= 30
    ensures |WireHk(b).entries| == MDCount(b)
    ensures WireHk(b).entries[i] == ReadHkEntry(Big, b[69 + 20 * i..69 + 20 * i + 20])
  {
    var n, rest := MDCount(b), b[PREFIX_SIZE..];
    assert |WireHk(b).entries| == n by { ReadAllLength(HkReader(Big), HK_ENTRY_SIZE, n, rest); }
    var c := rest[20 * i..20 * i + 20];
    assert WireHk(b).entries[i] == HkReader(Big)(c) by { ReadAllAt(HkReader(Big), HK_ENTRY_SIZE, n, rest, i, 20 * i); }
    SliceOfRest(b, PREFIX_SIZE, 20 * i, 20 * i + 20);
  }

  /** Entry `i` of message 306311: 20 bytes each, from byte 69 on. */
  lemma HkEntryAt(b: Body, i: nat)
    requires i < Be(b[65..69]) <= 30
    ensures |WireHk(b).entries| == Be(b[65..69])
    ensures var e, at := WireHk(b).entries[i], 69 + 20 * i;
            && e.entryType == b[at..at + 2] && e.px == Int64(b[at + 2..at + 10])
            && e.size == Int64(b[at + 10..at + 18]) && e.level == Be(b[at + 18..at + 20])
  {
    HkEntryRead(b, i);
    var at := 69 + 20 * i;
    SubSlice(b, at, 20, 0, 2);
    SubSlice(b, at, 20, 2, 10);
    SubSlice(b, at, 20, 10, 18);
    SubSlice(b, at, 20, 18, 20);
  }

  lemma WindowRead(b: Body, block: nat, n: uint32, i: nat)
    requires i < n && block + 4 + 16 * n <= BODY_SIZE
    ensures var ws := ReadAll(WindowReader(Big), WINDOW_SIZE, n, b[block + 4..]);
            var at := block + 4 + 16 * i;
            && |ws| == n && ws[i].start == Int64(b[at..at + 8]) && ws[i].end == Int64(b[at + 8..at + 16])
  {
    var at := block + 4 + 16 * i;
    ReadAllAt(WindowReader(Big), WINDOW_SIZE, n, b[block + 4..], i, 16 * i);
    ReadAllLength(WindowReader(Big), WINDOW_SIZE, n, b[block + 4..]);
    SliceOfRest(b, block + 4, 16 * i, 16 * i + 16);
    SubSlice(b, at, 16, 0, 8);
    SubSlice(b, at, 16, 8, 16);
  }

  /** The block behind however many entries there are: a count, then 16 bytes for each window. */
  lemma WindowAt(b: Body, block: nat, i: nat)
    requires Be(b[65..69]) <= 30 && block == 69 + 20 * Be(b[65..69])
    requires i < Be(b[block..block + 4]) && block + 4 + 16 * Be(b[block..block + 4]) <= 4096
    ensures var at, ws := block + 4 + 16 * i, HkMessageOf(b).windows;
            && |ws| == WindowCount(b) == Be(b[block..block + 4])
            && ws[i].start == Int64(b[at..at + 8]) && ws[i].end == Int64(b[at + 8..at + 16])
  {
    WindowRead(b, block, WindowCount(b), i);
  }

  lemma VcmRead(b: Body, block: nat)
    requires block + 20 <= BODY_SIZE
    ensures var v := ReadVcm(Big, b[block..block + 20]);
            && v.times == Be(b[block..block + 4]) && v.start == Int64(b[block + 4..block + 12])
            && v.end == Int64(b[block + 12..block + 20])
  {
    SubSlice(b, block, 20, 0, 4);
    SubSlice(b, block, 20, 4, 12);
    SubSlice(b, block, 20, 12, 20);
  }

  /** The host keeps the count and the first window, or zeros if there is none, whatever lies behind the count. */
  lemma KeptVcmAt(b: Body, block: nat)
    requires Be(b[65..69]) <= 30 && block == 69 + 20 * Be(b[65..69])
    ensures var n, v := Be(b[block..block + 4]), Kept(WireHk(b)).vcm;
            && v.times == n && v.start == (if n == 0 then 0 else Int64(b[block + 4..block + 12]))
            && v.end == if n == 0 then 0 else Int64(b[block + 12..block + 20])
    ensures Kept(WireHk(b)).prefix == WireHk(b).prefix && Kept(WireHk(b)).entries == WireHk(b).entries
  {
    VcmRead(b, block);
  }

  lemma StatEntryRead(b: Body, i: nat)
    requires i < StatCount(b) <= 30
    ensures |WireStat(b).entries| == StatCount(b)
    ensures WireStat(b).entries[i] == ReadStatEntry(Big, b[14 + 15 * i..14 + 15 * i + 15])
  {
    var n, rest := StatCount(b), b[STAT_PREFIX_SIZE..];
    assert |WireStat(b).entries| == n by { ReadAllLength(StatReader(Big), STAT_ENTRY_SIZE, n, rest); }
    var c := rest[15 * i..15 * i + 15];
    assert WireStat(b).entries[i] == StatReader(Big)(c) by {
      ReadAllAt(StatReader(Big), STAT_ENTRY_SIZE, n, rest, i, 15 * i);
    }
    SliceOfRest(b, STAT_PREFIX_SIZE, 15 * i, 15 * i + 15);
  }

  /** Message 390090: 15 bytes an entry, from byte 14 on. */
  lemma StatEntryAt(b: Body, i: nat)
    requires i < Be(b[10..14]) <= 30
    ensures var m := WireStat(b);
            && m.origTime == Int64(b[0..8]) && m.channelNo == Be(b[8..10])
            && |m.entries| == StatCount(b) == Be(b[10..14])
    ensures var e, at := WireStat(b).entries[i], 14 + 15 * i;
            e.mdStreamId == b[at..at + 3] && e.stockNum == Be(b[at + 3..at + 7])
            && e.tradingPhaseCode == b[at + 7..at + 15]
  {
    StatEntryRead(b, i);
    var at := 14 + 15 * i;
    SubSlice(b, at, 15, 0, 3);
    SubSlice(b, at, 15, 3, 7);
    SubSlice(b, at, 15, 7, 15);
  }

  /** Message 390019. */
  lemma StatusFields(b: Body)
    ensures var m := ReadStatus(Big, b);
            && m.origTime == Int64(b[0..8]) && m.channelNo == Be(b[8..10]) && m.marketId == b[10..18]
            && m.marketSegmentId == b[18..26] && m.tradingSessionId == b[26..30] && m.tradingSessionSubId == b[30..34]
            && m.tradSesStatus == Be(b[34..36]) && m.tradSesStartTime == Int64(b[36..44])
            && m.tradSesEndTime == Int64(b[44..52]) && m.thresholdAmount == Int64(b[52..60])
            && m.posAmt == Int64(b[60..68]) && m.amountStatus == b[68]
  {
  }

  // ---------------------------------------------------------------- what is accepted

  /** The return codes, from the counts on the wire: -1 for more than 30 entries, -2 for a length that does not
      go with them. */
  lemma StatusCodes(b: Body, length: uint32)
    ensures MDStatus(b, length) ==
            if Be(b[65..69]) > 30 then -1 else if length != 69 + 32 * Be(b[65..69]) then -2 else 0
    ensures HkStatus(b, length) ==
            if Be(b[65..69]) > 30 then -1
            else
              var block := 69 + 20 * Be(b[65..69]);
              if length != block + 4 + 16 * Be(b[block..block + 4]) then -2 else 0
    ensures StatStatus(b, length) ==
            if Be(b[10..14]) > 30 then -1 else if length != 14 + 15 * Be(b[10..14]) then -2 else 0
  {
  }

  /** Body and length are those of a message. */
  predicate Starts(b: Body, length: uint32, bytes: seq<byte>) {
    length == |bytes| <= BODY_SIZE && b[..length] == bytes
  }

  lemma StartsPadded(bytes: seq<byte>)
    requires |bytes| <= BODY_SIZE
    ensures Starts(Padded(bytes), |bytes|, bytes)
  {
  }

  lemma SameStart(b: Body, c: Body, n: nat, lo: nat, hi: nat)
    requires lo <= hi <= n <= BODY_SIZE && b[..n] == c[..n]
    ensures b[lo..hi] == c[lo..hi]
  {
    assert b[lo..hi] == b[..n][lo..hi];
  }

  /** A 300111 body is accepted exactly when it is the encoding of a message, and then decodes to that message
      and no other. */
  lemma MDAccepted(b: Body, length: uint32)
    ensures MDStatus(b, length) == 0 <==> exists m :: MDShape(m) && Starts(b, length, EncodeMD(m))
    ensures forall m :: MDShape(m) && Starts(b, length, EncodeMD(m)) ==> m == WireMD(b)
  {
    if MDStatus(b, length) == 0 {
      MDBack(b, length);
      MDShapeRead(b);
      assert Starts(b, length, EncodeMD(WireMD(b)));
    }
    forall m | MDShape(m) && Starts(b, length, EncodeMD(m)) ensures MDStatus(b, length) == 0 && m == WireMD(b) {
      MDStarts(b, length, m);
    }
  }

  lemma MDShapeRead(b: Body)
    requires MDCount(b) <= 30
    ensures MDShape(WireMD(b))
  {
    PrefixAt(b);
    if MDCount(b) > 0 { MDEntryAt(b, 0); }
    forall i | 0 <= i < |WireMD(b).entries| ensures |WireMD(b).entries[i].entryType| == 2 {
      MDEntryAt(b, i);
    }
  }

  lemma MDStarts(b: Body, length: uint32, m: RawSzMDData)
    requires MDShape(m) && Starts(b, length, EncodeMD(m))
    ensures MDStatus(b, length) == 0 && WireMD(b) == m
  {
    MDRoundTrip(m);
    var c := Padded(EncodeMD(m));
    StartsPadded(EncodeMD(m));
    SameStart(b, c, length, 65, 69);
    assert MDStatus(b, length) == 0;
    MDBack(b, length);
    MDShapeRead(b);
    MDRoundTrip(WireMD(b));
  }

  lemma HkEntryTypes(b: Body)
    requires MDCount(b) <= 30
    ensures forall i :: 0 <= i < |WireHk(b).entries| ==> |WireHk(b).entries[i].entryType| == 2
  {
    ReadAllLength(HkReader(Big), HK_ENTRY_SIZE, MDCount(b), b[PREFIX_SIZE..]);
    forall i | 0 <= i < |WireHk(b).entries| ensures |WireHk(b).entries[i].entryType| == 2 {
      HkEntryAt(b, i);
    }
  }

  lemma HkShapeRead(b: Body, length: uint32)
    requires HkStatus(b, length) == 0 && length <= BODY_SIZE
    ensures HkShape(HkMessageOf(b))
  {
    HkParts(b, length);
    PrefixAt(b);
    HkEntryTypes(b);
  }

  lemma HkStarts(b: Body, length: uint32, m: HkMessage)
    requires HkShape(m) && Starts(b, length, EncodeHk(m))
    ensures HkStatus(b, length) == 0 && HkMessageOf(b) == m
  {
    assert HkStatus(b, length) == 0 by { HkSameStatus(b, length, m); }
    HkBack(b, length);
    HkShapeRead(b, length);
    HkRoundTrip(m);
    HkRoundTrip(HkMessageOf(b));
  }

  lemma HkSameStatus(b: Body, length: uint32, m: HkMessage)
    requires HkShape(m) && Starts(b, length, EncodeHk(m))
    ensures HkStatus(b, length) == 0
  {
    HkCounts(m);
    var c, block := Padded(EncodeHk(m)), BlockAt(|m.entries|);
    StartsPadded(EncodeHk(m));
    SameStart(b, c, length, 65, 69);
    SameStart(b, c, length, block, block + 4);
  }

  /** The same for 306311, as far as its buffer reaches: what is kept is the host's part of that message. */
  lemma HkAccepted(b: Body, length: uint32)
    requires length <= BODY_SIZE
    ensures HkStatus(b, length) == 0 <==> exists m :: HkShape(m) && Starts(b, length, EncodeHk(m))
    ensures forall m :: HkShape(m) && Starts(b, length, EncodeHk(m)) ==>
              m == HkMessageOf(b) && Kept(WireHk(b)) == HostHk(m)
  {
    if HkStatus(b, length) == 0 {
      HkBack(b, length);
      HkShapeRead(b, length);
      assert Starts(b, length, EncodeHk(HkMessageOf(b)));
    }
    forall m | HkShape(m) && Starts(b, length, EncodeHk(m))
      ensures HkStatus(b, length) == 0 && m == HkMessageOf(b) && Kept(WireHk(b)) == HostHk(m)
    {
      HkStarts(b, length, m);
      KeptIsHost(b, length);
    }
  }

  lemma StatShapeRead(b: Body)
    requires StatCount(b) <= 30
    ensures StatShape(WireStat(b))
  {
    ReadAllLength(StatReader(Big), STAT_ENTRY_SIZE, StatCount(b), b[STAT_PREFIX_SIZE..]);
    forall i | 0 <= i < |WireStat(b).entries|
      ensures |WireStat(b).entries[i].mdStreamId| == 3 && |WireStat(b).entries[i].tradingPhaseCode| == 8
    {
      StatEntryAt(b, i);
    }
  }

  /** And for 390090. */
  lemma StatAccepted(b: Body, length: uint32)
    ensures StatStatus(b, length) == 0 <==> exists m :: StatShape(m) && Starts(b, length, EncodeStat(m))
    ensures forall m :: StatShape(m) && Starts(b, length, EncodeStat(m)) ==> m == WireStat(b)
  {
    if StatStatus(b, length) == 0 {
      StatBack(b, length);
      StatShapeRead(b);
      assert Starts(b, length, EncodeStat(WireStat(b)));
    }
    forall m | StatShape(m) && Starts(b, length, EncodeStat(m)) ensures StatStatus(b, length) == 0 && m == WireStat(b) {
      StatStarts(b, length, m);
    }
  }

  lemma StatStarts(b: Body, length: uint32, m: RawSzChannelStat)
    requires StatShape(m) && Starts(b, length, EncodeStat(m))
    ensures StatStatus(b, length) == 0 && WireStat(b) == m
  {
    StatRoundTrip(m);
    var c := Padded(EncodeStat(m));
    StartsPadded(EncodeStat(m));
    SameStart(b, c, length, 10, 14);
    assert StatStatus(b, length) == 0;
    StatBack(b, length);
    StatShapeRead(b);
    StatRoundTrip(WireStat(b));
  }
}
