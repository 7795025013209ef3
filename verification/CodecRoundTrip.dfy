/** Decoding and encoding are inverse on every well-formed message and every accepted body. */
module CodecRoundTrip {
  import opened XsheTypes
  import opened ByteOrder
  import opened Codec

  // ---------------------------------------------------------------- fields

  lemma I64RoundTrip(v: int64, s: seq<byte>, at: nat)
    requires at + 8 <= |s| && s[at..at + 8] == I64(v)
    ensures I64At(Big, s, at) == v
  {
    Powers256();
    BeOfToBe(Unsigned64(v), 8);
  }

  lemma U32RoundTrip(v: uint32, s: seq<byte>, at: nat)
    requires at + 4 <= |s| && s[at..at + 4] == U32(v)
    ensures U32At(Big, s, at) == v
  {
    Powers256();
    BeOfToBe(v, 4);
  }

  lemma U16RoundTrip(v: uint16, s: seq<byte>, at: nat)
    requires at + 2 <= |s| && s[at..at + 2] == U16(v)
    ensures U16At(Big, s, at) == v
  {
    Powers256();
    BeOfToBe(v, 2);
  }

  lemma I64Back(s: seq<byte>, at: nat)
    requires at + 8 <= |s|
    ensures I64(I64At(Big, s, at)) == s[at..at + 8]
  {
    Powers256();
    BeBound(s[at..at + 8]);
    ToBeOfBe(s[at..at + 8]);
  }

  lemma U32Back(s: seq<byte>, at: nat)
    requires at + 4 <= |s|
    ensures U32(U32At(Big, s, at)) == s[at..at + 4]
  {
    ToBeOfBe(s[at..at + 4]);
  }

  lemma U16Back(s: seq<byte>, at: nat)
    requires at + 2 <= |s|
    ensures U16(U16At(Big, s, at)) == s[at..at + 2]
  {
    ToBeOfBe(s[at..at + 2]);
  }

  /** Slices of a part are slices of the whole. */
  lemma SliceWithin(s: seq<byte>, at: nat, part: seq<byte>, lo: nat, hi: nat)
    requires at + |part| <= |s| && s[at..at + |part|] == part && lo <= hi <= |part|
    ensures s[at + lo..at + hi] == part[lo..hi]
  {
    SubSlice(s, at, |part|, lo, hi);
  }

  // ---------------------------------------------------------------- prefixes

  lemma HeadSlices(p: Prefix)
    requires PrefixShape(p)
    ensures var e := EncodeHead(p);
            && |e| == 33 && e[0..8] == I64(p.origTime) && e[8..10] == U16(p.channelNo) && e[10..13] == p.mdStreamId
            && e[13..21] == p.securityId && e[21..25] == p.securityIdSource && e[25..33] == p.tradingPhaseCode
  {
  }

  lemma TotalsSlices(p: Prefix, n: uint32)
    ensures var e := EncodeTotals(p, n);
            && |e| == 36 && e[0..8] == I64(p.prevClosePx) && e[8..16] == I64(p.numTrades)
            && e[16..24] == I64(p.totalVolumeTrade) && e[24..32] == I64(p.totalValueTrade) && e[32..36] == U32(n)
  {
    var e := EncodeTotals(p, n);
    var rest := I64(p.totalVolumeTrade) + I64(p.totalValueTrade) + U32(n);
    assert e[16..36] == rest;
    SliceWithin(e, 16, rest, 0, 8);
    SliceWithin(e, 16, rest, 8, 16);
    SliceWithin(e, 16, rest, 16, 20);
  }

  lemma HeadRoundTrip(p: Prefix, s: seq<byte>)
    requires PrefixShape(p) && |s| >= PREFIX_SIZE && |EncodeHead(p)| == 33 && s[..33] == EncodeHead(p)
    ensures var q := ReadPrefix(Big, s);
            && q.origTime == p.origTime && q.channelNo == p.channelNo && q.mdStreamId == p.mdStreamId
            && q.securityId == p.securityId && q.securityIdSource == p.securityIdSource
            && q.tradingPhaseCode == p.tradingPhaseCode
  {
    HeadSlices(p);
    var e := EncodeHead(p);
    SliceWithin(s, 0, e, 0, 8);
    SliceWithin(s, 0, e, 8, 10);
    SliceWithin(s, 0, e, 10, 13);
    SliceWithin(s, 0, e, 13, 21);
    SliceWithin(s, 0, e, 21, 25);
    SliceWithin(s, 0, e, 25, 33);
    I64RoundTrip(p.origTime, s, 0);
    U16RoundTrip(p.channelNo, s, 8);
  }

  lemma TotalsRoundTrip(p: Prefix, n: uint32, s: seq<byte>)
    requires |s| >= PREFIX_SIZE && |EncodeTotals(p, n)| == 36 && s[33..69] == EncodeTotals(p, n)
    ensures var q := ReadPrefix(Big, s);
            && q.prevClosePx == p.prevClosePx && q.numTrades == p.numTrades
            && q.totalVolumeTrade == p.totalVolumeTrade && q.totalValueTrade == p.totalValueTrade
    ensures U32At(Big, s, 65) == n
  {
    TotalsSlices(p, n);
    var e := EncodeTotals(p, n);
    SliceWithin(s, 33, e, 0, 8);
    SliceWithin(s, 33, e, 8, 16);
    SliceWithin(s, 33, e, 16, 24);
    SliceWithin(s, 33, e, 24, 32);
    SliceWithin(s, 33, e, 32, 36);
    I64RoundTrip(p.prevClosePx, s, 33);
    I64RoundTrip(p.numTrades, s, 41);
    I64RoundTrip(p.totalVolumeTrade, s, 49);
    I64RoundTrip(p.totalValueTrade, s, 57);
    U32RoundTrip(n, s, 65);
  }

  lemma PrefixLength(p: Prefix, n: uint32)
    requires PrefixShape(p)
    ensures |EncodePrefix(p, n)| == PREFIX_SIZE
  {
    HeadSlices(p);
    TotalsSlices(p, n);
  }

  lemma PrefixRoundTrip(p: Prefix, n: uint32, s: seq<byte>)
    requires PrefixShape(p) && |s| >= PREFIX_SIZE && s[..PREFIX_SIZE] == EncodePrefix(p, n)
    ensures ReadPrefix(Big, s) == p && U32At(Big, s, 65) == n
  {
    HeadSlices(p);
    TotalsSlices(p, n);
    assert s[..33] == s[..PREFIX_SIZE][..33] == EncodeHead(p);
    assert s[33..69] == s[..PREFIX_SIZE][33..69] == EncodeTotals(p, n);
    HeadRoundTrip(p, s);
    TotalsRoundTrip(p, n, s);
  }

  lemma HeadBack(s: seq<byte>)
    requires PREFIX_SIZE <= |s|
    ensures EncodeHead(ReadPrefix(Big, s)) == s[0..33]
  {
    I64Back(s, 0);
    U16Back(s, 8);
    Join(s, 0, 8, 10);
    Join(s, 0, 10, 13);
    Join(s, 0, 13, 21);
    Join(s, 0, 21, 25);
    Join(s, 0, 25, 33);
  }

  lemma TotalsBack(s: seq<byte>)
    requires PREFIX_SIZE <= |s|
    ensures EncodeTotals(ReadPrefix(Big, s), U32At(Big, s, 65)) == s[33..69]
  {
    I64Back(s, 33);
    I64Back(s, 41);
    I64Back(s, 49);
    I64Back(s, 57);
    U32Back(s, 65);
    Join(s, 33, 41, 49);
    Join(s, 49, 57, 65);
    Join(s, 49, 65, 69);
    Join(s, 33, 49, 69);
  }

  lemma PrefixBack(s: seq<byte>)
    requires PREFIX_SIZE <= |s|
    ensures EncodePrefix(ReadPrefix(Big, s), U32At(Big, s, 65)) == s[..PREFIX_SIZE]
  {
    HeadBack(s);
    TotalsBack(s);
    Join(s, 0, 33, 69);
  }

  // ---------------------------------------------------------------- entries

  lemma HkEntryRoundTrip(e: HkMDEntry, c: seq<byte>)
    requires |e.entryType| == 2 && HK_ENTRY_SIZE <= |c| && c[..HK_ENTRY_SIZE] == EncodeHkEntry(e)
    ensures ReadHkEntry(Big, c) == e
  {
    var b := EncodeHkEntry(e);
    assert b[0..2] == e.entryType && b[2..10] == I64(e.px) && b[10..18] == I64(e.size) && b[18..20] == U16(e.level);
    SliceWithin(c, 0, b, 0, 2);
    SliceWithin(c, 0, b, 2, 10);
    SliceWithin(c, 0, b, 10, 18);
    SliceWithin(c, 0, b, 18, 20);
    I64RoundTrip(e.px, c, 2);
    I64RoundTrip(e.size, c, 10);
    U16RoundTrip(e.level, c, 18);
  }

  lemma MDEntryRoundTrip(e: MDEntry)
    requires |e.entryType| == 2
    ensures |EncodeMDEntry(e)| == MD_ENTRY_SIZE && ReadMDEntry(Big, EncodeMDEntry(e)) == e
  {
    var c := EncodeMDEntry(e);
    var head := HkMDEntry(e.entryType, e.px, e.size, e.level);
    assert c[..20] == EncodeHkEntry(head);
    HkEntryRoundTrip(head, c);
    assert c[20..28] == I64(e.numberOfOrders) && c[28..32] == U32(e.noOrders);
    I64RoundTrip(e.numberOfOrders, c, 20);
    U32RoundTrip(e.noOrders, c, 28);
  }

  lemma StatEntryRoundTrip(e: ChannelStatEntry)
    requires |e.mdStreamId| == 3 && |e.tradingPhaseCode| == 8
    ensures |EncodeStatEntry(e)| == STAT_ENTRY_SIZE && ReadStatEntry(Big, EncodeStatEntry(e)) == e
  {
    var c := EncodeStatEntry(e);
    assert c[0..3] == e.mdStreamId && c[3..7] == U32(e.stockNum) && c[7..15] == e.tradingPhaseCode;
    U32RoundTrip(e.stockNum, c, 3);
  }

  lemma WindowRoundTrip(w: Window)
    ensures |EncodeWindow(w)| == WINDOW_SIZE && ReadWindow(Big, EncodeWindow(w)) == w
  {
    var c := EncodeWindow(w);
    assert c[0..8] == I64(w.start) && c[8..16] == I64(w.end);
    I64RoundTrip(w.start, c, 0);
    I64RoundTrip(w.end, c, 8);
  }

  lemma NoWindowRoundTrip(c: seq<byte>)
    requires |c| == 20 && forall k :: 0 <= k < 20 ==> c[k] == 0
    ensures ReadVcm(Big, c) == HkVcm(0, 0, 0)
  {
    BeOfZeros(c[0..4]);
    BeOfZeros(c[4..12]);
    BeOfZeros(c[12..20]);
  }

  lemma {:induction false} EncodeAllLength<E>(encode: E -> seq<byte>, w: nat, es: seq<E>)
    requires forall i :: 0 <= i < |es| ==> |encode(es[i])| == w
    ensures |EncodeAll(encode, es)| == w * |es|
    decreases |es|
  {
    if es != [] {
      EncodeAllLength(encode, w, es[1..]);
      assert w * (|es| - 1) + w == w * |es|;
    }
  }

  /** Records of equal width written one behind the other are read back one by one. */
  lemma {:induction false} ReadAllOfEncodeAll<E>(
      read: seq<byte> --> E, encode: E -> seq<byte>, w: nat, es: seq<E>, rest: seq<byte>)
    requires forall c :: |c| == w ==> read.requires(c)
    requires forall i :: 0 <= i < |es| ==> |encode(es[i])| == w && read(encode(es[i])) == es[i]
    ensures ReadAll(read, w, |es|, EncodeAll(encode, es) + rest) == es
    decreases |es|
  {
    if es != [] {
      var tail := EncodeAll(encode, es[1..]);
      ReadAllOfEncodeAll(read, encode, w, es[1..], rest);
      var s := EncodeAll(encode, es) + rest;
      assert s[..w] == encode(es[0]);
      assert s[w..] == tail + rest;
      assert ReadAll(read, w, |es|, s) == [es[0]] + ReadAll(read, w, |es| - 1, tail + rest);
    }
  }

  /** Writing the records that were read gives the bytes they were read from. */
  lemma {:induction false} EncodeAllOfReadAll<E>(
      read: seq<byte> --> E, encode: E -> seq<byte>, w: nat, n: nat, s: seq<byte>)
    requires forall c :: |c| == w ==> read.requires(c) && encode(read(c)) == c
    requires w * n <= |s|
    ensures |ReadAll(read, w, n, s)| == n && EncodeAll(encode, ReadAll(read, w, n, s)) == s[..w * n]
    decreases n
  {
    if n > 0 {
      assert w * (n - 1) + w == w * n && w * (n - 1) >= 0;
      var es := ReadAll(read, w, n, s);
      EncodeAllOfReadAll(read, encode, w, n - 1, s[w..]);
      assert es[1..] == ReadAll(read, w, n - 1, s[w..]);
      assert s[..w] + s[w..][..w * (n - 1)] == s[..w * n];
    }
  }

  lemma HkEntryBack(c: seq<byte>)
    requires HK_ENTRY_SIZE <= |c|
    ensures EncodeHkEntry(ReadHkEntry(Big, c)) == c[..HK_ENTRY_SIZE]
  {
    I64Back(c, 2);
    I64Back(c, 10);
    U16Back(c, 18);
    Join(c, 0, 2, 10);
    Join(c, 0, 10, 18);
    Join(c, 0, 18, 20);
  }

  lemma MDEntryBack(c: seq<byte>)
    requires |c| == MD_ENTRY_SIZE
    ensures EncodeMDEntry(ReadMDEntry(Big, c)) == c
  {
    HkEntryBack(c);
    I64Back(c, 20);
    U32Back(c, 28);
    Join(c, 20, 28, 32);
    Join(c, 0, 20, 32);
  }

  lemma WindowBack(c: seq<byte>)
    requires |c| == WINDOW_SIZE
    ensures EncodeWindow(ReadWindow(Big, c)) == c
  {
    I64Back(c, 0);
    I64Back(c, 8);
    Join(c, 0, 8, 16);
  }

  lemma StatEntryBack(c: seq<byte>)
    requires |c| == STAT_ENTRY_SIZE
    ensures EncodeStatEntry(ReadStatEntry(Big, c)) == c
  {
    U32Back(c, 3);
    Join(c, 0, 3, 7);
    Join(c, 0, 7, 15);
  }

  // ---------------------------------------------------------------- whole messages

  /** Where three pieces lie in a padded body. */
  lemma PaddedPieces(a: seq<byte>, c: seq<byte>, d: seq<byte>)
    requires |a| + |c| + |d| <= BODY_SIZE
    ensures var b := Padded(a + c + d);
            && b[..|a|] == a && b[|a|..] == c + b[|a| + |c|..] && b[|a| + |c|..|a| + |c| + |d|] == d
            && forall k :: |a| + |c| + |d| <= k < BODY_SIZE ==> b[k] == 0
  {
  }

  lemma MDEntriesRoundTrip(es: seq<MDEntry>, rest: seq<byte>)
    requires forall i :: 0 <= i < |es| ==> |es[i].entryType| == 2
    ensures |EncodeAll(MDWriter(), es)| == MD_ENTRY_SIZE * |es|
    ensures ReadAll(MDReader(Big), MD_ENTRY_SIZE, |es|, EncodeAll(MDWriter(), es) + rest) == es
  {
    forall i | 0 <= i < |es| ensures |MDWriter()(es[i])| == MD_ENTRY_SIZE && MDReader(Big)(MDWriter()(es[i])) == es[i] {
      MDEntryRoundTrip(es[i]);
    }
    EncodeAllLength(MDWriter(), MD_ENTRY_SIZE, es);
    ReadAllOfEncodeAll(MDReader(Big), MDWriter(), MD_ENTRY_SIZE, es, rest);
  }

  lemma MDLayout(m: RawSzMDData)
    requires MDShape(m)
    ensures var e, c := EncodeMD(m), EncodeAll(MDWriter(), m.entries);
            && |c| == MD_ENTRY_SIZE * |m.entries| && |e| == PREFIX_SIZE + |c|
            && Padded(e)[..PREFIX_SIZE] == EncodePrefix(m.prefix, |m.entries|)
            && Padded(e)[PREFIX_SIZE..] == c + Padded(e)[PREFIX_SIZE + |c|..]
  {
    var a, c := EncodePrefix(m.prefix, |m.entries|), EncodeAll(MDWriter(), m.entries);
    PrefixLength(m.prefix, |m.entries|);
    MDEntriesRoundTrip(m.entries, []);
    PaddedPieces(a, c, []);
    assert EncodeMD(m) == a + c + [];
  }

  /** Decoding the packed encoding gives back message 300111. */
  lemma MDRoundTrip(m: RawSzMDData)
    requires MDShape(m)
    ensures |EncodeMD(m)| == PREFIX_SIZE + MD_ENTRY_SIZE * |m.entries|
    ensures MDStatus(Padded(EncodeMD(m)), |EncodeMD(m)|) == 0
    ensures WireMD(Padded(EncodeMD(m))) == m
  {
    MDLayout(m);
    var n, b := |m.entries|, Padded(EncodeMD(m));
    assert WireMD(b).prefix == m.prefix && MDCount(b) == n by { PrefixRoundTrip(m.prefix, n, b); }
    assert WireMD(b).entries == m.entries by { MDEntriesRoundTrip(m.entries, b[PREFIX_SIZE + MD_ENTRY_SIZE * n..]); }
  }

  lemma StatEntriesRoundTrip(es: seq<ChannelStatEntry>, rest: seq<byte>)
    requires forall i :: 0 <= i < |es| ==> |es[i].mdStreamId| == 3 && |es[i].tradingPhaseCode| == 8
    ensures |EncodeAll(StatWriter(), es)| == STAT_ENTRY_SIZE * |es|
    ensures ReadAll(StatReader(Big), STAT_ENTRY_SIZE, |es|, EncodeAll(StatWriter(), es) + rest) == es
  {
    forall i | 0 <= i < |es|
      ensures |StatWriter()(es[i])| == STAT_ENTRY_SIZE && StatReader(Big)(StatWriter()(es[i])) == es[i]
    {
      StatEntryRoundTrip(es[i]);
    }
    EncodeAllLength(StatWriter(), STAT_ENTRY_SIZE, es);
    ReadAllOfEncodeAll(StatReader(Big), StatWriter(), STAT_ENTRY_SIZE, es, rest);
  }

  lemma StatPrefixRoundTrip(m: RawSzChannelStat, b: Body)
    requires StatShape(m) && b[..|EncodeStatPrefix(m)|] == EncodeStatPrefix(m)
    ensures I64At(Big, b, 0) == m.origTime && U16At(Big, b, 8) == m.channelNo && U32At(Big, b, 10) == |m.entries|
  {
    var a := EncodeStatPrefix(m);
    assert a[0..8] == I64(m.origTime) && a[8..10] == U16(m.channelNo) && a[10..14] == U32(|m.entries|);
    SliceWithin(b, 0, a, 0, 8);
    SliceWithin(b, 0, a, 8, 10);
    SliceWithin(b, 0, a, 10, 14);
    I64RoundTrip(m.origTime, b, 0);
    U16RoundTrip(m.channelNo, b, 8);
    U32RoundTrip(|m.entries|, b, 10);
  }

  /** The same for the channel statistics. */
  lemma StatRoundTrip(m: RawSzChannelStat)
    requires StatShape(m)
    ensures |EncodeStat(m)| == STAT_PREFIX_SIZE + STAT_ENTRY_SIZE * |m.entries|
    ensures StatStatus(Padded(EncodeStat(m)), |EncodeStat(m)|) == 0
    ensures WireStat(Padded(EncodeStat(m))) == m
  {
    var a, c := EncodeStatPrefix(m), EncodeAll(StatWriter(), m.entries);
    StatEntriesRoundTrip(m.entries, []);
    assert EncodeStat(m) == a + c + [];
    var b := Padded(EncodeStat(m));
    PaddedPieces(a, c, []);
    StatPrefixRoundTrip(m, b);
    StatEntriesRoundTrip(m.entries, b[STAT_PREFIX_SIZE + |c|..]);
  }

  lemma HkEntriesRoundTrip(es: seq<HkMDEntry>, rest: seq<byte>)
    requires forall i :: 0 <= i < |es| ==> |es[i].entryType| == 2
    ensures |EncodeAll(HkWriter(), es)| == HK_ENTRY_SIZE * |es|
    ensures ReadAll(HkReader(Big), HK_ENTRY_SIZE, |es|, EncodeAll(HkWriter(), es) + rest) == es
  {
    forall i | 0 <= i < |es| ensures |HkWriter()(es[i])| == HK_ENTRY_SIZE && HkReader(Big)(HkWriter()(es[i])) == es[i] {
      HkEntryRoundTrip(es[i], EncodeHkEntry(es[i]));
    }
    EncodeAllLength(HkWriter(), HK_ENTRY_SIZE, es);
    ReadAllOfEncodeAll(HkReader(Big), HkWriter(), HK_ENTRY_SIZE, es, rest);
  }

  lemma WindowsRoundTrip(ws: seq<Window>, rest: seq<byte>)
    ensures |EncodeAll(WindowWriter(), ws)| == WINDOW_SIZE * |ws|
    ensures ReadAll(WindowReader(Big), WINDOW_SIZE, |ws|, EncodeAll(WindowWriter(), ws) + rest) == ws
  {
    forall i | 0 <= i < |ws|
      ensures |WindowWriter()(ws[i])| == WINDOW_SIZE && WindowReader(Big)(WindowWriter()(ws[i])) == ws[i]
    {
      WindowRoundTrip(ws[i]);
    }
    EncodeAllLength(WindowWriter(), WINDOW_SIZE, ws);
    ReadAllOfEncodeAll(WindowReader(Big), WindowWriter(), WINDOW_SIZE, ws, rest);
  }

  lemma HkLayout(m: HkMessage)
    requires HkShape(m)
    ensures var e, c, d := EncodeHk(m), EncodeAll(HkWriter(), m.entries), EncodeWindows(m.windows);
            && |c| == HK_ENTRY_SIZE * |m.entries| && |d| == 4 + WINDOW_SIZE * |m.windows|
            && |e| == PREFIX_SIZE + |c| + |d|
            && Padded(e)[..PREFIX_SIZE] == EncodePrefix(m.prefix, |m.entries|)
            && Padded(e)[PREFIX_SIZE..] == c + Padded(e)[PREFIX_SIZE + |c|..]
            && Padded(e)[PREFIX_SIZE + |c|..PREFIX_SIZE + |c| + |d|] == d
            && forall k :: |e| <= k < BODY_SIZE ==> Padded(e)[k] == 0
  {
    PrefixLength(m.prefix, |m.entries|);
    HkEntriesRoundTrip(m.entries, []);
    WindowsRoundTrip(m.windows, []);
    PaddedPieces(EncodePrefix(m.prefix, |m.entries|), EncodeAll(HkWriter(), m.entries), EncodeWindows(m.windows));
  }

  /** The block read back, at `block`: its count and its windows. */
  lemma BlockRoundTrip(ws: seq<Window>, b: seq<byte>, block: nat)
    requires |ws| < 0x1_0000_0000 && |EncodeWindows(ws)| == 4 + WINDOW_SIZE * |ws| && block + |EncodeWindows(ws)| <= |b|
    requires b[block..block + |EncodeWindows(ws)|] == EncodeWindows(ws)
    ensures U32At(Big, b, block) == |ws|
    ensures ReadAll(WindowReader(Big), WINDOW_SIZE, |ws|, b[block + 4..]) == ws
  {
    var d, all := EncodeWindows(ws), EncodeAll(WindowWriter(), ws);
    assert d[0..4] == U32(|ws|) && d[4..|d|] == all;
    SliceWithin(b, block, d, 0, 4);
    SliceWithin(b, block, d, 4, |d|);
    U32RoundTrip(|ws|, b, block);
    WindowsRoundTrip(ws, b[block + |d|..]);
    assert b[block + 4..] == all + b[block + |d|..];
  }

  /** Reading the fixed block off the wire gives the count and the first window. */
  lemma FirstWindow(b: seq<byte>, block: nat, n: nat)
    requires block + 20 <= |b| && n > 0 && U32At(Big, b, block) == n
    ensures var ws := ReadAll(WindowReader(Big), WINDOW_SIZE, n, b[block + 4..]);
            ws != [] && ReadVcm(Big, b[block..block + 20]) == HkVcm(n, ws[0].start, ws[0].end)
  {
    var c, d := b[block..block + 20], b[block + 4..];
    assert d[..16] == b[block + 4..block + 20];
    SubSlice(b, block, 20, 0, 4);
    SubSlice(b, block, 20, 4, 12);
    SubSlice(b, block, 20, 12, 20);
    SubSlice(b, block + 4, 16, 0, 8);
    SubSlice(b, block + 4, 16, 8, 16);
  }

  lemma HkCounts(m: HkMessage)
    requires HkShape(m)
    ensures |EncodeHk(m)| == BlockAt(|m.entries|) + 4 + WINDOW_SIZE * |m.windows|
    ensures var b := Padded(EncodeHk(m)); MDCount(b) == |m.entries| && WindowCount(b) == |m.windows|
    ensures HkStatus(Padded(EncodeHk(m)), |EncodeHk(m)|) == 0
  {
    HkLayout(m);
    var b := Padded(EncodeHk(m));
    PrefixRoundTrip(m.prefix, |m.entries|, b);
    BlockRoundTrip(m.windows, b, BlockAt(|m.entries|));
  }

  lemma NoWindowsPadded(m: HkMessage)
    requires HkShape(m) && m.windows == []
    ensures |EncodeHk(m)| == BlockAt(|m.entries|) + 4
    ensures var b, block := Padded(EncodeHk(m)), BlockAt(|m.entries|);
            ReadVcm(Big, b[block..block + 20]) == HkVcm(0, 0, 0)
  {
    HkLayout(m);
    var b, block := Padded(EncodeHk(m)), BlockAt(|m.entries|);
    assert U32(0) == [0, 0, 0, 0] by { assert ToBe(0, 3) == [0, 0, 0]; }
    var c := b[block..block + 20];
    forall k | 0 <= k < 20 ensures c[k] == 0 {
      if k < 4 { assert b[block..block + 4][k] == 0; }
    }
    NoWindowRoundTrip(c);
  }

  /** The same for message 306311, whose windows sit right behind however many entries there are: all of it
      reads back, and the host's part of it is the count and the first window. */
  lemma HkRoundTrip(m: HkMessage)
    requires HkShape(m)
    ensures |EncodeHk(m)| == BlockAt(|m.entries|) + 4 + WINDOW_SIZE * |m.windows|
    ensures HkStatus(Padded(EncodeHk(m)), |EncodeHk(m)|) == 0
    ensures HkMessageOf(Padded(EncodeHk(m))) == m
    ensures WireHk(Padded(EncodeHk(m))) == HostHk(m)
  {
    HkCounts(m);
    HkLayout(m);
    var b, block := Padded(EncodeHk(m)), BlockAt(|m.entries|);
    assert ReadPrefix(Big, b) == m.prefix by { PrefixRoundTrip(m.prefix, |m.entries|, b); }
    assert HkMessageOf(b).entries == WireHk(b).entries == m.entries by { HkEntriesRoundTrip(m.entries, b[block..]); }
    assert HkMessageOf(b).windows == m.windows by { BlockRoundTrip(m.windows, b, block); }
    if m.windows == [] {
      NoWindowsPadded(m);
    } else {
      FirstWindow(b, block, |m.windows|);
    }
  }

  /** Only the counts decide whether an accepted body fits: with the struct's 616 bytes for entries and windows,
      any count of either may be too many for the other. */
  lemma HkFitsIff(b: Body, length: uint32)
    requires HkStatus(b, length) == 0
    ensures HkFits(b, length) <==> HK_ENTRY_SIZE * MDCount(b) + WINDOW_SIZE * WindowCount(b) <= 616
  {
  }

  /** And every message with too many has an accepted encoding that does not fit. */
  lemma HkTooLong(m: HkMessage)
    requires HkShape(m) && HK_ENTRY_SIZE * |m.entries| + WINDOW_SIZE * |m.windows| > 616
    ensures |EncodeHk(m)| <= BODY_SIZE
    ensures HkStatus(Padded(EncodeHk(m)), |EncodeHk(m)|) == 0 && !HkFits(Padded(EncodeHk(m)), |EncodeHk(m)|)
  {
    HkCounts(m);
    HkFitsIff(Padded(EncodeHk(m)), |EncodeHk(m)|);
  }

  lemma MDEntriesBack(b: seq<byte>, n: nat)
    requires PREFIX_SIZE + MD_ENTRY_SIZE * n <= |b|
    ensures var es := ReadAll(MDReader(Big), MD_ENTRY_SIZE, n, b[PREFIX_SIZE..]);
            |es| == n && EncodeAll(MDWriter(), es) == b[PREFIX_SIZE..PREFIX_SIZE + MD_ENTRY_SIZE * n]
  {
    forall c | |c| == MD_ENTRY_SIZE ensures MDWriter()(MDReader(Big)(c)) == c {
      MDEntryBack(c);
    }
    EncodeAllOfReadAll(MDReader(Big), MDWriter(), MD_ENTRY_SIZE, n, b[PREFIX_SIZE..]);
    assert b[PREFIX_SIZE..][..MD_ENTRY_SIZE * n] == b[PREFIX_SIZE..PREFIX_SIZE + MD_ENTRY_SIZE * n];
  }

  lemma MDAssemble(m: RawSzMDData, b: seq<byte>, length: nat)
    requires |m.entries| <= MAX_MD_ENTRY_NO && PREFIX_SIZE <= length <= |b|
    requires EncodePrefix(m.prefix, |m.entries|) == b[..PREFIX_SIZE]
    requires EncodeAll(MDWriter(), m.entries) == b[PREFIX_SIZE..length]
    ensures EncodeMD(m) == b[..length]
  {
  }

  /** Every accepted 300111 body is the encoding of the message read from it, so no two accepted
      bodies decode alike. */
  lemma MDBack(b: Body, length: uint32)
    requires MDStatus(b, length) == 0
    ensures |WireMD(b).entries| == MDCount(b) && EncodeMD(WireMD(b)) == b[..length]
  {
    MDEntriesBack(b, MDCount(b));
    assert EncodePrefix(WireMD(b).prefix, MDCount(b)) == b[..PREFIX_SIZE] by { PrefixBack(b); }
    MDAssemble(WireMD(b), b, length);
  }

  lemma HkEntriesBack(b: seq<byte>, n: nat)
    requires BlockAt(n) <= |b|
    ensures var es := ReadAll(HkReader(Big), HK_ENTRY_SIZE, n, b[PREFIX_SIZE..]);
            |es| == n && EncodeAll(HkWriter(), es) == b[PREFIX_SIZE..BlockAt(n)]
  {
    forall c | |c| == HK_ENTRY_SIZE ensures HkWriter()(HkReader(Big)(c)) == c {
      HkEntryBack(c);
    }
    EncodeAllOfReadAll(HkReader(Big), HkWriter(), HK_ENTRY_SIZE, n, b[PREFIX_SIZE..]);
    assert b[PREFIX_SIZE..][..HK_ENTRY_SIZE * n] == b[PREFIX_SIZE..BlockAt(n)];
  }

  lemma WindowsBack(b: seq<byte>, at: nat, n: nat)
    requires at + WINDOW_SIZE * n <= |b|
    ensures var ws := ReadAll(WindowReader(Big), WINDOW_SIZE, n, b[at..]);
            |ws| == n && EncodeAll(WindowWriter(), ws) == b[at..at + WINDOW_SIZE * n]
  {
    forall c | |c| == WINDOW_SIZE ensures WindowWriter()(WindowReader(Big)(c)) == c {
      WindowBack(c);
    }
    EncodeAllOfReadAll(WindowReader(Big), WindowWriter(), WINDOW_SIZE, n, b[at..]);
    assert b[at..][..WINDOW_SIZE * n] == b[at..at + WINDOW_SIZE * n];
  }

  lemma BlockBack(b: seq<byte>, block: nat, n: uint32)
    requires block + 4 + WINDOW_SIZE * n <= |b| && U32At(Big, b, block) == n
    ensures var ws := ReadAll(WindowReader(Big), WINDOW_SIZE, n, b[block + 4..]);
            |ws| == n && EncodeWindows(ws) == b[block..block + 4 + WINDOW_SIZE * n]
  {
    U32Back(b, block);
    WindowsBack(b, block + 4, n);
    Join(b, block, block + 4, block + 4 + WINDOW_SIZE * n);
  }

  lemma HkAssemble(m: HkMessage, b: seq<byte>, block: nat, length: nat)
    requires |m.entries| <= MAX_MD_ENTRY_NO && |m.windows| < 0x1_0000_0000 && PREFIX_SIZE <= block <= length <= |b|
    requires EncodePrefix(m.prefix, |m.entries|) == b[..PREFIX_SIZE]
    requires EncodeAll(HkWriter(), m.entries) == b[PREFIX_SIZE..block]
    requires EncodeWindows(m.windows) == b[block..length]
    ensures EncodeHk(m) == b[..length]
  {
    Join(b, 0, PREFIX_SIZE, block);
    Join(b, 0, block, length);
  }

  /** Likewise every accepted 306311 body that its buffer can hold, however many windows it carries. */
  lemma HkBack(b: Body, length: uint32)
    requires HkStatus(b, length) == 0 && length <= BODY_SIZE
    ensures |HkMessageOf(b).entries| == MDCount(b) && |HkMessageOf(b).windows| == WindowCount(b)
    ensures EncodeHk(HkMessageOf(b)) == b[..length]
  {
    HkParts(b, length);
    HkAssemble(HkMessageOf(b), b, BlockAt(MDCount(b)), length);
  }

  lemma HkParts(b: Body, length: nat)
    requires MDCount(b) <= MAX_MD_ENTRY_NO
             && length == BlockAt(MDCount(b)) + 4 + WINDOW_SIZE * WindowCount(b) <= BODY_SIZE
    ensures var m, block := HkMessageOf(b), BlockAt(MDCount(b));
            && |m.entries| == MDCount(b) && |m.windows| == WindowCount(b)
            && EncodePrefix(m.prefix, MDCount(b)) == b[..PREFIX_SIZE]
            && EncodeAll(HkWriter(), m.entries) == b[PREFIX_SIZE..block]
            && EncodeWindows(m.windows) == b[block..length]
  {
    var n := MDCount(b);
    HkEntriesBack(b, n);
    PrefixBack(b);
    BlockBack(b, BlockAt(n), WindowCount(b));
  }

  lemma KeptVcm(b: seq<byte>, block: nat, n: nat, ws: seq<Window>)
    requires block + 20 <= |b| && n < 0x1_0000_0000 && U32At(Big, b, block) == n == |ws|
    requires n > 0 ==> ws == ReadAll(WindowReader(Big), WINDOW_SIZE, n, b[block + 4..])
    ensures var v := ReadVcm(Big, b[block..block + 20]);
            (v.times == 0 <==> n == 0) && (n > 0 ==> v == HostVcm(ws))
  {
    SubSlice(b, block, 20, 0, 4);
    if n > 0 { FirstWindow(b, block, n); }
  }

  /** What the decoder keeps of an accepted body is the host's part of the message it encodes. */
  lemma KeptIsHost(b: Body, length: uint32)
    requires HkStatus(b, length) == 0 && length <= BODY_SIZE
    ensures |HkMessageOf(b).windows| == WindowCount(b) && Kept(WireHk(b)) == HostHk(HkMessageOf(b))
  {
    var m, kept, block := HkMessageOf(b), WireHk(b), BlockAt(MDCount(b));
    assert |m.windows| == WindowCount(b) by { HkParts(b, length); }
    assert (kept.vcm.times == 0 <==> WindowCount(b) == 0) && (WindowCount(b) > 0 ==>
           kept.vcm == HostVcm(m.windows)) by {
      KeptVcm(b, block, WindowCount(b), m.windows);
    }
    assert kept.prefix == m.prefix && kept.entries == m.entries;
  }

  lemma StatEntriesBack(b: seq<byte>, n: nat)
    requires STAT_PREFIX_SIZE + STAT_ENTRY_SIZE * n <= |b|
    ensures var es := ReadAll(StatReader(Big), STAT_ENTRY_SIZE, n, b[STAT_PREFIX_SIZE..]);
            |es| == n && EncodeAll(StatWriter(), es) == b[STAT_PREFIX_SIZE..STAT_PREFIX_SIZE + STAT_ENTRY_SIZE * n]
  {
    forall c | |c| == STAT_ENTRY_SIZE ensures StatWriter()(StatReader(Big)(c)) == c {
      StatEntryBack(c);
    }
    EncodeAllOfReadAll(StatReader(Big), StatWriter(), STAT_ENTRY_SIZE, n, b[STAT_PREFIX_SIZE..]);
    assert b[STAT_PREFIX_SIZE..][..STAT_ENTRY_SIZE * n] == b[STAT_PREFIX_SIZE..STAT_PREFIX_SIZE + STAT_ENTRY_SIZE * n];
  }

  lemma StatPrefixBack(b: Body, m: RawSzChannelStat)
    requires |m.entries| <= MAX_MD_ENTRY_NO
    requires m.origTime == I64At(Big, b, 0) && m.channelNo == U16At(Big, b, 8) && |m.entries| == U32At(Big, b, 10)
    ensures EncodeStatPrefix(m) == b[..STAT_PREFIX_SIZE]
  {
    I64Back(b, 0);
    U16Back(b, 8);
    U32Back(b, 10);
    Join(b, 0, 8, 10);
    Join(b, 0, 10, 14);
  }

  /** And every accepted body of channel statistics. */
  lemma StatBack(b: Body, length: uint32)
    requires StatStatus(b, length) == 0
    ensures |WireStat(b).entries| == StatCount(b) && EncodeStat(WireStat(b)) == b[..length]
  {
    StatEntriesBack(b, StatCount(b));
    StatPrefixBack(b, WireStat(b));
    Join(b, 0, STAT_PREFIX_SIZE, length);
  }
}
