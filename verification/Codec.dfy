/** The variable-length market-data bodies: their packed wire layout, the struct image a decoder
    leaves in host memory, and the message both stand for. */
module Codec {
  import opened XsheTypes
  import opened ByteOrder

  const PREFIX_SIZE := 69        // offset of the first entry in messages 300111 and 306311
  const MD_ENTRY_SIZE := 32
  const HK_ENTRY_SIZE := 20
  const VCM_OFFSET := 669        // offset of the fixed hkVcm field
  const HK_SIZE := 689
  const WINDOW_SIZE := 16
  const MD_SIZE := 1029
  const STAT_PREFIX_SIZE := 14
  const STAT_ENTRY_SIZE := 15
  const STAT_SIZE := 464
  const STATUS_SIZE := 69
  const BODY_SIZE := 4096        // the buffer every body arrives in

  type Body = b: seq<byte> | |b| == BODY_SIZE witness seq(BODY_SIZE, _ => 0)

  /** Which end numbers start at: Big on the wire, Little in the host struct. */
  datatype Order = Big | Little

  function Number(order: Order, b: seq<byte>): nat {
    if order.Big? then Be(b) else Le(b)
  }

  lemma {:induction false} LeBound(b: seq<byte>)
    ensures Le(b) < Power256(|b|)
  {
    if b != [] { LeBound(b[1..]); }
  }

  function U16At(order: Order, s: seq<byte>, at: nat): uint16
    requires at + 2 <= |s|
  {
    LeBound(s[at..at + 2]); BeBound(s[at..at + 2]); Powers256();
    Number(order, s[at..at + 2])
  }

  function U32At(order: Order, s: seq<byte>, at: nat): uint32
    requires at + 4 <= |s|
  {
    LeBound(s[at..at + 4]); BeBound(s[at..at + 4]); Powers256();
    Number(order, s[at..at + 4])
  }

  function I64At(order: Order, s: seq<byte>, at: nat): int64
    requires at + 8 <= |s|
  {
    LeBound(s[at..at + 8]); BeBound(s[at..at + 8]); Powers256();
    Signed64(Number(order, s[at..at + 8]))
  }

  // ---------------------------------------------------------------- reading messages out of bytes

  function ReadPrefix(order: Order, s: seq<byte>): Prefix
    requires PREFIX_SIZE <= |s|
  {
    Prefix(I64At(order, s, 0), U16At(order, s, 8), s[10..13], s[13..21], s[21..25], s[25..33],
           I64At(order, s, 33), I64At(order, s, 41), I64At(order, s, 49), I64At(order, s, 57))
  }

  function ReadHkEntry(order: Order, c: seq<byte>): HkMDEntry
    requires HK_ENTRY_SIZE <= |c|
  {
    HkMDEntry(c[0..2], I64At(order, c, 2), I64At(order, c, 10), U16At(order, c, 18))
  }

  function ReadMDEntry(order: Order, c: seq<byte>): MDEntry
    requires MD_ENTRY_SIZE <= |c|
  {
    MDEntry(c[0..2], I64At(order, c, 2), I64At(order, c, 10), U16At(order, c, 18),
            I64At(order, c, 20), U32At(order, c, 28))
  }

  function ReadStatEntry(order: Order, c: seq<byte>): ChannelStatEntry
    requires STAT_ENTRY_SIZE <= |c|
  {
    ChannelStatEntry(c[0..3], U32At(order, c, 3), c[7..15])
  }

  function ReadVcm(order: Order, c: seq<byte>): HkVcm
    requires 20 <= |c|
  {
    HkVcm(U32At(order, c, 0), I64At(order, c, 4), I64At(order, c, 12))
  }

  function ReadWindow(order: Order, c: seq<byte>): Window
    requires WINDOW_SIZE <= |c|
  {
    Window(I64At(order, c, 0), I64At(order, c, 8))
  }

  /** Reading `n` records of `w` bytes one behind the other. */
  function ReadAll<E>(read: seq<byte> --> E, w: nat, n: nat, s: seq<byte>): (es: seq<E>)
    requires forall c :: |c| == w ==> read.requires(c)
    decreases n
  {
    if n == 0 || |s| < w then [] else [read(s[..w])] + ReadAll(read, w, n - 1, s[w..])
  }

  // The readers of the kinds of record, as values.

  function MDReader(order: Order): seq<byte> --> MDEntry {
    (c: seq<byte>) requires |c| == MD_ENTRY_SIZE => ReadMDEntry(order, c)
  }

  function HkReader(order: Order): seq<byte> --> HkMDEntry {
    (c: seq<byte>) requires |c| == HK_ENTRY_SIZE => ReadHkEntry(order, c)
  }

  function StatReader(order: Order): seq<byte> --> ChannelStatEntry {
    (c: seq<byte>) requires |c| == STAT_ENTRY_SIZE => ReadStatEntry(order, c)
  }

  function WindowReader(order: Order): seq<byte> --> Window {
    (c: seq<byte>) requires |c| == WINDOW_SIZE => ReadWindow(order, c)
  }

  function ReadMD(order: Order, s: seq<byte>, n: nat): RawSzMDData
    requires PREFIX_SIZE <= |s|
  {
    RawSzMDData(ReadPrefix(order, s), ReadAll(MDReader(order), MD_ENTRY_SIZE, n, s[PREFIX_SIZE..]))
  }

  /** `block` is where the volatility-control block lies: behind the entries on the wire, at its
      fixed offset in the struct. */
  function ReadHk(order: Order, s: seq<byte>, n: nat, block: nat): RawSzHkMDData
    requires PREFIX_SIZE <= |s| && block + 20 <= |s|
  {
    RawSzHkMDData(ReadPrefix(order, s), ReadAll(HkReader(order), HK_ENTRY_SIZE, n, s[PREFIX_SIZE..]),
                  ReadVcm(order, s[block..block + 20]))
  }

  function ReadStat(order: Order, s: seq<byte>, n: nat): RawSzChannelStat
    requires STAT_PREFIX_SIZE <= |s|
  {
    RawSzChannelStat(I64At(order, s, 0), U16At(order, s, 8),
                     ReadAll(StatReader(order), STAT_ENTRY_SIZE, n, s[STAT_PREFIX_SIZE..]))
  }

  function ReadStatus(order: Order, s: seq<byte>): RawSzHkMarketStatus
    requires STATUS_SIZE <= |s|
  {
    RawSzHkMarketStatus(I64At(order, s, 0), U16At(order, s, 8), s[10..18], s[18..26], s[26..30], s[30..34],
                        U16At(order, s, 34), I64At(order, s, 36), I64At(order, s, 44), I64At(order, s, 52),
                        I64At(order, s, 60), s[68])
  }

  // ---------------------------------------------------------------- writing messages as packed bytes

  function U16(v: uint16): seq<byte> { ToBe(v, 2) }
  function U32(v: uint32): seq<byte> { ToBe(v, 4) }
  function I64(v: int64): seq<byte> { ToBe(Unsigned64(v), 8) }

  function EncodeHead(p: Prefix): seq<byte> {
    I64(p.origTime) + U16(p.channelNo) + p.mdStreamId + p.securityId + p.securityIdSource + p.tradingPhaseCode
  }

  function EncodeTotals(p: Prefix, n: uint32): seq<byte> {
    (I64(p.prevClosePx) + I64(p.numTrades)) + (I64(p.totalVolumeTrade) + I64(p.totalValueTrade) + U32(n))
  }

  function EncodePrefix(p: Prefix, n: uint32): seq<byte> {
    EncodeHead(p) + EncodeTotals(p, n)
  }

  function EncodeHkEntry(e: HkMDEntry): seq<byte> {
    e.entryType + I64(e.px) + I64(e.size) + U16(e.level)
  }

  function EncodeMDEntry(e: MDEntry): seq<byte> {
    EncodeHkEntry(HkMDEntry(e.entryType, e.px, e.size, e.level)) + (I64(e.numberOfOrders) + U32(e.noOrders))
  }

  function EncodeStatEntry(e: ChannelStatEntry): seq<byte> {
    e.mdStreamId + U32(e.stockNum) + e.tradingPhaseCode
  }

  function EncodeWindow(w: Window): seq<byte> { I64(w.start) + I64(w.end) }

  function EncodeAll<E>(encode: E -> seq<byte>, es: seq<E>): seq<byte>
    decreases |es|
  {
    if es == [] then [] else encode(es[0]) + EncodeAll(encode, es[1..])
  }

  function MDWriter(): MDEntry -> seq<byte> { e => EncodeMDEntry(e) }
  function HkWriter(): HkMDEntry -> seq<byte> { e => EncodeHkEntry(e) }
  function StatWriter(): ChannelStatEntry -> seq<byte> { e => EncodeStatEntry(e) }
  function WindowWriter(): Window -> seq<byte> { w => EncodeWindow(w) }

  /** The block: the number of windows, then the windows. */
  function EncodeWindows(ws: seq<Window>): seq<byte>
    requires |ws| < 0x1_0000_0000
  {
    U32(|ws|) + EncodeAll(WindowWriter(), ws)
  }

  function EncodeMD(m: RawSzMDData): seq<byte>
    requires |m.entries| <= MAX_MD_ENTRY_NO
  {
    EncodePrefix(m.prefix, |m.entries|) + EncodeAll(MDWriter(), m.entries)
  }

  function EncodeHk(m: HkMessage): seq<byte>
    requires |m.entries| <= MAX_MD_ENTRY_NO && |m.windows| < 0x1_0000_0000
  {
    EncodePrefix(m.prefix, |m.entries|) + EncodeAll(HkWriter(), m.entries) + EncodeWindows(m.windows)
  }

  /** The block the host struct keeps: the count and the first window. */
  function HostVcm(ws: seq<Window>): HkVcm
    requires |ws| < 0x1_0000_0000
  {
    if ws == [] then HkVcm(0, 0, 0) else HkVcm(|ws|, ws[0].start, ws[0].end)
  }

  function HostHk(m: HkMessage): RawSzHkMDData
    requires |m.windows| < 0x1_0000_0000
  {
    RawSzHkMDData(m.prefix, m.entries, HostVcm(m.windows))
  }

  function EncodeStatPrefix(m: RawSzChannelStat): seq<byte>
    requires |m.entries| <= MAX_MD_ENTRY_NO
  {
    I64(m.origTime) + U16(m.channelNo) + U32(|m.entries|)
  }

  function EncodeStat(m: RawSzChannelStat): seq<byte>
    requires |m.entries| <= MAX_MD_ENTRY_NO
  {
    EncodeStatPrefix(m) + EncodeAll(StatWriter(), m.entries)
  }

  // Messages whose character fields have their declared widths and whose counts fit the structs.

  ghost predicate PrefixShape(p: Prefix) {
    |p.mdStreamId| == 3 && |p.securityId| == 8 && |p.securityIdSource| == 4 && |p.tradingPhaseCode| == 8
  }

  ghost predicate MDShape(m: RawSzMDData) {
    && PrefixShape(m.prefix) && |m.entries| <= MAX_MD_ENTRY_NO
    && forall i :: 0 <= i < |m.entries| ==> |m.entries[i].entryType| == 2
  }

  /** Any number of windows that leaves the body within its buffer. */
  ghost predicate HkShape(m: HkMessage) {
    && PrefixShape(m.prefix) && |m.entries| <= MAX_MD_ENTRY_NO
    && BlockAt(|m.entries|) + 4 + WINDOW_SIZE * |m.windows| <= BODY_SIZE
    && forall i :: 0 <= i < |m.entries| ==> |m.entries[i].entryType| == 2
  }

  ghost predicate StatShape(m: RawSzChannelStat) {
    && |m.entries| <= MAX_MD_ENTRY_NO
    && forall i :: 0 <= i < |m.entries| ==> |m.entries[i].mdStreamId| == 3 && |m.entries[i].tradingPhaseCode| == 8
  }

  /** A body as it lies in its buffer: the packed bytes and zeros behind them. */
  function Padded(b: seq<byte>): Body
    requires |b| <= BODY_SIZE
  {
    b + seq(BODY_SIZE - |b|, _ => 0)
  }

  // ---------------------------------------------------------------- what the decoders accept

  // The counts a body carries, and the message it writes when they are small enough.

  function MDCount(b: Body): uint32 { U32At(Big, b, 65) }
  function StatCount(b: Body): uint32 { U32At(Big, b, 10) }
  function BlockAt(n: nat): nat { PREFIX_SIZE + HK_ENTRY_SIZE * n }

  function WindowCount(b: Body): uint32
    requires MDCount(b) <= MAX_MD_ENTRY_NO
  {
    U32At(Big, b, BlockAt(MDCount(b)))
  }

  function WireMD(b: Body): RawSzMDData {
    ReadMD(Big, b, MDCount(b))
  }

  function WireHk(b: Body): RawSzHkMDData
    requires MDCount(b) <= MAX_MD_ENTRY_NO
  {
    ReadHk(Big, b, MDCount(b), BlockAt(MDCount(b)))
  }

  /** The message a decoder keeps: the window is read only when the block counts at least one. */
  function Kept(m: RawSzHkMDData): RawSzHkMDData {
    if m.vcm.times == 0 then m.(vcm := HkVcm(0, 0, 0)) else m
  }

  /** The same with all its windows, as far as the body reaches. */
  function HkMessageOf(b: Body): HkMessage
    requires MDCount(b) <= MAX_MD_ENTRY_NO
  {
    HkMessage(ReadPrefix(Big, b), ReadAll(HkReader(Big), HK_ENTRY_SIZE, MDCount(b), b[PREFIX_SIZE..]),
              ReadAll(WindowReader(Big), WINDOW_SIZE, WindowCount(b), b[BlockAt(MDCount(b)) + 4..]))
  }

  function WireStat(b: Body): RawSzChannelStat {
    ReadStat(Big, b, StatCount(b))
  }

  /** The decoder's tests, in their order: -1 too many entries, -2 wrong length, 0 accepted. */
  function MDStatus(b: Body, length: uint32): int {
    if MDCount(b) > MAX_MD_ENTRY_NO then -1
    else if length != MDCount(b) * MD_ENTRY_SIZE + PREFIX_SIZE then -2
    else 0
  }

  function HkStatus(b: Body, length: uint32): int {
    if MDCount(b) > MAX_MD_ENTRY_NO then -1
    else if length != MDCount(b) * HK_ENTRY_SIZE + PREFIX_SIZE + 4 + WindowCount(b) * 16 then -2
    else 0
  }

  /** Whether an accepted body fits the struct, which has room for one window. */
  predicate HkFits(b: Body, length: uint32) { HkStatus(b, length) == 0 ==> length <= HK_SIZE }

  function StatStatus(b: Body, length: uint32): int {
    if StatCount(b) > MAX_MD_ENTRY_NO then -1
    else if length != StatCount(b) * STAT_ENTRY_SIZE + STAT_PREFIX_SIZE then -2
    else 0
  }
}
