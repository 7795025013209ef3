/** The market-data messages of the exchange feed, as host values. */
module XsheTypes {
  type byte = x: int | 0 <= x < 256

  const MAX_MD_ENTRY_NO := 30

  type uint16 = x: int | 0 <= x < 0x1_0000
  type uint32 = x: int | 0 <= x < 0x1_0000_0000
  type int64 = x: int | -0x8000_0000_0000_0000 <= x < 0x8000_0000_0000_0000

  /** The fixed part shared by messages 300111 and 306311. */
  datatype Prefix = Prefix(
    origTime: int64, channelNo: uint16, mdStreamId: seq<byte>, securityId: seq<byte>,
    securityIdSource: seq<byte>, tradingPhaseCode: seq<byte>,
    prevClosePx: int64, numTrades: int64, totalVolumeTrade: int64, totalValueTrade: int64)

  datatype MDEntry = MDEntry(
    entryType: seq<byte>, px: int64, size: int64, level: uint16, numberOfOrders: int64, noOrders: uint32)

  datatype HkMDEntry = HkMDEntry(entryType: seq<byte>, px: int64, size: int64, level: uint16)

  /** Message 300111. */
  datatype RawSzMDData = RawSzMDData(prefix: Prefix, entries: seq<MDEntry>)

  /** The volatility-control block of message 306311. */
  datatype HkVcm = HkVcm(times: uint32, start: int64, end: int64)

  /** Message 306311 as the host struct holds it: it has room for one window. */
  datatype RawSzHkMDData = RawSzHkMDData(prefix: Prefix, entries: seq<HkMDEntry>, vcm: HkVcm)

  datatype Window = Window(start: int64, end: int64)

  /** Message 306311 as it is sent: any number of windows. */
  datatype HkMessage = HkMessage(prefix: Prefix, entries: seq<HkMDEntry>, windows: seq<Window>)

  datatype ChannelStatEntry = ChannelStatEntry(mdStreamId: seq<byte>, stockNum: uint32, tradingPhaseCode: seq<byte>)

  /** Message 390090. */
  datatype RawSzChannelStat = RawSzChannelStat(origTime: int64, channelNo: uint16, entries: seq<ChannelStatEntry>)

  /** Message 390019. */
  datatype RawSzHkMarketStatus = RawSzHkMarketStatus(
    origTime: int64, channelNo: uint16, marketId: seq<byte>, marketSegmentId: seq<byte>,
    tradingSessionId: seq<byte>, tradingSessionSubId: seq<byte>, tradSesStatus: uint16,
    tradSesStartTime: int64, tradSesEndTime: int64, thresholdAmount: int64, posAmt: int64, amountStatus: byte)
}
