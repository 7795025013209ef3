/** The decoders: checks, memset, memcpy, then one byte swap per numeric field, all on the memory
    image of the host struct. */
module Deserialize {
  import opened XsheTypes
  import opened ByteOrder
  import opened Codec

  // ---------------------------------------------------------------- images

  /** What swapping every numeric field makes of a prefix and of one entry. */
  function PrefixImage(s: seq<byte>): seq<byte>
    requires |s| >= PREFIX_SIZE
  {
    (Reverse(s[0..8]) + Reverse(s[8..10]) + s[10..33]) +
    ((Reverse(s[33..41]) + Reverse(s[41..49])) + (Reverse(s[49..57]) + Reverse(s[57..65]) + Reverse(s[65..69])))
  }

  function HkEntryImage(c: seq<byte>): seq<byte>
    requires |c| >= HK_ENTRY_SIZE
  {
    c[0..2] + Reverse(c[2..10]) + (Reverse(c[10..18]) + Reverse(c[18..20]))
  }

  function MDEntryImage(c: seq<byte>): seq<byte>
    requires |c| >= MD_ENTRY_SIZE
  {
    HkEntryImage(c) + (Reverse(c[20..28]) + Reverse(c[28..32]))
  }

  function StatEntryImage(c: seq<byte>): seq<byte>
    requires |c| >= STAT_ENTRY_SIZE
  {
    c[0..3] + Reverse(c[3..7]) + c[7..15]
  }

  lemma SwappedField(img: seq<byte>, at: nat, src: seq<byte>, from: nat, w: nat)
    requires at + w <= |img| && from + w <= |src| && img[at..at + w] == Reverse(src[from..from + w])
    ensures Number(Little, img[at..at + w]) == Number(Big, src[from..from + w])
  {
    LeOfReverse(src[from..from + w]);
  }

  lemma PrefixImageSlices(s: seq<byte>)
    requires |s| >= PREFIX_SIZE
    ensures var e := PrefixImage(s);
            && |e| == PREFIX_SIZE && e[0..8] == Reverse(s[0..8])
            && e[8..10] == Reverse(s[8..10]) && e[10..33] == s[10..33]
            && e[33..41] == Reverse(s[33..41]) && e[41..49] == Reverse(s[41..49]) && e[49..57] == Reverse(s[49..57])
            && e[57..65] == Reverse(s[57..65]) && e[65..69] == Reverse(s[65..69])
  {
  }

  lemma RawFieldsSame(img: seq<byte>, src: seq<byte>)
    requires |img| >= PREFIX_SIZE && |src| >= PREFIX_SIZE && img[10..33] == src[10..33]
    ensures img[10..13] == src[10..13] && img[13..21] == src[13..21] && img[21..25] == src[21..25]
            && img[25..33] == src[25..33]
  {
    SubSlice(img, 10, 23, 0, 3);
    SubSlice(src, 10, 23, 0, 3);
    SubSlice(img, 10, 23, 3, 11);
    SubSlice(src, 10, 23, 3, 11);
    SubSlice(img, 10, 23, 11, 15);
    SubSlice(src, 10, 23, 11, 15);
    SubSlice(img, 10, 23, 15, 23);
    SubSlice(src, 10, 23, 15, 23);
  }

  /** The host reads from the image what the wire said. */
  lemma PrefixImageReads(img: seq<byte>, src: seq<byte>)
    requires |img| >= PREFIX_SIZE && |src| >= PREFIX_SIZE && img[..PREFIX_SIZE] == PrefixImage(src)
    ensures ReadPrefix(Little, img) == ReadPrefix(Big, src) && U32At(Little, img, 65) == U32At(Big, src, 65)
  {
    PrefixImageSlices(src);
    var e := img[..PREFIX_SIZE];
    assert img[0..8] == e[0..8] && img[8..10] == e[8..10] && img[10..33] == e[10..33];
    assert img[33..41] == e[33..41] && img[41..49] == e[41..49] && img[49..57] == e[49..57];
    assert img[57..65] == e[57..65] && img[65..69] == e[65..69];
    SwappedField(img, 0, src, 0, 8);
    SwappedField(img, 8, src, 8, 2);
    SwappedField(img, 33, src, 33, 8);
    SwappedField(img, 41, src, 41, 8);
    SwappedField(img, 49, src, 49, 8);
    SwappedField(img, 57, src, 57, 8);
    SwappedField(img, 65, src, 65, 4);
    RawFieldsSame(img, src);
  }

  lemma HkEntryImageReads(img: seq<byte>, c: seq<byte>)
    requires |c| >= HK_ENTRY_SIZE && |img| >= HK_ENTRY_SIZE && img[..HK_ENTRY_SIZE] == HkEntryImage(c)
    ensures ReadHkEntry(Little, img) == ReadHkEntry(Big, c)
  {
    var e := HkEntryImage(c);
    assert img[0..2] == e[0..2] == c[0..2] && img[2..10] == e[2..10] == Reverse(c[2..10]);
    assert img[10..18] == e[10..18] == Reverse(c[10..18]) && img[18..20] == e[18..20] == Reverse(c[18..20]);
    SwappedField(img, 2, c, 2, 8);
    SwappedField(img, 10, c, 10, 8);
    SwappedField(img, 18, c, 18, 2);
  }

  lemma MDEntryImageReads(c: seq<byte>)
    requires |c| == MD_ENTRY_SIZE
    ensures |MDEntryImage(c)| == MD_ENTRY_SIZE && ReadMDEntry(Little, MDEntryImage(c)) == ReadMDEntry(Big, c)
  {
    var img := MDEntryImage(c);
    assert img[..HK_ENTRY_SIZE] == HkEntryImage(c);
    HkEntryImageReads(img, c);
    assert img[20..28] == Reverse(c[20..28]) && img[28..32] == Reverse(c[28..32]);
    SwappedField(img, 20, c, 20, 8);
    SwappedField(img, 28, c, 28, 4);
  }

  lemma StatEntryImageReads(c: seq<byte>)
    requires |c| == STAT_ENTRY_SIZE
    ensures |StatEntryImage(c)| == STAT_ENTRY_SIZE && ReadStatEntry(Little, StatEntryImage(c)) == ReadStatEntry(Big, c)
  {
    var img := StatEntryImage(c);
    assert img[0..3] == c[0..3] && img[3..7] == Reverse(c[3..7]) && img[7..15] == c[7..15];
    SwappedField(img, 3, c, 3, 4);
  }

  /** Entry `j` of a run of `w`-byte records that starts at `base`. */
  function Chunk(s: seq<byte>, base: nat, w: nat, j: nat): seq<byte>
    requires base + w * j + w <= |s|
  {
    s[base + w * j..base + w * j + w]
  }

  /** Two runs of records that agree record by record read alike. */
  lemma {:induction false} ReadAllAlike<E>(
      readS: seq<byte> --> E, readT: seq<byte> --> E, w: nat, n: nat, s: seq<byte>, t: seq<byte>)
    requires forall c :: |c| == w ==> readS.requires(c) && readT.requires(c)
    requires w * n <= |s| && w * n <= |t|
    requires forall j :: 0 <= j < n ==>
               w * j >= 0 && w * j + w <= w * n && readS(Chunk(s, 0, w, j)) == readT(Chunk(t, 0, w, j))
    ensures ReadAll(readS, w, n, s) == ReadAll(readT, w, n, t)
    decreases n
  {
    if n > 0 {
      assert w * (n - 1) + w == w * n;
      assert Chunk(s, 0, w, 0) == s[..w] && Chunk(t, 0, w, 0) == t[..w];
      forall j | 0 <= j < n - 1
        ensures w * j >= 0 && w * j + w <= w * (n - 1)
             && readS(Chunk(s[w..], 0, w, j)) == readT(Chunk(t[w..], 0, w, j))
      {
        assert w * (j + 1) == w * j + w && w * (j + 1) + w <= w * n;
        assert Chunk(s[w..], 0, w, j) == Chunk(s, 0, w, j + 1) && Chunk(t[w..], 0, w, j) == Chunk(t, 0, w, j + 1);
      }
      ReadAllAlike(readS, readT, w, n - 1, s[w..], t[w..]);
    }
  }

  // ---------------------------------------------------------------- the assignments

  method StoreBytes(md: array<byte>, at: nat, bytes: seq<byte>)
    requires at + |bytes| <= md.Length
    modifies md
    ensures md[at..at + |bytes|] == bytes
    ensures forall k :: 0 <= k < md.Length && !(at <= k < at + |bytes|) ==> md[k] == old(md[k])
  {
    for j := 0 to |bytes|
      invariant forall k :: 0 <= k < j ==> md[at + k] == bytes[k]
      invariant forall k :: 0 <= k < md.Length && !(at <= k < at + |bytes|) ==> md[k] == old(md[k])
    {
      md[at + j] := bytes[j];
    }
  }

  /** `md.field = htn(p->field)`: load from the wire, swap, store into the struct. */
  method SwapField(md: array<byte>, at: nat, src: seq<byte>, from: nat, w: nat)
    requires (w == 2 || w == 4 || w == 8) && at + w <= md.Length && from + w <= |src|
    modifies md
    ensures md[at..at + w] == Reverse(src[from..from + w])
    ensures forall k :: 0 <= k < md.Length && !(at <= k < at + w) ==> md[k] == old(md[k])
  {
    HtnReverses(src[from..from + w]);
    StoreBytes(md, at, Htn(src[from..from + w]));
  }

  /** memset to zero, then memcpy of `length` bytes. */
  method ZeroAndCopy(md: array<byte>, buffer: seq<byte>, length: nat)
    requires length <= md.Length && length <= |buffer|
    modifies md
    ensures md[..length] == buffer[..length]
    ensures forall k :: length <= k < md.Length ==> md[k] == 0
  {
    for i := 0 to md.Length
      invariant forall k :: 0 <= k < i ==> md[k] == 0
    {
      md[i] := 0;
    }
    for i := 0 to length
      invariant forall k :: 0 <= k < i ==> md[k] == buffer[k]
      invariant forall k :: length <= k < md.Length ==> md[k] == 0
    {
      md[i] := buffer[i];
    }
  }

  /** The seven swaps of the part that 300111 and 306311 share. */
  method SwapPrefix(md: array<byte>, buffer: seq<byte>)
    requires PREFIX_SIZE <= md.Length && PREFIX_SIZE <= |buffer| && md[..PREFIX_SIZE] == buffer[..PREFIX_SIZE]
    modifies md
    ensures md[..PREFIX_SIZE] == PrefixImage(buffer)
    ensures forall k :: PREFIX_SIZE <= k < md.Length ==> md[k] == old(md[k])
  {
    assert md[10..33] == md[..PREFIX_SIZE][10..33] == buffer[10..33];
    SwapField(md, 0, buffer, 0, 8);      // OrigTime
    SwapField(md, 8, buffer, 8, 2);      // ChannelNo
    SwapField(md, 33, buffer, 33, 8);    // PrevClosePx
    SwapField(md, 41, buffer, 41, 8);    // NumTrades
    SwapField(md, 49, buffer, 49, 8);    // TotalVolumeTrade
    SwapField(md, 57, buffer, 57, 8);    // TotalValueTrade
    SwapField(md, 65, buffer, 65, 4);    // NoMDEntries
    PrefixAssembled(md[..], buffer);
  }

  lemma PrefixAssembled(img: seq<byte>, s: seq<byte>)
    requires |img| >= PREFIX_SIZE && |s| >= PREFIX_SIZE
    requires img[0..8] == Reverse(s[0..8]) && img[8..10] == Reverse(s[8..10]) && img[10..33] == s[10..33]
    requires img[33..41] == Reverse(s[33..41]) && img[41..49] == Reverse(s[41..49]) && img[49..57] == Reverse(s[49..57])
    requires img[57..65] == Reverse(s[57..65]) && img[65..69] == Reverse(s[65..69])
    ensures img[..PREFIX_SIZE] == PrefixImage(s)
  {
    Join(img, 0, 8, 10);
    Join(img, 0, 10, 33);
    Join(img, 33, 41, 49);
    Join(img, 49, 57, 65);
    Join(img, 49, 65, 69);
    Join(img, 33, 49, 69);
    Join(img, 0, 33, 69);
  }

  method SwapHkEntry(md: array<byte>, at: nat, buffer: seq<byte>)
    requires at + HK_ENTRY_SIZE <= md.Length && at + HK_ENTRY_SIZE <= |buffer|
    requires md[at..at + HK_ENTRY_SIZE] == buffer[at..at + HK_ENTRY_SIZE]
    modifies md
    ensures md[at..at + HK_ENTRY_SIZE] == HkEntryImage(buffer[at..at + HK_ENTRY_SIZE])
    ensures forall k :: 0 <= k < md.Length && !(at <= k < at + HK_ENTRY_SIZE) ==> md[k] == old(md[k])
  {
    ghost var was := md[..];
    SwapField(md, at + 2, buffer, at + 2, 8);     // MDEntryPx
    SwapField(md, at + 10, buffer, at + 10, 8);   // MDEntrySize
    SwapField(md, at + 18, buffer, at + 18, 2);   // MDPriceLevel
    assert md[at..at + 2] == was[at..at + 2] by { SliceSame(md[..], was, at, at + 2); }
    SubSlice(was, at, HK_ENTRY_SIZE, 0, 2);
    HkEntryAssembled(md[..], at, buffer);
  }

  lemma HkEntryAssembled(img: seq<byte>, at: nat, s: seq<byte>)
    requires at + HK_ENTRY_SIZE <= |img| && at + HK_ENTRY_SIZE <= |s|
    requires img[at..at + 2] == s[at..at + HK_ENTRY_SIZE][0..2]
    requires img[at + 2..at + 10] == Reverse(s[at + 2..at + 10])
    requires img[at + 10..at + 18] == Reverse(s[at + 10..at + 18])
             && img[at + 18..at + 20] == Reverse(s[at + 18..at + 20])
    ensures img[at..at + HK_ENTRY_SIZE] == HkEntryImage(s[at..at + HK_ENTRY_SIZE])
  {
    SubSlice(s, at, HK_ENTRY_SIZE, 2, 10);
    SubSlice(s, at, HK_ENTRY_SIZE, 10, 18);
    SubSlice(s, at, HK_ENTRY_SIZE, 18, 20);
    Join(img, at, at + 2, at + 10);
    Join(img, at + 10, at + 18, at + 20);
    Join(img, at, at + 10, at + 20);
  }

  /** The first three numeric fields lie as in the Hong Kong entry. */
  method SwapMDEntry(md: array<byte>, at: nat, buffer: seq<byte>)
    requires at + MD_ENTRY_SIZE <= md.Length && at + MD_ENTRY_SIZE <= |buffer|
    requires md[at..at + MD_ENTRY_SIZE] == buffer[at..at + MD_ENTRY_SIZE]
    modifies md
    ensures md[at..at + MD_ENTRY_SIZE] == MDEntryImage(buffer[at..at + MD_ENTRY_SIZE])
    ensures forall k :: 0 <= k < md.Length && !(at <= k < at + MD_ENTRY_SIZE) ==> md[k] == old(md[k])
  {
    ghost var c := buffer[at..at + MD_ENTRY_SIZE];
    SubSlice(buffer, at, MD_ENTRY_SIZE, 0, 20);
    SubSlice(md[..], at, MD_ENTRY_SIZE, 0, 20);
    SwapHkEntry(md, at, buffer);
    assert HkEntryImage(c) == HkEntryImage(buffer[at..at + 20]) by { HkEntryImageOfPrefix(c); }
    SwapField(md, at + 20, buffer, at + 20, 8);   // NumberOfOrders
    SwapField(md, at + 28, buffer, at + 28, 4);   // NoOrders
    SubSlice(buffer, at, MD_ENTRY_SIZE, 20, 28);
    SubSlice(buffer, at, MD_ENTRY_SIZE, 28, 32);
    assert md[at..at + 20] == HkEntryImage(c);
    assert md[at + 20..at + 32] == Reverse(c[20..28]) + Reverse(c[28..32]);
  }

  lemma HkEntryImageOfPrefix(c: seq<byte>)
    requires |c| >= HK_ENTRY_SIZE
    ensures HkEntryImage(c) == HkEntryImage(c[0..20])
  {
    SubSlice(c, 0, 20, 0, 2);
    SubSlice(c, 0, 20, 2, 10);
    SubSlice(c, 0, 20, 10, 18);
    SubSlice(c, 0, 20, 18, 20);
  }

  // ---------------------------------------------------------------- deserializeBody

  /** Entry `j` of the image is the swapped entry `j` of the wire. */
  ghost predicate MDEntryDone(img: seq<byte>, buffer: seq<byte>, j: nat)
    requires PREFIX_SIZE + MD_ENTRY_SIZE * j + MD_ENTRY_SIZE <= |img|
             && PREFIX_SIZE + MD_ENTRY_SIZE * j + MD_ENTRY_SIZE <= |buffer|
  {
    Chunk(img, PREFIX_SIZE, MD_ENTRY_SIZE, j) == MDEntryImage(Chunk(buffer, PREFIX_SIZE, MD_ENTRY_SIZE, j))
  }

  /** Writes behind the first `n` entries leave them done. */
  lemma MDDoneFrame(before: seq<byte>, after: seq<byte>, buffer: Body, n: nat)
    requires |before| == |after| == MD_SIZE && n <= MAX_MD_ENTRY_NO
    requires forall k :: 0 <= k < PREFIX_SIZE + MD_ENTRY_SIZE * n ==> after[k] == before[k]
    requires forall j :: 0 <= j < n ==> MDEntryDone(before, buffer, j)
    ensures forall j :: 0 <= j < n ==> MDEntryDone(after, buffer, j)
  {
    forall j | 0 <= j < n ensures MDEntryDone(after, buffer, j) {
      assert MDEntryDone(before, buffer, j);
      assert Chunk(after, PREFIX_SIZE, MD_ENTRY_SIZE, j) == Chunk(before, PREFIX_SIZE, MD_ENTRY_SIZE, j);
    }
  }

  /** Entry `n` swapped as well. */
  lemma MDDoneNext(before: seq<byte>, after: seq<byte>, buffer: Body, n: nat)
    requires |before| == |after| == MD_SIZE && n < MAX_MD_ENTRY_NO
    requires forall k :: 0 <= k < PREFIX_SIZE + MD_ENTRY_SIZE * n ==> after[k] == before[k]
    requires forall j :: 0 <= j < n ==> MDEntryDone(before, buffer, j)
    requires var at := PREFIX_SIZE + MD_ENTRY_SIZE * n;
             after[at..at + MD_ENTRY_SIZE] == MDEntryImage(buffer[at..at + MD_ENTRY_SIZE])
    ensures forall j :: 0 <= j < n + 1 ==> MDEntryDone(after, buffer, j)
  {
    MDDoneFrame(before, after, buffer, n);
    assert MDEntryDone(after, buffer, n);
  }

  lemma MDImageReads(img: seq<byte>, b: Body, n: nat)
    requires |img| == MD_SIZE && n <= MAX_MD_ENTRY_NO && n == MDCount(b)
    requires img[..PREFIX_SIZE] == PrefixImage(b)
    requires forall j :: 0 <= j < n ==> MDEntryDone(img, b, j)
    ensures U32At(Little, img, 65) == n && ReadMD(Little, img, n) == WireMD(b)
  {
    PrefixImageReads(img, b);
    var s, t := img[PREFIX_SIZE..], b[PREFIX_SIZE..];
    forall j | 0 <= j < n
      ensures MDReader(Little)(Chunk(s, 0, MD_ENTRY_SIZE, j)) == MDReader(Big)(Chunk(t, 0, MD_ENTRY_SIZE, j))
    {
      assert MDEntryDone(img, b, j);
      assert Chunk(s, 0, MD_ENTRY_SIZE, j) == Chunk(img, PREFIX_SIZE, MD_ENTRY_SIZE, j);
      assert Chunk(t, 0, MD_ENTRY_SIZE, j) == Chunk(b, PREFIX_SIZE, MD_ENTRY_SIZE, j);
      MDEntryImageReads(Chunk(t, 0, MD_ENTRY_SIZE, j));
    }
    ReadAllAlike(MDReader(Little), MDReader(Big), MD_ENTRY_SIZE, n, s, t);
  }

  /** deserializeBody(RawSzMDData&): on success the host struct holds the message of the wire and the
      entries beyond its count are zero; on failure it is untouched. */
  method DeserializeMD(md: array<byte>, buffer: Body, length: uint32) returns (ret: int)
    requires md.Length == MD_SIZE
    modifies md
    ensures ret == MDStatus(buffer, length)
    ensures ret != 0 ==> md[..] == old(md[..])
    ensures ret == 0 ==>
              && U32At(Little, md[..], 65) == MDCount(buffer)
              && ReadMD(Little, md[..], MDCount(buffer)) == WireMD(buffer)
    ensures ret == 0 ==> forall k :: PREFIX_SIZE + MD_ENTRY_SIZE * MDCount(buffer) <= k < MD_SIZE ==> md[k] == 0
  {
    var n := MDCount(buffer);
    if n > MAX_MD_ENTRY_NO {
      return -1;
    }
    if length != n * MD_ENTRY_SIZE + PREFIX_SIZE {
      return -2;
    }
    ZeroAndCopy(md, buffer, length);
    assert md[..PREFIX_SIZE] == md[..length][..PREFIX_SIZE] == buffer[..PREFIX_SIZE];
    assert forall k :: PREFIX_SIZE <= k < length ==> md[..length][k] == buffer[k];
    SwapPrefix(md, buffer);
    MDEntryLoop(md, buffer, n);
    MDImageReads(md[..], buffer, n);
    return 0;
  }

  /** The loop over the entries. */
  method MDEntryLoop(md: array<byte>, buffer: Body, n: nat)
    requires md.Length == MD_SIZE && n <= MAX_MD_ENTRY_NO
    requires forall k :: PREFIX_SIZE <= k < PREFIX_SIZE + MD_ENTRY_SIZE * n ==> md[k] == buffer[k]
    modifies md
    ensures forall j :: 0 <= j < n ==> MDEntryDone(md[..], buffer, j)
    ensures md[..PREFIX_SIZE] == old(md[..PREFIX_SIZE])
    ensures forall k :: PREFIX_SIZE + MD_ENTRY_SIZE * n <= k < MD_SIZE ==> md[k] == old(md[k])
  {
    for i := 0 to n
      invariant forall j :: 0 <= j < i ==> MDEntryDone(md[..], buffer, j)
      invariant forall k :: PREFIX_SIZE + MD_ENTRY_SIZE * i <= k < PREFIX_SIZE + MD_ENTRY_SIZE * n ==>
                md[k] == buffer[k]
      invariant forall k :: 0 <= k < PREFIX_SIZE ==> md[k] == old(md[k])
      invariant forall k :: PREFIX_SIZE + MD_ENTRY_SIZE * n <= k < MD_SIZE ==> md[k] == old(md[k])
    {
      var at := PREFIX_SIZE + MD_ENTRY_SIZE * i;
      ghost var before := md[..];
      SwapMDEntry(md, at, buffer);
      assert md[..][at..at + MD_ENTRY_SIZE] == md[at..at + MD_ENTRY_SIZE];
      MDDoneNext(before, md[..], buffer, i);
    }
  }

  // ---- message 306311

  ghost predicate HkEntryDone(img: seq<byte>, buffer: seq<byte>, j: nat)
    requires BlockAt(j) + HK_ENTRY_SIZE <= |img| && BlockAt(j) + HK_ENTRY_SIZE <= |buffer|
  {
    Chunk(img, PREFIX_SIZE, HK_ENTRY_SIZE, j) == HkEntryImage(Chunk(buffer, PREFIX_SIZE, HK_ENTRY_SIZE, j))
  }

  /** The fixed block field is filled from the block behind the entries, if it has a window. */
  ghost predicate VcmDone(img: seq<byte>, b: Body)
    requires |img| == HK_SIZE && MDCount(b) <= MAX_MD_ENTRY_NO
  {
    var block := BlockAt(MDCount(b));
    && img[669..673] == Reverse(b[block..block + 4])
    && (if WindowCount(b) == 0 then forall k :: 673 <= k < 689 ==> img[k] == 0
        else img[673..681] == Reverse(b[block + 4..block + 12]) && img[681..689] == Reverse(b[block + 12..block + 20]))
  }

  lemma VcmImageReads(img: seq<byte>, b: Body)
    requires |img| == HK_SIZE && MDCount(b) <= MAX_MD_ENTRY_NO && VcmDone(img, b)
    ensures ReadVcm(Little, img[VCM_OFFSET..VCM_OFFSET + 20]) == Kept(WireHk(b)).vcm
  {
    var block := BlockAt(MDCount(b));
    var c, d := img[VCM_OFFSET..VCM_OFFSET + 20], b[block..block + 20];
    SubSlice(img, VCM_OFFSET, 20, 0, 4);
    SubSlice(b, block, 20, 0, 4);
    SwappedField(c, 0, d, 0, 4);
    SubSlice(img, VCM_OFFSET, 20, 4, 12);
    SubSlice(img, VCM_OFFSET, 20, 12, 20);
    if WindowCount(b) == 0 {
      assert forall k :: 4 <= k < 20 ==> c[k] == img[VCM_OFFSET + k];
      LeOfZeros(c[4..12]);
      LeOfZeros(c[12..20]);
    } else {
      SubSlice(b, block, 20, 4, 12);
      SubSlice(b, block, 20, 12, 20);
      SwappedField(c, 4, d, 4, 8);
      SwappedField(c, 12, d, 12, 8);
    }
  }

  /** Writes behind the first `n` entries leave them done. */
  lemma HkDoneFrame(before: seq<byte>, after: seq<byte>, buffer: Body, n: nat)
    requires |before| == |after| == HK_SIZE && n <= MAX_MD_ENTRY_NO
    requires forall k :: 0 <= k < BlockAt(n) ==> after[k] == before[k]
    requires forall j :: 0 <= j < n ==> HkEntryDone(before, buffer, j)
    ensures forall j :: 0 <= j < n ==> HkEntryDone(after, buffer, j)
  {
    forall j | 0 <= j < n ensures HkEntryDone(after, buffer, j) {
      assert HkEntryDone(before, buffer, j);
      assert Chunk(after, PREFIX_SIZE, HK_ENTRY_SIZE, j) == Chunk(before, PREFIX_SIZE, HK_ENTRY_SIZE, j);
    }
  }

  /** Entry `n` swapped as well. */
  lemma HkDoneNext(before: seq<byte>, after: seq<byte>, buffer: Body, n: nat)
    requires |before| == |after| == HK_SIZE && n < MAX_MD_ENTRY_NO
    requires forall k :: 0 <= k < BlockAt(n) ==> after[k] == before[k]
    requires forall j :: 0 <= j < n ==> HkEntryDone(before, buffer, j)
    requires var at := BlockAt(n); after[at..at + HK_ENTRY_SIZE] == HkEntryImage(buffer[at..at + HK_ENTRY_SIZE])
    ensures forall j :: 0 <= j < n + 1 ==> HkEntryDone(after, buffer, j)
  {
    HkDoneFrame(before, after, buffer, n);
    assert HkEntryDone(after, buffer, n);
  }

  lemma HkImageReads(img: seq<byte>, b: Body, n: nat)
    requires |img| == HK_SIZE && n <= MAX_MD_ENTRY_NO && n == MDCount(b)
    requires img[..PREFIX_SIZE] == PrefixImage(b) && VcmDone(img, b)
    requires forall j :: 0 <= j < n ==> HkEntryDone(img, b, j)
    ensures U32At(Little, img, 65) == n && ReadHk(Little, img, n, VCM_OFFSET) == Kept(WireHk(b))
  {
    PrefixImageReads(img, b);
    VcmImageReads(img, b);
    var s, t := img[PREFIX_SIZE..], b[PREFIX_SIZE..];
    forall j | 0 <= j < n
      ensures HkReader(Little)(Chunk(s, 0, HK_ENTRY_SIZE, j)) == HkReader(Big)(Chunk(t, 0, HK_ENTRY_SIZE, j))
    {
      assert HkEntryDone(img, b, j);
      assert Chunk(s, 0, HK_ENTRY_SIZE, j) == Chunk(img, PREFIX_SIZE, HK_ENTRY_SIZE, j);
      assert Chunk(t, 0, HK_ENTRY_SIZE, j) == Chunk(b, PREFIX_SIZE, HK_ENTRY_SIZE, j);
      HkEntryImageReads(Chunk(s, 0, HK_ENTRY_SIZE, j), Chunk(t, 0, HK_ENTRY_SIZE, j));
    }
    ReadAllAlike(HkReader(Little), HkReader(Big), HK_ENTRY_SIZE, n, s, t);
  }

  /** The loop over the entries. */
  method HkEntryLoop(md: array<byte>, buffer: Body, n: nat)
    requires md.Length == HK_SIZE && n <= MAX_MD_ENTRY_NO
    requires forall k :: PREFIX_SIZE <= k < BlockAt(n) ==> md[k] == buffer[k]
    modifies md
    ensures forall j :: 0 <= j < n ==> HkEntryDone(md[..], buffer, j)
    ensures md[..PREFIX_SIZE] == old(md[..PREFIX_SIZE])
    ensures forall k :: BlockAt(n) <= k < HK_SIZE ==> md[k] == old(md[k])
  {
    for i := 0 to n
      invariant forall j :: 0 <= j < i ==> HkEntryDone(md[..], buffer, j)
      invariant forall k :: BlockAt(i) <= k < BlockAt(n) ==> md[k] == buffer[k]
      invariant forall k :: 0 <= k < PREFIX_SIZE ==> md[k] == old(md[k])
      invariant forall k :: BlockAt(n) <= k < HK_SIZE ==> md[k] == old(md[k])
    {
      var at := BlockAt(i);
      ghost var before := md[..];
      SwapHkEntry(md, at, buffer);
      assert md[..][at..at + HK_ENTRY_SIZE] == md[at..at + HK_ENTRY_SIZE];
      HkDoneNext(before, md[..], buffer, i);
    }
  }

  /** The block: its count, then its window once per counted window. */
  method SwapVcm(md: array<byte>, buffer: Body)
    requires md.Length == HK_SIZE && MDCount(buffer) <= MAX_MD_ENTRY_NO
    requires WindowCount(buffer) == 0 ==> forall k :: 673 <= k < HK_SIZE ==> md[k] == 0
    modifies md
    ensures VcmDone(md[..], buffer)
    ensures forall k :: 0 <= k < VCM_OFFSET ==> md[k] == old(md[k])
  {
    var block := BlockAt(MDCount(buffer));
    var times := WindowCount(buffer);
    SwapField(md, 669, buffer, block, 4);             // NoComplexEventTimes
    for i := 0 to times
      invariant md[669..673] == Reverse(buffer[block..block + 4])
      invariant i > 0 ==> md[673..681] == Reverse(buffer[block + 4..block + 12])
      invariant i > 0 ==> md[681..689] == Reverse(buffer[block + 12..block + 20])
      invariant times == 0 ==> forall k :: 673 <= k < HK_SIZE ==> md[k] == 0
      invariant forall k :: 0 <= k < VCM_OFFSET ==> md[k] == old(md[k])
    {
      ghost var atStart := md[..];
      SwapField(md, 673, buffer, block + 4, 8);       // ComplexEventStartTime
      ghost var between := md[..];
      SwapField(md, 681, buffer, block + 12, 8);      // ComplexEventEndTime
      SliceSame(md[..], between, 673, 681);
      SliceSame(md[..], atStart, 669, 673);
    }
  }

  /** deserializeBody(RawSzHkMDData&).  `fits` says whether the copy stays inside the struct; the length test
      does not ensure it, and if it does not nothing is promised.  What the copied block leaves between the
      last entry and the fixed block field stays there. */
  method DeserializeHk(md: array<byte>, buffer: Body, length: uint32) returns (ret: int, fits: bool)
    requires md.Length == HK_SIZE
    modifies md
    ensures ret == HkStatus(buffer, length) && (fits <==> HkFits(buffer, length))
    ensures ret != 0 ==> md[..] == old(md[..])
    ensures ret == 0 && fits ==>
              && U32At(Little, md[..], 65) == MDCount(buffer)
              && ReadHk(Little, md[..], MDCount(buffer), VCM_OFFSET) == Kept(WireHk(buffer))
    ensures ret == 0 && fits ==> Leftover(md[..], buffer, length)
  {
    var n := MDCount(buffer);
    if n > MAX_MD_ENTRY_NO {
      return -1, true;
    }
    if length != n * HK_ENTRY_SIZE + PREFIX_SIZE + 4 + WindowCount(buffer) * 16 {
      return -2, true;
    }
    if length > HK_SIZE {
      return 0, false;
    }
    ZeroAndCopy(md, buffer, length);
    assert md[..PREFIX_SIZE] == md[..length][..PREFIX_SIZE] == buffer[..PREFIX_SIZE];
    assert forall k :: PREFIX_SIZE <= k < length ==> md[..length][k] == buffer[k];
    SwapPrefix(md, buffer);
    HkEntryLoop(md, buffer, n);
    ghost var before := md[..];
    SwapVcm(md, buffer);
    HkDoneFrame(before, md[..], buffer, n);
    HkImageReads(md[..], buffer, n);
    return 0, true;
  }

  /** The bytes between the last entry and the fixed block field: what was copied, then zeros. */
  ghost predicate Leftover(img: seq<byte>, b: Body, length: uint32)
    requires |img| == HK_SIZE && MDCount(b) <= MAX_MD_ENTRY_NO
  {
    forall k :: BlockAt(MDCount(b)) <= k < VCM_OFFSET ==> img[k] == if k < length then b[k] else 0
  }

  /** Unlike the other decoders this one does not zero the entries beyond its count: it does exactly
      when there are none, or the message carries no window. */
  lemma UnusedEntriesZeroIff(img: seq<byte>, b: Body, length: uint32)
    requires |img| == HK_SIZE && HkStatus(b, length) == 0 && Leftover(img, b, length)
    ensures (forall k :: BlockAt(MDCount(b)) <= k < VCM_OFFSET ==> img[k] == 0)
       <==> MDCount(b) == MAX_MD_ENTRY_NO || WindowCount(b) == 0
  {
    var block := BlockAt(MDCount(b));
    var count := b[block..block + 4];
    if MDCount(b) < MAX_MD_ENTRY_NO {
      if WindowCount(b) == 0 {
        forall k | block <= k < block + 4 ensures b[k] == 0 {
          if b[k] != 0 {
            BePositive(count, k - block);
          }
        }
      } else if forall k :: block <= k < VCM_OFFSET ==> img[k] == 0 {
        forall i | 0 <= i < 4 ensures count[i] == 0 {
          assert img[block + i] == b[block + i];
        }
        BeOfZeros(count);
      }
    }
  }

  // ---- message 390090

  function StatEntryAt(j: nat): nat { STAT_PREFIX_SIZE + STAT_ENTRY_SIZE * j }

  ghost predicate StatEntryDone(img: seq<byte>, buffer: seq<byte>, j: nat)
    requires StatEntryAt(j) + STAT_ENTRY_SIZE <= |img| && StatEntryAt(j) + STAT_ENTRY_SIZE <= |buffer|
  {
    Chunk(img, STAT_PREFIX_SIZE, STAT_ENTRY_SIZE, j) == StatEntryImage(Chunk(buffer, STAT_PREFIX_SIZE,
        STAT_ENTRY_SIZE, j))
  }

  lemma StatImageReads(img: seq<byte>, b: Body, n: nat)
    requires |img| == STAT_SIZE && n <= MAX_MD_ENTRY_NO && n == StatCount(b)
    requires img[0..8] == Reverse(b[0..8]) && img[8..10] == Reverse(b[8..10]) && img[10..14] == Reverse(b[10..14])
    requires forall j :: 0 <= j < n ==> StatEntryDone(img, b, j)
    ensures U32At(Little, img, 10) == n && ReadStat(Little, img, n) == WireStat(b)
  {
    SwappedField(img, 0, b, 0, 8);
    SwappedField(img, 8, b, 8, 2);
    SwappedField(img, 10, b, 10, 4);
    var s, t := img[STAT_PREFIX_SIZE..], b[STAT_PREFIX_SIZE..];
    forall j | 0 <= j < n
      ensures StatReader(Little)(Chunk(s, 0, STAT_ENTRY_SIZE, j)) == StatReader(Big)(Chunk(t, 0, STAT_ENTRY_SIZE, j))
    {
      assert StatEntryDone(img, b, j);
      assert Chunk(s, 0, STAT_ENTRY_SIZE, j) == Chunk(img, STAT_PREFIX_SIZE, STAT_ENTRY_SIZE, j);
      assert Chunk(t, 0, STAT_ENTRY_SIZE, j) == Chunk(b, STAT_PREFIX_SIZE, STAT_ENTRY_SIZE, j);
      StatEntryImageReads(Chunk(t, 0, STAT_ENTRY_SIZE, j));
    }
    ReadAllAlike(StatReader(Little), StatReader(Big), STAT_ENTRY_SIZE, n, s, t);
  }

  /** The loop over the entries; only StockNum is numeric. */
  method StatEntryLoop(md: array<byte>, buffer: Body, n: nat)
    requires md.Length == STAT_SIZE && n <= MAX_MD_ENTRY_NO
    requires forall k :: STAT_PREFIX_SIZE <= k < StatEntryAt(n) ==> md[k] == buffer[k]
    modifies md
    ensures forall j :: 0 <= j < n ==> StatEntryDone(md[..], buffer, j)
    ensures forall k :: 0 <= k < STAT_PREFIX_SIZE ==> md[k] == old(md[k])
    ensures forall k :: StatEntryAt(n) <= k < STAT_SIZE ==> md[k] == old(md[k])
  {
    for i := 0 to n
      invariant forall j :: 0 <= j < i ==> StatEntryDone(md[..], buffer, j)
      invariant forall k :: StatEntryAt(i) <= k < StatEntryAt(n) ==> md[k] == buffer[k]
      invariant forall k :: 0 <= k < STAT_PREFIX_SIZE ==> md[k] == old(md[k])
      invariant forall k :: StatEntryAt(n) <= k < STAT_SIZE ==> md[k] == old(md[k])
    {
      ghost var before := md[..];
      SwapField(md, StatEntryAt(i) + 3, buffer, StatEntryAt(i) + 3, 4);   // StockNum
      StatDoneNext(before, md[..], buffer, i);
    }
  }

  lemma StatDoneFrame(before: seq<byte>, after: seq<byte>, buffer: Body, n: nat)
    requires |before| == |after| == STAT_SIZE && n <= MAX_MD_ENTRY_NO
    requires forall k :: 0 <= k < StatEntryAt(n) ==> after[k] == before[k]
    requires forall j :: 0 <= j < n ==> StatEntryDone(before, buffer, j)
    ensures forall j :: 0 <= j < n ==> StatEntryDone(after, buffer, j)
  {
    forall j | 0 <= j < n ensures StatEntryDone(after, buffer, j) {
      assert StatEntryDone(before, buffer, j);
      assert Chunk(after, STAT_PREFIX_SIZE, STAT_ENTRY_SIZE, j) == Chunk(before, STAT_PREFIX_SIZE, STAT_ENTRY_SIZE, j);
    }
  }

  lemma StatEntrySwapped(img: seq<byte>, buffer: Body, i: nat)
    requires |img| == STAT_SIZE && i < MAX_MD_ENTRY_NO
    requires img[StatEntryAt(i) + 3..StatEntryAt(i) + 7] == Reverse(buffer[StatEntryAt(i) + 3..StatEntryAt(i) + 7])
    requires forall k :: StatEntryAt(i) <= k < StatEntryAt(i) + 3 ==> img[k] == buffer[k]
    requires forall k :: StatEntryAt(i) + 7 <= k < StatEntryAt(i) + 15 ==> img[k] == buffer[k]
    ensures StatEntryDone(img, buffer, i)
  {
    var at, c := StatEntryAt(i), Chunk(buffer, STAT_PREFIX_SIZE, STAT_ENTRY_SIZE, i);
    SubSlice(buffer, at, STAT_ENTRY_SIZE, 0, 3);
    SubSlice(buffer, at, STAT_ENTRY_SIZE, 3, 7);
    SubSlice(buffer, at, STAT_ENTRY_SIZE, 7, 15);
    assert img[at..at + 3] == c[0..3] && img[at + 7..at + 15] == c[7..15];
    assert img[at..at + 15] == img[at..at + 3] + img[at + 3..at + 7] + img[at + 7..at + 15];
  }

  lemma StatDoneNext(before: seq<byte>, after: seq<byte>, buffer: Body, i: nat)
    requires |before| == |after| == STAT_SIZE && i < MAX_MD_ENTRY_NO
    requires forall k :: 0 <= k < STAT_SIZE && !(StatEntryAt(i) + 3 <= k < StatEntryAt(i) + 7) ==> after[k] == before[k]
    requires after[StatEntryAt(i) + 3..StatEntryAt(i) + 7] == Reverse(buffer[StatEntryAt(i) + 3..StatEntryAt(i) + 7])
    requires forall k :: StatEntryAt(i) <= k < StatEntryAt(i + 1) ==> before[k] == buffer[k]
    requires forall j :: 0 <= j < i ==> StatEntryDone(before, buffer, j)
    ensures forall j :: 0 <= j < i + 1 ==> StatEntryDone(after, buffer, j)
  {
    StatDoneFrame(before, after, buffer, i);
    StatEntrySwapped(after, buffer, i);
  }

  /** deserializeBody(RawSzChannelStat&). */
  method DeserializeStat(md: array<byte>, buffer: Body, length: uint32) returns (ret: int)
    requires md.Length == STAT_SIZE
    modifies md
    ensures ret == StatStatus(buffer, length)
    ensures ret != 0 ==> md[..] == old(md[..])
    ensures ret == 0 ==>
              && U32At(Little, md[..], 10) == StatCount(buffer)
              && ReadStat(Little, md[..], StatCount(buffer)) == WireStat(buffer)
    ensures ret == 0 ==> forall k :: StatEntryAt(StatCount(buffer)) <= k < STAT_SIZE ==> md[k] == 0
  {
    var n := StatCount(buffer);
    if n > MAX_MD_ENTRY_NO {
      return -1;
    }
    if length != n * STAT_ENTRY_SIZE + STAT_PREFIX_SIZE {
      return -2;
    }
    ZeroAndCopy(md, buffer, length);
    assert forall k :: 0 <= k < length ==> md[..length][k] == buffer[k];
    SwapField(md, 0, buffer, 0, 8);       // OrigTime
    SwapField(md, 8, buffer, 8, 2);       // ChannelNo
    SwapField(md, 10, buffer, 10, 4);     // NoMDSteamId
    ghost var was := md[..];
    StatEntryLoop(md, buffer, n);
    SliceSame(md[..], was, 0, 8);
    SliceSame(md[..], was, 8, 10);
    SliceSame(md[..], was, 10, 14);
    StatImageReads(md[..], buffer, n);
    return 0;
  }

  // ---- message 390019

  lemma StatusImageReads(img: seq<byte>, b: Body)
    requires |img| == STATUS_SIZE
    requires img[0..8] == Reverse(b[0..8]) && img[8..10] == Reverse(b[8..10]) && img[34..36] == Reverse(b[34..36])
    requires img[36..44] == Reverse(b[36..44]) && img[44..52] == Reverse(b[44..52]) && img[52..60] == Reverse(b[52..60])
    requires img[60..68] == Reverse(b[60..68]) && img[68] == b[68]
    requires forall k :: 10 <= k < 34 ==> img[k] == b[k]
    ensures ReadStatus(Little, img) == ReadStatus(Big, b)
  {
    SwappedField(img, 0, b, 0, 8);
    SwappedField(img, 8, b, 8, 2);
    SwappedField(img, 34, b, 34, 2);
    SwappedField(img, 36, b, 36, 8);
    SwappedField(img, 44, b, 44, 8);
    SwappedField(img, 52, b, 52, 8);
    SwappedField(img, 60, b, 60, 8);
    assert img[10..18] == b[10..18] && img[18..26] == b[18..26] && img[26..30] == b[26..30] && img[30..34] == b[30..34];
  }

  /** deserializeBody(RawSzHkMarketStatus&): the only test is the exact length. */
  method DeserializeStatus(ms: array<byte>, buffer: Body, length: uint32) returns (ret: int)
    requires ms.Length == STATUS_SIZE
    modifies ms
    ensures ret == if length == STATUS_SIZE then 0 else -1
    ensures ret != 0 ==> ms[..] == old(ms[..])
    ensures ret == 0 ==> ReadStatus(Little, ms[..]) == ReadStatus(Big, buffer)
  {
    if length != STATUS_SIZE {
      return -1;
    }
    ZeroAndCopy(ms, buffer, length);
    assert forall k :: 0 <= k < length ==> ms[..length][k] == buffer[k];
    SwapField(ms, 0, buffer, 0, 8);       // OrigTime
    SwapField(ms, 8, buffer, 8, 2);       // ChannelNo
    SwapField(ms, 34, buffer, 34, 2);     // TradSesStatus
    SwapField(ms, 36, buffer, 36, 8);     // TradSesStartTime
    SwapField(ms, 44, buffer, 44, 8);     // TradSesEndTime
    SwapField(ms, 52, buffer, 52, 8);     // ThresholdAmount
    SwapField(ms, 60, buffer, 60, 8);     // PosAmt
    StatusImageReads(ms[..], buffer);
    return 0;
  }
}
