/** The host program (src/host.cpp): its copy of the nucleotide table, the
    size of the output buffer it allocates, the test sequence it builds and
    the loop that packs the sequence 8 bytes per 64-bit word, byte j of word i
    holding base 8i+j. */
module Host {
  import opened Encoding
  import opened Reader
  import opened Smer
  import opened Streams
  import opened Kernel

  /** The host's nucl_encode, returning a uint64_t. */
  function HostNuclEncode(c: bv8): (r: bv64)
    ensures r < 4
  {
    if c == BYTE_A then 0
    else if c == BYTE_C then 1
    else if c == BYTE_G then 2
    else if c == BYTE_T then 3
    else 0
  }

  /** The host's table is the kernel's: A, C, G, T give 0..3 and every other
      byte 0. */
  lemma HostEncodingAgrees(c: bv8)
    ensures HostNuclEncode(c) as int == NuclEncode(c) as int
  {
  }

  /** n_smers: the number of s-mers of SMER bases in a sequence of n bases. */
  function NSmers(n: nat): nat
  {
    if n >= 28 then n - 27 else 0
  }

  /** output_size_bytes: one uint64_t per s-mer. */
  function OutputSizeBytes(n: nat): nat
  {
    NSmers(n) * 8
  }

  /** The buffer the host allocates is what krnl_minimizer asks for, and its
      bytes hold the 8-byte entry of every minimizer the kernel stores. */
  lemma HostBufferFits(packed: seq<bv64>, n: nat)
    requires |packed| >= NWords(n)
    ensures n <= NSmers(n) + (SMER - 1)
    ensures KernelSpec(packed, n).Done? ==> |BeforeSentinel(KernelSpec(packed, n).value)| <= NSmers(n)
    ensures KernelSpec(packed, n).Done? ==> 8 * |BeforeSentinel(KernelSpec(packed, n).value)| <= OutputSizeBytes(n)
  {
    KernelEnds(packed, n);
  }

  /** `static_cast<uint64_t>(b) << 8 * j`: byte b moved to byte j of a word. */
  function Place(b: bv8, j: nat): bv64
    requires j < 8
  {
    var c := b as bv64;
    if j == 0 then c
    else if j == 1 then c << 8
    else if j == 2 then c << 16
    else if j == 3 then c << 24
    else if j == 4 then c << 32
    else if j == 5 then c << 40
    else if j == 6 then c << 48
    else c << 56
  }

  /** A word after the bytes bs[0..m) have been ORed into it, starting from 0. */
  function Partial(bs: seq<bv8>, m: nat): bv64
    requires m <= |bs| <= 8
  {
    if m == 0 then 0 else Partial(bs, m - 1) | Place(bs[m - 1], m - 1)
  }

  /** The eight bytes of word w: the sequence's bytes 8w..8w+7, zero past its
      end. */
  function Lanes(bytes: seq<bv8>, w: nat): (bs: seq<bv8>)
    ensures |bs| == 8
  {
    seq(8, j requires 0 <= j < 8 => if 8 * w + j < |bytes| then bytes[8 * w + j] else 0)
  }

  /** The packed words the host builds: NWords(n) words, each holding the
      eight lanes ORed in. */
  function PackedSpec(bytes: seq<bv8>): (ws: seq<bv64>)
    ensures |ws| == NWords(|bytes|)
  {
    seq(NWords(|bytes|), w requires 0 <= w < NWords(|bytes|) => Partial(Lanes(bytes, w), 8))
  }


  lemma ZeroByte0(w: bv64)
    requires ByteAt(w, 0) == 0
    ensures w & 0xFF == 0
  {
  }

  lemma OrPlace0(w: bv64, b: bv8, k: nat)
    requires k < 8 && w & 0xFF == 0
    ensures ByteAt(w | Place(b, 0), k) == if k == 0 then b else ByteAt(w, k)
  {
    if k == 0 {} else if k == 1 {} else if k == 2 {} else if k == 3 {}
    else if k == 4 {} else if k == 5 {} else if k == 6 {} else {}
  }

  lemma ZeroByte1(w: bv64)
    requires ByteAt(w, 1) == 0
    ensures w & 0xFF00 == 0
  {
  }

  lemma OrPlace1(w: bv64, b: bv8, k: nat)
    requires k < 8 && w & 0xFF00 == 0
    ensures ByteAt(w | Place(b, 1), k) == if k == 1 then b else ByteAt(w, k)
  {
    if k == 0 {} else if k == 1 {} else if k == 2 {} else if k == 3 {}
    else if k == 4 {} else if k == 5 {} else if k == 6 {} else {}
  }

  lemma ZeroByte2(w: bv64)
    requires ByteAt(w, 2) == 0
    ensures w & 0xFF_0000 == 0
  {
  }

  lemma OrPlace2(w: bv64, b: bv8, k: nat)
    requires k < 8 && w & 0xFF_0000 == 0
    ensures ByteAt(w | Place(b, 2), k) == if k == 2 then b else ByteAt(w, k)
  {
    if k == 0 {} else if k == 1 {} else if k == 2 {} else if k == 3 {}
    else if k == 4 {} else if k == 5 {} else if k == 6 {} else {}
  }

  lemma ZeroByte3(w: bv64)
    requires ByteAt(w, 3) == 0
    ensures w & 0xFF00_0000 == 0
  {
  }

  lemma OrPlace3(w: bv64, b: bv8, k: nat)
    requires k < 8 && w & 0xFF00_0000 == 0
    ensures ByteAt(w | Place(b, 3), k) == if k == 3 then b else ByteAt(w, k)
  {
    if k == 0 {} else if k == 1 {} else if k == 2 {} else if k == 3 {}
    else if k == 4 {} else if k == 5 {} else if k == 6 {} else {}
  }

  lemma ZeroByte4(w: bv64)
    requires ByteAt(w, 4) == 0
    ensures w & 0xFF_0000_0000 == 0
  {
  }

  lemma OrPlace4(w: bv64, b: bv8, k: nat)
    requires k < 8 && w & 0xFF_0000_0000 == 0
    ensures ByteAt(w | Place(b, 4), k) == if k == 4 then b else ByteAt(w, k)
  {
    if k == 0 {} else if k == 1 {} else if k == 2 {} else if k == 3 {}
    else if k == 4 {} else if k == 5 {} else if k == 6 {} else {}
  }

  lemma ZeroByte5(w: bv64)
    requires ByteAt(w, 5) == 0
    ensures w & 0xFF00_0000_0000 == 0
  {
  }

  lemma OrPlace5(w: bv64, b: bv8, k: nat)
    requires k < 8 && w & 0xFF00_0000_0000 == 0
    ensures ByteAt(w | Place(b, 5), k) == if k == 5 then b else ByteAt(w, k)
  {
    if k == 0 {} else if k == 1 {} else if k == 2 {} else if k == 3 {}
    else if k == 4 {} else if k == 5 {} else if k == 6 {} else {}
  }

  lemma ZeroByte6(w: bv64)
    requires ByteAt(w, 6) == 0
    ensures w & 0xFF_0000_0000_0000 == 0
  {
  }

  lemma OrPlace6(w: bv64, b: bv8, k: nat)
    requires k < 8 && w & 0xFF_0000_0000_0000 == 0
    ensures ByteAt(w | Place(b, 6), k) == if k == 6 then b else ByteAt(w, k)
  {
    if k == 0 {} else if k == 1 {} else if k == 2 {} else if k == 3 {}
    else if k == 4 {} else if k == 5 {} else if k == 6 {} else {}
  }

  lemma ZeroByte7(w: bv64)
    requires ByteAt(w, 7) == 0
    ensures w & 0xFF00_0000_0000_0000 == 0
  {
  }

  lemma OrPlace7(w: bv64, b: bv8, k: nat)
    requires k < 8 && w & 0xFF00_0000_0000_0000 == 0
    ensures ByteAt(w | Place(b, 7), k) == if k == 7 then b else ByteAt(w, k)
  {
    if k == 0 {} else if k == 1 {} else if k == 2 {} else if k == 3 {}
    else if k == 4 {} else if k == 5 {} else if k == 6 {} else {}
  }

  /** Byte k of a word after m bytes have been ORed in: byte k of the
      sequence for k < m, still 0 otherwise. */
  predicate PartialBytes(bs: seq<bv8>, m: nat, k: nat)
    requires m <= |bs| <= 8 && k < 8
  {
    ByteAt(Partial(bs, m), k) == if k < m then bs[k] else 0
  }

  lemma PartialBytes0(bs: seq<bv8>, k: nat)
    requires |bs| == 8 && k < 8
    ensures PartialBytes(bs, 0, k)
  {
    if k == 0 {} else if k == 1 {} else if k == 2 {} else if k == 3 {}
    else if k == 4 {} else if k == 5 {} else if k == 6 {} else {}
  }

  lemma PartialBytes1(bs: seq<bv8>, k: nat)
    requires |bs| == 8 && k < 8
    ensures PartialBytes(bs, 1, k)
  {
    PartialBytes0(bs, 0);
    PartialBytes0(bs, k);
    ZeroByte0(Partial(bs, 0));
    OrPlace0(Partial(bs, 0), bs[0], k);
  }

  lemma PartialBytes2(bs: seq<bv8>, k: nat)
    requires |bs| == 8 && k < 8
    ensures PartialBytes(bs, 2, k)
  {
    PartialBytes1(bs, 1);
    PartialBytes1(bs, k);
    ZeroByte1(Partial(bs, 1));
    OrPlace1(Partial(bs, 1), bs[1], k);
  }

  lemma PartialBytes3(bs: seq<bv8>, k: nat)
    requires |bs| == 8 && k < 8
    ensures PartialBytes(bs, 3, k)
  {
    PartialBytes2(bs, 2);
    PartialBytes2(bs, k);
    ZeroByte2(Partial(bs, 2));
    OrPlace2(Partial(bs, 2), bs[2], k);
  }

  lemma PartialBytes4(bs: seq<bv8>, k: nat)
    requires |bs| == 8 && k < 8
    ensures PartialBytes(bs, 4, k)
  {
    PartialBytes3(bs, 3);
    PartialBytes3(bs, k);
    ZeroByte3(Partial(bs, 3));
    OrPlace3(Partial(bs, 3), bs[3], k);
  }

  lemma PartialBytes5(bs: seq<bv8>, k: nat)
    requires |bs| == 8 && k < 8
    ensures PartialBytes(bs, 5, k)
  {
    PartialBytes4(bs, 4);
    PartialBytes4(bs, k);
    ZeroByte4(Partial(bs, 4));
    OrPlace4(Partial(bs, 4), bs[4], k);
  }

  lemma PartialBytes6(bs: seq<bv8>, k: nat)
    requires |bs| == 8 && k < 8
    ensures PartialBytes(bs, 6, k)
  {
    PartialBytes5(bs, 5);
    PartialBytes5(bs, k);
    ZeroByte5(Partial(bs, 5));
    OrPlace5(Partial(bs, 5), bs[5], k);
  }

  lemma PartialBytes7(bs: seq<bv8>, k: nat)
    requires |bs| == 8 && k < 8
    ensures PartialBytes(bs, 7, k)
  {
    PartialBytes6(bs, 6);
    PartialBytes6(bs, k);
    ZeroByte6(Partial(bs, 6));
    OrPlace6(Partial(bs, 6), bs[6], k);
  }

  lemma PartialBytes8(bs: seq<bv8>, k: nat)
    requires |bs| == 8 && k < 8
    ensures PartialBytes(bs, 8, k)
  {
    PartialBytes7(bs, 7);
    PartialBytes7(bs, k);
    ZeroByte7(Partial(bs, 7));
    OrPlace7(Partial(bs, 7), bs[7], k);
  }

  /** Reading a packed word back gives the bytes ORed into it. */
  lemma WordBytes(bs: seq<bv8>, k: nat)
    requires |bs| == 8 && k < 8
    ensures ByteAt(Partial(bs, 8), k) == bs[k]
  {
    PartialBytes8(bs, k);
  }

  lemma PlaceZero(j: nat)
    requires j < 8
    ensures Place(0, j) == 0
  {
  }

  /** Lanes that hold 0 leave a word unchanged when ORed in. */
  lemma {:induction false} PadWord(bs: seq<bv8>, m: nat, m2: nat)
    requires m <= m2 <= |bs| <= 8
    requires forall l :: m <= l < |bs| ==> bs[l] == 0
    ensures Partial(bs, m2) == Partial(bs, m)
    decreases m2
  {
    if m2 > m {
      PadWord(bs, m, m2 - 1);
      PlaceZero(m2 - 1);
    }
  }

  /** Byte p of the packed words is byte p of the sequence, and 0 past its
      end: the reader's `word.range(8j+7, 8j)` inverts the host's packing. */
  lemma PackedBytes(bytes: seq<bv8>, p: nat)
    requires p < 8 * NWords(|bytes|)
    ensures p / 8 < |PackedSpec(bytes)|
    ensures ByteAt(PackedSpec(bytes)[p / 8], p % 8) == if p < |bytes| then bytes[p] else 0
  {
    WordBytes(Lanes(bytes, p / 8), p % 8);
  }

  /** Position i + 1 is the next lane of the same word, or lane 0 of the next
      word. */
  lemma NextPosition(i: nat)
    ensures i == 8 * (i / 8) + i % 8
    ensures i % 8 < 7 ==> (i + 1) / 8 == i / 8 && (i + 1) % 8 == i % 8 + 1
    ensures i % 8 == 7 ==> (i + 1) / 8 == i / 8 + 1 && (i + 1) % 8 == 0
  {
  }

  /** The packing loop's state before byte i: the words before word i / 8 are
      complete, word i / 8 holds lanes 0..i%8-1, and the rest are still zero. */
  predicate Packing(ws: seq<bv64>, bytes: seq<bv8>, i: nat)
  {
    |ws| == NWords(|bytes|) && i <= |bytes|
    && (forall w :: 0 <= w < i / 8 ==> ws[w] == Partial(Lanes(bytes, w), 8))
    && (i / 8 < |ws| ==> ws[i / 8] == Partial(Lanes(bytes, i / 8), i % 8))
    && (forall w :: i / 8 < w < |ws| ==> ws[w] == 0)
  }

  /** Before byte i, its word holds lanes 0..i%8-1 and lane i % 8 of that
      word is byte i. */
  lemma CurrentWord(ws: seq<bv64>, bytes: seq<bv8>, i: nat)
    requires Packing(ws, bytes, i) && i < |bytes|
    ensures i / 8 < |ws| && ws[i / 8] == Partial(Lanes(bytes, i / 8), i % 8)
    ensures i % 8 < 8 && Lanes(bytes, i / 8)[i % 8] == bytes[i]
  {
    NextPosition(i);
  }

  lemma PartialNext(bs: seq<bv8>, m: nat)
    requires m < |bs| <= 8
    ensures Partial(bs, m + 1) == Partial(bs, m) | Place(bs[m], m)
  {
  }

  lemma FillWord(ws: seq<bv64>, bytes: seq<bv8>, i: nat, v: bv64)
    requires Packing(ws, bytes, i) && i < |bytes|
    requires v == Partial(Lanes(bytes, i / 8), i % 8 + 1)
    ensures i / 8 < |ws|
    ensures Packing(ws[i / 8 := v], bytes, i + 1)
  {
    NextPosition(i);
  }

  /** After the last byte every word is complete. */
  lemma PackDone(ws: seq<bv64>, bytes: seq<bv8>)
    requires Packing(ws, bytes, |bytes|)
    ensures ws == PackedSpec(bytes)
  {
    var n := |bytes|;
    if n % 8 != 0 {
      PadWord(Lanes(bytes, n / 8), n % 8, 8);
    }
    assert forall w :: 0 <= w < |ws| ==> ws[w] == PackedSpec(bytes)[w];
  }

  /** One iteration of the packing loop: byte i ORed into word i / 8 at
      shift 8 * (i % 8). */
  method PackByte(packed: array<bv64>, bytes: seq<bv8>, i: nat)
    requires i < |bytes| && Packing(packed[..], bytes, i)
    modifies packed
    ensures Packing(packed[..], bytes, i + 1)
  {
    ghost var ws := packed[..];
    CurrentWord(ws, bytes, i);
    PartialNext(Lanes(bytes, i / 8), i % 8);
    var wordIdx := i / 8;
    var shift := i % 8;
    packed[wordIdx] := packed[wordIdx] | Place(bytes[i], shift);
    FillWord(ws, bytes, i, packed[wordIdx]);
    assert packed[..] == ws[wordIdx := packed[wordIdx]];
  }

  /** The packing loop of main: `packed_seq` starts as NWords(n) zero words
      and each byte i is ORed into byte i % 8 of word i / 8. */
  method PackSequence(bytes: seq<bv8>) returns (packed: array<bv64>)
    ensures fresh(packed)
    ensures packed[..] == PackedSpec(bytes)
  {
    var n := |bytes|;
    var nWords := (n + 7) / 8;
    packed := new bv64[nWords](_ => 0);
    for i := 0 to n
      invariant Packing(packed[..], bytes, i)
    {
      PackByte(packed, bytes, i);
    }
    PackDone(packed[..], bytes);
  }

  /** The codes of the host's bytes. */
  function HostCodes(bytes: seq<bv8>): seq<Code>
  {
    seq(|bytes|, p requires 0 <= p < |bytes| => NuclEncode(bytes[p]))
  }

  /** Round trip through the kernel's reader: every position p < n of the
      stream thread_reader makes from the host's packed words is valid and
      carries the code of byte p, so the first n codes thread_smer reads are
      the codes of the host's bytes. */
  lemma HostReaderRoundTrip(bytes: seq<bv8>, p: nat)
    requires p < |bytes|
    ensures p / 8 < |ReaderSpec(PackedSpec(bytes), |bytes|)|
    ensures ValidBit(TripletAt(ReaderSpec(PackedSpec(bytes), |bytes|), p))
    ensures CodeOf(TripletAt(ReaderSpec(PackedSpec(bytes), |bytes|), p)) == NuclEncode(bytes[p])
  {
    ReaderPosition(PackedSpec(bytes), |bytes|, p);
    PackedBytes(bytes, p);
  }

  lemma HostReaderCodes(bytes: seq<bv8>)
    ensures |bytes| <= 8 * |ReaderSpec(PackedSpec(bytes), |bytes|)|
    ensures Codes(ReaderSpec(PackedSpec(bytes), |bytes|), |bytes|) == HostCodes(bytes)
  {
    var packed, n := PackedSpec(bytes), |bytes|;
    CodesOnReader(packed, n, n);
    forall p | 0 <= p < n
      ensures ByteCodes(packed, n)[p] == HostCodes(bytes)[p]
    {
      PackedBytes(bytes, p);
    }
  }

  /** `bases[i % 4]`, the test sequence's byte i. */
  function TestByte(i: nat): (c: bv8)
    ensures IsBase(c)
  {
    var k := i % 4;
    if k == 0 then BYTE_A else if k == 1 then BYTE_C else if k == 2 then BYTE_G else BYTE_T
  }

  /** The test sequence ACGTACGT... has codes 0, 1, 2, 3, 0, 1, ... */
  lemma TestByteCode(i: nat)
    ensures NuclEncode(TestByte(i)) as int == i % 4
  {
  }

  function TestBytes(n: nat): (bs: seq<bv8>)
    ensures |bs| == n
  {
    seq(n, i requires 0 <= i < n => TestByte(i))
  }

  /** The loop that fills `sequence_bytes`. */
  method TestSequence(n: nat) returns (bytes: array<bv8>)
    ensures fresh(bytes)
    ensures bytes[..] == TestBytes(n)
  {
    bytes := new bv8[n];
    for i := 0 to n
      invariant forall k :: 0 <= k < i ==> bytes[k] == TestByte(k)
    {
      bytes[i] := TestByte(i);
    }
  }

  /** On the host's test input the kernel reads code p % 4 at position p. */
  lemma TestCodes(n: nat, p: nat)
    requires p < n
    ensures p / 8 < |ReaderSpec(PackedSpec(TestBytes(n)), n)|
    ensures CodeOf(TripletAt(ReaderSpec(PackedSpec(TestBytes(n)), n), p)) as int == p % 4
  {
    HostReaderRoundTrip(TestBytes(n), p);
    TestByteCode(p);
  }

  /** The host's run, n = 512 bases of the test sequence: the kernel reaches
      its sentinel and stores at most 512 - 43 minimizers into a buffer of
      NSmers(512) = 485 entries. */
  lemma HostTestRun()
    ensures KernelSpec(PackedSpec(TestBytes(512)), 512).Done?
    ensures |BeforeSentinel(KernelSpec(PackedSpec(TestBytes(512)), 512).value)| <= 512 - 43 < NSmers(512)
  {
    KernelEnds(PackedSpec(TestBytes(512)), 512);
  }
}
