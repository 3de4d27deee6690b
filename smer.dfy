/** thread_smer (src/krnl_minimizer.cpp): reads the reader's 24-bit words, keeps
    the forward and inverse s-mer registers, and writes the masked hash of the
    canonical value of every s-mer from position SMER-1 on, then a `0`. */
module Smer {
  import opened Encoding
  import opened Reader
  import opened Packing
  import opened Streams

  /** The code in bits 1..0 of a triplet (`word_24b.range(1,0)`). */
  function CodeOf(w: bv24): Code
  {
    var low := w & 3;
    if low == 0 then 0 else if low == 1 then 1 else if low == 2 then 2 else 3
  }

  /** The valid bit, bit 2 of a triplet (`word_24b[2]`). */
  predicate ValidBit(w: bv24) {
    w & 4 != 0
  }

  /** Only the low triplet of a word decides its code and valid bit. */
  lemma LowTriplet(w: bv24)
    ensures CodeOf(w & 7) == CodeOf(w)
    ensures ValidBit(w & 7) == ValidBit(w)
  {
  }

  /** The triplet of position p of the input stream. */
  function TripletAt(input: seq<bv24>, p: nat): bv24
    requires p / 8 < |input|
  {
    Triplet(input[p / 8], p % 8)
  }

  /** The codes of positions 0..m-1. */
  function Codes(input: seq<bv24>, m: nat): (s: seq<Code>)
    requires m <= 8 * |input|
    ensures |s| == m
  {
    seq(m, p requires 0 <= p < m => CodeOf(TripletAt(input, p)))
  }

  lemma CodesStep(input: seq<bv24>, m: nat)
    requires m < 8 * |input|
    ensures Codes(input, m + 1)[..m] == Codes(input, m)
    ensures Codes(input, m + 1)[m] == CodeOf(TripletAt(input, m))
  {
  }

  /** The canonical value of an s-mer: the smaller of its forward packing and
      the packing of its reverse XOR-2 image. */
  function Canon(w: seq<Code>): bv64
    requires |w| == SMER
  {
    Min(Widen(Pack(w)), Widen(Pack(RevX(w))))
  }

  /** An s-mer and its reverse XOR-2 image have the same canonical value: the
      image swaps the two registers. */
  lemma CanonRevX(w: seq<Code>)
    requires |w| == SMER
    ensures Canon(RevX(w)) == Canon(w)
  {
    RevXInvolution(w);
    var a := Widen(Pack(w));
    var b := Widen(Pack(RevX(w)));
    assert Canon(RevX(w)) == Min(b, a);
    MinSymmetric(b, a);
  }

  /** The value written for an s-mer: `hash_u64(min(fwd, inv), HASH_MASK)` as
      an ap_uint<SMER_SIZE>; the mask makes the narrowing lossless. */
  function SmerHash(w: seq<Code>): bv56
    requires |w| == SMER
  {
    Narrow(HashU64(Canon(w), HASH_MASK))
  }

  /** The s-mer ending at position i: the codes of positions i-SMER+1..i. */
  function Window(input: seq<bv24>, i: nat): (w: seq<Code>)
    requires SMER - 1 <= i < 8 * |input|
    ensures |w| == SMER
  {
    Codes(input, i + 1)[i + 1 - SMER..]
  }

  /** Where the main loop stops when it reaches position i: past position n-1,
      or at the first position whose valid bit is clear; a position whose word
      is not in the stream stalls the read. */
  function SmerEnd(input: seq<bv24>, n: nat, i: nat): (r: Outcome<nat>)
    requires i >= SMER - 1
    ensures r.Done? ==> i <= r.value && (i < r.value ==> r.value <= 8 * |input|)
    decreases n - i
  {
    if i >= n then Done(i)
    else if i / 8 >= |input| then Stalled
    else if !ValidBit(TripletAt(input, i)) then Done(i)
    else SmerEnd(input, n, i + 1)
  }

  /** The hashes of the s-mers ending at positions SMER-1..e-1. */
  function Hashes(input: seq<bv24>, e: nat): (hs: seq<bv56>)
    requires SMER - 1 <= e <= 8 * |input|
    ensures |hs| == e - (SMER - 1)
  {
    seq(e - (SMER - 1), k requires 0 <= k < e - (SMER - 1) => SmerHash(Window(input, k + (SMER - 1))))
  }

  /** The hash of the s-mer ending at position e follows those before it. */
  lemma HashesStep(input: seq<bv24>, e: nat)
    requires SMER - 1 <= e < 8 * |input|
    ensures Hashes(input, e + 1) == Hashes(input, e) + [SmerHash(Window(input, e))]
  {
    var a := Hashes(input, e + 1);
    var b := Hashes(input, e) + [SmerHash(Window(input, e))];
    forall k | 0 <= k < |a|
      ensures a[k] == b[k]
    {
      if k < |a| - 1 {
        assert b[k] == Hashes(input, e)[k];
      }
    }
  }

  /** Everything thread_smer writes: the hash of every s-mer ending before the
      position where the main loop stops, then the sentinel `0`. The priming
      loop reads the words of positions 0, 8, 16 and 24 whatever n is, so
      fewer than 4 words stall. */
  function SmerSpec(input: seq<bv24>, n: nat): Outcome<seq<bv56>>
  {
    if |input| < 4 then Stalled
    else match SmerEnd(input, n, SMER - 1)
      case Stalled => Stalled
      case Done(e) => Done(Hashes(input, e) + [0])
  }

  // ---------------------------------------------------------------------
  // Register updates as the source writes them

  /** The forward update of both loops: shift the register up two bits, then
      write the code into bits 1..0. */
  function ShiftIn(x: bv56, d: bv56): (y: bv56)
    requires d < 4
    ensures Pushed(x, d, y)
  {
    ((x << 2) & !3) | d
  }

  /** The priming loop's inverse update: shift the register down two bits,
      then write the flipped code into bits 55..54. */
  function ShiftInTop(x: bv56, d: bv56): (y: bv56)
    requires d < 4
    ensures Pulled(x, d, y)
  {
    ((x >> 2) & LOW54) | (d << 54)
  }

  /** The main loop's inverse update: the register shifted down two bits, or
      the flipped code shifted up to bits 55..54. */
  function OrInTop(x: bv56, d: bv56): (y: bv56)
    requires d < 4
    ensures Pulled(x, d, y)
  {
    (x >> 2) | (d << 54)
  }

  lemma PulledUnique(x: bv56, d: bv56, y: bv56, y2: bv56)
    requires Pulled(x, d, y) && Pulled(x, d, y2)
    ensures y == y2
  {
  }

  /** The registers after reading positions 0..i-1. */
  predicate Registers(input: seq<bv24>, i: nat, fwd: bv56, inv: bv56)
    requires i <= 8 * |input|
  {
    fwd == Pack(Codes(input, i)) && inv == InvPack(Codes(input, i))
  }

  /** The word register before position i: the word of position i shifted
      right by i % 8 triplets (re-read from the stream when i % 8 == 0). */
  predicate WordHeld(input: seq<bv24>, i: nat, word: bv24)
  {
    i % 8 != 0 ==> i / 8 < |input| && word == Drop(input[i / 8], i % 8)
  }

  /** Position i's triplet is in the low bits of the word register; shifting
      it by one triplet brings the next position there. */
  lemma AdvanceWord(input: seq<bv24>, i: nat, word: bv24)
    requires i / 8 < |input|
    requires if i % 8 == 0 then word == input[i / 8] else WordHeld(input, i, word)
    ensures WordHeld(input, i + 1, word >> 3)
    ensures CodeOf(word) == CodeOf(TripletAt(input, i))
    ensures ValidBit(word) == ValidBit(TripletAt(input, i))
  {
    var w := input[i / 8];
    assert word == Drop(w, i % 8);
    DropNext(w, i % 8, word);
  }

  lemma DropNext(w: bv24, k: nat, word: bv24)
    requires k < 8 && word == Drop(w, k)
    ensures k < 7 ==> word >> 3 == Drop(w, k + 1)
    ensures CodeOf(word) == CodeOf(Triplet(w, k))
    ensures ValidBit(word) == ValidBit(Triplet(w, k))
  {
    LowTriplet(word);
    if k < 7 {
      DropStep(w, k);
    }
  }

  /** Reading position i moves both registers on by its code. */
  lemma AdvanceRegisters(input: seq<bv24>, i: nat, c: Code, fwd: bv56, inv: bv56, fwd2: bv56, inv2: bv56)
    requires i / 8 < |input| && c == CodeOf(TripletAt(input, i))
    requires Registers(input, i, fwd, inv)
    requires Pushed(fwd, Digit(c), fwd2) && Pulled(inv, Digit(Flip(c)), inv2)
    ensures Registers(input, i + 1, fwd2, inv2)
  {
    var s := Codes(input, i + 1);
    CodesStep(input, i);
    PackPush(s);
    InvPackPull(s);
    PushedUnique(Pack(Codes(input, i)), Digit(c), fwd2, Pack(s));
    PulledUnique(InvPack(Codes(input, i)), Digit(Flip(c)), inv2, InvPack(s));
  }

  /** Once SMER positions are read the registers hold the window's packing and
      that of its reverse XOR-2 image, so their minimum is its canonical value. */
  lemma RegistersCanon(input: seq<bv24>, i: nat, fwd: bv56, inv: bv56)
    requires SMER - 1 <= i < 8 * |input|
    requires Registers(input, i + 1, fwd, inv)
    ensures Min(Widen(fwd), Widen(inv)) == Canon(Window(input, i))
  {
    var s := Codes(input, i + 1);
    assert Window(input, i) == s[|s| - SMER..];
    ForwardWindow(s, fwd);
    InverseWindow(s, inv);
  }

  lemma ForwardWindow(s: seq<Code>, fwd: bv56)
    requires |s| >= SMER && fwd == Pack(s)
    ensures fwd == Pack(s[|s| - SMER..])
  {
    PackLast(s);
  }

  lemma InverseWindow(s: seq<Code>, inv: bv56)
    requires |s| >= SMER && inv == InvPack(s)
    ensures inv == Pack(RevX(s[|s| - SMER..]))
  {
    InvPackLast(s);
  }

  /** Words read after i positions: one at each position that is a multiple of 8. */
  lemma WordsRead(i: nat)
    ensures i % 8 == 0 ==> (i + 7) / 8 == i / 8 && (i + 8) / 8 == i / 8 + 1
    ensures i % 8 != 0 ==> (i + 7) / 8 == (i + 8) / 8 == i / 8 + 1
  {
  }

  /** The loop state before position i: `next` words read, the word register
      and both registers as the positions before i leave them. */
  predicate Reading(input: seq<bv24>, i: nat, next: nat, word: bv24, fwd: bv56, inv: bv56)
  {
    next == (i + 7) / 8 <= |input| && i <= 8 * |input|
    && WordHeld(input, i, word) && Registers(input, i, fwd, inv)
  }

  /** The whole state of thread_smer before position i of the main loop:
      the positions before i are read, every hash up to i is written, and the
      scan has not yet met its end. */
  predicate Scanning(input: seq<bv24>, n: nat, i: nat, next: nat, word: bv24, fwd: bv56, inv: bv56,
                     written: seq<bv56>)
  {
    SMER - 1 <= i && |input| >= 4 && Reading(input, i, next, word, fwd, inv)
    && written == Hashes(input, i) && SmerEnd(input, n, i) == SmerEnd(input, n, SMER - 1)
  }

  /** A scan that stalls at position i stalls the whole stage. */
  lemma ScanStalls(input: seq<bv24>, n: nat, i: nat, next: nat, word: bv24, fwd: bv56, inv: bv56,
                   written: seq<bv56>)
    requires Scanning(input, n, i, next, word, fwd, inv, written)
    requires SmerEnd(input, n, i) == Stalled
    ensures SmerSpec(input, n) == Stalled
  {
  }

  /** A scan that ends at position i has written everything the stage writes
      before its sentinel. */
  lemma ScanEnds(input: seq<bv24>, n: nat, i: nat, next: nat, word: bv24, fwd: bv56, inv: bv56,
                 written: seq<bv56>)
    requires Scanning(input, n, i, next, word, fwd, inv, written)
    requires SmerEnd(input, n, i) == Done(i)
    ensures SmerSpec(input, n) == Done(written + [0])
  {
  }

  /** The priming loop of thread_smer: positions 0..SMER-2 enter both
      registers without a hash being written; it reads four words. */
  method Prime(input: seq<bv24>, n: nat) returns (primed: bool, fwd: bv56, inv: bv56, word: bv24)
    ensures primed <==> |input| >= 4
    ensures primed ==> Scanning(input, n, SMER - 1, 4, word, fwd, inv, [])
  {
    fwd, inv, word := 0, 0, 0;
    var next := 0;
    for i := 0 to SMER - 1
      invariant Reading(input, i, next, word, fwd, inv)
    {
      WordsRead(i);
      if i % 8 == 0 {
        if next >= |input| {
          return false, fwd, inv, word;
        }
        word := input[next];
        next := next + 1;
      }
      var c := CodeOf(word);
      AdvanceWord(input, i, word);
      var fwd2 := ShiftIn(fwd, Digit(c));
      var inv2 := ShiftInTop(inv, Digit(Flip(c)));
      AdvanceRegisters(input, i, c, fwd, inv, fwd2, inv2);
      fwd, inv := fwd2, inv2;
      word := word >> 3;
    }
    primed := true;
  }

  /** The body of the main loop after the read: position i enters the
      registers, and the hash of the s-mer ending there is computed. */
  method MainPosition(input: seq<bv24>, i: nat, word: bv24, fwd: bv56, inv: bv56)
      returns (valid: bool, vhash: bv56, fwd2: bv56, inv2: bv56, word2: bv24)
    requires SMER - 1 <= i && i / 8 < |input|
    requires if i % 8 == 0 then word == input[i / 8] else WordHeld(input, i, word)
    requires Registers(input, i, fwd, inv)
    ensures valid == ValidBit(TripletAt(input, i))
    ensures vhash == SmerHash(Window(input, i))
    ensures Registers(input, i + 1, fwd2, inv2) && WordHeld(input, i + 1, word2)
  {
    var c := CodeOf(word);
    valid := ValidBit(word);
    AdvanceWord(input, i, word);
    fwd2 := ShiftIn(fwd, Digit(c));
    inv2 := OrInTop(inv, Digit(Flip(c)));
    AdvanceRegisters(input, i, c, fwd, inv, fwd2, inv2);
    RegistersCanon(input, i, fwd2, inv2);
    var vmin := Min(Widen(fwd2), Widen(inv2));
    vhash := Narrow(HashU64(vmin, HASH_MASK));
    word2 := word >> 3;
  }

  /** One iteration of the main loop at position i <= last_pos: the read of a
      new word when i % 8 == 0 (which stalls past the end of the stream), then
      the position itself, whose hash is written when it is valid; an invalid
      position ends the stage. */
  method MainStep(input: seq<bv24>, n: nat, i: nat, next: nat, word: bv24, fwd: bv56, inv: bv56,
                  written: seq<bv56>)
      returns (stalled: bool, valid: bool, next2: nat, word2: bv24, fwd2: bv56, inv2: bv56,
               written2: seq<bv56>)
    requires i < n && Scanning(input, n, i, next, word, fwd, inv, written)
    ensures stalled ==> SmerSpec(input, n) == Stalled
    ensures !stalled && !valid ==> SmerSpec(input, n) == Done(written2 + [0])
    ensures !stalled && valid ==> Scanning(input, n, i + 1, next2, word2, fwd2, inv2, written2)
  {
    WordsRead(i);
    var w := word;
    next2 := next;
    if i % 8 == 0 {
      if next >= |input| {
        ScanStalls(input, n, i, next, word, fwd, inv, written);
        return true, false, next, word, fwd, inv, written;
      }
      w := input[next];
      next2 := next + 1;
    }
    stalled := false;
    var vhash;
    valid, vhash, fwd2, inv2, word2 := MainPosition(input, i, w, fwd, inv);
    written2 := written;
    if valid {
      written2 := written + [vhash];
      HashesStep(input, i);
    } else {
      ScanEnds(input, n, i, next, word, fwd, inv, written);
    }
  }

  /** thread_smer. `n` is bounded so that `(int)n_bases - 1` is exact. */
  method ThreadSmer(input: seq<bv24>, n: nat) returns (out: Outcome<seq<bv56>>)
    requires n < 0x8000_0000
    ensures out == SmerSpec(input, n)
  {
    var primed, fwd, inv, word := Prime(input, n);
    if !primed {
      return Stalled;
    }
    var next := 4;
    var written: seq<bv56> := [];
    var i := SMER - 1;
    while i < n
      invariant Scanning(input, n, i, next, word, fwd, inv, written)
      decreases n - i
    {
      var stalled, valid;
      stalled, valid, next, word, fwd, inv, written :=
        MainStep(input, n, i, next, word, fwd, inv, written);
      if stalled {
        return Stalled;
      }
      if !valid {
        return Done(written + [0]);
      }
      i := i + 1;
    }
    ScanEnds(input, n, i, next, word, fwd, inv, written);
    out := Done(written + [0]);
  }

  // ---------------------------------------------------------------------
  // thread_smer on the stream thread_reader writes

  /** Max(a, b) for positions. */
  function MaxPos(a: nat, b: nat): (m: nat)
    ensures m >= a && m >= b && (m == a || m == b)
  {
    if a >= b then a else b
  }

  lemma CodeOfExpected(b: bv8)
    ensures CodeOf(ExpectedTriplet(b, true)) == NuclEncode(b)
    ensures ValidBit(ExpectedTriplet(b, true))
  {
    var c := NuclEncode(b);
    if c == 0 {} else if c == 1 {} else if c == 2 {} else {}
  }

  /** Every base p < n reaches thread_smer as a valid triplet carrying the
      code of its byte. */
  lemma ReaderPosition(packed: seq<bv64>, n: nat, p: nat)
    requires |packed| >= NWords(n) && p < n
    ensures p / 8 < |ReaderSpec(packed, n)| && p / 8 < |packed|
    ensures ValidBit(TripletAt(ReaderSpec(packed, n), p))
    ensures CodeOf(TripletAt(ReaderSpec(packed, n), p)) == NuclEncode(ByteAt(packed[p / 8], p % 8))
  {
    ReaderTriplets(packed, n, p);
    CodeOfExpected(ByteAt(packed[p / 8], p % 8));
  }

  /** On the reader's stream the main loop runs to position n: no valid bit
      below n is clear. */
  lemma SmerEndOnReader(packed: seq<bv64>, n: nat, i: nat)
    requires |packed| >= NWords(n) && SMER - 1 <= i
    ensures SmerEnd(ReaderSpec(packed, n), n, i) == Done(MaxPos(i, n))
  {
    var input := ReaderSpec(packed, n);
    forall p | i <= p < n
      ensures p / 8 < |input| && ValidBit(TripletAt(input, p))
    {
      ReaderPosition(packed, n, p);
    }
    SmerEndRuns(input, n, i);
  }

  /** When every position from i to n-1 is in the stream and valid, the main
      loop runs to position n. */
  lemma {:induction false} SmerEndRuns(input: seq<bv24>, n: nat, i: nat)
    requires SMER - 1 <= i
    requires forall p :: i <= p < n ==> p / 8 < |input| && ValidBit(TripletAt(input, p))
    ensures SmerEnd(input, n, i) == Done(MaxPos(i, n))
    decreases n - i
  {
    if i < n {
      SmerEndRuns(input, n, i + 1);
    }
  }

  /** The reader writes at least the four words of the priming loop exactly
      when n >= 24. */
  lemma ReaderLength(packed: seq<bv64>, n: nat)
    requires |packed| >= NWords(n)
    ensures |ReaderSpec(packed, n)| >= 4 <==> n >= 24
    ensures 8 * |ReaderSpec(packed, n)| >= n
  {
  }

  /** thread_smer on the reader's stream: it stalls exactly when n < 24;
      otherwise it writes one hash per position SMER-1..n-1 (none when
      n < SMER), then the sentinel. The `valid == false` exit is never taken. */
  lemma SmerOnReader(packed: seq<bv64>, n: nat)
    requires |packed| >= NWords(n)
    ensures SmerSpec(ReaderSpec(packed, n), n).Stalled? <==> n < 24
    ensures n >= 24 ==> 8 * |ReaderSpec(packed, n)| >= MaxPos(n, SMER - 1)
    ensures n >= 24 ==>
      SmerSpec(ReaderSpec(packed, n), n) == Done(Hashes(ReaderSpec(packed, n), MaxPos(n, SMER - 1)) + [0])
  {
    ReaderLength(packed, n);
    SmerEndOnReader(packed, n, SMER - 1);
  }

  /** The number of values thread_smer writes for n >= 24 bases: n - 27 hashes
      (none below SMER bases) and the sentinel. */
  lemma SmerCount(packed: seq<bv64>, n: nat)
    requires |packed| >= NWords(n) && n >= 24
    ensures SmerSpec(ReaderSpec(packed, n), n).Done?
    ensures |SmerSpec(ReaderSpec(packed, n), n).value| == (if n >= SMER then n - (SMER - 1) else 0) + 1
    ensures SmerSpec(ReaderSpec(packed, n), n).value[|SmerSpec(ReaderSpec(packed, n), n).value| - 1] == 0
  {
    SmerOnReader(packed, n);
  }

  /** The codes of the first m bytes of the packed words, byte p being byte
      p % 8 of word p / 8. */
  function ByteCodes(packed: seq<bv64>, m: nat): (s: seq<Code>)
    requires m <= 8 * |packed|
    ensures |s| == m
  {
    seq(m, p requires 0 <= p < m => NuclEncode(ByteAt(packed[p / 8], p % 8)))
  }

  /** The codes thread_smer reads from the reader's stream are those of the
      bytes, up to position n. */
  lemma CodesOnReader(packed: seq<bv64>, n: nat, m: nat)
    requires |packed| >= NWords(n) && m <= n
    ensures m <= 8 * |ReaderSpec(packed, n)| && m <= 8 * |packed|
    ensures Codes(ReaderSpec(packed, n), m) == ByteCodes(packed, m)
  {
    ReaderLength(packed, n);
    forall p | 0 <= p < m
      ensures Codes(ReaderSpec(packed, n), m)[p] == ByteCodes(packed, m)[p]
    {
      ReaderPosition(packed, n, p);
    }
  }

  /** The s-mer hashed at position i holds the codes of bytes i-27..i. */
  lemma WindowOnReader(packed: seq<bv64>, n: nat, i: nat)
    requires |packed| >= NWords(n) && SMER - 1 <= i < n
    ensures 8 * |ReaderSpec(packed, n)| > i && i < 8 * |packed|
    ensures Window(ReaderSpec(packed, n), i) == ByteCodes(packed, i + 1)[i + 1 - SMER..]
  {
    CodesOnReader(packed, n, i + 1);
    WindowOfCodes(ReaderSpec(packed, n), i, ByteCodes(packed, i + 1));
  }

  lemma WindowOfCodes(input: seq<bv24>, i: nat, s: seq<Code>)
    requires SMER - 1 <= i < 8 * |input| && Codes(input, i + 1) == s
    ensures Window(input, i) == s[i + 1 - SMER..]
  {
  }

  /** Code j of the s-mer ending at position i is the code of position i-27+j. */
  lemma WindowAt(input: seq<bv24>, i: nat, j: nat)
    requires SMER - 1 <= i < 8 * |input| && j < SMER
    ensures Window(input, i)[j] == CodeOf(TripletAt(input, i + 1 - SMER + j))
  {
  }
}
