/** thread_reader (src/krnl_minimizer.cpp): unpacks the 8 ASCII bases of each
    64-bit word into a 24-bit word of 8 triplets. Triplet j holds base j's 2-bit
    code in bits 3j+1..3j and its valid bit in bit 3j+2.

    Bit positions that depend on a lane number j are written as a case split
    over the eight lanes, so that every shift amount is a constant. */
module Reader {
  import opened Encoding

  /** Byte j of a packed word, `word.range(8j+7, 8j)`. */
  function ByteAt(w: bv64, j: nat): bv8
    requires j < 8
  {
    (if j == 0 then w & 0xFF
     else if j == 1 then (w >> 8) & 0xFF
     else if j == 2 then (w >> 16) & 0xFF
     else if j == 3 then (w >> 24) & 0xFF
     else if j == 4 then (w >> 32) & 0xFF
     else if j == 5 then (w >> 40) & 0xFF
     else if j == 6 then (w >> 48) & 0xFF
     else (w >> 56) & 0xFF) as bv8
  }

  /** A 24-bit word shifted right by k triplets, `w >> 3k`. */
  function Drop(w: bv24, k: nat): bv24
    requires k < 8
  {
    if k == 0 then w
    else if k == 1 then w >> 3
    else if k == 2 then w >> 6
    else if k == 3 then w >> 9
    else if k == 4 then w >> 12
    else if k == 5 then w >> 15
    else if k == 6 then w >> 18
    else w >> 21
  }

  /** Triplet k of a 24-bit word, bits 3k+2..3k. */
  function Triplet(w: bv24, k: nat): (t: bv24)
    requires k < 8
    ensures t < 8
  {
    Drop(w, k) & 7
  }

  /** Shifting by one more triplet moves triplet k+1 into the low bits. */
  lemma DropStep(w: bv24, k: nat)
    requires k < 7
    ensures Drop(w, k) >> 3 == Drop(w, k + 1)
  {
    if k == 0 {} else if k == 1 {} else if k == 2 {} else if k == 3 {}
    else if k == 4 {} else if k == 5 {} else {}
  }

  /** Two words with the same eight triplets are equal. */
  lemma TripletsDetermine(x: bv24, y: bv24)
    requires forall k :: 0 <= k < 8 ==> Triplet(x, k) == Triplet(y, k)
    ensures x == y
  {
    assert Triplet(x, 0) == Triplet(y, 0);
    assert Triplet(x, 1) == Triplet(y, 1);
    assert Triplet(x, 2) == Triplet(y, 2);
    assert Triplet(x, 3) == Triplet(y, 3);
    assert Triplet(x, 4) == Triplet(y, 4);
    assert Triplet(x, 5) == Triplet(y, 5);
    assert Triplet(x, 6) == Triplet(y, 6);
    assert Triplet(x, 7) == Triplet(y, 7);
  }

  lemma ZeroTriplets(k: nat)
    requires k < 8
    ensures Triplet(0, k) == 0
  {
  }

  /** The reader's two range assignments for slot j, `word.range(3j+1, 3j) = enc`
      and `word[3j+2] = valid`, done at once: bits 3j+2..3j of `w` become `t`. */
  function SetTriplet(w: bv24, j: nat, t: bv24): bv24
    requires j < 8
  {
    if j == 0 then (w & 0xFFFFF8) | (t & 7)
    else if j == 1 then (w & 0xFFFFC7) | ((t & 7) << 3)
    else if j == 2 then (w & 0xFFFE3F) | ((t & 7) << 6)
    else if j == 3 then (w & 0xFFF1FF) | ((t & 7) << 9)
    else if j == 4 then (w & 0xFF8FFF) | ((t & 7) << 12)
    else if j == 5 then (w & 0xFC7FFF) | ((t & 7) << 15)
    else if j == 6 then (w & 0xE3FFFF) | ((t & 7) << 18)
    else (w & 0x1FFFFF) | ((t & 7) << 21)
  }

  /** Setting slot j changes triplet j to `t` and no other triplet. */
  lemma SetTripletTriplets(w: bv24, j: nat, t: bv24, k: nat)
    requires j < 8 && k < 8
    ensures Triplet(SetTriplet(w, j, t), k) == if k == j then t & 7 else Triplet(w, k)
  {
    if j == 0 {
      SetTriplet0(w, t, k);
    } else if j == 1 {
      SetTriplet1(w, t, k);
    } else if j == 2 {
      SetTriplet2(w, t, k);
    } else if j == 3 {
      SetTriplet3(w, t, k);
    } else if j == 4 {
      SetTriplet4(w, t, k);
    } else if j == 5 {
      SetTriplet5(w, t, k);
    } else if j == 6 {
      SetTriplet6(w, t, k);
    } else {
      SetTriplet7(w, t, k);
    }
  }

  lemma SetTriplet0(w: bv24, t: bv24, k: nat)
    requires k < 8
    ensures Triplet(SetTriplet(w, 0, t), k) == if k == 0 then t & 7 else Triplet(w, k)
  {
    if k == 0 {} else if k == 1 {} else if k == 2 {} else if k == 3 {}
    else if k == 4 {} else if k == 5 {} else if k == 6 {} else {}
  }

  lemma SetTriplet1(w: bv24, t: bv24, k: nat)
    requires k < 8
    ensures Triplet(SetTriplet(w, 1, t), k) == if k == 1 then t & 7 else Triplet(w, k)
  {
    if k == 0 {} else if k == 1 {} else if k == 2 {} else if k == 3 {}
    else if k == 4 {} else if k == 5 {} else if k == 6 {} else {}
  }

  lemma SetTriplet2(w: bv24, t: bv24, k: nat)
    requires k < 8
    ensures Triplet(SetTriplet(w, 2, t), k) == if k == 2 then t & 7 else Triplet(w, k)
  {
    if k == 0 {} else if k == 1 {} else if k == 2 {} else if k == 3 {}
    else if k == 4 {} else if k == 5 {} else if k == 6 {} else {}
  }

  lemma SetTriplet3(w: bv24, t: bv24, k: nat)
    requires k < 8
    ensures Triplet(SetTriplet(w, 3, t), k) == if k == 3 then t & 7 else Triplet(w, k)
  {
    if k == 0 {} else if k == 1 {} else if k == 2 {} else if k == 3 {}
    else if k == 4 {} else if k == 5 {} else if k == 6 {} else {}
  }

  lemma SetTriplet4(w: bv24, t: bv24, k: nat)
    requires k < 8
    ensures Triplet(SetTriplet(w, 4, t), k) == if k == 4 then t & 7 else Triplet(w, k)
  {
    if k == 0 {} else if k == 1 {} else if k == 2 {} else if k == 3 {}
    else if k == 4 {} else if k == 5 {} else if k == 6 {} else {}
  }

  lemma SetTriplet5(w: bv24, t: bv24, k: nat)
    requires k < 8
    ensures Triplet(SetTriplet(w, 5, t), k) == if k == 5 then t & 7 else Triplet(w, k)
  {
    if k == 0 {} else if k == 1 {} else if k == 2 {} else if k == 3 {}
    else if k == 4 {} else if k == 5 {} else if k == 6 {} else {}
  }

  lemma SetTriplet6(w: bv24, t: bv24, k: nat)
    requires k < 8
    ensures Triplet(SetTriplet(w, 6, t), k) == if k == 6 then t & 7 else Triplet(w, k)
  {
    if k == 0 {} else if k == 1 {} else if k == 2 {} else if k == 3 {}
    else if k == 4 {} else if k == 5 {} else if k == 6 {} else {}
  }

  lemma SetTriplet7(w: bv24, t: bv24, k: nat)
    requires k < 8
    ensures Triplet(SetTriplet(w, 7, t), k) == if k == 7 then t & 7 else Triplet(w, k)
  {
    if k == 0 {} else if k == 1 {} else if k == 2 {} else if k == 3 {}
    else if k == 4 {} else if k == 5 {} else if k == 6 {} else {}
  }

  /** The 24-bit word whose triplet k is `ts[k]`. */
  function Assemble(ts: seq<bv24>): bv24
    requires |ts| == 8
  {
    (ts[0] & 7) | ((ts[1] & 7) << 3) | ((ts[2] & 7) << 6) | ((ts[3] & 7) << 9)
    | ((ts[4] & 7) << 12) | ((ts[5] & 7) << 15) | ((ts[6] & 7) << 18) | ((ts[7] & 7) << 21)
  }

  lemma AssembleTriplets(ts: seq<bv24>, k: nat)
    requires |ts| == 8 && k < 8
    ensures Triplet(Assemble(ts), k) == ts[k] & 7
  {
    if k == 0 {} else if k == 1 {} else if k == 2 {} else if k == 3 {}
    else if k == 4 {} else if k == 5 {} else if k == 6 {} else {}
  }

  /** Number of 64-bit words holding n bases, ceil(n / 8). */
  function NWords(n: nat): nat {
    (n + 7) / 8
  }

  /** The triplet the reader produces for a base: valid bit and the code of its
      byte when the base lies inside the sequence, all zero for padding. */
  function ExpectedTriplet(b: bv8, inSequence: bool): (t: bv24)
    ensures t < 8
    ensures inSequence <==> t & 4 != 0
    ensures (t & 3) as Code == if inSequence then NuclEncode(b) else 0
  {
    if inSequence then 4 | (NuclEncode(b) as bv24) else 0
  }

  /** The triplets of packed word number i. */
  function WordTriplets(word: bv64, n: nat, i: nat): (ts: seq<bv24>)
    ensures |ts| == 8
  {
    seq(8, j requires 0 <= j < 8 => ExpectedTriplet(ByteAt(word, j), 8 * i + j < n))
  }

  /** Everything thread_reader writes to its output stream: one word per
      packed word, then one all-zero word when n is a multiple of 8. */
  function ReaderSpec(packed: seq<bv64>, n: nat): seq<bv24>
    requires |packed| >= NWords(n)
  {
    Assembled(packed, n, NWords(n)) + (if n % 8 == 0 then [0] else [])
  }

  /** The assembled words of the first m packed words. */
  function Assembled(packed: seq<bv64>, n: nat, m: nat): (ws: seq<bv24>)
    requires m <= |packed|
    ensures |ws| == m
  {
    seq(m, i requires 0 <= i < m => Assemble(WordTriplets(packed[i], n, i)))
  }

  lemma AssembledStep(packed: seq<bv64>, n: nat, m: nat)
    requires m < |packed|
    ensures Assembled(packed, n, m + 1)
      == Assembled(packed, n, m) + [Assemble(WordTriplets(packed[m], n, m))]
  {
    var a := Assembled(packed, n, m + 1);
    var b := Assembled(packed, n, m) + [Assemble(WordTriplets(packed[m], n, m))];
    forall k | 0 <= k < |a|
      ensures a[k] == b[k]
    {
      if k < m {
        assert b[k] == Assembled(packed, n, m)[k];
      }
    }
  }

  /** What the reader's output says about every base: the stream holds
      ceil(n/8) words plus the extra zero word when n % 8 == 0; the triplet of
      base idx is valid exactly when idx < n, and then carries the code of the
      base's byte; padding triplets are zero. */
  lemma ReaderTriplets(packed: seq<bv64>, n: nat, idx: nat)
    requires |packed| >= NWords(n) && idx < 8 * NWords(n)
    ensures |ReaderSpec(packed, n)| == NWords(n) + (if n % 8 == 0 then 1 else 0)
    ensures n % 8 == 0 ==> ReaderSpec(packed, n)[NWords(n)] == 0
    ensures Triplet(ReaderSpec(packed, n)[idx / 8], idx % 8)
      == ExpectedTriplet(ByteAt(packed[idx / 8], idx % 8), idx < n)
  {
    AssembleTriplets(WordTriplets(packed[idx / 8], n, idx / 8), idx % 8);
  }

  /** The inner loop of thread_reader: the eight slots of packed word number i. */
  method AssembleWord(word8b: bv64, n: nat, i: nat) returns (word3b: bv24, allValid: bool)
    ensures word3b == Assemble(WordTriplets(word8b, n, i))
    ensures allValid <==> 8 * i + 7 < n
  {
    ghost var ts := WordTriplets(word8b, n, i);
    word3b := 0;
    allValid := true;
    forall k | 0 <= k < 8 ensures Triplet(word3b, k) == 0 {
      ZeroTriplets(k);
    }
    for j := 0 to 8
      invariant forall k :: 0 <= k < 8 ==> Triplet(word3b, k) == if k < j then ts[k] else 0
      invariant allValid <==> (j == 0 || 8 * i + j - 1 < n)
    {
      var idx := i * 8 + j;
      var valid := idx < n;
      var c: bv8 := if valid then ByteAt(word8b, j) else 0;
      var enc := NuclEncode(c);
      var triplet: bv24 := (if valid then 4 else 0) | (enc as bv24);
      assert triplet == ts[j];
      FillSlot(word3b, ts, j);
      word3b := SetTriplet(word3b, j, triplet);
      allValid := allValid && valid;
    }
    AssembledWord(word3b, ts);
  }

  /** One step of the inner loop: slots 0..j-1 are filled and the rest are
      zero; filling slot j keeps that shape. */
  lemma FillSlot(w: bv24, ts: seq<bv24>, j: nat)
    requires |ts| == 8 && j < 8 && forall k :: 0 <= k < 8 ==> ts[k] < 8
    requires forall k :: 0 <= k < 8 ==> Triplet(w, k) == if k < j then ts[k] else 0
    ensures forall k :: 0 <= k < 8 ==>
      Triplet(SetTriplet(w, j, ts[j]), k) == if k < j + 1 then ts[k] else 0
  {
    forall k | 0 <= k < 8
      ensures Triplet(SetTriplet(w, j, ts[j]), k) == if k < j + 1 then ts[k] else 0
    {
      SetTripletTriplets(w, j, ts[j], k);
    }
  }

  /** A word holding the eight triplets `ts` is `Assemble(ts)`. */
  lemma AssembledWord(w: bv24, ts: seq<bv24>)
    requires |ts| == 8 && forall k :: 0 <= k < 8 ==> ts[k] < 8
    requires forall k :: 0 <= k < 8 ==> Triplet(w, k) == ts[k]
    ensures w == Assemble(ts)
  {
    forall k | 0 <= k < 8
      ensures Triplet(w, k) == Triplet(Assemble(ts), k)
    {
      AssembleTriplets(ts, k);
    }
    TripletsDetermine(w, Assemble(ts));
  }

  /** thread_reader: one assembled word per packed word, stopping after the
      first word with an invalid slot, then the extra zero word when n % 8 == 0.
      `n` is bounded so that the source's `(int)` casts are exact. */
  method ThreadReader(packed: seq<bv64>, n: nat) returns (out: seq<bv24>)
    requires |packed| >= NWords(n)
    requires n < 0x8000_0000
    ensures out == ReaderSpec(packed, n)
  {
    var nWords := (n + 7) / 8;
    out := [];
    var i := 0;
    while i < nWords
      invariant 0 <= i <= nWords && out == Assembled(packed, n, i)
    {
      var word3b, allValid := AssembleWord(packed[i], n, i);
      AssembledStep(packed, n, i);
      out := out + [word3b];
      if !allValid {
        assert i == nWords - 1;
        i := i + 1;
        break;
      }
      i := i + 1;
    }
    if n % 8 == 0 {
      out := out + [0];
    }
  }
}
