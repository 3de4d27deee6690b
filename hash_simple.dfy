/** krnl_hash_simple (src/krnl_hash_simple.cpp): hashes every 64-bit lane of a
    stream of 512-bit words, burst by burst.

    A 512-bit word is modelled as its eight 64-bit lanes, lane i standing for
    bits 64i+63..64i. */
module HashSimple {
  import opened Encoding

  /** UNITS_PER_WORD: DATA_WIDTH / HASH_WIDTH = 512 / 64. */
  const UNITS_PER_WORD: nat := 8
  const BURST_SIZE: nat := 16

  /** `~0ULL`, the full mask of parallel_hash_calc. */
  const FULL_MASK: bv64 := 0xFFFF_FFFF_FFFF_FFFF

  /** A 512-bit word as its lanes. */
  type Word = s: seq<bv64> | |s| == UNITS_PER_WORD witness [0, 0, 0, 0, 0, 0, 0, 0]

  /** bfc_hash_64: seven reassignments of `key`, one function each; the
      arithmetic steps are masked and the xor-shift steps are not. */
  function BfcHash64(key: bv64, mask: bv64): (r: bv64)
    ensures r & mask == r
  {
    BfcKey7(BfcKey6(BfcKey5(BfcKey4(BfcKey3(BfcKey2(BfcKey1(key, mask)), mask)), mask)), mask)
  }

  function BfcKey1(key: bv64, mask: bv64): bv64 { (!key + (key << 21)) & mask }
  function BfcKey2(key: bv64): bv64 { key ^ (key >> 24) }
  function BfcKey3(key: bv64, mask: bv64): bv64 { ((key + (key << 3)) + (key << 8)) & mask }
  function BfcKey4(key: bv64): bv64 { key ^ (key >> 14) }
  function BfcKey5(key: bv64, mask: bv64): bv64 { ((key + (key << 2)) + (key << 4)) & mask }
  function BfcKey6(key: bv64): bv64 { key ^ (key >> 28) }

  function BfcKey7(key: bv64, mask: bv64): (r: bv64)
    ensures r & mask == r
  {
    (key + (key << 31)) & mask
  }

  /** bfc_hash_64 and the minimizer kernel's hash_u64 are the same function:
      the two kernels' copies agree step by step. */
  lemma BfcIsHashU64(key: bv64, mask: bv64)
    ensures BfcHash64(key, mask) == HashU64(key, mask)
  {
    var k1 := MixShift21(key, mask);
    assert BfcKey1(key, mask) == k1;
    var k2 := XorShift24(k1);
    assert BfcKey2(k1) == k2;
    var k3 := MixShift3x8(k2, mask);
    assert BfcKey3(k2, mask) == k3;
    var k4 := XorShift14(k3);
    assert BfcKey4(k3) == k4;
    var k5 := MixShift2x4(k4, mask);
    assert BfcKey5(k4, mask) == k5;
    var k6 := XorShift28(k5);
    assert BfcKey6(k5) == k6;
    assert BfcKey7(k6, mask) == MixShift31(k6, mask);
  }

  /** The hashes of the eight lanes of a word. */
  function LaneHashes(input: Word): Word
  {
    seq(UNITS_PER_WORD, i requires 0 <= i < UNITS_PER_WORD => BfcHash64(input[i], FULL_MASK))
  }

  /** parallel_hash_calc: hashes the eight lanes into `hash_results`, then
      writes each of them to its lane of `output`. Every lane is written, so
      the result does not depend on what `output` held. */
  method ParallelHashCalc(input: Word, output: array<bv64>)
    requires output.Length == UNITS_PER_WORD
    modifies output
    ensures output[..] == LaneHashes(input)
  {
    var hashResults := new bv64[UNITS_PER_WORD];
    for i := 0 to UNITS_PER_WORD
      invariant forall k :: 0 <= k < i ==> hashResults[k] == LaneHashes(input)[k]
    {
      var inputUnit := input[i];
      var mask := FULL_MASK;
      hashResults[i] := BfcHash64(inputUnit, mask);
    }
    for i := 0 to UNITS_PER_WORD
      invariant forall k :: 0 <= k < UNITS_PER_WORD ==> hashResults[k] == LaneHashes(input)[k]
      invariant forall k :: 0 <= k < i ==> output[k] == hashResults[k]
    {
      output[i] := hashResults[i];
    }
  }

  /** The length of the burst starting at `burstIdx`: min(remaining, 16). */
  function BurstLength(size: nat, burstIdx: nat): (len: nat)
    requires burstIdx < size
    ensures 0 < len <= BURST_SIZE && burstIdx + len <= size
    ensures len == BURST_SIZE || burstIdx + len == size
  {
    var remaining := size - burstIdx;
    if remaining < BURST_SIZE then remaining else BURST_SIZE
  }

  /** One burst: words burstIdx..burstIdx+len-1 in increasing order; `visited`
      records the addresses. */
  method Burst(input: array<Word>, output: array<Word>, burstIdx: nat, len: nat)
      returns (ghost visited: seq<nat>)
    requires input != output
    requires burstIdx + len <= input.Length && burstIdx + len <= output.Length
    modifies output
    ensures visited == seq(len, k => burstIdx + k)
    ensures forall a :: burstIdx <= a < burstIdx + len ==> output[a] == LaneHashes(input[a])
    ensures forall a :: 0 <= a < output.Length && !(burstIdx <= a < burstIdx + len) ==>
      output[a] == old(output[a])
  {
    visited := [];
    for wordIdx := 0 to len
      invariant visited == seq(wordIdx, k => burstIdx + k)
      invariant forall a :: burstIdx <= a < burstIdx + wordIdx ==> output[a] == LaneHashes(input[a])
      invariant forall a :: 0 <= a < output.Length && !(burstIdx <= a < burstIdx + wordIdx) ==>
        output[a] == old(output[a])
    {
      var addr := burstIdx + wordIdx;
      var inputData := input[addr];
      var outputData := new bv64[UNITS_PER_WORD];
      ParallelHashCalc(inputData, outputData);
      output[addr] := outputData[..];
      visited := visited + [addr];
    }
  }

  /** The number of words handled once the burst index has reached `burstIdx`. */
  function Reached(burstIdx: nat, size: nat): (r: nat)
    ensures r <= size && r <= burstIdx
    ensures size <= burstIdx ==> r == size
  {
    if burstIdx < size then burstIdx else size
  }

  /** krnl_hash_simple: every word below `dataSizeWords` is replaced by the
      hashes of its lanes, in bursts of at most 16 words that visit every
      address once, in increasing order; the rest of `output` is untouched.
      `input` is only read. */
  method KrnlHashSimple(input: array<Word>, output: array<Word>, dataSizeWords: nat)
      returns (ghost visited: seq<nat>)
    requires input != output
    requires dataSizeWords <= input.Length && dataSizeWords <= output.Length
    modifies output
    ensures visited == seq(dataSizeWords, k => k)
    ensures forall a :: 0 <= a < dataSizeWords ==> output[a] == LaneHashes(input[a])
    ensures forall a :: dataSizeWords <= a < output.Length ==> output[a] == old(output[a])
  {
    visited := [];
    var burstIdx := 0;
    while burstIdx < dataSizeWords
      invariant visited == seq(Reached(burstIdx, dataSizeWords), k => k)
      invariant forall a :: 0 <= a < Reached(burstIdx, dataSizeWords) ==> output[a] == LaneHashes(input[a])
      invariant forall a :: Reached(burstIdx, dataSizeWords) <= a < output.Length ==> output[a] == old(output[a])
      decreases dataSizeWords - burstIdx
    {
      var currentBurst := BurstLength(dataSizeWords, burstIdx);
      ghost var burst := Burst(input, output, burstIdx, currentBurst);
      visited := visited + burst;
      burstIdx := burstIdx + BURST_SIZE;
    }
  }
}
