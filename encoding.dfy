/** The scalar helpers of the minimizer kernel (src/krnl_minimizer.cpp):
    the nucleotide code table, `min`, `mask_right` and the masked integer hash. */
module Encoding {

  /** A nucleotide's 2-bit code (ap_uint<2>). */
  type Code = bv2

  /** Kernel configuration (SMER_SIZE, WINDOW_SIZE, MEM_UNIT, SMER). */
  const SMER_SIZE: nat := 56
  const WINDOW_SIZE: nat := 16
  const MEM_UNIT: nat := 64
  const SMER: nat := 28

  /** ASCII bytes of the four bases. */
  const BYTE_A: bv8 := 0x41
  const BYTE_C: bv8 := 0x43
  const BYTE_G: bv8 := 0x47
  const BYTE_T: bv8 := 0x54

  predicate IsBase(c: bv8) {
    c == BYTE_A || c == BYTE_C || c == BYTE_G || c == BYTE_T
  }

  /** The base a code stands for: the table A=0, C=1, G=2, T=3. */
  function BaseChar(x: Code): (c: bv8)
    ensures IsBase(c)
  {
    if x == 0 then BYTE_A else if x == 1 then BYTE_C else if x == 2 then BYTE_G else BYTE_T
  }

  /** nucl_encode: a base's code; every byte that is not A, C, G or T reads as A. */
  function NuclEncode(c: bv8): (r: Code)
    ensures IsBase(c) ==> BaseChar(r) == c
    ensures !IsBase(c) ==> r == 0
  {
    if c == BYTE_A then 0
    else if c == BYTE_C then 1
    else if c == BYTE_G then 2
    else if c == BYTE_T then 3
    else 0
  }

  /** Decoding a code and encoding it again gives the code back, so the table
      is a bijection between {A, C, G, T} and the four codes. */
  lemma EncodeBaseChar(x: Code)
    ensures NuclEncode(BaseChar(x)) == x
  {
  }

  /** An unknown byte such as 'N' is indistinguishable from 'A' after encoding. */
  lemma UnknownReadsAsA(c: bv8)
    requires !IsBase(c)
    ensures NuclEncode(c) == NuclEncode(BYTE_A)
  {
  }

  /** min: the smaller operand; on a tie the second one (`a < b ? a : b`). */
  function Min(a: bv64, b: bv64): (r: bv64)
    ensures r <= a && r <= b
    ensures r == a || r == b
  {
    if a < b then a else b
  }

  /** The minimum does not depend on the order of the operands. */
  lemma MinSymmetric(a: bv64, b: bv64)
    ensures Min(a, b) == Min(b, a)
  {
    if !(a < b) && !(b < a) {
      Antisymmetric(a, b);
    }
  }

  /** The order on 64-bit values is antisymmetric. The solver proves this one
      byte at a time. */
  lemma Antisymmetric(a: bv64, b: bv64)
    requires a <= b && b <= a
    ensures a == b
  {
    SameByte0(a, b);
    SameByte1(a, b);
    SameByte2(a, b);
    SameByte3(a, b);
    SameByte4(a, b);
    SameByte5(a, b);
    SameByte6(a, b);
    SameByte7(a, b);
    BytesAgree(a, b);
  }

  lemma SameByte0(a: bv64, b: bv64)
    requires a <= b && b <= a
    ensures a & 0xFF == b & 0xFF
  {
  }

  lemma SameByte1(a: bv64, b: bv64)
    requires a <= b && b <= a
    ensures (a >> 8) & 0xFF == (b >> 8) & 0xFF
  {
  }

  lemma SameByte2(a: bv64, b: bv64)
    requires a <= b && b <= a
    ensures (a >> 16) & 0xFF == (b >> 16) & 0xFF
  {
  }

  lemma SameByte3(a: bv64, b: bv64)
    requires a <= b && b <= a
    ensures (a >> 24) & 0xFF == (b >> 24) & 0xFF
  {
  }

  lemma SameByte4(a: bv64, b: bv64)
    requires a <= b && b <= a
    ensures (a >> 32) & 0xFF == (b >> 32) & 0xFF
  {
  }

  lemma SameByte5(a: bv64, b: bv64)
    requires a <= b && b <= a
    ensures (a >> 40) & 0xFF == (b >> 40) & 0xFF
  {
  }

  lemma SameByte6(a: bv64, b: bv64)
    requires a <= b && b <= a
    ensures (a >> 48) & 0xFF == (b >> 48) & 0xFF
  {
  }

  lemma SameByte7(a: bv64, b: bv64)
    requires a <= b && b <= a
    ensures a >> 56 == b >> 56
  {
  }

  lemma BytesAgree(a: bv64, b: bv64)
    requires a & 0xFF == b & 0xFF
    requires (a >> 8) & 0xFF == (b >> 8) & 0xFF
    requires (a >> 16) & 0xFF == (b >> 16) & 0xFF
    requires (a >> 24) & 0xFF == (b >> 24) & 0xFF
    requires (a >> 32) & 0xFF == (b >> 32) & 0xFF
    requires (a >> 40) & 0xFF == (b >> 40) & 0xFF
    requires (a >> 48) & 0xFF == (b >> 48) & 0xFF
    requires a >> 56 == b >> 56
    ensures a == b
  {
  }


  function Pow2(k: nat): (p: nat)
    ensures p >= 1
  {
    if k == 0 then 1 else 2 * Pow2(k - 1)
  }

  /** mask_right: the `numbits` low bits set (all 64 when numbits >= MEM_UNIT).
      A negative count is undefined behaviour in the source's shift and is excluded. */
  function MaskRight(numbits: int): (r: bv64)
    requires numbits >= 0
    ensures numbits >= MEM_UNIT ==> r == 0xFFFF_FFFF_FFFF_FFFF
    ensures numbits < MEM_UNIT ==> r as int == Pow2(numbits) - 1
  {
    if numbits >= MEM_UNIT as int then !0
    else
      LowOnesAt(numbits);
      LowOnes(numbits as bv8)
  }

  /** LowOnesValue for a shift count given as a number. */
  lemma LowOnesAt(numbits: nat)
    requires numbits < MEM_UNIT
    ensures LowOnes(numbits as bv8) as int == Pow2(numbits) - 1
  {
    var k := numbits as bv8;
    assert k as int == numbits;
    LowOnesValue(k);
  }

  /** `(1ULL << k) - 1ULL` for a shift count k below 64. */
  function LowOnes(k: bv8): bv64
    requires k < 64
  {
    (1 << k) - 1
  }

  /** `y` is `x` moved up one bit with a one below it, and nothing is lost. */
  predicate Doubled(x: bv64, y: bv64) {
    x < 0x8000_0000_0000_0000 && y == (x << 1) | 1
  }

  /** The bit pattern `x` is the number `v`. */
  predicate Worth(x: bv64, v: int) {
    x as int == v
  }

  lemma LowOnesStep(k: bv8)
    requires 0 < k < 64
    ensures Doubled(LowOnes(k - 1), LowOnes(k))
  {
  }

  /** `(1ULL << k) - 1ULL` is the number 2^k - 1. */
  lemma LowOnesValue(k: bv8)
    requires k < 64
    ensures Worth(LowOnes(k), Pow2(k as int) - 1)
  {
    var f := (j: bv8) => if j < 64 then LowOnes(j) else 0;
    forall j: bv8 | 0 < j < 64
      ensures Doubled(f(j - 1), f(j))
    {
      LowOnesStep(j);
    }
    DoublingFrom(f, k);
  }

  /** A run of values, each one the previous doubled plus one, that starts at
      0 holds 2^k - 1 at step k. */
  lemma {:induction false} DoublingFrom(f: bv8 -> bv64, k: bv8)
    requires k < 64 && f(0) == 0
    requires forall j: bv8 :: 0 < j < 64 ==> Doubled(f(j - 1), f(j))
    ensures Worth(f(k), Pow2(k as int) - 1)
    decreases k
  {
    if k > 0 {
      DoublingFrom(f, k - 1);
      Predecessor(k);
      DoubledPlusOne(f(k - 1), f(k), Pow2(k as int - 1) - 1);
    }
  }

  lemma DoubledPlusOne(x: bv64, y: bv64, v: int)
    requires Doubled(x, y) && Worth(x, v)
    ensures Worth(y, 2 * v + 1)
  {
  }

  lemma Predecessor(k: bv8)
    requires k > 0
    ensures (k - 1) as int == k as int - 1
  {
  }

  /** mask_right(b) is the number 2^b - 1 for b < 64. */
  lemma MaskRightValue(b: bv8)
    requires b < 64
    ensures MaskRight(b as int) as int == Pow2(b as int) - 1
  {
    assert (b as int) as bv8 == b;
    LowOnesValue(b);
  }

  /** The mask of a 56-bit s-mer register, mask_right(SMER_SIZE). */
  const HASH_MASK: bv64 := 0xFF_FFFF_FFFF_FFFF

  lemma HashMaskIsMaskRight()
    ensures MaskRight(SMER_SIZE) == HASH_MASK
  {
  }

  /** hash_u64: Thomas Wang's 64-bit integer mix, with `mask` applied after each
      of the four arithmetic steps; no bit outside `mask` survives. Each of the
      seven reassignments of `key` is one step function below. */
  function HashU64(key: bv64, mask: bv64): (r: bv64)
    ensures r & mask == r
  {
    MixShift31(XorShift28(MixShift2x4(XorShift14(MixShift3x8(XorShift24(MixShift21(key, mask)), mask)), mask)), mask)
  }

  /** Step 1: the complement plus the key shifted up 21, masked. */
  function MixShift21(key: bv64, mask: bv64): bv64 { (!key + (key << 21)) & mask }

  /** Step 2: xor with the key shifted down 24. */
  function XorShift24(key: bv64): bv64 { key ^ (key >> 24) }

  /** Step 3: the key times 1 + 2^3 + 2^8 (mod 2^64), masked. */
  function MixShift3x8(key: bv64, mask: bv64): bv64 { ((key + (key << 3)) + (key << 8)) & mask }

  /** Step 4: xor with the key shifted down 14. */
  function XorShift14(key: bv64): bv64 { key ^ (key >> 14) }

  /** Step 5: the key times 1 + 2^2 + 2^4 (mod 2^64), masked. */
  function MixShift2x4(key: bv64, mask: bv64): bv64 { ((key + (key << 2)) + (key << 4)) & mask }

  /** Step 6: xor with the key shifted down 28. */
  function XorShift28(key: bv64): bv64 { key ^ (key >> 28) }

  /** Step 7: the key times 1 + 2^31 (mod 2^64), masked; so the hash is within the mask. */
  function MixShift31(key: bv64, mask: bv64): (r: bv64)
    ensures r & mask == r
  {
    (key + (key << 31)) & mask
  }

  /** With the s-mer mask the hash is a 56-bit value, so it fits the
      ap_uint<SMER_SIZE> stream without truncation. */
  lemma HashFitsSmer(key: bv64)
    ensures HashU64(key, HASH_MASK) <= HASH_MASK
    ensures (HashU64(key, HASH_MASK) as bv56) as bv64 == HashU64(key, HASH_MASK)
  {
  }

  /** Zero-extension of a register to the 64-bit operands of `min`. */
  function Widen(x: bv56): (r: bv64)
    ensures r <= HASH_MASK
  {
    x as bv64
  }

  /** Truncation of a hash to the ap_uint<SMER_SIZE> stream. */
  function Narrow(h: bv64): bv56
  {
    (h & 0xFF_FFFF_FFFF_FFFF) as bv56
  }
}
