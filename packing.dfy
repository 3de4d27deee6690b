/** The two rolling s-mer registers of thread_smer (src/krnl_minimizer.cpp) as
    functions of the codes read so far, and what they hold: the forward register
    is the base-4 number of the last SMER codes, the inverse register that of
    their reverse XOR-2 image.

    Lemmas that combine facts about registers state the bit-level steps through
    the predicates below, and each bit-level identity is its own small lemma
    over bit-vector parameters. */
module Packing {
  import opened Encoding

  /** Bits 53..0: every digit of a register below its top digit. */
  const LOW54: bv56 := 0x3F_FFFF_FFFF_FFFF

  /** A code as a 56-bit value (the zero-extension of `ap_uint<2>`). */
  function Digit(c: Code): (d: bv56)
    ensures d < 4
  {
    if c == 0 then 0 else if c == 1 then 1 else if c == 2 then 2 else 3
  }

  /** `y` is `x` moved up one digit with `c` in the low digit. */
  predicate Pushed(x: bv56, c: bv56, y: bv56) {
    y == (x << 2) | c
  }

  /** `y` is `x` moved down one digit with `d` in the top digit. */
  predicate Pulled(x: bv56, d: bv56, y: bv56) {
    y == (x >> 2) | (d << 54)
  }

  /** `y` is `x` moved up one digit. */
  predicate Lifted(x: bv56, y: bv56) {
    y == x << 2
  }

  /** `y` is `x` moved up three digits. */
  predicate Lifted3(x: bv56, y: bv56) {
    y == x << 6
  }

  /** `y` is `x` in the top digit, bits 55:54. */
  predicate AtTop(x: bv56, y: bv56) {
    y == x << 54
  }

  predicate Joined(a: bv56, b: bv56, y: bv56) {
    y == a | b
  }

  /** `x` has no bit set outside `l`. */
  predicate Within(x: bv56, l: bv56) {
    x & !l == 0
  }

  // ---------------------------------------------------------------------
  // The forward register

  /** The code sequence as a base-4 number, last code in the low digit; only
      the last SMER codes fit in the 56 bits. */
  function Pack(s: seq<Code>): bv56
  {
    if s == [] then 0 else (Pack(s[..|s| - 1]) << 2) | Digit(s[|s| - 1])
  }

  lemma PackPush(s: seq<Code>)
    requires s != []
    ensures Pushed(Pack(s[..|s| - 1]), Digit(s[|s| - 1]), Pack(s))
  {
  }

  /** `x` moved up by m digits (`x << 2m`, bits above 55 lost). */
  function Lift(x: bv56, m: nat): bv56
  {
    if m == 0 then x else Lift(x, m - 1) << 2
  }

  lemma LiftUp(x: bv56, m: nat)
    ensures Lifted(Lift(x, m), Lift(x, m + 1))
  {
  }

  lemma LiftedThrice(a: bv56, b: bv56, c: bv56, d: bv56)
    requires Lifted(a, b) && Lifted(b, c) && Lifted(c, d)
    ensures Lifted3(a, d)
  {
  }

  lemma LiftUp3(x: bv56, m: nat)
    ensures Lifted3(Lift(x, m), Lift(x, m + 3))
  {
    LiftUp(x, m);
    LiftUp(x, m + 1);
    LiftUp(x, m + 2);
    LiftedThrice(Lift(x, m), Lift(x, m + 1), Lift(x, m + 2), Lift(x, m + 3));
  }

  lemma LiftedNine(x: bv56, a1: bv56, a2: bv56, a3: bv56, a4: bv56, a5: bv56, a6: bv56,
                   a7: bv56, a8: bv56, a9: bv56)
    requires Lifted3(x, a1) && Lifted3(a1, a2) && Lifted3(a2, a3) && Lifted3(a3, a4)
    requires Lifted3(a4, a5) && Lifted3(a5, a6) && Lifted3(a6, a7) && Lifted3(a7, a8)
    requires Lifted3(a8, a9)
    ensures AtTop(x, a9)
  {
  }

  /** Digit SMER-1 of a register is its top digit. */
  lemma LiftTop(x: bv56)
    ensures AtTop(x, Lift(x, SMER - 1))
  {
    LiftUp3(x, 0);
    LiftUp3(x, 3);
    LiftUp3(x, 6);
    LiftUp3(x, 9);
    LiftUp3(x, 12);
    LiftUp3(x, 15);
    LiftUp3(x, 18);
    LiftUp3(x, 21);
    LiftUp3(x, 24);
    LiftedNine(Lift(x, 0), Lift(x, 3), Lift(x, 6), Lift(x, 9), Lift(x, 12), Lift(x, 15),
      Lift(x, 18), Lift(x, 21), Lift(x, 24), Lift(x, 27));
  }

  lemma JoinFirst(d: bv56, y: bv56)
    requires Pushed(0, d, y)
    ensures Joined(d, 0, y)
  {
  }

  lemma JoinPushed(a: bv56, r: bv56, x: bv56, c: bv56, y: bv56, a2: bv56, r2: bv56)
    requires Joined(a, r, x) && Pushed(x, c, y) && Lifted(a, a2) && Pushed(r, c, r2)
    ensures Joined(a2, r2, y)
  {
  }

  /** The first of m codes sits at digit m-1. */
  lemma {:induction false} PackCons(s: seq<Code>)
    requires s != []
    ensures Joined(Lift(Digit(s[0]), |s| - 1), Pack(s[1..]), Pack(s))
  {
    var d := Digit(s[0]);
    PackPush(s);
    if |s| == 1 {
      assert s[..0] == [] && s[1..] == [];
      JoinFirst(d, Pack(s));
    } else {
      var u := s[..|s| - 1];
      assert u[0] == s[0];
      PackCons(u);
      LiftUp(d, |u| - 1);
      assert s[1..][..|s| - 2] == u[1..];
      PackPush(s[1..]);
      JoinPushed(Lift(d, |u| - 1), Pack(u[1..]), Pack(u), Digit(s[|s| - 1]), Pack(s),
        Lift(d, |u|), Pack(s[1..]));
    }
  }

  /** Moving a register up one digit drops its top digit. */
  lemma TopShiftedOut(d: bv56, a: bv56, r: bv56, x: bv56, c: bv56, y: bv56)
    requires AtTop(d, a) && Joined(a, r, x) && Pushed(r, c, y)
    ensures Pushed(x, c, y)
  {
  }

  lemma PushedUnique(x: bv56, c: bv56, y: bv56, y2: bv56)
    requires Pushed(x, c, y) && Pushed(x, c, y2)
    ensures y == y2
  {
  }

  /** A full register moved up one digit loses its oldest code. */
  lemma PushForgets(t: seq<Code>, t2: seq<Code>)
    requires |t| == SMER && |t2| == SMER && t2[..SMER - 1] == t[1..]
    ensures Pushed(Pack(t), Digit(t2[SMER - 1]), Pack(t2))
  {
    var d := Digit(t[0]);
    PackCons(t);
    LiftTop(d);
    PackPush(t2);
    assert t2[..|t2| - 1] == t[1..];
    TopShiftedOut(d, Lift(d, SMER - 1), Pack(t[1..]), Pack(t), Digit(t2[SMER - 1]), Pack(t2));
  }

  lemma SlideByOne(s: seq<Code>)
    requires |s| > SMER
    ensures s[|s| - SMER..][..SMER - 1] == s[..|s| - 1][|s| - 1 - SMER..][1..]
  {
  }

  /** Only the last SMER codes read determine the forward register. */
  lemma {:induction false} PackLast(s: seq<Code>)
    requires |s| >= SMER
    ensures Pack(s) == Pack(s[|s| - SMER..])
  {
    if |s| > SMER {
      var u := s[..|s| - 1];
      var t := u[|u| - SMER..];
      var t2 := s[|s| - SMER..];
      PackLast(u);
      SlideByOne(s);
      PushForgets(t, t2);
      PackPush(s);
      assert t2[SMER - 1] == s[|s| - 1];
      PushedUnique(Pack(t), Digit(s[|s| - 1]), Pack(s), Pack(t2));
    }
  }

  // ---------------------------------------------------------------------
  // Digit masks

  /** The low m digits set, `2^(2m) - 1` (all 56 bits from m = SMER on). */
  function LowDigits(m: nat): bv56
  {
    if m == 0 then 0 else (LowDigits(m - 1) << 2) | 3
  }

  lemma LowDigitsUp(m: nat)
    ensures Pushed(LowDigits(m), 3, LowDigits(m + 1))
  {
  }

  predicate Ones3(x: bv56, y: bv56) {
    y == (x << 6) | 63
  }

  lemma OnesThrice(a: bv56, b: bv56, c: bv56, d: bv56)
    requires Pushed(a, 3, b) && Pushed(b, 3, c) && Pushed(c, 3, d)
    ensures Ones3(a, d)
  {
  }

  lemma LowDigitsUp3(m: nat)
    ensures Ones3(LowDigits(m), LowDigits(m + 3))
  {
    LowDigitsUp(m);
    LowDigitsUp(m + 1);
    LowDigitsUp(m + 2);
    OnesThrice(LowDigits(m), LowDigits(m + 1), LowDigits(m + 2), LowDigits(m + 3));
  }

  lemma OnesNine(x: bv56, a1: bv56, a2: bv56, a3: bv56, a4: bv56, a5: bv56, a6: bv56,
                 a7: bv56, a8: bv56, a9: bv56)
    requires x == 0
    requires Ones3(x, a1) && Ones3(a1, a2) && Ones3(a2, a3) && Ones3(a3, a4)
    requires Ones3(a4, a5) && Ones3(a5, a6) && Ones3(a6, a7) && Ones3(a7, a8)
    requires Ones3(a8, a9)
    ensures a9 == LOW54
  {
  }

  /** The digits below the top one are bits 53..0. */
  lemma LowDigitsTop()
    ensures LowDigits(SMER - 1) == LOW54
  {
    LowDigitsUp3(0);
    LowDigitsUp3(3);
    LowDigitsUp3(6);
    LowDigitsUp3(9);
    LowDigitsUp3(12);
    LowDigitsUp3(15);
    LowDigitsUp3(18);
    LowDigitsUp3(21);
    LowDigitsUp3(24);
    OnesNine(LowDigits(0), LowDigits(3), LowDigits(6), LowDigits(9), LowDigits(12),
      LowDigits(15), LowDigits(18), LowDigits(21), LowDigits(24), LowDigits(27));
  }

  lemma WithinZero()
    ensures Within(0, 0)
  {
  }

  lemma WithinPushed(x: bv56, l: bv56, c: bv56, y: bv56, l2: bv56)
    requires Within(x, l) && c < 4 && Pushed(x, c, y) && Pushed(l, 3, l2)
    ensures Within(y, l2)
  {
  }

  /** A packing of m codes has no bit set above its m low digits. */
  lemma {:induction false} PackWithinDigits(s: seq<Code>)
    ensures Within(Pack(s), LowDigits(|s|))
  {
    if s == [] {
      WithinZero();
    } else {
      var u := s[..|s| - 1];
      PackWithinDigits(u);
      PackPush(s);
      LowDigitsUp(|u|);
      WithinPushed(Pack(u), LowDigits(|u|), Digit(s[|s| - 1]), Pack(s), LowDigits(|s|));
    }
  }

  // ---------------------------------------------------------------------
  // The inverse register

  /** The code the inverse register inserts for code c, `0x2 ^ c`. */
  function Flip(c: Code): Code
  {
    c ^ 2
  }

  lemma FlipFlip(c: Code)
    ensures Flip(Flip(c)) == c
  {
  }

  /** Under nucl_encode's table the flip pairs A with G and C with T, not
      the Watson-Crick complements. */
  lemma FlipPairs()
    ensures BaseChar(Flip(NuclEncode(BYTE_A))) == BYTE_G
    ensures BaseChar(Flip(NuclEncode(BYTE_C))) == BYTE_T
    ensures BaseChar(Flip(NuclEncode(BYTE_G))) == BYTE_A
    ensures BaseChar(Flip(NuclEncode(BYTE_T))) == BYTE_C
  {
  }

  /** The codes of `w` in reverse order, each XOR 2 (with the code table of
      nucl_encode this pairs A with G and C with T). */
  function RevX(w: seq<Code>): (r: seq<Code>)
    ensures |r| == |w|
  {
    seq(|w|, k requires 0 <= k < |w| => Flip(w[|w| - 1 - k]))
  }

  /** RevX is an involution. */
  lemma RevXInvolution(w: seq<Code>)
    ensures RevX(RevX(w)) == w
  {
    forall k | 0 <= k < |w|
      ensures RevX(RevX(w))[k] == w[k]
    {
      FlipFlip(w[k]);
    }
  }

  /** The inverse register after reading the codes `s`: each step moves it down
      one digit and puts the flipped code in the top digit. */
  function InvPack(s: seq<Code>): bv56
  {
    if s == [] then 0
    else (InvPack(s[..|s| - 1]) >> 2) | (Digit(Flip(s[|s| - 1])) << 54)
  }

  lemma InvPackPull(s: seq<Code>)
    requires s != []
    ensures Pulled(InvPack(s[..|s| - 1]), Digit(Flip(s[|s| - 1])), InvPack(s))
  {
  }

  function Zeros(m: nat): (z: seq<Code>)
    ensures |z| == m && forall k :: 0 <= k < m ==> z[k] == 0
  {
    seq(m, k => 0)
  }

  lemma {:induction false} PackZeros(m: nat)
    ensures Pack(Zeros(m)) == 0
  {
    if m > 0 {
      PackZeros(m - 1);
      assert Zeros(m)[..m - 1] == Zeros(m - 1);
      PackPush(Zeros(m));
      PushZero();
    }
  }

  lemma PushZero()
    ensures Pushed(0, 0, 0)
  {
  }

  /** The last min(|s|, SMER) codes of s. */
  function Recent(s: seq<Code>): (r: seq<Code>)
    ensures |r| <= SMER
  {
    if |s| <= SMER then s else s[|s| - SMER..]
  }

  /** The inverse register's SMER digits from the top one down: the reverse
      XOR-2 image of the recent codes, then zeros for digits not yet filled. */
  function InvDigits(s: seq<Code>): (v: seq<Code>)
    ensures |v| == SMER
  {
    RevX(Recent(s)) + Zeros(SMER - |Recent(s)|)
  }

  lemma InvDigitsStep(s: seq<Code>, c: Code)
    ensures InvDigits(s + [c]) == [Flip(c)] + InvDigits(s)[..SMER - 1]
  {
    var s2 := s + [c];
    if |s| < SMER {
      assert Recent(s2) == s2;
      assert RevX(s2) == [Flip(c)] + RevX(s);
    } else {
      var t := Recent(s);
      assert Recent(s2) == t[1..] + [c];
      assert RevX(t[1..] + [c]) == [Flip(c)] + RevX(t)[..SMER - 1];
    }
  }

  lemma PullPacked(r: bv56, e: bv56, p: bv56, d: bv56, q: bv56, a: bv56, z: bv56)
    requires Within(r, LOW54) && e < 4 && Pushed(r, e, p) && Pulled(p, d, q)
    requires AtTop(d, a) && Joined(a, r, z)
    ensures q == z
  {
  }

  /** The inverse register is the packing of InvDigits. */
  lemma {:induction false} InvPackDigits(s: seq<Code>)
    ensures InvPack(s) == Pack(InvDigits(s))
  {
    if s == [] {
      assert InvDigits(s) == Zeros(SMER);
      PackZeros(SMER);
    } else {
      var u := s[..|s| - 1];
      var c := s[|s| - 1];
      assert s == u + [c];
      InvPackDigits(u);
      InvPackStep(u, c);
    }
  }

  /** Reading one more code keeps the inverse register the packing of
      InvDigits. */
  lemma InvPackStep(u: seq<Code>, c: Code)
    requires InvPack(u) == Pack(InvDigits(u))
    ensures InvPack(u + [c]) == Pack(InvDigits(u + [c]))
  {
    var s := u + [c];
    assert s[..|s| - 1] == u && s[|s| - 1] == c;
    var v := InvDigits(u);
    InvDigitsStep(u, c);
    var v2 := [Flip(c)] + v[..SMER - 1];
    ConsParts(Flip(c), v[..SMER - 1]);
    PackCons(v2);
    LiftTop(Digit(Flip(c)));
    WholePrefix(v);
    PackPush(v);
    PackWithinDigits(v[..SMER - 1]);
    LowDigitsTop();
    InvPackPull(s);
    PullPacked(Pack(v[..SMER - 1]), Digit(v[SMER - 1]), Pack(v), Digit(Flip(c)), InvPack(s),
      Lift(Digit(Flip(c)), SMER - 1), Pack(v2));
  }

  lemma ConsParts(x: Code, w: seq<Code>)
    ensures ([x] + w)[1..] == w && ([x] + w)[0] == x
  {
  }

  lemma WholePrefix(v: seq<Code>)
    requires |v| == SMER
    ensures v[..SMER][..SMER - 1] == v[..SMER - 1] && v[..SMER] == v
  {
  }

  /** Once SMER codes have been read, the inverse register is the packing of
      the reverse XOR-2 image of the last SMER codes; the newest code, flipped,
      is in bits 55:54. */
  lemma InvPackLast(s: seq<Code>)
    requires |s| >= SMER
    ensures InvPack(s) == Pack(RevX(s[|s| - SMER..]))
  {
    InvPackDigits(s);
    var t := s[|s| - SMER..];
    assert Recent(s) == t;
    assert Zeros(0) == [];
    assert RevX(t) + [] == RevX(t);
  }
}
