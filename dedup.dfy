/** thread_dedup (src/krnl_minimizer.cpp): a sliding window of WINDOW_SIZE
    buffered hashes. For every incoming hash it computes the minimum of that
    hash and the buffered ones, slides the window, and writes the minimum
    unless it equals the last value written. */
module Dedup {
  import opened Encoding
  import opened Streams

  /** The initial `lastElement`, `(ap_uint<SMER_SIZE>)(-1)` = 2^56 - 1. */
  const TOP56: U56 := 0xFF_FFFF_FFFF_FFFF

  /** The comparison loop: `minz` starts at the incoming hash `v`, and each
      buffered value below it, in slot order, replaces it. */
  function SlotMin(v: U56, b: seq<U56>): (m: U56)
    ensures m <= v
    ensures forall x | x in b :: m <= x
    ensures m == v || m in b
    decreases |b|
  {
    if b == [] then v
    else
      var m := SlotMin(v, b[..|b| - 1]);
      assert b == b[..|b| - 1] + [b[|b| - 1]];
      if b[|b| - 1] < m then b[|b| - 1] else m
  }

  /** What the comparison loop computes when hash q arrives, with the
      WINDOW_SIZE hashes before it in the buffer. */
  function WindowMinAt(input: seq<U56>, q: nat): U56
    requires WINDOW_SIZE <= q < |input|
  {
    SlotMin(input[q], input[q - WINDOW_SIZE..q])
  }

  /** It is the minimum of input positions q - WINDOW_SIZE..q. */
  lemma WindowMinIsMin(input: seq<U56>, q: nat)
    requires WINDOW_SIZE <= q < |input|
    ensures forall i :: q - WINDOW_SIZE <= i <= q ==> WindowMinAt(input, q) <= input[i]
    ensures WindowMinAt(input, q) in input[q - WINDOW_SIZE..q + 1]
  {
    assert input[q - WINDOW_SIZE..q + 1] == input[q - WINDOW_SIZE..q] + [input[q]];
    assert forall i :: q - WINDOW_SIZE <= i < q ==> input[i] in input[q - WINDOW_SIZE..q];
  }

  /** What the main loop writes from input position p on, `last` being the
      last value written: the sentinel ends the stage, an exhausted stream
      stalls it, and every other hash contributes the minimum of itself and
      the WINDOW_SIZE values before it when that minimum is new. */
  function DedupFrom(input: seq<U56>, p: nat, last: U56): Outcome<seq<U56>>
    requires WINDOW_SIZE <= p
    decreases |input| - p
  {
    if p >= |input| then Stalled
    else if input[p] == 0 then Done([0])
    else
      var m := WindowMinAt(input, p);
      if m != last then Prepend([m], DedupFrom(input, p + 1, m))
      else DedupFrom(input, p + 1, last)
  }

  /** Everything thread_dedup writes. The prefill reads WINDOW_SIZE values
      without looking for the sentinel, so a shorter stream stalls. */
  function DedupSpec(input: seq<U56>): Outcome<seq<U56>>
  {
    if |input| < WINDOW_SIZE then Stalled else DedupFrom(input, WINDOW_SIZE, TOP56)
  }

  /** A stream holding a `0` after the prefill is never stalled on, and the
      output ends with the sentinel. */
  lemma {:induction false} DedupFromEnds(input: seq<U56>, p: nat, last: U56, z: nat)
    requires WINDOW_SIZE <= p <= z < |input| && input[z] == 0
    ensures DedupFrom(input, p, last).Done?
    ensures |DedupFrom(input, p, last).value| >= 1
    ensures DedupFrom(input, p, last).value[|DedupFrom(input, p, last).value| - 1] == 0
    decreases z - p
  {
    if input[p] != 0 {
      var m := WindowMinAt(input, p);
      DedupFromEnds(input, p + 1, m, z);
      DedupFromEnds(input, p + 1, last, z);
    }
  }

  /** thread_dedup finishes exactly when a `0` follows the prefill. */
  lemma DedupDone(input: seq<U56>)
    requires |input| > 0 && input[|input| - 1] == 0
    ensures DedupSpec(input).Done? <==> |input| > WINDOW_SIZE
    ensures DedupSpec(input).Done? ==> |DedupSpec(input).value| >= 1
    ensures DedupSpec(input).Done? ==> DedupSpec(input).value[|DedupSpec(input).value| - 1] == 0
  {
    if |input| > WINDOW_SIZE {
      DedupFromEnds(input, WINDOW_SIZE, TOP56, |input| - 1);
    }
  }

  /** The minima written are never the same twice in a row, and the first
      one differs from `last`. */
  predicate Fresh(out: seq<U56>, last: U56)
    requires |out| >= 1
  {
    (|out| > 1 ==> out[0] != last)
    && forall k :: 0 <= k < |out| - 2 ==> out[k] != out[k + 1]
  }

  lemma {:induction false} DedupFromFresh(input: seq<U56>, p: nat, last: U56)
    requires WINDOW_SIZE <= p
    requires DedupFrom(input, p, last).Done?
    ensures |DedupFrom(input, p, last).value| >= 1
    ensures Fresh(DedupFrom(input, p, last).value, last)
    ensures |DedupFrom(input, p, last).value| <= |input| - p
    decreases |input| - p
  {
    if input[p] != 0 {
      var m := WindowMinAt(input, p);
      if m != last {
        DedupFromFresh(input, p + 1, m);
        var rest := DedupFrom(input, p + 1, m).value;
        var out := [m] + rest;
        assert DedupFrom(input, p, last).value == out;
        forall k | 0 <= k < |out| - 2
          ensures out[k] != out[k + 1]
        {
          if k > 0 {
            assert out[k] == rest[k - 1] && out[k + 1] == rest[k];
          }
        }
      } else {
        DedupFromFresh(input, p + 1, last);
      }
    }
  }

  /** thread_dedup's output: adjacent minima differ, the first differs from
      2^56 - 1, and there are at most |input| - WINDOW_SIZE values including
      the sentinel, so at most (number of hashes) - 16 minima when the input is
      the hashes followed by the sentinel. */
  lemma DedupFresh(input: seq<U56>)
    requires DedupSpec(input).Done?
    ensures |DedupSpec(input).value| >= 1
    ensures Fresh(DedupSpec(input).value, TOP56)
    ensures |DedupSpec(input).value| <= |input| - WINDOW_SIZE
  {
    DedupFromFresh(input, WINDOW_SIZE, TOP56);
  }

  /** Every value written before the sentinel is the minimum of the window
      ending at some input position q >= p. */
  lemma {:induction false} DedupFromMinima(input: seq<U56>, p: nat, last: U56, k: nat)
    requires WINDOW_SIZE <= p
    requires DedupFrom(input, p, last).Done? && k + 1 < |DedupFrom(input, p, last).value|
    ensures exists q :: p <= q < |input| && DedupFrom(input, p, last).value[k] == WindowMinAt(input, q)
    decreases |input| - p
  {
    var m := WindowMinAt(input, p);
    if m != last {
      if k == 0 {
        assert DedupFrom(input, p, last).value[0] == WindowMinAt(input, p);
      } else {
        DedupFromMinima(input, p + 1, m, k - 1);
        assert DedupFrom(input, p, last).value[k] == DedupFrom(input, p + 1, m).value[k - 1];
      }
    } else {
      DedupFromMinima(input, p + 1, last, k);
    }
  }

  /** thread_dedup writes only window minima: each value before the sentinel
      is the minimum of some input hash and the WINDOW_SIZE hashes before it. */
  lemma DedupMinima(input: seq<U56>, k: nat)
    requires DedupSpec(input).Done? && k + 1 < |DedupSpec(input).value|
    ensures exists q :: WINDOW_SIZE <= q < |input| && DedupSpec(input).value[k] == WindowMinAt(input, q)
  {
    DedupFromMinima(input, WINDOW_SIZE, TOP56, k);
  }

  // ---------------------------------------------------------------------
  // The stage itself, on its 16-slot buffer

  /** The comparison loop over the buffer. */
  method WindowMin(buffer: array<U56>, vhash: U56) returns (minz: U56)
    requires buffer.Length == WINDOW_SIZE
    ensures minz == SlotMin(vhash, buffer[..])
  {
    minz := vhash;
    for p := 0 to WINDOW_SIZE
      invariant minz == SlotMin(vhash, buffer[..p])
    {
      assert buffer[..p + 1][..p] == buffer[..p];
      minz := if buffer[p] < minz then buffer[p] else minz;
    }
    assert buffer[..WINDOW_SIZE] == buffer[..];
  }

  /** The shift loop and the write of the new hash into the last slot. */
  method Slide(buffer: array<U56>, vhash: U56)
    requires buffer.Length == WINDOW_SIZE
    modifies buffer
    ensures buffer[..] == old(buffer[1..]) + [vhash]
  {
    for p := 0 to WINDOW_SIZE - 1
      invariant forall k :: 0 <= k < p ==> buffer[k] == old(buffer[k + 1])
      invariant forall k :: p <= k < WINDOW_SIZE ==> buffer[k] == old(buffer[k])
    {
      buffer[p] := buffer[p + 1];
    }
    buffer[WINDOW_SIZE - 1] := vhash;
  }

  /** The prefill loop: the first WINDOW_SIZE values of the stream, whatever
      they are; a shorter stream stalls it. */
  method Prefill(input: seq<U56>) returns (filled: bool, buffer: array<U56>)
    ensures fresh(buffer) && buffer.Length == WINDOW_SIZE
    ensures filled <==> |input| >= WINDOW_SIZE
    ensures filled ==> buffer[..] == input[..WINDOW_SIZE]
  {
    buffer := new U56[WINDOW_SIZE];
    for p := 0 to WINDOW_SIZE
      invariant p <= |input| && buffer[..p] == input[..p]
    {
      if p >= |input| {
        return false, buffer;
      }
      buffer[p] := input[p];
      assert buffer[..p + 1] == buffer[..p] + [input[p]];
    }
    assert buffer[..] == buffer[..WINDOW_SIZE];
    filled := true;
  }

  /** The state of thread_dedup before it reads input position pos: the
      buffer holds the WINDOW_SIZE values before pos, and what is written so
      far followed by what the rest of the run writes is the whole output. */
  predicate Deduping(input: seq<U56>, window: seq<U56>, pos: nat, last: U56, written: seq<U56>)
  {
    WINDOW_SIZE <= pos <= |input| && window == input[pos - WINDOW_SIZE..pos]
    && Prepend(written, DedupFrom(input, pos, last)) == DedupSpec(input)
  }

  /** One iteration of the main loop: the read (which stalls on an exhausted
      stream), the sentinel test, the window minimum, the slide and the write
      of a new minimum. */
  method DedupStep(input: seq<U56>, buffer: array<U56>, pos: nat, last: U56, written: seq<U56>)
      returns (finished: bool, out: Outcome<seq<U56>>, last2: U56, written2: seq<U56>)
    requires buffer.Length == WINDOW_SIZE && Deduping(input, buffer[..], pos, last, written)
    modifies buffer
    ensures finished ==> out == DedupSpec(input)
    ensures !finished ==> Deduping(input, buffer[..], pos + 1, last2, written2)
  {
    last2, written2 := last, written;
    if pos >= |input| {
      return true, Stalled, last2, written2;
    }
    var vhash := input[pos];
    if vhash == 0 {
      return true, Done(written + [0]), last2, written2;
    }
    finished, out := false, Stalled;
    var minz := WindowMin(buffer, vhash);
    Slide(buffer, vhash);
    assert buffer[..] == input[pos + 1 - WINDOW_SIZE..pos + 1];
    if last != minz {
      PrependTwice(written, [minz], DedupFrom(input, pos + 1, minz));
      written2 := written + [minz];
      last2 := minz;
    }
  }

  /** thread_dedup on the whole stream it reads. */
  method ThreadDedup(input: seq<U56>) returns (out: Outcome<seq<U56>>)
    ensures out == DedupSpec(input)
  {
    var filled, buffer := Prefill(input);
    if !filled {
      return Stalled;
    }
    var pos := WINDOW_SIZE;
    var lastElement := TOP56;
    var written: seq<U56> := [];
    PrependNothing(DedupFrom(input, pos, lastElement));
    while true
      invariant Deduping(input, buffer[..], pos, lastElement, written)
      decreases |input| - pos
    {
      var finished;
      finished, out, lastElement, written := DedupStep(input, buffer, pos, lastElement, written);
      if finished {
        return;
      }
      pos := pos + 1;
    }
  }
}
