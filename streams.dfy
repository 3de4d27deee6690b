/** Streams: the FIFO channels that connect the kernel's stages.
    A channel is modelled as the sequence of every value written to it, consumed
    in order by the next stage. A blocking read on an exhausted channel never
    returns; a stage that attempts one ends in `Stalled`. */
module Streams {

  /** The result of running one stage (or the whole kernel) on a finite input. */
  datatype Outcome<T> = Done(value: T) | Stalled

  /** Writes `xs` to the output ahead of what the rest of the run produces;
      a stalled run stays stalled. */
  function Prepend<T>(xs: seq<T>, rest: Outcome<seq<T>>): (r: Outcome<seq<T>>)
    ensures r.Stalled? <==> rest.Stalled?
    ensures rest.Done? ==> r.Done? && r.value == xs + rest.value
  {
    match rest
    case Done(o) => Done(xs + o)
    case Stalled => Stalled
  }

  lemma PrependTwice<T>(xs: seq<T>, ys: seq<T>, rest: Outcome<seq<T>>)
    ensures Prepend(xs, Prepend(ys, rest)) == Prepend(xs + ys, rest)
  {
    if rest.Done? {
      assert xs + (ys + rest.value) == (xs + ys) + rest.value;
    }
  }

  lemma PrependNothing<T>(rest: Outcome<seq<T>>)
    ensures Prepend([], rest) == rest
  {
    if rest.Done? {
      assert [] + rest.value == rest.value;
    }
  }

  /** An ap_uint<SMER_SIZE> value as the unsigned number it stands for. The
      later stages only compare and copy such values, so they are modelled on
      the numbers. */
  type U56 = x: int | 0 <= x < 0x100_0000_0000_0000

  /** The values written before the first `0` (the end-of-stream sentinel),
      or all of them when no sentinel was written. */
  function BeforeSentinel(s: seq<U56>): (r: seq<U56>)
    ensures |r| <= |s| && r == s[..|r|]
    ensures 0 !in r
    ensures |r| < |s| ==> s[|r|] == 0
  {
    if s == [] || s[0] == 0 then [] else [s[0]] + BeforeSentinel(s[1..])
  }
}
