/** thread_store (src/krnl_minimizer.cpp): copies the minimizers into
    `tab_hash` until the sentinel and reports how many it copied. */
module Store {
  import opened Streams

  /** An ap_uint<64> entry of `tab_hash`, as the unsigned number it holds. */
  type U64 = x: int | 0 <= x < 0x1_0000_0000_0000_0000

  /** What thread_store reports: the number of values before the sentinel, or
      Stalled when the stream ends without one. */
  function StoreCount(input: seq<U56>): (r: Outcome<nat>)
    ensures r.Done? <==> 0 in input
    ensures r.Done? ==> r.value == |BeforeSentinel(input)| && input[r.value] == 0
  {
    var pre := BeforeSentinel(input);
    if |pre| < |input| then Done(|pre|) else Stalled
  }

  /** thread_store. `tab` must hold every value before the sentinel; on return
      `tab[..cnt]` holds them in order, the rest of `tab` is untouched, and the
      result is the count written to `*nElements`. */
  method ThreadStore(input: seq<U56>, tab: array<U64>) returns (out: Outcome<nat>)
    requires |BeforeSentinel(input)| <= tab.Length
    modifies tab
    ensures out == StoreCount(input)
    ensures tab[..|BeforeSentinel(input)|] == BeforeSentinel(input)
    ensures tab[|BeforeSentinel(input)|..] == old(tab[|BeforeSentinel(input)|..])
  {
    ghost var pre := BeforeSentinel(input);
    var cnt := 0;
    while true
      invariant cnt <= |pre| && pre[..cnt] == input[..cnt]
      invariant tab[..cnt] == input[..cnt]
      invariant tab[|pre|..] == old(tab[|pre|..])
      decreases |input| - cnt
    {
      if cnt >= |input| {
        return Stalled;
      }
      var vHash := input[cnt];
      if vHash == 0 {
        break;
      }
      assert cnt < |pre|;
      tab[cnt] := vHash;
      cnt := cnt + 1;
      assert tab[..cnt] == tab[..cnt - 1] + [vHash];
    }
    out := Done(cnt);
  }
}
