/** krnl_minimizer (src/krnl_minimizer.cpp): thread_reader, thread_smer,
    thread_dedup and thread_store connected by FIFOs. Each FIFO is the
    sequence of values its producer writes, and the stages run one after the
    other on them. */
module Kernel {
  import opened Encoding
  import opened Streams
  import opened Reader
  import opened Smer
  import opened Dedup
  import opened Store

  /** The ap_uint<SMER_SIZE> values of a FIFO as numbers. */
  function Unsigned(s: seq<bv56>): (r: seq<U56>)
    ensures |r| == |s|
    ensures forall k :: 0 <= k < |s| ==> (r[k] == 0 <==> s[k] == 0)
  {
    seq(|s|, k requires 0 <= k < |s| => s[k] as int)
  }

  /** What thread_dedup writes into the last FIFO for a packed sequence of n
      bases. */
  function KernelSpec(packed: seq<bv64>, n: nat): Outcome<seq<U56>>
    requires |packed| >= NWords(n)
  {
    match SmerSpec(ReaderSpec(packed, n), n)
    case Stalled => Stalled
    case Done(h) => DedupSpec(Unsigned(h))
  }

  /** The minimizer kernel reaches its sentinel exactly when n >= 43: below
      24 bases thread_smer's priming loop stalls, and below 43 thread_dedup's
      prefill swallows the sentinel. When it does, it writes at most n - 43
      minimizers before the sentinel. */
  lemma KernelEnds(packed: seq<bv64>, n: nat)
    requires |packed| >= NWords(n)
    ensures KernelSpec(packed, n).Done? <==> n >= SMER - 1 + WINDOW_SIZE
    ensures KernelSpec(packed, n).Done? ==> 0 in KernelSpec(packed, n).value
    ensures KernelSpec(packed, n).Done? ==> |BeforeSentinel(KernelSpec(packed, n).value)| <= n - (SMER - 1 + WINDOW_SIZE)
  {
    SmerOnReader(packed, n);
    if n >= 24 {
      SmerCount(packed, n);
      var h := Unsigned(SmerSpec(ReaderSpec(packed, n), n).value);
      DedupDone(h);
      if DedupSpec(h).Done? {
        DedupFresh(h);
        var d := DedupSpec(h).value;
        assert d[|d| - 1] == 0;
      }
    }
  }

  /** krnl_minimizer. `tab` has room for the n - 27 s-mer hashes the host
      sizes it for. The result is the count written to `*nMinizrs`. */
  method KrnlMinimizer(packed: seq<bv64>, n: nat, tab: array<U64>) returns (out: Outcome<nat>)
    requires |packed| >= NWords(n) && n < 0x8000_0000
    requires n <= tab.Length + (SMER - 1)
    modifies tab
    ensures out.Stalled? <==> n < SMER - 1 + WINDOW_SIZE
    ensures out.Done? ==> KernelSpec(packed, n).Done? && out.value <= tab.Length
    ensures out.Done? ==> out.value == |BeforeSentinel(KernelSpec(packed, n).value)|
    ensures out.Done? ==> tab[..out.value] == BeforeSentinel(KernelSpec(packed, n).value)
    ensures out.Done? ==> tab[out.value..] == old(tab[out.value..])
    ensures out.Stalled? ==> tab[..] == old(tab[..])
  {
    KernelEnds(packed, n);
    var fifo1 := ThreadReader(packed, n);
    var fifo2 := ThreadSmer(fifo1, n);
    if fifo2.Stalled? {
      return Stalled;
    }
    var fifo3 := ThreadDedup(Unsigned(fifo2.value));
    if fifo3.Stalled? {
      return Stalled;
    }
    out := ThreadStore(fifo3.value, tab);
  }
}
