# Minimizer and hash kernels, modelled in Dafny

This project models two FPGA kernels written in Vitis HLS C++ and the host program that drives the first one.

`krnl_minimizer` takes a DNA sequence of `n` bases packed eight ASCII bytes to a 64-bit word. It computes the hashed canonical 28-mers ("s-mers") of the sequence and keeps, for every window of 17 consecutive s-mer hashes, the smallest one. It stores the run-length-deduplicated minima in `tab_hash` and their count in `nMinizrs`. It is a dataflow of four stages connected by FIFOs:

- `thread_reader` turns each packed word into eight 3-bit triplets: bit 2 is "inside the sequence" and bits 1..0 are the 2-bit base code. It emits an extra zero word when `n` is a multiple of 8.
- `thread_smer` keeps a forward register and an inverse register of 28 codes. It emits `hash_u64(min(fwd, inv))` per position and then a `0` sentinel.
- `thread_dedup` takes the minimum over a 16-slot buffer plus the incoming hash. It writes the minimum only when it differs from the last one written.
- `thread_store` copies the values up to the sentinel into `tab_hash` and writes the count.

`krnl_hash_simple` hashes every 64-bit lane of an array of 512-bit words. It works in bursts of at most 16 words. The host packs its test sequence with a byte-per-base loop and sizes the output buffer as `n - 27` words.

Each FIFO is modelled as the sequence of all values written to it. The stages run one after another on those sequences. A stage that would block forever on an empty FIFO ends in `Stalled` (`Streams.Outcome`). Every stage is an imperative method proved equal to a functional specification. The specification's properties are proved as lemmas:

- the reader's round trip from the host's packing;
- the s-mer registers holding the last 28 codes;
- the canonical value being the same for a window and its flipped reverse;
- every emitted minimizer being a window minimum;
- no two consecutive minimizers being equal;
- the count of stored values.

| file | module | source |
|---|---|---|
| streams.dfy | Streams | FIFOs, the sentinel |
| encoding.dfy | Encoding | constants, `nucl_encode`, `min`, `mask_right`, `hash_u64` |
| reader.dfy | Reader | `thread_reader` |
| packing.dfy | Packing | the 2-bit registers of `thread_smer` |
| smer.dfy | Smer | `thread_smer` |
| dedup.dfy | Dedup | `thread_dedup` |
| store.dfy | Store | `thread_store` |
| pipeline.dfy | Kernel | `krnl_minimizer` |
| hash_simple.dfy | HashSimple | `krnl_hash_simple.cpp` |
| host.dfy | Host | `host.cpp` |

## Model

| member | source | states |
|---|---|---|
| Streams.BeforeSentinel | src/krnl_minimizer.cpp:231-233 | the values before the first 0 are a prefix of the stream, contain no 0, and are followed by a 0 when shorter than the stream |
| Encoding.NuclEncode | src/krnl_minimizer.cpp:53-62 | A, C, G, T get the codes that decode back to the same byte; every other byte gets code 0 |
| Encoding.EncodeBaseChar | src/krnl_minimizer.cpp:55-58 | the four codes are each the encoding of exactly one base letter (the table is a bijection on ACGT) |
| Encoding.UnknownReadsAsA | src/krnl_minimizer.cpp:60 | any non-ACGT byte (N included) encodes exactly like A |
| Encoding.Min | src/krnl_minimizer.cpp:64-67 | the result is at most both operands and is one of them |
| Encoding.MinSymmetric | src/krnl_minimizer.cpp:64-67 | min(a, b) == min(b, a), ties included, so the canonical value does not depend on which register is which |
| Encoding.MaskRight | src/krnl_minimizer.cpp:69-72 | 64 or more bits give the all-ones mask, and fewer bits b give the number 2^b - 1 |
| Encoding.MaskRightValue | src/krnl_minimizer.cpp:69-72 | for b < 64 the mask is the number 2^b - 1 |
| Encoding.LowOnes | src/krnl_minimizer.cpp:71 | (definition) the shift-and-subtract branch of mask_right; MaskRightValue proves it is 2^k - 1 |
| Encoding.HashMaskIsMaskRight | src/krnl_minimizer.cpp:134 | mask_right(SMER_SIZE) is the 56-bit mask 0xFF_FFFF_FFFF_FFFF |
| Encoding.HashU64 | src/krnl_minimizer.cpp:74-84 | the hash has no bit outside the mask |
| Encoding.MixShift21 | src/krnl_minimizer.cpp:76 | (definition) step 1: the complement plus the key shifted up 21, masked |
| Encoding.XorShift24 | src/krnl_minimizer.cpp:77 | (definition) step 2: xor with the key shifted down 24 |
| Encoding.MixShift3x8 | src/krnl_minimizer.cpp:78 | (definition) step 3: the key plus its shifts by 3 and by 8, masked |
| Encoding.XorShift14 | src/krnl_minimizer.cpp:79 | (definition) step 4: xor with the key shifted down 14 |
| Encoding.MixShift2x4 | src/krnl_minimizer.cpp:80 | (definition) step 5: the key plus its shifts by 2 and by 4, masked |
| Encoding.XorShift28 | src/krnl_minimizer.cpp:81 | (definition) step 6: xor with the key shifted down 28 |
| Encoding.MixShift31 | src/krnl_minimizer.cpp:82 | the last mixing step masks its result |
| Encoding.HashFitsSmer | src/krnl_minimizer.cpp:169-170 | with the 56-bit mask the hash survives the narrowing to ap_uint<SMER_SIZE> unchanged |
| Encoding.Widen | src/krnl_minimizer.cpp:169 | a 56-bit register read as a 64-bit operand of min stays within the 56-bit mask |
| Encoding.Narrow | src/krnl_minimizer.cpp:170 | (definition) the truncation of a hash to the 56-bit stream value; HashFitsSmer shows it loses nothing under HASH_MASK |
| Reader.Triplet | src/krnl_minimizer.cpp:111 | a triplet field holds a 3-bit value |
| Reader.ByteAt | src/krnl_minimizer.cpp:106 | (definition) bits 8j+7..8j of a packed word; Host.PackedBytes proves it recovers the byte the host placed there |
| Reader.SetTriplet | src/krnl_minimizer.cpp:110-111 | (definition) the two range writes for slot j; SetTripletTriplets states their effect |
| Reader.NWords | src/krnl_minimizer.cpp:91 | (definition) (n + 7) / 8, the words the reader loops over; ReaderTriplets and Host.PackedSpec use it |
| Reader.TripletsDetermine | src/krnl_minimizer.cpp:109-111 | a 24-bit word is determined by its eight triplets |
| Reader.SetTripletTriplets | src/krnl_minimizer.cpp:111 | writing triplet j changes triplet j to the low 3 bits of the value and leaves the other seven as they were |
| Reader.AssembleTriplets | src/krnl_minimizer.cpp:101-114 | the word built from eight triplets holds triplet k in field k |
| Reader.Assemble | src/krnl_minimizer.cpp:97-114 | (definition) the 24-bit word holding eight given triplets; AssembleTriplets and AssembleWord state that the unrolled loop builds it |
| Reader.WordTriplets | src/krnl_minimizer.cpp:103-111 | (definition) the eight triplets of packed word i; ReaderTriplets states their contents |
| Reader.ExpectedTriplet | src/krnl_minimizer.cpp:103-110 | bit 2 is set iff the position is inside the sequence; the code bits are nucl_encode of the byte inside and 0 outside |
| Reader.ReaderTriplets | src/krnl_minimizer.cpp:86-126 | the reader writes ceil(n/8) words plus one zero word iff n % 8 == 0; triplet p holds the expected triplet of byte p |
| Reader.ReaderSpec | src/krnl_minimizer.cpp:86-126 | (definition) the reader's output as a function of the packed words: one assembled word for each of the (n + 7) / 8 packed words (the break on a word with a position past n can only fire on the last one), then the zero word when n % 8 == 0; ReaderTriplets states its contents |
| Reader.Assembled | src/krnl_minimizer.cpp:93-120 | (definition) the words written for the first m packed words; AssembledStep and ThreadReader's invariant |
| Reader.AssembleWord | src/krnl_minimizer.cpp:97-117 | one iteration builds the word of eight expected triplets and reports "all valid" iff its last position is below n |
| Reader.ThreadReader | src/krnl_minimizer.cpp:86-126 | the words written, including the early exit at the first invalid triplet and the extra zero word, are the reader's specification |
| Packing.PackPush | src/krnl_minimizer.cpp:147-148 | appending a code shifts the forward register left by 2 and ors the code in |
| Packing.PackLast | src/krnl_minimizer.cpp:147-148 | the 56-bit forward register depends only on the last 28 codes |
| Packing.PackWithinDigits | src/krnl_minimizer.cpp:147-148 | after m codes the forward register has no bit above the 2m low bits |
| Packing.Pack | src/krnl_minimizer.cpp:147-148 | (definition) the forward register, from 0, after a sequence of codes; PackPush and PackLast state its meaning |
| Packing.Flip | src/krnl_minimizer.cpp:151 | (definition) the code XOR 2 that the inverse register inserts; FlipFlip and FlipPairs |
| Packing.FlipFlip | src/krnl_minimizer.cpp:150-151 | XOR 2 applied twice is the identity |
| Packing.FlipPairs | src/krnl_minimizer.cpp:150-151 | with the code table of nucl_encode, XOR 2 pairs A with G and C with T |
| Packing.RevXInvolution | src/krnl_minimizer.cpp:150-151 | reversing and flipping a window twice gives it back |
| Packing.RevX | src/krnl_minimizer.cpp:150-151 | (definition) a window reversed with every code flipped; InvPackLast and CanonRevX state its role |
| Packing.InvPackPull | src/krnl_minimizer.cpp:150-151 | appending a code shifts the inverse register right by 2 and puts the flipped code at bits 55..54 |
| Packing.InvPack | src/krnl_minimizer.cpp:150-151 | (definition) the inverse register, from 0, after a sequence of codes; InvPackPull and InvPackLast state its meaning |
| Packing.InvPackDigits | src/krnl_minimizer.cpp:150-151 | the inverse register is the forward packing of the last 28 flipped codes, most recent first |
| Packing.InvPackLast | src/krnl_minimizer.cpp:150-151 | the inverse register is the forward register of the reversed, flipped last 28 codes |
| Smer.LowTriplet | src/krnl_minimizer.cpp:162-167 | the code and valid bit of a word are those of its low triplet |
| Smer.CodeOf | src/krnl_minimizer.cpp:161 | (definition) bits 1..0 of the current triplet word, the code read |
| Smer.ValidBit | src/krnl_minimizer.cpp:162 | (definition) bit 2 of the current triplet word |
| Smer.Codes | src/krnl_minimizer.cpp:159-167 | the codes read from the first m positions, one per position |
| Smer.TripletAt | src/krnl_minimizer.cpp:159-172 | (definition) triplet p % 8 of word p / 8, the triplet in the low bits at position p; AdvanceWord proves the loop's word holds it |
| Smer.CodesStep | src/krnl_minimizer.cpp:159-167 | reading one more position appends that position's code |
| Smer.CanonRevX | src/krnl_minimizer.cpp:169 | the canonical value of a window equals that of its reversed, flipped window |
| Smer.Canon | src/krnl_minimizer.cpp:169 | (definition) min of the packed window and the packed reversed, flipped window; RegistersCanon ties it to the registers |
| Smer.SmerHash | src/krnl_minimizer.cpp:169-170 | (definition) hash_u64 of the canonical value under HASH_MASK, as a 56-bit value; MainPosition proves the loop's vhash equals it |
| Smer.SmerEnd | src/krnl_minimizer.cpp:156-183 | the scan ends at a position no earlier than it starts and within the words read |
| Smer.Window | src/krnl_minimizer.cpp:164-169 | (definition) the codes of positions i-27..i; WindowAt and WindowOnReader state its contents |
| Smer.Hashes | src/krnl_minimizer.cpp:169-175 | (definition) the hashes the main loop writes for the windows ending at 27..e-1; HashesStep and SmerOnReader |
| Smer.HashesStep | src/krnl_minimizer.cpp:169-174 | scanning one more position appends the hash of that position's window |
| Smer.ShiftIn | src/krnl_minimizer.cpp:147-148 | shifting the 56-bit register up by 2 and writing the code into bits 1..0 is the forward push |
| Smer.ShiftInTop | src/krnl_minimizer.cpp:150-151 | the priming update (shift down by 2, then overwrite bits 55..54 with the flipped code) is the inverse pull |
| Smer.OrInTop | src/krnl_minimizer.cpp:167 | the main-loop update (shift down by 2, or the flipped code in at bit 54) is the same pull as in priming |
| Smer.PulledUnique | src/krnl_minimizer.cpp:150-167 | the pull has one result, so the two ways of writing it agree |
| Smer.AdvanceWord | src/krnl_minimizer.cpp:159-165 | refilling the word every 8 positions and shifting it by 3 otherwise gives the triplet of the current position |
| Smer.AdvanceRegisters | src/krnl_minimizer.cpp:162-167 | one push and one pull keep the registers equal to the packings of the codes read so far |
| Smer.RegistersCanon | src/krnl_minimizer.cpp:169 | min of the two registers is the canonical value of the last 28 codes |
| Smer.ScanStalls | src/krnl_minimizer.cpp:157-159 | a read past the last word written stalls the stage |
| Smer.ScanEnds | src/krnl_minimizer.cpp:174-183 | an invalid triplet or reaching n ends the stream with the hashes so far and a 0 |
| Smer.Prime | src/krnl_minimizer.cpp:140-154 | priming succeeds iff at least 4 words were written, leaving the registers at the first 27 codes |
| Smer.MainPosition | src/krnl_minimizer.cpp:159-170 | one position yields its valid bit and the hash of the window ending there, and advances the registers |
| Smer.MainStep | src/krnl_minimizer.cpp:157-181 | one iteration stalls, ends the stream as specified, or keeps the scan invariant one position further |
| Smer.ThreadSmer | src/krnl_minimizer.cpp:128-184 | the stream written (or the stall) is the s-mer specification of the input words |
| Smer.SmerSpec | src/krnl_minimizer.cpp:128-184 | (definition) thread_smer's output as a function of its input words: a stall with fewer than 4 words or on a read past the last word, otherwise the hashes of the windows from position 27 to the scan's end, then 0; SmerOnReader and SmerCount state it on the reader's output |
| Smer.MaxPos | src/krnl_minimizer.cpp:156-157 | the larger of two positions |
| Smer.CodeOfExpected | src/krnl_minimizer.cpp:106-111 | a triplet written for a position inside the sequence is valid and carries nucl_encode of its byte |
| Smer.ReaderPosition | src/krnl_minimizer.cpp:103-111 | position p < n of the reader's output is valid and holds nucl_encode of byte p of the packed input |
| Smer.SmerEndRuns | src/krnl_minimizer.cpp:157-177 | with only valid triplets ahead, the scan runs to max(i, n) |
| Smer.SmerEndOnReader | src/krnl_minimizer.cpp:157-177 | on the reader's output the invalid-triplet exit never fires before n |
| Smer.ReaderLength | src/krnl_minimizer.cpp:91-125 | the reader writes at least 4 words iff n >= 24 and covers all n positions |
| Smer.SmerOnReader | src/krnl_minimizer.cpp:140-183 | on the reader's output the s-mer stage stalls iff n < 24, and otherwise writes the hashes of every window up to max(n, 27) and then 0 |
| Smer.SmerCount | src/krnl_minimizer.cpp:156-183 | for n >= 24 it writes n - 27 hashes (none when n < 28) followed by the sentinel |
| Smer.CodesOnReader | src/krnl_minimizer.cpp:103-111 | the codes the stage reads are nucl_encode of the packed bytes |
| Smer.ByteCodes | src/krnl_minimizer.cpp:106-109 | (definition) nucl_encode of the first m bytes of the packed words; CodesOnReader and WindowOnReader |
| Smer.WindowOnReader | src/krnl_minimizer.cpp:164-169 | the window hashed at position i is the codes of bytes i-27..i |
| Smer.WindowOfCodes | src/krnl_minimizer.cpp:164-169 | the window at i is the last 28 of the first i+1 codes |
| Smer.WindowAt | src/krnl_minimizer.cpp:164-169 | element j of the window at i is the code at position i-27+j |
| Dedup.SlotMin | src/krnl_minimizer.cpp:203-207 | the minimum over the incoming hash and the buffer is at most each of them and is one of them |
| Dedup.WindowMinIsMin | src/krnl_minimizer.cpp:203-207 | the value chosen at input position q is at most each of the 17 hashes q-16..q and is one of them |
| Dedup.WindowMinAt | src/krnl_minimizer.cpp:203-207 | (definition) minz when hash q arrives with hashes q-16..q-1 in the buffer; WindowMinIsMin states its meaning |
| Dedup.DedupFrom | src/krnl_minimizer.cpp:198-220 | (definition) what the main loop writes from read position p on, given the last value written; DedupFromEnds, DedupFromFresh and DedupFromMinima |
| Dedup.DedupSpec | src/krnl_minimizer.cpp:186-221 | (definition) a stall when the prefill cannot read 16 values, else the main loop from position 16 with lastElement 2^56-1; DedupDone, DedupFresh and DedupMinima |
| Dedup.DedupFromEnds | src/krnl_minimizer.cpp:200-201 | once a 0 is ahead, the stage finishes and its last write is the 0 |
| Dedup.DedupDone | src/krnl_minimizer.cpp:191-201 | on a stream ending in the sentinel the stage finishes iff the stream is longer than the 16 prefilled values, and its last write is 0 |
| Dedup.DedupFromFresh | src/krnl_minimizer.cpp:216-219 | adjacent minima before the sentinel differ, the first minimum differs from the last value written, and there are no more writes than reads |
| Dedup.DedupFresh | src/krnl_minimizer.cpp:196-219 | adjacent minima before the sentinel differ, the first minimum is not 2^56-1, and at most len - 16 values are written |
| Dedup.DedupFromMinima | src/krnl_minimizer.cpp:200-219 | every value before the sentinel is the window minimum at some read position |
| Dedup.DedupMinima | src/krnl_minimizer.cpp:186-221 | every minimizer written is the minimum of some 17 consecutive hashes of the input |
| Dedup.WindowMin | src/krnl_minimizer.cpp:203-207 | the comparison loop yields the slot minimum |
| Dedup.Slide | src/krnl_minimizer.cpp:210-214 | the buffer loses its oldest value and gains the incoming one at the end |
| Dedup.Prefill | src/krnl_minimizer.cpp:190-194 | the prefill succeeds iff 16 values are available, and the buffer then holds them in order |
| Dedup.DedupStep | src/krnl_minimizer.cpp:198-220 | one iteration finishes with the specified output or keeps the loop invariant one read further |
| Dedup.ThreadDedup | src/krnl_minimizer.cpp:186-221 | the stream written (or the stall) is the dedup specification |
| Store.StoreCount | src/krnl_minimizer.cpp:228-235 | the stage finishes iff the stream holds a 0; the count is the number of values before it |
| Store.ThreadStore | src/krnl_minimizer.cpp:223-236 | tab_hash[0..cnt) holds the values before the sentinel in order, the rest of tab_hash is unchanged, and the count is returned |
| Kernel.Unsigned | src/krnl_minimizer.cpp:255-256 | reading a 56-bit FIFO value as a number keeps its length and which values are 0 |
| Kernel.KernelEnds | src/krnl_minimizer.cpp:238-262 | the kernel finishes iff n >= 43, and then writes at most n - 43 minimizers before the sentinel |
| Kernel.KernelSpec | src/krnl_minimizer.cpp:254-260 | (definition) the reader, s-mer and dedup stages composed on the FIFOs in order; KernelEnds states its outcome |
| Kernel.KrnlMinimizer | src/krnl_minimizer.cpp:238-262 | the kernel stalls iff n < 43; otherwise tab_hash starts with the minimizers and the count is their number |
| HashSimple.BfcHash64 | src/krnl_hash_simple.cpp:10-20 | the hash, transcribed from this file's own seven steps, has no bit outside the mask |
| HashSimple.BfcKey1 | src/krnl_hash_simple.cpp:12 | (definition) step 1: the complement plus the key shifted up 21, masked |
| HashSimple.BfcKey2 | src/krnl_hash_simple.cpp:13 | (definition) step 2: xor with the key shifted down 24 |
| HashSimple.BfcKey3 | src/krnl_hash_simple.cpp:14 | (definition) step 3: the key plus its shifts by 3 and by 8, masked |
| HashSimple.BfcKey4 | src/krnl_hash_simple.cpp:15 | (definition) step 4: xor with the key shifted down 14 |
| HashSimple.BfcKey5 | src/krnl_hash_simple.cpp:16 | (definition) step 5: the key plus its shifts by 2 and by 4, masked |
| HashSimple.BfcKey6 | src/krnl_hash_simple.cpp:17 | (definition) step 6: xor with the key shifted down 28 |
| HashSimple.BfcKey7 | src/krnl_hash_simple.cpp:18 | step 7: the key plus its shift by 31, masked, so the result lies within the mask |
| HashSimple.BfcIsHashU64 | src/krnl_hash_simple.cpp:10-20 | bfc_hash_64 is the same function as the minimizer kernel's hash_u64, step by step |
| HashSimple.LaneHashes | src/krnl_hash_simple.cpp:30-46 | (definition) the word whose lane i is the full-mask hash of input lane i; ParallelHashCalc and KrnlHashSimple prove the loops produce it |
| HashSimple.ParallelHashCalc | src/krnl_hash_simple.cpp:22-47 | every lane of the output is the hash of its input lane, whatever the output held |
| HashSimple.BurstLength | src/krnl_hash_simple.cpp:69-70 | a burst is 1..16 words, stays within the data, and is 16 unless it reaches the end |
| HashSimple.Reached | src/krnl_hash_simple.cpp:65 | the words done never exceed the data or the burst index, and are all of the data once the burst index reaches or passes its end |
| HashSimple.Burst | src/krnl_hash_simple.cpp:73-88 | a burst hashes its words in increasing address order and leaves every other word untouched |
| HashSimple.KrnlHashSimple | src/krnl_hash_simple.cpp:50-90 | every address below data_size_words is visited once, in order, and hashed; the rest of the output is untouched |
| Host.HostNuclEncode | src/host.cpp:14-22 | the host's code is below 4 |
| Host.HostEncodingAgrees | src/host.cpp:14-22 | the host's nucl_encode and the kernel's give the same code for every byte |
| Host.NSmers | src/host.cpp:29 | (definition) n - 27 s-mers when n >= 28, none otherwise; HostBufferFits proves it covers every minimizer the kernel stores |
| Host.OutputSizeBytes | src/host.cpp:30 | (definition) the bytes allocated for the output, 8 per s-mer; HostBufferFits proves the kernel's 8-byte writes fit in them |
| Host.HostBufferFits | src/host.cpp:29-30 | the buffer has an entry for every position beyond the first 27, and its bytes hold the 8-byte entry of every minimizer the kernel stores |
| Host.PackedSpec | src/host.cpp:94-95 | the packed vector has (n + 7) / 8 words |
| Host.Partial | src/host.cpp:97-101 | (definition) a word after the first m of its bytes were ORed in, from 0; WordBytes and PartialNext |
| Host.Lanes | src/host.cpp:89-101 | (definition) the eight bytes that belong in word w, zero past the sequence's end; PackedBytes |
| Host.Place | src/host.cpp:100 | (definition) a byte widened to 64 bits and shifted to lane j; WordBytes and PackedBytes state what the ORs produce |
| Host.WordBytes | src/host.cpp:97-101 | oring eight bytes in at shifts 0, 8, ..., 56 gives a word whose byte j is the j-th byte |
| Host.PadWord | src/host.cpp:95 | the zero-initialised bytes of a partial last word leave it unchanged |
| Host.PackedBytes | src/host.cpp:94-101 | byte p % 8 of word p / 8 is sequence byte p inside the sequence and 0 past it |
| Host.PartialNext | src/host.cpp:100 | one loop iteration ors the next byte into its lane |
| Host.FillWord | src/host.cpp:97-101 | one iteration keeps the packing invariant one byte further |
| Host.PackDone | src/host.cpp:97-101 | at the end of the loop the vector is the packed sequence |
| Host.PackByte | src/host.cpp:98-100 | one iteration of the packing loop keeps its invariant |
| Host.PackSequence | src/host.cpp:94-101 | the loop fills a fresh zeroed vector with exactly the packed sequence |
| Host.HostCodes | src/krnl_minimizer.cpp:103-109 | (definition) the kernel's code of every byte of the host's sequence, one per byte; HostReaderCodes and TestCodes prove the s-mer stage reads exactly these |
| Host.HostReaderRoundTrip | src/host.cpp:97-101 | the kernel's reader recovers, for every base, a valid triplet holding nucl_encode of the byte the host packed |
| Host.HostReaderCodes | src/host.cpp:89-101 | the codes the s-mer stage reads are exactly the host's codes of its sequence |
| Host.TestByte | src/host.cpp:83 | every byte of the test sequence is a base letter |
| Host.TestByteCode | src/host.cpp:90-91 | byte i of the test sequence encodes to i % 4 |
| Host.TestBytes | src/host.cpp:89 | the test sequence has n bytes |
| Host.TestSequence | src/host.cpp:89-91 | the loop fills the vector with bases[i % 4] |
| Host.TestCodes | src/host.cpp:89-101 | on the packed test sequence the kernel reads code p % 4 at every position p |
| Host.HostTestRun | src/host.cpp:86-104 | the n = 512 run finishes and stores at most 469 minimizers, fewer than the 485 slots of the output buffer |

## Left out

- HLS pragmas, pipelining, unrolling, FIFO depths and the concurrency of the `DATAFLOW` region are not modelled. The stages of `krnl_minimizer` run one after the other on whole streams. A stage that reads an empty FIFO forever is the `Stalled` outcome; the deadlock or hang it causes in hardware is not modelled further.
- The extra zero word that `thread_reader` writes when n % 8 == 0 is in the reader's output. Only `thread_smer`'s priming loop reads it, when n <= 24 (at n = 24 it is the fourth primed word, so the stage does not stall); for n > 24 it stays unread in the FIFO. The model reproduces both cases (Smer.ReaderLength counts it among the words priming can read).
- 512-bit words of `krnl_hash_simple` are sequences of eight 64-bit lanes; the bit-range extraction is not modelled.
- The values after `thread_smer` are modelled as numbers (`U56`, `U64`), not as `ap_uint` bit patterns. They are only compared and copied.
- Reader.ThreadReader, Smer.ThreadSmer, Kernel.KrnlMinimizer: require n < 2^31, because `(int)n` and the `int` loop counters of the source are only meaningful below that; the wrap-around of those casts is not modelled.
- Store.ThreadStore: the `int cnt` counter of the source is unbounded here.
- Kernel.KrnlMinimizer: requires tab_hash to have room for n - 27 values, as the host allocates; writes past the end of the buffer are not modelled.
- HashSimple.KrnlHashSimple: `burst_idx` is unbounded here; the wrap-around of `burst_idx += BURST_SIZE` when `data_size_words` is within 16 of 2^64 is not modelled. It requires the input and output buffers to be distinct, since aliasing buffers are not modelled.
- `host.cpp` outside the packing code: XRT device, kernel and buffer handles, `sync`, the clock, `argv`, console output and the copy of the packed vector into the device buffer are left out. The `memset` of the output buffer is not modelled; the stored prefix does not depend on it.
- The host reads `nMinizrs` through a 4-byte buffer while the kernel writes an `ap_uint<64>`; that mismatch is not modelled.
- `host_simple.cpp` is not part of this model.
- The unused constants `KMER` and `z` of `krnl_minimizer.cpp` play no part.
- The "inverse" register flips each code with XOR 2, which with the A=0, C=1, G=2, T=3 table pairs A with G and C with T instead of the Watson-Crick complements (Packing.FlipPairs). The model reproduces the code as written, and Smer.CanonRevX is stated for that flip.
- A genuine hash value of 0 is indistinguishable from the end-of-stream sentinel and ends the stream early; the model reproduces this, and the properties are stated for the values before the first 0.
