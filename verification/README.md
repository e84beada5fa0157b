# wikilator: the context helpers and the bit-coding drivers, in Dafny

This project models two parts of the wikilator compressor and proves properties of them.

**The stateful helpers of `wikilator.cpp`.** Each is a class whose methods update its fields and arrays in place:

- `XMLParser` is a four-state TEXT/TAG/ATTR/ENTITY machine. It keeps the current tag and attribute name, at most 63 bytes each, and a rolling hash `31 * h + byte` on uint32 for each.
- `ContextModel` is a hashed table of 24-bit keys and 12-bit states, indexed by the last eight bytes. It has a 64-byte circular history. A slot whose key differs is reset to 0x800 before it adapts.
- `MatchFinder` keeps a 128 MiB circular window, a hash-head table and a chain table. Its chain walk is bounded to 32 candidates.
- `MemoryManager` is a bump allocator with a RAM budget and cache-line alignment.

**The driver loops of `compress.cpp` and `decompress.cpp`.**

- The encoder calls `updateContext(c)` for every input byte. It then codes the byte's eight bits, most significant first, each as predict → encodeBit → adapt. After the input comes an end marker of eight zero bits, then a flush.
- The decoder rebuilds each byte with `c = (c << 1) | b`. It stops at the first byte that is 0. It buffers the other bytes in a 1 MiB buffer, which it writes out whenever it is full.

`RangeCoder` and `Model` have no bodies in the repository, so they are abstract here (module `Calls`):

- Every call is appended to a shared log of `Event`s.
- `predict` returns a function of the calls the model has received so far.
- `decodeBit` returns a function of the probabilities it was handed before and the one it is handed now.

The encoder is specified by the log it produces (`Encoding.CompressTrace`). The decoder is specified by a run over the log (`Decoding.DecodeRun`).

Modelling the two drivers side by side shows that they call `updateContext` at different points. The encoder calls it before coding the bits of a byte, and the decoder only after decoding them. `Symmetry` shows that as written the first bit is decoded with another probability than it was coded with. It then proves that an encoder calling `updateContext` after the bits round-trips (see Findings).

Module map:

| file | module | models |
|---|---|---|
| words.dfy | `Words` | uint widths, powers of two, `&` on naturals |
| memory.dfy | `Memory` | `MemoryManager` |
| context_model.dfy | `ContextModeling` | `ContextModel` |
| match_finder.dfy | `Matching` | `MatchFinder` |
| xml_parser.dfy | `Xml` | `XMLParser` |
| calls.dfy | `Calls` | the abstract `Model` and `RangeCoder` and their call log |
| bits.dfy | `Bits` | the bit split and the bit reassembly |
| encoder.dfy | `Encoding` | `compress.cpp` |
| decoder.dfy | `Decoding` | `decompress.cpp` |
| symmetry.dfy | `Symmetry` | the encoder/decoder call order, and the corrected encoder's round trip |

## Model

| member | source | states |
|---|---|---|
| Memory.AlignUpIsLeastMultiple | wikilator.cpp:53 | For a power-of-two alignment, the masked rounding gives a multiple of the alignment that is at least the offset and less than offset + alignment. It is therefore the least such multiple. |
| Memory.AlignUpNoWrap | wikilator.cpp:53 | When offset + alignment fits in size_t, the rounding is the unwrapped `(offset + alignment - 1) & ~(alignment - 1)`. |
| Memory.AllocateStep | wikilator.cpp:42-72 | On unbounded sums (the as-written wrap is `AllocateStepWrapping`, see Findings): the pool serves a request exactly when it is within budget, a pool exists and the aligned offset plus size fits in pool_size. The block it hands out starts at the aligned offset. Null exactly when a non-critical request exceeds the budget. Halted exactly when a critical request exceeds it or when posix_memalign fails off the pool. Both leave the state unchanged. A granted request adds exactly `size` to the allocated bytes, which stay ≤ MAX_RAM. A pool grant moves the bump offset to offset + size ≤ pool_size. Pool presence and size never change. The invariant is preserved. |
| Memory.PoolBlockAligned | wikilator.cpp:53-61 | A block handed out of the pool is aligned and lies in [pool_offset, pool_offset + alignment). |
| Memory.AllocateStepWrapping | wikilator.cpp:43-70 | The call with every size_t sum taken mod 2^64, as written. A granted request sets the allocated bytes to (allocated + size) mod 2^64. |
| Memory.WrappingAgreesWithoutOverflow | wikilator.cpp:42-72 | When no size_t sum overflows, the as-written and unbounded readings of allocate agree. |
| Memory.WrappedBudgetCheckGrantsHugeRequest | wikilator.cpp:43-61 | As written, start from a fresh manager, create a MAX_RAM/2 pool, then take 64 bytes from it. A critical request of 2^64 - 64 bytes, far over MAX_RAM, is then granted in the pool at offset 64. It leaves allocated at MAX_RAM/2 and moves pool_offset back to 0, so the next 64-byte request gets the first block again. The unbounded reading halts on the huge request. |
| Memory.MemoryManager.constructor | wikilator.cpp:36-39 | A fresh manager holds no pool and has allocated nothing. |
| Memory.MemoryManager.Allocate | wikilator.cpp:42-72 | On unbounded sums (the as-written wrap is `AllocateStepWrapping`, see Findings): the new fields and the outcome are exactly `AllocateStep` of the old fields. The budget and pool invariant is kept. |
| Memory.CreatePoolStep | wikilator.cpp:74-79 | A no-op once a pool exists. Otherwise it halts exactly when the critical allocation of `size` would. When it does not halt, it sets pool_size = size and pool_offset = 0 and counts size against the budget. The invariant is kept. |
| Memory.MemoryManager.CreatePool | wikilator.cpp:74-79 | The new fields and the halt flag are exactly `CreatePoolStep` of the old fields. A no-op once a pool exists. Otherwise it halts exactly when the critical allocation of `size` would. When it does not halt, it sets pool_size = size and pool_offset = 0 and counts size against the budget. |
| ContextModeling.Slot | wikilator.cpp:201 | `(context * 0x9E3779B1) & mask` is an index below table_size. |
| ContextModeling.SlotIsProductModTableSize | wikilator.cpp:201 | The mask (also used by predict, line 213) keeps the 64-bit product modulo the power-of-two table size. |
| ContextModeling.NextHistPos | wikilator.cpp:197 | `(hist_pos + 1) & 0x3F` is hist_pos + 1 mod 64. |
| ContextModeling.Key | wikilator.cpp:202-203 | `context & 0xFFFFFF` is the context mod 2^24. |
| ContextModeling.ShiftIn | wikilator.cpp:198 | `(context << 8)` OR byte on uint64 is (256·context + byte) mod 2^64. Its low byte is the new byte and the rest is the old context's low seven bytes. |
| ContextModeling.NextState | wikilator.cpp:208 | `(s * 15 + b * 16 + 8) >> 4` keeps a 12-bit state within 12 bits. It moves the state toward 16·b and never past it. |
| ContextModeling.ContextModel.constructor | wikilator.cpp:185-192 | Both tables and the history start zeroed, with context 0 and hist_pos 0. |
| ContextModeling.ContextModel.Predict | wikilator.cpp:212-215 | Reads only the slot the current context hashes to and returns its state, which is ≤ 4095. |
| ContextModeling.ContextModel.Update | wikilator.cpp:195-209 | Writes `history[hist_pos]` and advances hist_pos mod 64. The context becomes (256·context + byte) mod 2^64. Only the new context's slot changes in either table: its key is `context & 0xFFFFFF`. Its state is reset to 0x800 when the stored key differs from that key (lines 202-205) and kept when it matches, and then moves by `NextState`. |
| Matching.Load32 | wikilator.cpp:241 | The 32-bit load is below 2^32 and its low byte is `data[pos]`. |
| Matching.HeadSlot | wikilator.cpp:241 | The hash of the next four bytes indexes the head table. |
| Matching.MatchFrom | wikilator.cpp:254-256 | The extended agreement is at most max_len. It stops only at max_len or at the first differing byte. |
| Matching.MatchLength | wikilator.cpp:254-256 | The match length is at most max_len. Every byte below it agrees with the window. If it is below max_len, the next byte differs. |
| Matching.Chain | wikilator.cpp:249-265 | The candidates visited are at most 32 and all non-zero. The first one is the old head if that head is non-zero. |
| Matching.ZeroChainVisitsOnlyHead | wikilator.cpp:249-265 | With prev_table all zero (it is only zeroed, at line 234), the walk visits the old hash head alone, or nothing when that head is 0. |
| Matching.WrittenCells | wikilator.cpp:272-277 | Writing s at start puts s[k] in cell (start + k) mod WINDOW_SIZE and leaves every other cell as it was. |
| Matching.BestStep | wikilator.cpp:258-261 | Replacing the best only on a strictly longer match keeps it the earliest longest candidate. |
| Matching.MatchFinder.constructor | wikilator.cpp:228-235 | The head table and the chain table start zeroed, with window_pos 0. |
| Matching.MatchFinder.FindMatch | wikilator.cpp:238-269 | For pos < 4 it returns 0 and changes nothing. Otherwise it stores window_pos as the new head of the four-byte hash and changes no other head. The returned length is ≤ max_len. It is the longest among the chain candidates, with ties kept by the earliest candidate. The chain table stays all zero. |
| Matching.MatchFinder.WalkChain | wikilator.cpp:249-265 | The walk visits exactly `Chain` of the old head and returns the earliest longest match among those candidates. |
| Matching.MatchFinder.MatchLengthAt | wikilator.cpp:251-256 | The comparison loop computes `MatchLength`. |
| Matching.MatchFinder.Update | wikilator.cpp:272-277 | The window becomes the old window with data[pos..pos+len) written circularly from window_pos. window_pos advances by len mod WINDOW_SIZE. |
| Xml.Hash31 | wikilator.cpp:318 | The rolling hash of a name (tag here, attribute at line 327) is a uint32. |
| Xml.HashStep | wikilator.cpp:318 | `(hash << 5) - hash + byte` on uint32 is 31·hash + byte mod 2^32. |
| Xml.Initial | wikilator.cpp:283-289 | The initial parser is in TEXT and each hash is the hash of its empty buffer. |
| Xml.Step | wikilator.cpp:301-337 | Gives each state change in both directions. TEXT goes to TAG on '<'. TAG goes to ATTR on ' ' and to TEXT on '>'. ATTR goes to TEXT on '>'. ENTITY goes to TEXT on ';'. A '&' that leaves the state at TEXT moves it to ENTITY. Anything else stays. Entering TAG zeroes the tag name, and leaving TAG zeroes the attribute name. A name byte below 63 stored bytes is appended and folded into the hash, while the rest of the buffer is unchanged. Every other byte leaves names and hashes alone. Lengths stay ≤ 63. |
| Xml.StepKeepsInv | wikilator.cpp:301-337 | After any byte each hash is still the rolling hash of the bytes its buffer holds. |
| Xml.HashAppend | wikilator.cpp:317-318 | Storing a byte at the buffer's length extends the stored name by that byte, and the hash by one step. |
| Xml.TagNameHash | wikilator.cpp:311-320 | Reading a name from the start of a tag stays in TAG and keeps the name's first 63 bytes. The tag hash becomes their rolling hash. Bytes past the 63rd change neither buffer nor hash. |
| Xml.TagNameStep | wikilator.cpp:316-319 | One name byte extends a kept prefix of at most 63 bytes and its hash. |
| Xml.AttrSeparatorsChangeNothing | wikilator.cpp:323-324 | In ATTR, '=' and ' ' change nothing. |
| Xml.XMLParser.constructor | wikilator.cpp:283-289 | The fields start as `Initial`. |
| Xml.XMLParser.CurrentContext | wikilator.cpp:292-299 | Returns the tag hash in TAG, the attribute hash in ATTR, 0xFFFFFFFF in ENTITY and 0 in TEXT. Each hash is the rolling hash of its buffer. |
| Xml.XMLParser.Update | wikilator.cpp:301-337 | The fields change exactly as `Step` says. Each hash stays the rolling hash of its buffer. |
| Calls.FilterAppend | compress.cpp:31-36 | Every view of a log of calls (model calls, coded bits, contexts, flushes) distributes over concatenation. |
| Calls.EncodeStepViews | compress.cpp:33-36 | One coded bit is predict, then encodeBit with that p, then adapt with that bit. It adds one probability and one bit to the coded views and nothing to the contexts or flushes. |
| Calls.DecodeStepViews | decompress.cpp:30-38 | One decoded bit is predict, then decodeBit with that p, then adapt with the returned bit. It adds that p and that bit to the decoded views. |
| Calls.Model.Predict | common.hpp:19-22 | The prediction is a function of the calls the model has received. The call is logged. |
| Calls.RangeCoder.DecodeBit | common.hpp:19-22 | The decoded bit is a function of the probabilities handed to the decoder so far. The call is logged. |
| Encoding.CodeBits | compress.cpp:32-37 | Coding k bits appends exactly 3k calls and keeps the log before them. |
| Encoding.CodeBitsViews | compress.cpp:32-37 | The bits coded for c are its k low bits, most significant first, one probability each. The bits make no context or flush call. |
| Encoding.CodeBitsSteps | compress.cpp:32-37 | The j-th coded bit is bit k-1-j of c. Its calls are predict, encodeBit with that p and adapt with that bit, with p predicted from the calls before it. |
| Encoding.ByteCalls | compress.cpp:30-37 | A byte yields 25 calls: `updateContext(c)` first, then for bit = 7 down to 0 the predict/encodeBit/adapt triple with bit (c >> bit) & 1. |
| Encoding.EncodeBytesShape | compress.cpp:29-38 | n bytes yield exactly 25n calls after the log before them. |
| Encoding.EncodeBytesViews | compress.cpp:29-38 | The coded bits are every byte's eight bits in input order. There are 8n probabilities. The contexts are the bytes themselves, and no flush happens. |
| Encoding.EncodeBytesAppend | compress.cpp:26-39 | Coding a + b is coding a and then b. The calls do not depend on where fread splits the input. |
| Encoding.EofCalls | compress.cpp:42-49 | The end is `updateContext(-1)`, then eight predict/encodeBit(0, p)/adapt(0) triples, then one flush. |
| Encoding.EofViews | compress.cpp:42-49 | The end adds eight zero bits, the context -1 and one flush. |
| Encoding.CompressCalls | compress.cpp:24-49 | n input bytes give 25n + 26 calls. There are 8n + 8 encodeBit calls whose bits are the input's bits followed by eight zeros. There are n + 1 updateContext calls, with the bytes and then -1. One flush comes last. |
| Encoding.CodeBit | compress.cpp:33-36 | One bit's calls are appended to the log in the source's order. |
| Encoding.CodeByte | compress.cpp:30-37 | The calls for one byte are appended: `updateContext(c)` before its bits. |
| Encoding.CodeEndMarker | compress.cpp:42-47 | The end marker's calls are appended. |
| Encoding.CodeChunk | compress.cpp:29-38 | One fread chunk's calls are appended. |
| Encoding.Compress | compress.cpp:24-49 | The log grows by exactly `CompressTrace` of the concatenated chunks (up to the first empty chunk). |
| Bits.BitOf | compress.cpp:34 | `(c >> bit) & 1` is a bit. |
| Bits.MsbBitsHead | compress.cpp:32-34 | The split starts with bit k-1, most significant first. |
| Bits.AssembleMsbBits | decompress.cpp:37 | Folding `c = 2c + b` over the k low bits of x gives x mod 2^k. |
| Bits.ReassembleInvertsSplit | decompress.cpp:37 | Reassembling the bits split off at compress.cpp:34 of any value below 2^k (for a byte, k = 8) gives the value back. |
| Bits.SplitInvertsReassemble | decompress.cpp:30-39 | Any k decoded bits fold to a value below 2^k whose split is those bits. |
| Bits.EightBitsMakeAByte | decompress.cpp:30-39 | Eight decoded bits make a value in [0, 255]. Its most significant bit is the first decoded bit. |
| Bits.SymbolsBitsLength | compress.cpp:29-37 | n symbols of w bits give w·n bits. |
| Decoding.DecodeBitsExtends | decompress.cpp:30-39 | Decoding a byte only appends to the log. A -1 ends it with the log's last call being that decodeBit. |
| Decoding.DecodeBitsStep | decompress.cpp:31-38 | A -1 stops before adapt. Any other bit is folded into c, and adapt is called with it. |
| Decoding.DecodeBitsContexts | decompress.cpp:30-39 | Decoding a byte makes no updateContext call and no flush. |
| Decoding.DecodeBitsCount | decompress.cpp:30-39 | A byte decodes exactly k bits. |
| Decoding.DecodeBitsValue | decompress.cpp:37 | The byte is the fold of the bits decodeBit returned. |
| Decoding.DecodedSymbol | decompress.cpp:30-39 | A decoded byte is below 2^8. The bits decoded for it are its own split. |
| Decoding.DecodeRunStep | decompress.cpp:28-54 | Each pass decodes a byte. A -1 ends with status 1. A 0 byte ends with status 0 and is neither kept nor passed to updateContext. Any other byte is kept, then `updateContext(c)` is called, then the loop goes on. |
| Decoding.DecodeRunOutput | decompress.cpp:28-54 | The bytes kept extend the output. Each is in [1, 255]. The status is 0 or 1. |
| Decoding.DecodeRunEof | decompress.cpp:33-36 | Status 1 means the last call was a decodeBit that returned -1. |
| Decoding.DecodeRunContexts | decompress.cpp:53 | updateContext is called once per kept byte, with that byte, in order. |
| Decoding.DecodeRunBits | decompress.cpp:30-45 | A run that ends with status 0 decoded the kept bytes' bits followed by eight zero bits. |
| Decoding.ReadByte | decompress.cpp:30-39 | The bit loop's calls and result are those of `DecodeBits`. |
| Decoding.Write | decompress.cpp:56 | An fwrite adds the buffer's first n bytes to the written output. |
| Decoding.Emit | decompress.cpp:47-51 | Storing a byte keeps outPos < 1 << 20. A full buffer is written out and emptied. Nothing is lost: written output plus the buffer grows by the byte. |
| Decoding.Decompress | decompress.cpp:24-56 | The log and the status are those of `DecodeRun`. On status 0 the concatenated writes equal the kept bytes. On status 1 they are a prefix of them that is short of them by less than one buffer. Every write is non-empty and at most 1 MiB. Every write but the last is exactly 1 MiB. |
| Symmetry.CoderAnswers | common.hpp:21-22 | A coder that decodes what was coded returns, for the same probability and position, the bit the encoder coded. |
| Symmetry.DecodesCodedBits | decompress.cpp:30-39 | With the decoder's log in step with the encoder's, every bit decodes. The two logs stay in step. |
| Symmetry.DecodesSymbol | decompress.cpp:30-39 | In step, the decoder rebuilds exactly the symbol the encoder split. |
| Symmetry.DecodesFixed | decompress.cpp:28-54 | In step with the corrected encoder, the decoder keeps exactly the remaining input and ends with status 0 at the end marker. |
| Symmetry.FixedRoundTrip | decompress.cpp:24-56 | For any coder faithful to the corrected encoder's calls and any input without a 0 byte, the decoder returns the input with status 0. |
| Symmetry.FixedTraceViews | compress.cpp:29-47 | The corrected encoder codes the same bits, contexts and flush as compress.cpp. Only the position of each updateContext differs. |
| Symmetry.FixedRoundTripOracle | decompress.cpp:24-56 | A coder that answers every decodeBit with the bit coded at that position is faithful, and the round trip holds for it. |
| Symmetry.FixedRoundTripBytes | decompress.cpp:24-56 | For bytes, the corrected encoder codes the input's bits and eight zeros, and calls updateContext with the bytes and then -1. Decoding gives the input back with status 0. |
| Symmetry.AsWrittenFirstBit | compress.cpp:31-35 | compress.cpp's first encodeBit is made after `updateContext(d[0])`. For the probe model its probability is 1 and its bit is the top bit of d[0]. |
| Symmetry.FirstSymbolBit | decompress.cpp:30-39 | The first decodeBit's answer is the top bit of the first kept byte. |
| Symmetry.SymbolTopBit | decompress.cpp:30-39 | The first decodeBit's answer is the top bit of the symbol decoded. |
| Symmetry.TopBitOneKeepsASymbol | decompress.cpp:28-54 | A run whose first decodeBit answers 1 does not stop at once: if it ends with status 0, it has kept a symbol. |
| Symmetry.AsWrittenDecodesAnotherByte | compress.cpp:31 | As written, the context is updated here but only at decompress.cpp:53 on the decoder side. Take the probe model and the coder `Oracle` of compress.cpp's own calls. `Oracle` is faithful to those calls, but it answers the other bit when handed another probability than the one coded. For every non-empty input, the decoder then keeps no byte, or a first byte that is not the input's first byte. |
| Symmetry.AsWrittenEmptyInput | compress.cpp:42 | On the empty input compress.cpp calls updateContext(-1) before its first encodeBit. With the probe model and `Oracle`, the decoder does not end with status 0 and no output. |
| Symmetry.AsWrittenNeverRoundTrips | compress.cpp:31 | For every input, the probe model and `Oracle` of compress.cpp's calls make the decoder return something other than the input with status 0. So there is a model and a coder faithful to compress.cpp's calls for which no input round-trips. |

## Left out

- File I/O (`fopen`, `fread`, `fwrite`, `fclose`) and the argument checks at compress.cpp:6-19 and decompress.cpp:6-19 are not modelled. The fread chunks are a parameter of `Encoding.Compress`, and the fwrite calls are the sequence `Decoding.Decompress` returns.
- The bodies of `RangeCoder`, `Model` and `Mixer` are not in the repository. Model and coder are abstract functions of the calls they receive, and the float-based Mixer is not modelled. The bytes the coder would write are not modelled, only the calls it receives.
- The `ANS` class and the `Wikilator` class with its `main` (wikilator.cpp:89-171, 341-477) are not modelled. They are mmap and file glue, and nothing in them promises a round trip. wikilator-paq8x-test.cpp only prints strings.
- posix_memalign, perror, exit and free (wikilator.cpp:65-68, 81-83) are not calls here. Success of posix_memalign is the parameter `memalignOk`, and exit(1) is the outcome `Halted`. The destructor is not modelled.
- The `ContextModel` constructor's `1 << (int)log2(size)` sizing and its allocation through the memory manager (wikilator.cpp:186-189) are not modelled. The table size is given as a power of two.
- The `MatchFinder` constructor's allocations are not modelled. The window's initial bytes are left arbitrary, as the source does not clear them.
- Matching.FindMatch: the unaligned 32-bit load (wikilator.cpp:241) is read little-endian. For pos ≥ 4 the method requires the four loaded bytes and max_len bytes after pos to lie inside `data`. The source reads past the buffer otherwise.
- Matching.FindMatch: the uint32_t window positions and chain links are unbounded here. They are used only modulo WINDOW_SIZE, which divides 2^32.
- Decoding.Decompress: the `while (true)` loop is bounded by a ghost `fuel`, the number of bytes within which the run ends. A coder that never returns -1 and never yields a 0 byte (an endless run) is not modelled.
- Decoding.DecodeBits: decodeBit's result is taken to be 0, 1 or -1. common.hpp:19-22 declares it returns a bit, and decompress.cpp also checks for -1. Other values, for which `(c << 1) | b` differs from 2c + b, are not modelled.
- Symmetry.FixedRoundTrip: requires an input with no 0 byte. The decoder reads the first 0 byte as the end marker (decompress.cpp:45), so such an input is cut short there.
- Symmetry.FixedRoundTrip: the round trip is proved for a coder that returns, for the same probability and position, the bit that was coded. The real range coder is not available.
- Symmetry.FixedTrace: the corrected encoder is a function of the log only. There is no method form of it, and `Encoding.Compress` keeps the as-written order.
- Symmetry.FixedRoundTrip: the corrected encoder is proved for every symbol width w with 2^w ≥ 256 and used at w = 8.

## Findings

| source | as written | input that shows it | evidently intended | confidence | as-written member | corrected member |
|---|---|---|---|---|---|---|
| compress.cpp:31 | `model.updateContext(c)` runs before the eight bits of c are coded, but decompress.cpp:53 can only run it after decoding them. The two sides ask the model for the first bit with different histories. | any input, e.g. the byte 65 ('A') or the empty input. Use a model predicting 2048 before any call and 1 after (`Symmetry.ProbeModel`). Use a coder (`Symmetry.Oracle`) that returns every coded bit when handed the probability it was coded with, the other bit when handed another probability, and -1 past the last coded bit | decompress returns the input that compress was given (for inputs without a 0 byte) | not executed; the real model's and coder's bodies are not in the repository, so this is shown for one model whose prediction depends on its calls and one coder faithful to the calls coded | Symmetry.AsWrittenNeverRoundTrips | Symmetry.FixedRoundTripBytes |
| wikilator.cpp:43 | `allocated + size > MAX_RAM` is computed in size_t and wraps | on a fresh manager, create_pool(MAX_RAM/2), then allocate(64), which leaves allocated at MAX_RAM/2 + 64 and pool_offset at 64. A critical request of 2^64 - 64 bytes then passes the check and is granted at pool offset 64. It leaves allocated at MAX_RAM/2 and pool_offset at 0, so the next allocate(64) returns the first block again | a request larger than the remaining budget is refused (exit(1) when critical, nullptr otherwise) | not executed | Memory.WrappedBudgetCheckGrantsHugeRequest | Memory.AllocateStep |
