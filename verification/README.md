# fast-code-embed: a verified model of its core data structures and kernels

This Dafny project models six parts of fast-code-embed and proves them correct for all inputs,
all runs and all thread schedules:

* **Robin Hood hash table** (`Ring`, `Bits`, `RobinHood`, `Contents`, `Probing`, `TableSpec`,
  `HashTables`, `TableRuns`). The table is a class over an array updated in place. Its probe loops
  are proved to compute recursive walks over slot sequences, the walks are proved to preserve the
  Robin Hood invariant and the stored bindings, and the operations are proved to refine a finite
  map (`TableSpec`). The main structural result is canonical layout: the probe length array is a
  function of the capacity and the set of keys.
* **Parallel loop over an atomic counter** (`ParallelFor`, `Effects`). A transition system with one
  program counter per participant. Exactly-once execution, termination and freedom from deadlock
  hold under every interleaving, and safety holds exactly when `count` plus the number of threads to
  create is an `int`.
* **Parallel loop over static chunks** (`StaticChunks`), with thread creation failing anywhere.
* **Vector kernels** (`Lanes`, `DotI8`, `DotF32`, `Quantize`, `QuantError`). Registers are
  sequences of lanes and each instruction is a small function with its wrapping or saturation; the
  AVX2 and NEON kernels are proved equal to the scalar loops.
* **Directory indexer** (`ChunkBatch`, `Batching`, `DirWalk`): chunking, batching and the
  explicit-stack walk, with the exact conditions under which its `int` indices and capacities fit.
* **Flat corpus packing** (`FlatCorpus`).

`Options` and `Ints` are shared helpers.

How the model reads the source:

* The seeded string hash is an arbitrary function from strings to 32-bit words; `KeyRef` pairs a
  key pointer with the string it points to, which callers keep unchanged. Null pointers are `None`.
* Allocation and thread creation succeed or fail as boolean inputs or steps choose; in the walk a
  `Heap` object grants or refuses every request in turn.
* `hash_table.h:50` says `inserted` is left unchanged when growth runs out of memory; the code
  (`hash_table.c:218`) clears it first, and the model follows the code.
* `worker_pool.h:20` promises each index exactly once without a condition. The code keeps that
  promise for the static loop, and for the atomic loop exactly when `count` plus the number of workers
  less one is an `int` (`ParallelFor.CallSafeExactly`); beyond that the counter can wrap before the
  last participant reads it.
* The lookup loop that `get`, `get_key` and `delete` repeat is one method, `HashTable.Find`. The
  loops of insertion, rehash and deletion are methods of their own on the array.
* A callback of a parallel loop is one step: its effect on the context is atomic.
* `tools/index_dir.c:194` accepts any batch size up to the `int` maximum; the index of line 295 fits
  exactly up to 2^23 (`Batching.IndicesFitExactly`).
* `TableRuns.Run`, `TableRuns.LookupAfterRun` and `HashTables.SetThenDelete` are clients of the table,
  not functions of the source; they state properties that span operations.
* In `DotF32` sums are exact reals, and one method covers both vector widths (8 for AVX2, 4 for
  NEON, `simd_dot768.h:271-344`). In `Quantize` the rounded product by 127 is an arbitrary function
  shared by the three quantizers, and the rounding mode is the pinned one, round to nearest with
  ties to even (section 4.3.1 of IEEE 754-2019).
* The walk's tree is immutable and finite, without links to follow; `DirWalk.WalkDir` takes the
  extensions as an argument, and `DirWalk.ListSources` passes `INCLUDE_EXTS`.

`dafny verify dfyconfig.toml` checks the whole project.

## Model

| member | source | states |
|---|---|---|
| `Bits.NextPow2` | src/foundation/hash_table.c:135-149 | the bit-smearing round-up returns a power of two in [8, 2^31], at least the request when the request is at most 2^31, and the least such power; larger requests give 2^31 |
| `Bits.MaskIsMod` | src/foundation/hash_table.c:244-244 | masking a hash with a power of two minus one is the remainder modulo that power |
| `RobinHood.HomeIsMod` | src/foundation/hash_table.c:244-244 | the home slot is the hash modulo the capacity, for every power-of-two capacity |
| `RobinHood.MaskStep` | src/foundation/hash_table.c:276-276 | `(idx + 1) & mask` is the cyclic successor of the slot |
| `RobinHood.PathBack` | src/foundation/hash_table.c:268-276 | under the Robin Hood invariant probe lengths fall by at most one per slot walking back, so the whole path of a live entry is occupied |
| `RobinHood.PslAtMostLive` | src/foundation/hash_table.c:248-277 | every probe length is at most the number of live entries |
| `RobinHood.LongPslOverfull` | src/foundation/hash_table.c:268-276 | a probe length above m comes from a window of home slots overfull by m, the one starting at the cluster |
| `RobinHood.OverfullLongPsl` | src/foundation/hash_table.c:268-276 | conversely an overfull window forces a probe length above m |
| `RobinHood.CanonicalLayout` | src/foundation/hash_table.c:243-277 | two arrays satisfying the invariant, of one size, not full, with the same number of entries homed at each slot have equal probe lengths in every slot, whatever the order of sets and deletes that produced them |
| `Contents.NoEarlyExit` | src/foundation/hash_table.c:290-295 | no slot on the way to a stored key has a smaller probe length than the search, so the early exit never misses a key |
| `Contents.SearchStep` | src/foundation/hash_table.c:288-301 | each test of the lookup loop is right about the stored bindings, and stepping on keeps the search in front of the key |
| `Contents.SameKeysSameHomes` | src/foundation/hash_table.c:243-277 | two arrays storing the same strings have the same home counts |
| `Contents.StoresSize` | src/foundation/hash_table.c:254-254 | there are exactly as many live slots as bindings, so `count` is the size of the map |
| `Probing.WalkStep` | src/foundation/hash_table.c:268-276 | one probe step, with or without a swap, keeps the invariant and leaves an entry in hand that fits the next slot |
| `Probing.CarryStep` | src/foundation/hash_table.c:259-273 | the entry in hand, displaced or original, never equals the key of the slot it meets, and a swap keeps the bindings carried |
| `Probing.WalkPlaces` | src/foundation/hash_table.c:248-277 | insertion of an absent key ends in the first empty slot from home, keeps the invariant, and raises the total probe length by exactly the distance plus one |
| `Probing.WalkFinds` | src/foundation/hash_table.c:259-266 | insertion of a present key displaces nothing: it overwrites the value at the key's slot and returns the old one |
| `Probing.InsertCorrect` | src/foundation/hash_table.c:239-279 | for every table, key and value the loop stores the new binding, keeps an existing key pointer, fills the slot linear probing would, and needs at most one probe more than there are live entries, so the trailing return is unreachable |
| `Probing.RehashCorrect` | src/foundation/hash_table.c:190-207 | re-inserting an entry into the larger array keeps the invariant there and adds exactly its binding |
| `Probing.ShiftCorrect` | src/foundation/hash_table.c:351-364 | the backward shift terminates, restores the invariant and removes exactly the deleted entry |
| `Probing.DeleteCorrect` | src/foundation/hash_table.c:347-366 | deletion removes one binding and needs no more shifts than there are entries |
| `Probing.KeysLayout` | src/foundation/hash_table.c:243-277 | the probe lengths of a table depend on its capacity and its set of keys alone |
| `Probing.EntriesNotCanonical` | src/foundation/hash_table.c:239-279 | the layout theorem cannot be sharpened to entries: any two keys with one home slot, inserted into an empty array of any capacity in the two orders, give valid arrays with the same bindings and different entries |
| `HashTables.InsertLoop` | src/foundation/hash_table.c:243-277 | the in-place probe loop computes the insertion walk |
| `HashTables.RehashLoop` | src/foundation/hash_table.c:190-207 | the in-place rehash loop computes the rehash walk |
| `HashTables.ShiftLoop` | src/foundation/hash_table.c:351-364 | the in-place backward shift computes the shift walk |
| `HashTables.CopyAll` | src/foundation/hash_table.c:184-208 | rehashing every live slot into an empty larger array keeps all bindings and the invariant |
| `HashTables.HashTable.Create` | src/foundation/hash_table.c:151-165 | an empty valid table of the least sufficient power-of-two capacity, or null exactly when an allocation fails |
| `HashTables.HashTable.Find` | src/foundation/hash_table.c:282-302 | the lookup loop finds a key if and only if it is stored, within count + 1 probes |
| `HashTables.HashTable.Get` | src/foundation/hash_table.c:282-302 | returns the value the map holds, or null |
| `HashTables.HashTable.Has` | src/foundation/hash_table.c:304-307 | true if and only if the key is stored |
| `HashTables.HashTable.GetKey` | src/foundation/hash_table.c:309-330 | returns the stored key pointer, or null |
| `HashTables.HashTable.Insert` | src/foundation/hash_table.c:243-277 | below the load limit the key gets its value and the table stays valid: inserted exactly when the key is new, and otherwise the replaced value is returned and the stored key pointer kept; a new key fills the slot plain linear probing would |
| `HashTables.HashTable.Resize` | src/foundation/hash_table.c:175-215 | succeeds exactly below the maximum capacity with memory available, doubling the capacity and keeping every binding; otherwise changes nothing |
| `HashTables.HashTable.Set` | src/foundation/hash_table.c:217-280 | behaves as insert-or-update on the map: on an update the replaced value, keeping the stored key pointer; null with inserted on a new key; no change and not inserted on null arguments or when growth fails |
| `HashTables.HashTable.Delete` | src/foundation/hash_table.c:332-370 | removes the key from the map and returns its value, or null |
| `HashTables.HashTable.Count` | src/foundation/hash_table.c:372-374 | the number of bindings |
| `HashTables.HashTable.Foreach` | src/foundation/hash_table.c:376-385 | visits every binding exactly once |
| `HashTables.HashTable.Clear` | src/foundation/hash_table.c:387-393 | empties the map and keeps the capacity |
| `HashTables.Occupancy` | src/foundation/hash_table.c:239-279 | every reachable table has a power-of-two capacity of at most 2^31 with mask capacity - 1, at most 75% load, an empty slot, and probe lengths of at most its count |
| `HashTables.LayoutFromKeys` | src/foundation/hash_table.c:243-277 | two valid tables of one capacity holding the same keys have the same probe length in every slot |
| `HashTables.SetThenDelete` | src/foundation/hash_table.c:217-370 | setting a fresh key below the load limit and deleting it restores the map and every probe length |
| `TableRuns.Run` | src/foundation/hash_table.c:217-393 | any sequence of set, get, has, get_key, delete, count, foreach and clear, with growth failing anywhere, answers as the map does and leaves a valid table |
| `TableRuns.AllAnswered` | src/foundation/hash_table.c:217-393 | in any run every answer follows from the operations and answers before it alone: a set returns the value last stored and is an insertion exactly when there is none, unless an argument is null or growth fails, which takes six stored keys and a failed allocation or the maximum capacity; lookups, deletions, counts and traversals report what was last stored |
| `TableRuns.FreshRun` | src/foundation/hash_table.c:151-393 | the same of the slot array, for a client that creates a table and runs any operations |
| `TableRuns.LookupIsLatest` | src/foundation/hash_table.c:217-280 | on the map, after any run a lookup returns what the answers reported as stored last: sets take effect exactly when they report an insertion or a previous value |
| `TableRuns.LookupAfterRun` | src/foundation/hash_table.c:151-330 | on the slot array: a client that creates a table, runs any operations and then looks a key up gets the value and the key pointer that the answers of the run reported as stored last |
| `Effects.FoldFirst` | src/pipeline/worker_pool.c:46-50 | the effect of a log is that of its first index and then of the rest, so callbacks get the logged indices in log order |
| `Effects.RunSerial` | src/pipeline/worker_pool.c:46-50 | the serial loop applies the callback to 0, 1, ..., count - 1 in order |
| `Effects.SerialTrace` | src/pipeline/worker_pool.c:46-50 | a callback that writes its index down is given 0, 1, ..., count - 1, each once, in this order |
| `Effects.OrderIrrelevant` | src/pipeline/worker_pool.c:46-50 | two orders of the same distinct indices have the same effect when callbacks on different indices commute |
| `Effects.ExactlyOnceIsSerial` | src/pipeline/worker_pool.c:46-50 | running every index exactly once in any order has the effect of the serial loop |
| `ParallelFor.StepInv` | src/pipeline/worker_pool.c:136-146 | every spawn, fetch-add, callback and join keeps the accounting of handed-out indices |
| `ParallelFor.NeverTwice` | src/pipeline/worker_pool.c:136-190 | at every moment of every schedule no index outside [0, count) has run and none has run twice |
| `ParallelFor.ReturnedExactlyOnce` | src/pipeline/worker_pool.c:148-190 | when the call returns, for every schedule and every thread-creation failure, each index has run exactly once and no participant is running |
| `ParallelFor.ParallelIsSerial` | src/pipeline/worker_pool.c:148-190 | the final context equals the serial loop's when callbacks on different indices commute |
| `ParallelFor.ScheduleLength` | src/pipeline/worker_pool.c:136-190 | every schedule is finite, with at most 2*count + 4*n + 5 steps for n requested threads |
| `ParallelFor.NeverStuck` | src/pipeline/worker_pool.c:176-187 | until the call returns some step is enabled |
| `ParallelFor.CanReturn` | src/pipeline/worker_pool.c:136-190 | every schedule can be continued until the call returns |
| `ParallelFor.OutcomeExists` | src/pipeline/worker_pool.c:194-216 | every call comes to an outcome, so the exactly-once statement is about something |
| `ParallelFor.Overrun` | src/pipeline/worker_pool.c:139-142 | when count plus n exceeds the int maximum there is a schedule in which the counter wraps and the callback runs on the most negative int |
| `ParallelFor.SafeExactly` | src/pipeline/worker_pool.c:136-190 | all schedules keep to [0, count) if and only if count plus n is an int |
| `ParallelFor.CallSafeExactly` | src/pipeline/worker_pool.c:194-216 | for any requested or detected number of workers: a call that starts threads keeps to [0, count) under all schedules if and only if count + workers - 1 is an int, and any other call, without a callback too, starts none |
| `ParallelFor.EachIndexOnce` | src/pipeline/worker_pool.c:194-216 | the public call visits each index exactly once in the serial, out-of-memory and threaded cases, and none without a callback |
| `StaticChunks.AssignChunks` | src/pipeline/worker_pool.c:70-94 | the argument array splits [0, count) into contiguous chunks whose sizes differ by at most one, the larger ones first |
| `StaticChunks.StepInv` | src/pipeline/worker_pool.c:61-124 | every step of a worker or of the calling thread logs exactly the next index of one chunk or none |
| `StaticChunks.ReturnedExactlyOnce` | src/pipeline/worker_pool.c:96-124 | for every interleaving and every thread-creation failure index, spawned chunks and serially run chunks together run each index exactly once |
| `StaticChunks.StaticIsSerial` | src/pipeline/worker_pool.c:69-125 | the final context equals the serial loop's when callbacks on different indices commute |
| `StaticChunks.ScheduleLength` | src/pipeline/worker_pool.c:61-124 | every schedule is finite, with at most count + 4*(n + 1) steps for n requested threads |
| `StaticChunks.EachIndexOnce` | src/pipeline/worker_pool.c:218-237 | the public static call visits each index exactly once in the serial, out-of-memory and threaded cases, and none without a callback, with no bound on count plus workers |
| `StaticChunks.NeverStuck` | src/pipeline/worker_pool.c:111-121 | until the call returns some step is enabled |
| `StaticChunks.CanReturn` | src/pipeline/worker_pool.c:61-124 | every schedule can be continued until the call returns |
| `StaticChunks.OutcomeExists` | src/pipeline/worker_pool.c:218-237 | every call comes to an outcome, so the exactly-once statement is about something |
| `DotI8.DotScalar` | src/foundation/simd_dot768.h:481-487 | the scalar loop returns the dot product without overflowing |
| `DotI8.DotAvx2` | src/foundation/simd_dot768.h:157-183 | sign extension, pairwise multiply-add, 32-bit adds and horizontal adds return the same integer, no lane wrapping |
| `DotI8.DotNeon` | src/foundation/simd_dot768.h:348-368 | both NEON forms return the same integer, no 16- or 32-bit lane and no partial sum of the final lanes wrapping |
| `DotI8.DotDispatch` | src/foundation/simd_dot768.h:558-567 | the dispatcher's result does not depend on the target |
| `DotI8.FitsExactly` | src/foundation/simd_dot768.h:481-487 | the 32-bit result can hold every int8 dot product of a dimension if and only if dimension * 16384 is an int32 |
| `DotF32.Mags3Scalar` | src/foundation/simd_dot768.h:452-466 | the scalar loop computes the dot product and both squared magnitudes |
| `DotF32.Mags3Vector` | src/foundation/simd_dot768.h:73-118 | the four-accumulator AVX2 and NEON kernels with their horizontal reductions compute the same three sums over the reals |
| `DotF32.AddMagBScalar` | src/foundation/simd_dot768.h:468-479 | the scalar loop computes the dot product and the second squared magnitude |
| `DotF32.AddMagBVector` | src/foundation/simd_dot768.h:120-153 | the vector kernels compute the same two sums over the reals |
| `Quantize.QuantizeOneIsClosest` | src/foundation/simd_dot768.h:502-515 | a stored byte is 0 for NaN and infinities and otherwise the closest integer in [-127, 127], ties to even |
| `Quantize.QuantizeScalar` | src/foundation/simd_dot768.h:489-518 | writes the quantized elements in order and leaves the rest of the buffer alone |
| `Quantize.LanesAgree` | src/foundation/simd_dot768.h:207-246 | mask-and-blend, clamp and convert give the scalar result in every AVX2 and NEON lane, for NaN and infinities too |
| `Quantize.PackOrder` | src/foundation/simd_dot768.h:247-252 | two saturating in-lane packs followed by the permutation 0,4,1,5,2,6,3,7 put 32 small values in order |
| `Quantize.NarrowOrder` | src/foundation/simd_dot768.h:434-443 | the truncating narrows keep small values and their order |
| `Quantize.QuantizeAvx2` | src/foundation/simd_dot768.h:185-256 | writes exactly the scalar loop's bytes for every multiple of 32 |
| `Quantize.QuantizeNeon` | src/foundation/simd_dot768.h:370-445 | writes exactly the scalar loop's bytes for every multiple of 16 |
| `Quantize.QuantizeDispatch` | src/foundation/simd_dot768.h:569-582 | the bytes written do not depend on the target |
| `QuantError.DotErrorBound` | src/foundation/simd_dot768.h:481-518 | for inputs in [-1, 1] the int8 dot product over 127*127 is within dim/127 of the real dot product |
| `ChunkBatch.FindEnd` | tools/index_dir.c:255-268 | a chunk ends past the first closing brace `}` at or after offset + chunk size, or at the end of the file |
| `ChunkBatch.ChunksConcatenate` | tools/index_dir.c:253-269 | the chunks of a file are non-empty and concatenate back to it |
| `ChunkBatch.Tokenize` | tools/index_dir.c:280-299 | a document is the tokenizer's whole output for the chunk, or its first 256 tokens when there are more |
| `ChunkBatch.DocsOfChunks` | tools/index_dir.c:253-303 | a file's documents are, in order, the tokens of the chunks whose copy could be allocated, all of them up to 256, without the chunks that have none; with memory available these are all chunks |
| `Batching.WriteRow` | tools/index_dir.c:294-299 | a chunk's tokens fill the next row of the flat buffer and leave the others; the largest index computed is stated, and is an int for every buffer of at most 2^23 rows |
| `Batching.Batcher.Add` | tools/index_dir.c:294-315 | the flat buffer and the batches already handed over hold exactly the documents so far plus the new one, across flushes, and the next row and the largest index computed are those of the documents taken |
| `Batching.Batcher.Finish` | tools/index_dir.c:320-330 | the remaining documents go out in one last, shorter batch |
| `Batching.IndexFile` | tools/index_dir.c:253-317 | the chunk loop terminates and delivers the file's documents in order, every index an int for batch sizes up to 2^23 |
| `Batching.IndexFiles` | tools/index_dir.c:247-330 | all documents of all readable files are handed over once, in order, in full batches except the last, the chunk count is their number, and the largest buffer index is a function of the documents and the batch size |
| `Batching.OverflowingRun` | tools/index_dir.c:295-298 | for every batch size above 2^23 a run on one 24 MB file computes a buffer index above the int maximum |
| `Batching.IndicesFitExactly` | tools/index_dir.c:295-298 | all runs keep every buffer index in int if and only if the batch size is at most 2^23 |
| `Batching.CountFitsExactly` | tools/index_dir.c:301-301 | the chunk counter stays in int for every tokenizer and allocation outcome if and only if the files have at most 2^31 - 1 chunks |
| `DirWalk.ShouldInclude` | tools/index_dir.c:28-35 | true if and only if the path is something followed by a listed extension |
| `DirWalk.FoundExactly` | tools/index_dir.c:127-159 | the recursive walk finds a path if and only if it is the root joined by slashes to names, none starting with a dot, that lead through readable directories to a regular file, is shorter than 1024 characters and ends in a listed extension |
| `DirWalk.FileList.Add` | tools/index_dir.c:94-105 | appends a path exactly when every allocation is granted and otherwise drops it; the capacity is the least doubling of 10000 with room, and an int as long as fewer than 1,310,720,000 paths are listed |
| `DirWalk.DirStack.Push` | tools/index_dir.c:143-155 | pushes a directory exactly when every allocation is granted and otherwise skips it; the capacity is the least doubling of 256 with room for the longest the stack has been, and an int up to 2^30 |
| `DirWalk.ListCapFits` | tools/index_dir.c:96-96 | the doubled list capacity is an int if and only if at most 1,310,720,000 paths are listed |
| `DirWalk.ReadDir` | tools/index_dir.c:128-159 | reading one directory moves exactly its recursive finds to the list and the stack, except what failed allocations lose |
| `DirWalk.WalkDir` | tools/index_dir.c:109-164 | the explicit-stack walk terminates; with any allocations failing, what it lists and what it loses are together, as a multiset, exactly what the recursive walk finds, and nothing is lost when none fails |
| `DirWalk.ListSources` | tools/index_dir.c:209-210 | every path the program's walk lists is a source file: below the root, no hidden name, shorter than 1024 characters, ending in one of the ten extensions; without a failed allocation every source file is listed, and then the list's capacity is an int if and only if at most 1,310,720,000 paths are found |
| `FlatCorpus.MaxTokens` | java/src/main/java/io/github/nilsonsfj/fastcodeembed/Corpus.java:572-575 | the longest index array determines the stride |
| `FlatCorpus.PackedRow` | java/src/main/java/io/github/nilsonsfj/fastcodeembed/Corpus.java:599-614 | reading a row of a packed buffer gives the row and then zeros: rows do not overlap |
| `FlatCorpus.PutRow` | java/src/main/java/io/github/nilsonsfj/fastcodeembed/Corpus.java:604-609 | one row copy lands at row * stride, inside the buffer and inside int |
| `FlatCorpus.ExtractFlat` | java/src/main/java/io/github/nilsonsfj/fastcodeembed/Corpus.java:571-618 | the buffers hold the packed rows, or the call is refused exactly when a buffer would exceed the int range |
| `FlatCorpus.Lossless` | java/src/main/java/io/github/nilsonsfj/fastcodeembed/Corpus.java:599-610 | up to the recorded length every function's stride holds the indices and weights that were set, element by element, then zeros; length 0 when none were set; and its path |
| `FlatCorpus.RiLossless` | java/src/main/java/io/github/nilsonsfj/fastcodeembed/Corpus.java:611-614 | an RI stride holds the vector's first elements, as many as there are below the active dimension, then zeros; it is the whole vector exactly when its length is the active dimension |

## Left out

- Hash function: FNV-1a, seed generation and hash quality; the theorems hold for every function.
- `fce_ht_free`, null table pointers, and key strings changed by their owner while stored.
- Thread internals: stack sizes, `fce_once`, memory ordering below the atomicity of the fetch-add, and callbacks whose effects interleave.
- Rounding of float sums: the float kernels are stated over the reals, so reassociation error is not modelled.
- Saving and restoring the floating-point environment, and signed zeros.
- DirWalk.WalkDir: warnings printed, and memory freed on the way; a directory that cannot be opened is a property of the tree.
- Batching.IndexFiles: reading files, argument parsing, timing and printing, and the failure of the batch buffers or of the corpus to be allocated; the tokenizer is an arbitrary function cut at 256 tokens. Indices are unbounded in the loop and the conditions under which they are ints are proved beside it.
- FlatCorpus.ExtractFlat: Java arrays changed by their owner after being set, and allocation failure.
- `buildFunc`, the native corpus and everything behind JNI.
- `src/semantic/semantic.c` (tokenizer, scoring, search, cache loader) is not part of this model.
- Logging, platform detection, profiling, the Python binding, the data extraction scripts and the vendored xxHash.
