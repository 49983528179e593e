# TMA store pipelining, modelled in Dafny

This project models `pipelineTMAStores`, the Triton GPU pass that makes the
descriptor ("TMA") stores of one `scf.for` loop asynchronous. The pass works
in four steps:

1. **Collect.** It walks the loop body in pre-order and collects every
   store-like operation (`descriptor_store`, `descriptor_reduce`,
   `descriptor_scatter`). It enters the regions of other operations but skips
   nested loops entirely (`getTMAStores`).
2. **Allocate.** It creates one mutable shared-memory staging buffer per
   distinct (shape, element type) key, right before the loop. The buffer
   takes its layout from the descriptor of the first store with that key.
   Every store is mapped to its key's buffer (`createAlloc` and the `allocs`
   / `storeToAlloc` loop).
3. **Rewrite.** It replaces every collected store in place by four
   operations, then erases the store (`createTMAAsyncCopy`):
   - `async_tma_store_wait(0)`;
   - `local_store` of the source into the buffer;
   - `fence_async_shared`;
   - the asynchronous issue matching the store's kind.
4. **Tear down.** After the loop it emits one `async_tma_store_wait(0)`, then
   one `local_dealloc` per entry of `storeToAlloc`. When some descriptor is
   computed on the device, it also calls the descriptor-lowering scheduler
   once, with a maximum stage of 3 (`lowerTMADescriptorCreation`).

## How the model is built

- **Operations (`IR`).** The IR is a tree datatype. `Op` has four cases:
  `StoreLike`, `For`, `Other` and `Emitted` (the operations the pass
  creates). `Walk` is MLIR's pre-order walk with a `skip` at nested loops.
  `DeepStores` lists every store-like operation at any depth.
- **Collector (`Collector`).** `GetTMAStores` is a method with a loop over the
  walk. It is tied to the function `TMAStoresOf`. The independent predicate
  `Reaches` describes which operations the collector can see.
- **Rewriting (`Rewriting`).** `Rewrite(ops, m)` replaces every occurrence of a
  key of `m`, at any depth, by `m`'s sequence. It models what
  `builder.create` at an operation followed by `op->erase()` does.
  `ReplaceAgain` proves that each insertion or erasure extends a replacement
  already under way.
- **Allocator (`Allocation`).** The allocator is specified over prefixes of
  the collected stores:
  - `KeysOf`: the keys of `allocs`, in creation order;
  - `AllocsOf`: the `local_alloc`s created;
  - `BufferOf`: each store's buffer.
- **The pass (`Pipeline`).** The loop together with its surroundings is the
  class `ForLoopIR`, with these fields:
  - `before`: the operations placed before the loop;
  - `body`;
  - `after`: the operations placed after the loop;
  - `schedules`: the scheduler calls made;
  - `nextBuffer`: the next fresh buffer value.

  The pass's steps are methods that modify exactly the fields they touch.
  Each method is proved against the functions above.

The model follows the code on two points where a reader might expect
otherwise:

- **One deallocation per store.** The deallocation loop iterates over
  `storeToAlloc`, which has one entry per store, not over `allocs`, which
  has one entry per buffer. When several stores share a buffer, it is
  deallocated once per store.
  - `DeallocsPerStore` states the count.
  - `SharedKeyOneBuffer` and `SharedKeyFreedTwice` show that two stores of
    the same key get one buffer and two deallocations.
- **Untranslated indices.** For `descriptor_store` and `descriptor_reduce`,
  the translated indices are computed and then ignored. The issued operation
  receives the store's own indices, and `Issue` states exactly that.

## Model

| member | source | states |
|---|---|---|
| Collector.GetTMAStores | lib/Dialect/TritonGPU/Transforms/Pipeliner/TMAStoresPipeline.cpp:19-33 | one record per collected operation, in walk order; each record carries that operation's own descriptor and source |
| Collector.CollectMembership | lib/Dialect/TritonGPU/Transforms/Pipeliner/TMAStoresPipeline.cpp:22-30 | an operation is collected if and only if it is store-like and lies in the body or, through non-loop operations only, in their regions |
| Collector.WalkReaches | lib/Dialect/TritonGPU/Transforms/Pipeliner/TMAStoresPipeline.cpp:22-30 | the pre-order walk with `skip` at loops visits exactly the operations `Reaches` describes |
| Collector.CollectPreOrder | lib/Dialect/TritonGPU/Transforms/Pipeliner/TMAStoresPipeline.cpp:22-30 | collection is in program order: the collection of two consecutive parts of a block is the first part's collection followed by the second's |
| Collector.CollectOfOne | lib/Dialect/TritonGPU/Transforms/Pipeliner/TMAStoresPipeline.cpp:23-28 | a store contributes itself, a nested loop nothing, a created operation nothing, any other operation the stores of its regions |
| Collector.DeepStoresSplit | lib/Dialect/TritonGPU/Transforms/Pipeliner/TMAStoresPipeline.cpp:25-28 | every store-like operation of the tree is either collected or inside a skipped nested loop, counted with multiplicity |
| Collector.CollectedOutsideNestedLoops | lib/Dialect/TritonGPU/Transforms/Pipeliner/TMAStoresPipeline.cpp:25-28 | in a body without repeated operations, no collected operation lies in a nested loop and none is collected twice |
| Rewriting.RewriteAt | lib/Dialect/TritonGPU/Transforms/Pipeliner/TMAStoresPipeline.cpp:52-60 | a replaced operation's replacement stands exactly where the operation stood |
| Rewriting.RewriteConcat | lib/Dialect/TritonGPU/Transforms/Pipeliner/TMAStoresPipeline.cpp:52-60 | replacement acts on the parts of a block independently |
| Rewriting.RewriteCompose | lib/Dialect/TritonGPU/Transforms/Pipeliner/TMAStoresPipeline.cpp:115-117 | replacing with one map and then another is replacing once with the composed map |
| Rewriting.ReplaceAgain | lib/Dialect/TritonGPU/Transforms/Pipeliner/TMAStoresPipeline.cpp:58-82 | inserting before a store that already has created operations in front of it, or erasing it, extends its replacement |
| Rewriting.RewriteCollect | lib/Dialect/TritonGPU/Transforms/Pipeliner/TMAStoresPipeline.cpp:82 | after stores are replaced by created operations, the collector finds what it found before minus the replaced stores, in the same order |
| Rewriting.RewriteDeepStores | lib/Dialect/TritonGPU/Transforms/Pipeliner/TMAStoresPipeline.cpp:82 | after the replacement, the stores at any depth are the old ones minus the replaced ones, in the same order |
| Rewriting.RewriteNestedLoops | lib/Dialect/TritonGPU/Transforms/Pipeliner/TMAStoresPipeline.cpp:25-28 | replacing only operations outside nested loops leaves every nested loop unchanged |
| Allocation.KeysOfSpec | lib/Dialect/TritonGPU/Transforms/Pipeliner/TMAStoresPipeline.cpp:103-108 | after `n` stores, `allocs` holds each key seen so far exactly once and nothing else, so at most `n` keys |
| Allocation.BufferCount | lib/Dialect/TritonGPU/Transforms/Pipeliner/TMAStoresPipeline.cpp:98-110 | there are exactly as many `local_alloc`s as distinct keys among the stores, and no more than stores |
| Allocation.AllocsShape | lib/Dialect/TritonGPU/Transforms/Pipeliner/TMAStoresPipeline.cpp:35-48 | buffer `base + j` is a mutable shared-memory buffer whose shape and element type are the `j`-th key |
| Allocation.AllocsFirstOccurrence | lib/Dialect/TritonGPU/Transforms/Pipeliner/TMAStoresPipeline.cpp:35-48 | the buffer of a key has the type, layout included, worked out from the first store with that key |
| Allocation.BufferSharing | lib/Dialect/TritonGPU/Transforms/Pipeliner/TMAStoresPipeline.cpp:103-109 | two stores get the same buffer if and only if their keys are equal, whatever their descriptors |
| Allocation.StoreBuffersCount | lib/Dialect/TritonGPU/Transforms/Pipeliner/TMAStoresPipeline.cpp:109 | a buffer occurs among the stores' buffers once per store with its key |
| Allocation.KeysOfStep | lib/Dialect/TritonGPU/Transforms/Pipeliner/TMAStoresPipeline.cpp:105-108 | a store with a seen key leaves `allocs` alone; a new key is appended, and existing keys keep their buffers |
| Allocation.KeyNotSeen | lib/Dialect/TritonGPU/Transforms/Pipeliner/TMAStoresPipeline.cpp:105-107 | the first store of a key does not find it in `allocs`, so it creates the buffer |
| Pipeline.CreateAlloc | lib/Dialect/TritonGPU/Transforms/Pipeliner/TMAStoresPipeline.cpp:35-48 | a fresh buffer, created right before the loop, typed after the store with the layout its descriptor gives |
| Pipeline.Issue | lib/Dialect/TritonGPU/Transforms/Pipeliner/TMAStoresPipeline.cpp:61-80 | the issue writes the buffer through the store's descriptor, with the same kind of access and the store's own untranslated indices or offsets |
| Pipeline.AsyncCopy | lib/Dialect/TritonGPU/Transforms/Pipeliner/TMAStoresPipeline.cpp:56-80 | a store becomes four created operations, the last of which issues the copy from its buffer |
| Pipeline.CreateTMAAsyncCopy | lib/Dialect/TritonGPU/Transforms/Pipeliner/TMAStoresPipeline.cpp:50-83 | the four insertions in front of the store and its erasure leave the store's replacement where it stood, and change nothing else in the body |
| Pipeline.LowerTMADescriptorCreation | lib/Dialect/TritonGPU/Transforms/Pipeliner/TMAStoresPipeline.cpp:85-89 | one scheduler call with a maximum stage of 3 |
| Pipeline.HasDeviceSideTMA | lib/Dialect/TritonGPU/Transforms/Pipeliner/TMAStoresPipeline.cpp:112-114 | true if and only if some collected store's descriptor is not host-side |
| Pipeline.AllocateBuffers | lib/Dialect/TritonGPU/Transforms/Pipeliner/TMAStoresPipeline.cpp:96-110 | the loop creates exactly the buffers of the distinct keys, in first-occurrence order, and maps every store, and nothing else, to its key's buffer |
| Pipeline.AllocationDone | lib/Dialect/TritonGPU/Transforms/Pipeliner/TMAStoresPipeline.cpp:109 | once all stores are seen, `storeToAlloc` maps exactly the stores, each to its key's buffer |
| Pipeline.NewKeyStep | lib/Dialect/TritonGPU/Transforms/Pipeliner/TMAStoresPipeline.cpp:105-109 | the first store of a key gets the next fresh buffer, created after the earlier ones |
| Pipeline.SeenKeyStep | lib/Dialect/TritonGPU/Transforms/Pipeliner/TMAStoresPipeline.cpp:105-109 | a store of a seen key reuses that key's buffer and creates nothing |
| Pipeline.ReplaceStores | lib/Dialect/TritonGPU/Transforms/Pipeliner/TMAStoresPipeline.cpp:115-117 | the rewrite loop leaves the body with every collected store replaced by its copy through its key's buffer |
| Pipeline.CopiesAt | lib/Dialect/TritonGPU/Transforms/Pipeliner/TMAStoresPipeline.cpp:115-117 | each collected store is replaced by its copy through its own key's buffer |
| Pipeline.CopiesKeys | lib/Dialect/TritonGPU/Transforms/Pipeliner/TMAStoresPipeline.cpp:115-117 | the operations the pass replaces are exactly the collected ones |
| Pipeline.RewrittenCollect | lib/Dialect/TritonGPU/Transforms/Pipeliner/TMAStoresPipeline.cpp:82 | no collected operation remains, so the collector finds nothing afterwards |
| Pipeline.RewrittenStores | lib/Dialect/TritonGPU/Transforms/Pipeliner/TMAStoresPipeline.cpp:82 | the stores left at any depth are exactly the ones the collector did not see, and none is repeated |
| Pipeline.RewrittenLoops | lib/Dialect/TritonGPU/Transforms/Pipeliner/TMAStoresPipeline.cpp:25-28 | nested loops, whose stores are not collected, come out of the pass unchanged |
| Pipeline.DrainAndDeallocate | lib/Dialect/TritonGPU/Transforms/Pipeliner/TMAStoresPipeline.cpp:119-125 | right after the loop there is one wait and then, in some order, one `local_dealloc` per store of that store's buffer, followed by what came after the loop before |
| Pipeline.DeallocsPerStore | lib/Dialect/TritonGPU/Transforms/Pipeliner/TMAStoresPipeline.cpp:123-125 | a buffer is deallocated once for every store with its key, so at least once |
| Pipeline.DeallocsFreeStoreBuffers | lib/Dialect/TritonGPU/Transforms/Pipeliner/TMAStoresPipeline.cpp:123-125 | every operation between the wait and the old successors frees the buffer of some store |
| Pipeline.SharedKeyOneBuffer | lib/Dialect/TritonGPU/Transforms/Pipeliner/TMAStoresPipeline.cpp:103-109 | two stores of the same shape and element type share one buffer, created once |
| Pipeline.SharedKeyFreedTwice | lib/Dialect/TritonGPU/Transforms/Pipeliner/TMAStoresPipeline.cpp:123-125 | that shared buffer is deallocated twice after the loop |
| Pipeline.PipelineTMAStores | lib/Dialect/TritonGPU/Transforms/Pipeliner/TMAStoresPipeline.cpp:91-133 | returns true if and only if a store is collected; when none is, nothing changes; otherwise the buffers are created before the loop, the body is rewritten, the loop is drained and torn down, the scheduler is called exactly when some descriptor is device-side, and the body still repeats no operation |

## Left out

- Operation builders, `Location`s and MLIR type and attribute objects are left out. The model records created operations and their types as values.
- `translateTMAIndices` is left out. Its result is unused, and the issued operations carry the store's own indices.
- `getEncodingFromDescriptor` is not part of this model. Its result is the parameter `encodingOf`, an arbitrary function of the store, its tensor type and its descriptor.
- `isHostSideDescriptor` is not part of this model. It is the parameter `isHostSideDescriptor`.
- `lowerTMADescriptors` and `CoarseSchedule` are not part of this model. A call is recorded as its maximum stage in `schedules`, and its effect on the loop is not modelled.
- Pipeline.DrainAndDeallocate: the order of the deallocations is the iteration order of a `DenseMap`, which is unspecified. The loop picks the next entry nondeterministically, and the contract states the deallocations as a multiset.
- `DenseMap` hashing is left out. Keys are compared by value: the shape as a sequence and the element type by name. This matches `ArrayRef` comparison and uniqued types.
- SSA values of new buffers are numbered from a counter (`nextBuffer`). Value identity and use lists are not modelled.
- Every region has a single block, and an `scf.for` body is one block. Block arguments and terminators are not modelled.
- `cast<DescriptorScatterOp>` cannot fail. Store-like operations have exactly three variants.
- The runtime behaviour of the emitted program is left out: asynchronous copies, waits, fences and their memory ordering.
