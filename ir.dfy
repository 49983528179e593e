/**
 * The fragment of the IR that the TMA-store pipeliner reads and rewrites: the
 * operations of one `scf.for` body as a tree, the operations the pass inserts,
 * MLIR's pre-order walk, and in-place replacement of operations.
 */
module IR {
  import opened Util

  /** Distinguishes two operations that are otherwise alike (an `Operation *`). */
  type OpId = nat
  /** An SSA value: a descriptor handle, an index, an offset, a tensor. */
  type Value = nat
  /** A scalar element type such as f16 or i32, by name. */
  type ElementType = nat
  /** A shared-memory layout attribute. */
  type Encoding = nat

  datatype RankedTensorType = RankedTensorType(shape: seq<int>, elementType: ElementType)

  /** The source operand of a store: a value of ranked tensor type. */
  datatype Tensor = Tensor(value: Value, ty: RankedTensorType)

  datatype DescriptorReduceKind = Add | Min | Max | Inc | Dec | And | Or | Xor

  /** The three operations that implement `DescriptorStoreLikeOpInterface`. */
  datatype StoreVariant =
    | DescriptorStore(indices: seq<Value>)
    | DescriptorReduce(kind: DescriptorReduceKind, indices: seq<Value>)
    | DescriptorScatter(xOffsets: Value, yOffset: Value)

  /** The SSA value of a shared-memory buffer produced by a `local_alloc`. */
  datatype Buffer = Buffer(n: nat)

  datatype MemorySpace = SharedMemory

  datatype MemDescType = MemDescType(
    shape: seq<int>, elementType: ElementType, encoding: Encoding,
    memorySpace: MemorySpace, mutableMemory: bool)

  /** Operations the pass creates. */
  datatype EmittedOp =
    | LocalAlloc(result: Buffer, ty: MemDescType)
    | TMAStoreWait(pendings: nat)
    | LocalStore(data: Value, dst: Buffer)
    | FenceAsyncShared(bCluster: bool)
    | AsyncTMACopyLocalToGlobal(desc: Value, indices: seq<Value>, buf: Buffer)
    | AsyncTMAReduce(kind: DescriptorReduceKind, desc: Value, indices: seq<Value>, buf: Buffer)
    | AsyncTMAScatter(desc: Value, xOffsets: Value, yOffset: Value, buf: Buffer)
    | LocalDealloc(buf: Buffer)

  /**
   * An operation of a block. A store-like operation has no regions; a nested
   * `scf.for` has one single-block body; any other operation may hold regions.
   */
  datatype Op =
    | StoreLike(id: OpId, desc: Value, src: Tensor, variant: StoreVariant)
    | For(body: seq<Op>)
    | Other(regions: seq<Region>)
    | Emitted(e: EmittedOp)

  /** A region with its single block. */
  datatype Region = Region(ops: seq<Op>)

  // ---------------------------------------------------------------------------
  // The pre-order walk of `getTMAStores`

  /**
   * The operations that `walk<PreOrder>` hands to the collector's callback, in
   * order: each operation before the operations nested in it, a nested `scf.for`
   * itself but nothing inside it (the callback answers `skip` for it).
   */
  function Walk(ops: seq<Op>): seq<Op>
    decreases ops
  {
    if ops == [] then []
    else
      match ops[0]
      case Other(rs) => [ops[0]] + WalkRegions(rs) + Walk(ops[1..])
      case _ => [ops[0]] + Walk(ops[1..])
  }

  function WalkRegions(rs: seq<Region>): seq<Op>
    decreases rs
  {
    if rs == [] then [] else Walk(rs[0].ops) + WalkRegions(rs[1..])
  }

  /** The store-like operations of `s`, in order. */
  function StoreOps(s: seq<Op>): (r: seq<Op>)
    ensures forall x :: x in r <==> x in s && x.StoreLike?
    ensures |r| <= |s|
  {
    if s == [] then [] else (if s[0].StoreLike? then [s[0]] else []) + StoreOps(s[1..])
  }

  /** The `scf.for` operations of `s`, in order. */
  function ForOps(s: seq<Op>): (r: seq<Op>)
    ensures forall x :: x in r <==> x in s && x.For?
  {
    if s == [] then [] else (if s[0].For? then [s[0]] else []) + ForOps(s[1..])
  }

  lemma {:induction false} StoreOpsConcat(a: seq<Op>, b: seq<Op>)
    ensures StoreOps(a + b) == StoreOps(a) + StoreOps(b)
  {
    if a != [] {
      assert (a + b)[0] == a[0] && (a + b)[1..] == a[1..] + b;
      StoreOpsConcat(a[1..], b);
    } else {
      assert a + b == b;
    }
  }

  lemma {:induction false} ForOpsConcat(a: seq<Op>, b: seq<Op>)
    ensures ForOps(a + b) == ForOps(a) + ForOps(b)
  {
    if a != [] {
      assert (a + b)[0] == a[0] && (a + b)[1..] == a[1..] + b;
      ForOpsConcat(a[1..], b);
    } else {
      assert a + b == b;
    }
  }

  // ---------------------------------------------------------------------------
  // All store-like operations, including those inside nested loops

  /** Every store-like operation of the tree, nested loops included, in pre-order. */
  function DeepStores(ops: seq<Op>): seq<Op>
    decreases ops
  {
    if ops == [] then []
    else
      (match ops[0]
       case StoreLike(_, _, _, _) => [ops[0]]
       case For(b) => DeepStores(b)
       case Other(rs) => DeepStoresRegions(rs)
       case Emitted(_) => [])
      + DeepStores(ops[1..])
  }

  function DeepStoresRegions(rs: seq<Region>): seq<Op>
    decreases rs
  {
    if rs == [] then [] else DeepStores(rs[0].ops) + DeepStoresRegions(rs[1..])
  }

  /** The store-like operations inside the bodies of the loops in `loops`. */
  function StoresInLoops(loops: seq<Op>): seq<Op>
  {
    if loops == [] then []
    else (if loops[0].For? then DeepStores(loops[0].body) else []) + StoresInLoops(loops[1..])
  }

  lemma {:induction false} StoresInLoopsConcat(a: seq<Op>, b: seq<Op>)
    ensures StoresInLoops(a + b) == StoresInLoops(a) + StoresInLoops(b)
  {
    if a != [] {
      assert (a + b)[0] == a[0] && (a + b)[1..] == a[1..] + b;
      StoresInLoopsConcat(a[1..], b);
    } else {
      assert a + b == b;
    }
  }

  /**
   * Each operation of the IR is its own object, so no store-like operation
   * occurs twice in the tree.
   */
  ghost predicate WellFormed(ops: seq<Op>)
  {
    Distinct(DeepStores(ops))
  }

  lemma {:induction false} DeepStoresConcat(a: seq<Op>, b: seq<Op>)
    ensures DeepStores(a + b) == DeepStores(a) + DeepStores(b)
  {
    if a != [] {
      assert (a + b)[0] == a[0] && (a + b)[1..] == a[1..] + b;
      DeepStoresConcat(a[1..], b);
    } else {
      assert a + b == b;
    }
  }
}
