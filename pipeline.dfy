/**
 * The pass `pipelineTMAStores`: every descriptor store of one `scf.for` body
 * becomes a wait, a copy into a shared-memory staging buffer, a fence and an
 * asynchronous TMA issue; the buffers are created before the loop, drained
 * and deallocated after it, and descriptor creation is multi-buffered when a
 * descriptor is computed on the device.
 */
module Pipeline {
  import opened Util
  import opened IR
  import opened Collector
  import opened Rewriting
  import opened Allocation

  /** The maximum stage of the schedule that double-buffers the descriptor. */
  const MaxStage: nat := 3

  /**
   * The loop being pipelined, with the operations right before it and right
   * after it in its parent block.
   */
  class ForLoopIR {
    /** The parent block's operations before the loop, the one nearest the loop last. */
    var before: seq<Op>
    /** The loop body. */
    var body: seq<Op>
    /** The parent block's operations after the loop, the one nearest the loop first. */
    var after: seq<Op>
    /** The maximum stage of every `lowerTMADescriptors` call made on the loop, in call order. */
    var schedules: seq<nat>
    /** The next SSA value a created `local_alloc` defines. */
    var nextBuffer: nat

    /** Each operation of the body is a distinct object. */
    ghost predicate Valid()
      reads this
    {
      WellFormed(body)
    }

    constructor(before: seq<Op>, body: seq<Op>, after: seq<Op>, nextBuffer: nat)
      ensures this.before == before && this.body == body && this.after == after
      ensures this.schedules == [] && this.nextBuffer == nextBuffer
    {
      this.before := before;
      this.body := body;
      this.after := after;
      this.schedules := [];
      this.nextBuffer := nextBuffer;
    }
  }

  // ---------------------------------------------------------------------------
  // Editing the loop

  /** A `builder.create` whose insertion point is `op`: `x` lands immediately before `op`. */
  method InsertBefore(forOp: ForLoopIR, op: Op, x: Op)
    modifies forOp`body
    ensures forOp.body == Rewrite(old(forOp.body), map[op := [x, op]])
  {
    forOp.body := Rewrite(forOp.body, map[op := [x, op]]);
  }

  /** `op->erase()`. */
  method Erase(forOp: ForLoopIR, op: Op)
    modifies forOp`body
    ensures forOp.body == Rewrite(old(forOp.body), map[op := []])
  {
    forOp.body := Rewrite(forOp.body, map[op := []]);
  }

  /**
   * `createAlloc`: a mutable shared-memory buffer shaped and typed like the
   * store's source, with the layout the store's descriptor asks for, created
   * immediately before the loop.
   */
  method CreateAlloc(forOp: ForLoopIR, store: TMAStore, encodingOf: EncodingOracle) returns (alloc: Buffer)
    modifies forOp`before, forOp`nextBuffer
    ensures alloc == Buffer(old(forOp.nextBuffer))
    ensures forOp.nextBuffer == old(forOp.nextBuffer) + 1
    ensures forOp.before == old(forOp.before) + [Emitted(LocalAlloc(alloc, BufferType(store, encodingOf)))]
  {
    alloc := Buffer(forOp.nextBuffer);
    forOp.nextBuffer := forOp.nextBuffer + 1;
    forOp.before := forOp.before + [Emitted(LocalAlloc(alloc, BufferType(store, encodingOf)))];
  }

  // ---------------------------------------------------------------------------
  // The replacement of one store

  /** The descriptor, the store kind with its operands, and the buffer an issue operation reads. */
  function IssuedFrom(e: EmittedOp): Option<(Value, StoreVariant, Buffer)>
  {
    match e
    case AsyncTMACopyLocalToGlobal(desc, indices, buf) => Some((desc, DescriptorStore(indices), buf))
    case AsyncTMAReduce(kind, desc, indices, buf) => Some((desc, DescriptorReduce(kind, indices), buf))
    case AsyncTMAScatter(desc, xOffsets, yOffset, buf) => Some((desc, DescriptorScatter(xOffsets, yOffset), buf))
    case _ => None
  }

  /**
   * The asynchronous operation that takes over from a store: it copies `alloc`
   * to the store's descriptor with the same kind of access and the store's own,
   * untranslated, indices or offsets.
   */
  function Issue(store: TMAStore, alloc: Buffer): (r: Op)
    requires store.op.StoreLike?
    ensures r.Emitted? && IssuedFrom(r.e) == Some((store.desc, store.op.variant, alloc))
  {
    match store.op.variant
    case DescriptorStore(indices) => Emitted(AsyncTMACopyLocalToGlobal(store.desc, indices, alloc))
    case DescriptorReduce(kind, indices) => Emitted(AsyncTMAReduce(kind, store.desc, indices, alloc))
    case DescriptorScatter(xOffsets, yOffset) => Emitted(AsyncTMAScatter(store.desc, xOffsets, yOffset, alloc))
  }

  /** What a store is replaced by, in order. */
  function AsyncCopy(store: TMAStore, alloc: Buffer): (r: seq<Op>)
    requires store.op.StoreLike?
    ensures EmittedOnly(r) && |r| == 4
    ensures IssuedFrom(r[3].e) == Some((store.desc, store.op.variant, alloc))
  {
    [Emitted(TMAStoreWait(0)),
     Emitted(LocalStore(store.src.value, alloc)),
     Emitted(FenceAsyncShared(false)),
     Issue(store, alloc)]
  }

  /**
   * `createTMAAsyncCopy`: four operations created in front of the store, then
   * the store erased, leave the store's replacement exactly where it stood.
   */
  method CreateTMAAsyncCopy(forOp: ForLoopIR, store: TMAStore, alloc: Buffer)
    requires store.op.StoreLike?
    modifies forOp`body
    ensures forOp.body == Rewrite(old(forOp.body), map[store.op := AsyncCopy(store, alloc)])
  {
    ghost var start := forOp.body;
    var op := store.op;
    var wait := Emitted(TMAStoreWait(0));
    var local := Emitted(LocalStore(store.src.value, alloc));
    var fence := Emitted(FenceAsyncShared(false));
    InsertBefore(forOp, op, wait);
    assert [wait, op] == [wait] + [op];
    InsertBefore(forOp, op, local);
    ReplaceAgain(start, op, [wait], [local, op]);
    assert [wait] + [local, op] == [wait, local] + [op];
    InsertBefore(forOp, op, fence);
    ReplaceAgain(start, op, [wait, local], [fence, op]);
    assert [wait, local] + [fence, op] == [wait, local, fence] + [op];
    var issue := Issue(store, alloc);
    InsertBefore(forOp, op, issue);
    ReplaceAgain(start, op, [wait, local, fence], [issue, op]);
    assert [wait, local, fence] + [issue, op] == [wait, local, fence, issue] + [op];
    Erase(forOp, op);
    ReplaceAgain(start, op, [wait, local, fence, issue], []);
    assert [wait, local, fence, issue] + [] == AsyncCopy(store, alloc);
  }

  /** `lowerTMADescriptorCreation`: one call of the scheduler with a maximum stage of 3. */
  method LowerTMADescriptorCreation(forOp: ForLoopIR)
    modifies forOp`schedules
    ensures forOp.schedules == old(forOp.schedules) + [MaxStage]
  {
    forOp.schedules := forOp.schedules + [MaxStage];
  }

  // ---------------------------------------------------------------------------
  // What the pass produces, as functions of the collected stores

  /** Some store's descriptor is computed on the device. */
  function HasDeviceSideTMA(stores: seq<TMAStore>, isHostSideDescriptor: Value -> bool): (r: bool)
    ensures r <==> exists i :: 0 <= i < |stores| && !isHostSideDescriptor(stores[i].desc)
  {
    if stores == [] then false
    else !isHostSideDescriptor(stores[0].desc) || HasDeviceSideTMA(stores[1..], isHostSideDescriptor)
  }

  /** Every collected record stands for a store-like operation. */
  ghost predicate StoreRecords(stores: seq<TMAStore>)
  {
    forall i :: 0 <= i < |stores| ==> stores[i].op.StoreLike?
  }

  /** The operations of the records. */
  function OpsOf(stores: seq<TMAStore>): (r: seq<Op>)
    ensures |r| == |stores| && forall i {:trigger r[i]} :: 0 <= i < |stores| ==> r[i] == stores[i].op
  {
    if stores == [] then [] else [stores[0].op] + OpsOf(stores[1..])
  }

  /** The replacement of each of the first `n` stores, with the buffer of its key. */
  function Copies(stores: seq<TMAStore>, n: nat, base: nat): map<Op, seq<Op>>
    requires n <= |stores| && StoreRecords(stores)
  {
    if n == 0 then map[]
    else Copies(stores, n - 1, base)[stores[n - 1].op := AsyncCopy(stores[n - 1], BufferOf(stores, n - 1, base))]
  }

  /** A `local_dealloc` of each buffer, in order. */
  function Deallocs(bufs: seq<Buffer>): (r: seq<Op>)
    ensures |r| == |bufs| && forall i {:trigger r[i]} :: 0 <= i < |bufs| ==> r[i] == Emitted(LocalDealloc(bufs[i]))
  {
    if bufs == [] then [] else [Emitted(LocalDealloc(bufs[0]))] + Deallocs(bufs[1..])
  }

  /**
   * The operations after the loop: one wait for every outstanding copy, then
   * one `local_dealloc` per store, in some order, of that store's buffer, then
   * what followed the loop before.
   */
  ghost predicate Drained(after: seq<Op>, oldAfter: seq<Op>, stores: seq<TMAStore>, base: nat)
  {
    var n := |stores|;
    |after| == 1 + n + |oldAfter| &&
    after[0] == Emitted(TMAStoreWait(0)) &&
    after[1 + n..] == oldAfter &&
    multiset(after[1..1 + n]) == multiset(Deallocs(StoreBuffers(stores, n, base)))
  }

  // ---------------------------------------------------------------------------
  // Facts about those functions

  /** Every replaced operation is a store, and every replacement is made of created operations. */
  lemma {:induction false} CopiesShape(stores: seq<TMAStore>, n: nat, base: nat)
    requires n <= |stores| && StoreRecords(stores)
    ensures StoreKeys(Copies(stores, n, base)) && AllEmitted(Copies(stores, n, base))
  {
    if n > 0 {
      CopiesShape(stores, n - 1, base);
    }
  }

  /** Each operation `Copies` replaces is one of the first `n` stores. */
  lemma {:induction false} CopiesKey(stores: seq<TMAStore>, n: nat, base: nat, x: Op) returns (i: nat)
    requires n <= |stores| && StoreRecords(stores) && x in Copies(stores, n, base)
    ensures i < n && stores[i].op == x
  {
    if x == stores[n - 1].op {
      i := n - 1;
    } else {
      i := CopiesKey(stores, n - 1, base, x);
    }
  }

  /** A store not yet processed is not replaced. */
  lemma {:induction false} CopiesLater(stores: seq<TMAStore>, n: nat, base: nat, i: nat)
    requires n <= i < |stores| && StoreRecords(stores) && Distinct(OpsOf(stores))
    ensures stores[i].op !in Copies(stores, n, base)
  {
    if n > 0 {
      CopiesLater(stores, n - 1, base, i);
      assert OpsOf(stores)[i] == stores[i].op && OpsOf(stores)[n - 1] == stores[n - 1].op;
    }
  }

  /** Each of the first `n` stores is replaced by its copy through its key's buffer. */
  lemma {:induction false} CopiesAt(stores: seq<TMAStore>, n: nat, base: nat, i: nat)
    requires i < n <= |stores| && StoreRecords(stores) && Distinct(OpsOf(stores))
    ensures stores[i].op in Copies(stores, n, base)
    ensures Copies(stores, n, base)[stores[i].op] == AsyncCopy(stores[i], BufferOf(stores, i, base))
  {
    if i < n - 1 {
      CopiesAt(stores, n - 1, base, i);
      assert OpsOf(stores)[i] == stores[i].op && OpsOf(stores)[n - 1] == stores[n - 1].op;
    }
  }

  /** Replacing the next store extends the replacement made so far. */
  lemma CopiesStep(ops: seq<Op>, stores: seq<TMAStore>, i: nat, base: nat)
    requires i < |stores| && StoreRecords(stores) && Distinct(OpsOf(stores))
    ensures Rewrite(Rewrite(ops, Copies(stores, i, base)), map[stores[i].op := AsyncCopy(stores[i], BufferOf(stores, i, base))])
      == Rewrite(ops, Copies(stores, i + 1, base))
  {
    CopiesShape(stores, i, base);
    RewriteCompose(ops, Copies(stores, i, base), map[stores[i].op := AsyncCopy(stores[i], BufferOf(stores, i, base))]);
    ComposeCopies(stores, i, base);
  }

  lemma ComposeCopies(stores: seq<TMAStore>, i: nat, base: nat)
    requires i < |stores| && StoreRecords(stores) && Distinct(OpsOf(stores))
    ensures Compose(Copies(stores, i, base), map[stores[i].op := AsyncCopy(stores[i], BufferOf(stores, i, base))])
      == Copies(stores, i + 1, base)
  {
    var m1 := Copies(stores, i, base);
    var m2 := map[stores[i].op := AsyncCopy(stores[i], BufferOf(stores, i, base))];
    var c := Compose(m1, m2);
    CopiesShape(stores, i, base);
    CopiesLater(stores, i, base, i);
    forall k | k in c ensures c[k] == Copies(stores, i + 1, base)[k] {
      if k in m1 {
        EmittedOnlyFacts(m1[k]);
        RewriteUntouched(m1[k], m2);
      }
    }
    assert c.Keys == Copies(stores, i + 1, base).Keys;
  }

  /** The records the collector returns are store-like and pairwise distinct. */
  lemma CollectedRecords(body: seq<Op>)
    requires WellFormed(body)
    ensures StoreRecords(TMAStoresOf(body)) && Distinct(OpsOf(TMAStoresOf(body)))
    ensures OpsOf(TMAStoresOf(body)) == Collect(body)
  {
    CollectedOutsideNestedLoops(body);
  }

  /** Each `local_dealloc` in `Deallocs(bufs)` frees a buffer of `bufs`, as often as it occurs there. */
  lemma {:induction false} DeallocCount(bufs: seq<Buffer>, x: Op)
    ensures multiset(Deallocs(bufs))[x] == if x.Emitted? && x.e.LocalDealloc? then multiset(bufs)[x.e.buf] else 0
  {
    if bufs != [] {
      DeallocCount(bufs[1..], x);
      assert bufs == [bufs[0]] + bufs[1..];
      assert Deallocs(bufs) == [Deallocs(bufs)[0]] + Deallocs(bufs[1..]);
    }
  }

  lemma DeallocsPermutation(a: seq<Buffer>, b: seq<Buffer>)
    requires multiset(a) == multiset(b)
    ensures multiset(Deallocs(a)) == multiset(Deallocs(b))
  {
    forall x ensures multiset(Deallocs(a))[x] == multiset(Deallocs(b))[x] {
      DeallocCount(a, x);
      DeallocCount(b, x);
    }
  }

  lemma {:induction false} DeallocsConcat(a: seq<Buffer>, b: seq<Buffer>)
    ensures Deallocs(a + b) == Deallocs(a) + Deallocs(b)
  {
    if a == [] {
      assert a + b == b;
    } else {
      assert (a + b)[0] == a[0] && (a + b)[1..] == a[1..] + b;
      DeallocsConcat(a[1..], b);
    }
  }

  /** Visiting one more entry of `storeToAlloc` frees its buffer last. */
  lemma FreedStep(storeToAlloc: map<Op, Buffer>, visited: seq<Op>, op: Op)
    requires op in storeToAlloc
    ensures Deallocs(Image(storeToAlloc, visited + [op])) ==
      Deallocs(Image(storeToAlloc, visited)) + [Emitted(LocalDealloc(storeToAlloc[op]))]
  {
    ImageConcat(storeToAlloc, visited, [op]);
    assert Image(storeToAlloc, [op]) == [storeToAlloc[op]];
    DeallocsConcat(Image(storeToAlloc, visited), [storeToAlloc[op]]);
  }

  /**
   * The deallocations after the wait are those of the store buffers, in the
   * order the entries of `storeToAlloc` were visited.
   */
  lemma DrainedAll(after: seq<Op>, oldAfter: seq<Op>, stores: seq<TMAStore>, base: nat,
                   visited: seq<Op>, storeToAlloc: map<Op, Buffer>)
    requires after == [Emitted(TMAStoreWait(0))] + Deallocs(Image(storeToAlloc, visited)) + oldAfter
    requires Distinct(visited) && Distinct(OpsOf(stores))
    requires forall op :: op in visited <==> op in OpsOf(stores)
    requires forall j :: 0 <= j < |stores| ==>
      stores[j].op in storeToAlloc && storeToAlloc[stores[j].op] == BufferOf(stores, j, base)
    ensures Drained(after, oldAfter, stores, base)
  {
    var n := |stores|;
    DistinctSameElements(visited, OpsOf(stores));
    SameLength(visited, OpsOf(stores));
    ImagePermutation(storeToAlloc, visited, OpsOf(stores));
    ImageOfStores(storeToAlloc, stores, base);
    SameLength(Image(storeToAlloc, visited), StoreBuffers(stores, n, base));
    DeallocsPermutation(Image(storeToAlloc, visited), StoreBuffers(stores, n, base));
    DrainSlices(Deallocs(Image(storeToAlloc, visited)), oldAfter);
  }

  lemma SameLength<T>(a: seq<T>, b: seq<T>)
    requires multiset(a) == multiset(b)
    ensures |a| == |b|
  {
    assert |a| == |multiset(a)|;
    assert |b| == |multiset(b)|;
  }

  /** The buffers `storeToAlloc` gives the stores, in store order, are the store buffers. */
  lemma ImageOfStores(storeToAlloc: map<Op, Buffer>, stores: seq<TMAStore>, base: nat)
    requires forall j :: 0 <= j < |stores| ==>
      stores[j].op in storeToAlloc && storeToAlloc[stores[j].op] == BufferOf(stores, j, base)
    ensures Image(storeToAlloc, OpsOf(stores)) == StoreBuffers(stores, |stores|, base)
  {
    var ops := OpsOf(stores);
    assert forall j :: 0 <= j < |ops| ==> ops[j] in storeToAlloc;
    ImageAt(storeToAlloc, ops);
    forall j | 0 <= j < |stores|
      ensures Image(storeToAlloc, ops)[j] == StoreBuffers(stores, |stores|, base)[j]
    {
      StoreBuffersAt(stores, |stores|, base, j);
    }
  }

  lemma DrainSlices(ds: seq<Op>, oldAfter: seq<Op>)
    ensures var after := [Emitted(TMAStoreWait(0))] + ds + oldAfter;
      after[0] == Emitted(TMAStoreWait(0)) && after[1..1 + |ds|] == ds && after[1 + |ds|..] == oldAfter
  {
  }

  /** The stores the pass replaces are exactly the collected ones. */
  lemma CopiesKeys(body: seq<Op>, base: nat)
    requires WellFormed(body)
    ensures StoreRecords(TMAStoresOf(body))
    ensures var m := Copies(TMAStoresOf(body), |TMAStoresOf(body)|, base);
      StoreKeys(m) && AllEmitted(m) && forall x :: x in m <==> x in Collect(body)
  {
    CollectedRecords(body);
    var stores := TMAStoresOf(body);
    var m := Copies(stores, |stores|, base);
    CopiesShape(stores, |stores|, base);
    forall x ensures x in m <==> x in OpsOf(stores) {
      if x in m {
        var i := CopiesKey(stores, |stores|, base, x);
        assert OpsOf(stores)[i] == x;
      }
      if x in OpsOf(stores) {
        var i :| 0 <= i < |stores| && OpsOf(stores)[i] == x;
        CopiesAt(stores, |stores|, base, i);
      }
    }
  }

  /**
   * The collector finds nothing in the body the pass leaves, so running the
   * pass again changes nothing.
   */
  lemma RewrittenCollect(body: seq<Op>, base: nat)
    requires WellFormed(body)
    ensures StoreRecords(TMAStoresOf(body))
    ensures var after := Rewrite(body, Copies(TMAStoresOf(body), |TMAStoresOf(body)|, base));
      Collect(after) == [] && TMAStoresOf(after) == []
  {
    CopiesKeys(body, base);
    var m := Copies(TMAStoresOf(body), |TMAStoresOf(body)|, base);
    RewriteCollect(body, m);
    WithoutAll(Collect(body), m.Keys);
  }

  /**
   * The stores left anywhere in the body, nested loops included, are the ones
   * the collector did not see, and they are still distinct.
   */
  lemma RewrittenStores(body: seq<Op>, base: nat)
    requires WellFormed(body)
    ensures StoreRecords(TMAStoresOf(body))
    ensures var after := Rewrite(body, Copies(TMAStoresOf(body), |TMAStoresOf(body)|, base));
      (forall y :: y in DeepStores(after) <==> y in DeepStores(body) && y !in Collect(body)) &&
      WellFormed(after)
  {
    CopiesKeys(body, base);
    var m := Copies(TMAStoresOf(body), |TMAStoresOf(body)|, base);
    RewriteDeepStores(body, m);
    WithoutDistinct(DeepStores(body), m.Keys);
  }

  /** The body the pass leaves still has each store-like operation at most once. */
  lemma RewrittenWellFormed(body: seq<Op>, base: nat)
    requires WellFormed(body)
    ensures StoreRecords(TMAStoresOf(body))
    ensures WellFormed(Rewrite(body, Copies(TMAStoresOf(body), |TMAStoresOf(body)|, base)))
  {
    RewrittenStores(body, base);
  }

  /** The nested loops the walk skips come out of the pass exactly as they went in. */
  lemma RewrittenLoops(body: seq<Op>, base: nat)
    requires WellFormed(body)
    ensures StoreRecords(TMAStoresOf(body))
    ensures NestedLoops(Rewrite(body, Copies(TMAStoresOf(body), |TMAStoresOf(body)|, base))) == NestedLoops(body)
  {
    CopiesKeys(body, base);
    CollectedOutsideNestedLoops(body);
    var m := Copies(TMAStoresOf(body), |TMAStoresOf(body)|, base);
    RewriteNestedLoops(body, m);
  }

  /**
   * After the teardown, the buffer of store `i` is deallocated once for every
   * store with store `i`'s key, so at least once, and twice or more when stores share it.
   */
  lemma DeallocsPerStore(after: seq<Op>, oldAfter: seq<Op>, stores: seq<TMAStore>, base: nat, i: nat)
    requires i < |stores| && Drained(after, oldAfter, stores, base)
    ensures multiset(after[1..1 + |stores|])[Emitted(LocalDealloc(BufferOf(stores, i, base)))]
      == CountKey(stores, |stores|, Key(stores[i]))
    ensures CountKey(stores, |stores|, Key(stores[i])) >= 1
  {
    var n := |stores|;
    DeallocCount(StoreBuffers(stores, n, base), Emitted(LocalDealloc(BufferOf(stores, i, base))));
    StoreBuffersCount(stores, n, base, i);
    CountKeyPositive(stores, n, i);
  }

  /** Every operation between the wait and the old successors frees the buffer of some store. */
  lemma DeallocsFreeStoreBuffers(after: seq<Op>, oldAfter: seq<Op>, stores: seq<TMAStore>, base: nat, x: Op)
    requires Drained(after, oldAfter, stores, base) && x in after[1..1 + |stores|]
    ensures exists j :: 0 <= j < |stores| && x == Emitted(LocalDealloc(BufferOf(stores, j, base)))
  {
    var n := |stores|;
    var ds := Deallocs(StoreBuffers(stores, n, base));
    assert x in multiset(after[1..1 + n]);
    assert x in ds by { assert x in multiset(ds); }
    var k :| 0 <= k < |ds| && ds[k] == x;
    StoreBuffersAt(stores, n, base, k);
  }

  /** Two stores of the same shape and element type share one buffer, created once. */
  lemma SharedKeyOneBuffer(stores: seq<TMAStore>, base: nat, encodingOf: EncodingOracle)
    requires |stores| == 2 && Key(stores[0]) == Key(stores[1])
    ensures |AllocsOf(stores, 2, base, encodingOf)| == 1
    ensures BufferOf(stores, 0, base) == Buffer(base) && BufferOf(stores, 1, base) == Buffer(base)
  {
    var k := Key(stores[0]);
    assert KeysOf(stores, 1) == [k];
    assert KeysOf(stores, 2) == [k] && Key(stores[1]) == k;
    assert |AllocsOf(stores, 1, base, encodingOf)| == 1;
    assert IndexOf([k], k) == 0;
  }

  /** That shared buffer is deallocated twice after the loop, once per store. */
  lemma SharedKeyFreedTwice(stores: seq<TMAStore>, base: nat, after: seq<Op>, oldAfter: seq<Op>)
    requires |stores| == 2 && Key(stores[0]) == Key(stores[1])
    requires Drained(after, oldAfter, stores, base)
    ensures multiset(after[1..3])[Emitted(LocalDealloc(Buffer(base)))] == 2
  {
    SharedKeyOneBuffer(stores, base, (op, ty, desc) => 0);
    DeallocsPerStore(after, oldAfter, stores, base, 0);
    assert CountKey(stores, 1, Key(stores[0])) == 1;
  }

  // ---------------------------------------------------------------------------
  // The pass

  /** `allocs` after the first `i` stores: each key seen so far, with the buffer made for it. */
  ghost predicate AllocsMatch(stores: seq<TMAStore>, i: nat, base: nat, allocs: map<AllocKey, Buffer>)
    requires i <= |stores|
  {
    (forall k :: k in allocs <==> k in KeysOf(stores, i)) &&
    forall k :: k in allocs ==> allocs[k] == Buffer(base + IndexOf(KeysOf(stores, i), k))
  }

  /** `storeToAlloc` after the first `n` stores: each of them, with the buffer of its key. */
  ghost function StoreToAllocOf(stores: seq<TMAStore>, n: nat, base: nat): map<Op, Buffer>
    requires n <= |stores|
  {
    if n == 0 then map[]
    else
      StoreToAllocOf(stores, n - 1, base)[stores[n - 1].op := Buffer(base + IndexOf(KeysOf(stores, n), Key(stores[n - 1])))]
  }

  /**
   * The state of the allocation loop after the first `i` stores: the buffers
   * created so far, the next fresh buffer, `allocs` and `storeToAlloc`.
   */
  ghost predicate AllocState(stores: seq<TMAStore>, i: nat, base: nat, encodingOf: EncodingOracle,
                             before0: seq<Op>, before: seq<Op>, next: nat,
                             allocs: map<AllocKey, Buffer>, storeToAlloc: map<Op, Buffer>)
    requires i <= |stores|
  {
    before == before0 + AllocsOf(stores, i, base, encodingOf) &&
    next == base + |KeysOf(stores, i)| &&
    AllocsMatch(stores, i, base, allocs) &&
    storeToAlloc == StoreToAllocOf(stores, i, base)
  }

  /** A store whose key already has a buffer is given that buffer, and nothing is created. */
  lemma SeenKeyStep(stores: seq<TMAStore>, i: nat, base: nat, encodingOf: EncodingOracle,
                    before0: seq<Op>, before: seq<Op>, next: nat,
                    allocs: map<AllocKey, Buffer>, storeToAlloc: map<Op, Buffer>)
    requires i < |stores| && Key(stores[i]) in allocs
    requires AllocState(stores, i, base, encodingOf, before0, before, next, allocs, storeToAlloc)
    ensures AllocState(stores, i + 1, base, encodingOf, before0, before, next, allocs,
                       storeToAlloc[stores[i].op := allocs[Key(stores[i])]])
  {
    KeysOfStep(stores, i);
    AllocsOfStep(before0, stores, i, base, encodingOf);
    assert allocs[Key(stores[i])] == Buffer(base + IndexOf(KeysOf(stores, i + 1), Key(stores[i])));
  }

  /** The first store of a key gets the next fresh buffer, created after the earlier ones. */
  lemma NewKeyStep(stores: seq<TMAStore>, i: nat, base: nat, encodingOf: EncodingOracle,
                   before0: seq<Op>, before: seq<Op>, next: nat,
                   allocs: map<AllocKey, Buffer>, storeToAlloc: map<Op, Buffer>)
    requires i < |stores| && Key(stores[i]) !in allocs
    requires AllocState(stores, i, base, encodingOf, before0, before, next, allocs, storeToAlloc)
    ensures AllocState(stores, i + 1, base, encodingOf, before0,
                       before + [Emitted(LocalAlloc(Buffer(next), BufferType(stores[i], encodingOf)))], next + 1,
                       allocs[Key(stores[i]) := Buffer(next)], storeToAlloc[stores[i].op := Buffer(next)])
  {
    KeysOfStep(stores, i);
    AllocsOfStep(before0, stores, i, base, encodingOf);
    var allocs' := allocs[Key(stores[i]) := Buffer(next)];
    assert AllocsMatch(stores, i + 1, base, allocs');
  }

  /** Each operation `storeToAlloc` maps is one of the stores processed so far. */
  lemma {:induction false} StoreToAllocKey(stores: seq<TMAStore>, n: nat, base: nat, x: Op) returns (i: nat)
    requires n <= |stores| && x in StoreToAllocOf(stores, n, base)
    ensures i < n && stores[i].op == x
  {
    if x == stores[n - 1].op {
      i := n - 1;
    } else {
      i := StoreToAllocKey(stores, n - 1, base, x);
    }
  }

  /** Each store processed so far is mapped to the buffer of its key. */
  lemma {:induction false} StoreToAllocAt(stores: seq<TMAStore>, n: nat, base: nat, j: nat)
    requires j < n <= |stores| && Distinct(OpsOf(stores))
    ensures stores[j].op in StoreToAllocOf(stores, n, base)
    ensures StoreToAllocOf(stores, n, base)[stores[j].op] == Buffer(base + IndexOf(KeysOf(stores, n), Key(stores[j])))
  {
    if j < n - 1 {
      StoreToAllocAt(stores, n - 1, base, j);
      assert OpsOf(stores)[j] == stores[j].op && OpsOf(stores)[n - 1] == stores[n - 1].op;
      KeysOfSeen(stores, n - 1);
      KeysOfPrefix(stores, n - 1, n);
      IndexOfPrefix(KeysOf(stores, n - 1), KeysOf(stores, n), Key(stores[j]));
    }
  }

  /** Once every store is processed, each is mapped to its buffer and nothing else is mapped. */
  lemma AllocationDone(stores: seq<TMAStore>, base: nat)
    requires Distinct(OpsOf(stores))
    ensures forall op :: op in StoreToAllocOf(stores, |stores|, base) ==> op in OpsOf(stores)
    ensures forall j :: 0 <= j < |stores| ==>
      stores[j].op in StoreToAllocOf(stores, |stores|, base) &&
      StoreToAllocOf(stores, |stores|, base)[stores[j].op] == BufferOf(stores, j, base)
  {
    var m := StoreToAllocOf(stores, |stores|, base);
    forall op | op in m ensures op in OpsOf(stores) {
      var i := StoreToAllocKey(stores, |stores|, base, op);
      assert OpsOf(stores)[i] == op;
    }
    forall j | 0 <= j < |stores|
      ensures stores[j].op in m && m[stores[j].op] == BufferOf(stores, j, base)
    {
      StoreToAllocAt(stores, |stores|, base, j);
    }
  }

  /**
   * The allocation loop of `pipelineTMAStores`: `allocs[key]` is created at
   * the first store with that key, and every store is mapped to its key's buffer.
   */
  method AllocateBuffers(forOp: ForLoopIR, stores: seq<TMAStore>, encodingOf: EncodingOracle)
    returns (storeToAlloc: map<Op, Buffer>)
    requires Distinct(OpsOf(stores))
    modifies forOp`before, forOp`nextBuffer
    ensures forOp.before == old(forOp.before) + AllocsOf(stores, |stores|, old(forOp.nextBuffer), encodingOf)
    ensures forOp.nextBuffer == old(forOp.nextBuffer) + |KeysOf(stores, |stores|)|
    ensures forall op :: op in storeToAlloc ==> op in OpsOf(stores)
    ensures forall j :: 0 <= j < |stores| ==>
      stores[j].op in storeToAlloc && storeToAlloc[stores[j].op] == BufferOf(stores, j, old(forOp.nextBuffer))
  {
    ghost var before0, base := forOp.before, forOp.nextBuffer;
    storeToAlloc := map[];
    var allocs: map<AllocKey, Buffer> := map[];
    for i := 0 to |stores|
      invariant AllocState(stores, i, base, encodingOf, before0, forOp.before, forOp.nextBuffer, allocs, storeToAlloc)
    {
      var store := stores[i];
      var key := Key(store);
      if key !in allocs {
        NewKeyStep(stores, i, base, encodingOf, before0, forOp.before, forOp.nextBuffer, allocs, storeToAlloc);
        var alloc := CreateAlloc(forOp, store, encodingOf);
        allocs := allocs[key := alloc];
      } else {
        SeenKeyStep(stores, i, base, encodingOf, before0, forOp.before, forOp.nextBuffer, allocs, storeToAlloc);
      }
      storeToAlloc := storeToAlloc[store.op := allocs[key]];
    }
    AllocationDone(stores, base);
  }

  /** The rewrite loop of `pipelineTMAStores`: each store replaced, in collection order. */
  method ReplaceStores(forOp: ForLoopIR, stores: seq<TMAStore>, storeToAlloc: map<Op, Buffer>, ghost base: nat)
    requires StoreRecords(stores) && Distinct(OpsOf(stores))
    requires forall j :: 0 <= j < |stores| ==>
      stores[j].op in storeToAlloc && storeToAlloc[stores[j].op] == BufferOf(stores, j, base)
    modifies forOp`body
    ensures forOp.body == Rewrite(old(forOp.body), Copies(stores, |stores|, base))
  {
    ghost var body0 := forOp.body;
    assert Copies(stores, 0, base) == map[];
    RewriteUntouched(body0, map[]);
    for i := 0 to |stores|
      invariant forOp.body == Rewrite(body0, Copies(stores, i, base))
    {
      CreateTMAAsyncCopy(forOp, stores[i], storeToAlloc[stores[i].op]);
      CopiesStep(body0, stores, i, base);
    }
  }

  /** A `local_dealloc` created at the insertion point lands after those created before it. */
  lemma DrainStep(ds: seq<Op>, d: Op, oldAfter: seq<Op>)
    ensures var after := [Emitted(TMAStoreWait(0))] + ds + oldAfter;
      after[..1 + |ds|] + [d] + after[1 + |ds|..] == [Emitted(TMAStoreWait(0))] + (ds + [d]) + oldAfter
  {
    var after := [Emitted(TMAStoreWait(0))] + ds + oldAfter;
    assert after[..1 + |ds|] == [Emitted(TMAStoreWait(0))] + ds;
    assert after[1 + |ds|..] == oldAfter;
  }

  /**
   * The teardown of `pipelineTMAStores`: a wait right after the loop, then a
   * `local_dealloc` for each entry of `storeToAlloc`, in the map's own order.
   */
  method DrainAndDeallocate(forOp: ForLoopIR, stores: seq<TMAStore>, storeToAlloc: map<Op, Buffer>, ghost base: nat)
    requires Distinct(OpsOf(stores))
    requires forall op :: op in storeToAlloc ==> op in OpsOf(stores)
    requires forall j :: 0 <= j < |stores| ==>
      stores[j].op in storeToAlloc && storeToAlloc[stores[j].op] == BufferOf(stores, j, base)
    modifies forOp`after
    ensures Drained(forOp.after, old(forOp.after), stores, base)
  {
    ghost var after0 := forOp.after;
    forOp.after := [Emitted(TMAStoreWait(0))] + forOp.after;
    ghost var visited: seq<Op> := [];
    var pending := storeToAlloc.Keys;
    var ip := 1;
    while pending != {}
      invariant pending <= storeToAlloc.Keys
      invariant forall op :: op in visited <==> op in storeToAlloc && op !in pending
      invariant Distinct(visited)
      invariant ip == 1 + |Image(storeToAlloc, visited)|
      invariant forOp.after == [Emitted(TMAStoreWait(0))] + Deallocs(Image(storeToAlloc, visited)) + after0
      decreases |pending|
    {
      var op :| op in pending;
      var dealloc := Emitted(LocalDealloc(storeToAlloc[op]));
      ghost var ds := Deallocs(Image(storeToAlloc, visited));
      FreedStep(storeToAlloc, visited, op);
      DrainStep(ds, dealloc, after0);
      forOp.after := forOp.after[..ip] + [dealloc] + forOp.after[ip..];
      DistinctSnoc(visited, op);
      ip := ip + 1;
      visited := visited + [op];
      pending := pending - {op};
    }
    DrainedAll(forOp.after, after0, stores, base, visited, storeToAlloc);
  }

  /**
   * `pipelineTMAStores`. Returns whether the loop holds a store to pipeline;
   * if it does not, nothing changes. Otherwise the buffers of the distinct
   * keys are created before the loop, every collected store is replaced by
   * its asynchronous copy through its key's buffer, the loop is followed by a
   * wait and one deallocation per store, and the scheduler is called once when
   * some descriptor is computed on the device.
   */
  method PipelineTMAStores(forOp: ForLoopIR, isHostSideDescriptor: Value -> bool, encodingOf: EncodingOracle)
    returns (changed: bool)
    requires forOp.Valid()
    modifies forOp
    ensures forOp.Valid()
    ensures changed <==> Collect(old(forOp.body)) != []
    ensures !changed ==>
      forOp.before == old(forOp.before) && forOp.body == old(forOp.body) && forOp.after == old(forOp.after) &&
      forOp.schedules == old(forOp.schedules) && forOp.nextBuffer == old(forOp.nextBuffer)
    ensures changed ==>
      var stores := TMAStoresOf(old(forOp.body));
      var base := old(forOp.nextBuffer);
      StoreRecords(stores) &&
      forOp.before == old(forOp.before) + AllocsOf(stores, |stores|, base, encodingOf) &&
      forOp.nextBuffer == base + |KeysOf(stores, |stores|)| &&
      forOp.body == Rewrite(old(forOp.body), Copies(stores, |stores|, base)) &&
      Drained(forOp.after, old(forOp.after), stores, base) &&
      forOp.schedules == old(forOp.schedules) + (if HasDeviceSideTMA(stores, isHostSideDescriptor) then [MaxStage] else [])
  {
    var stores := GetTMAStores(forOp.body);
    if stores == [] {
      return false;
    }
    ghost var body0, after0, schedules0 := forOp.body, forOp.after, forOp.schedules;
    ghost var base := forOp.nextBuffer;
    CollectedRecords(body0);
    var storeToAlloc := AllocateBuffers(forOp, stores, encodingOf);
    ghost var before1, next1 := forOp.before, forOp.nextBuffer;
    var hasDeviceSideTMA := HasDeviceSideTMA(stores, isHostSideDescriptor);
    ReplaceStores(forOp, stores, storeToAlloc, base);
    ghost var body1 := forOp.body;
    DrainAndDeallocate(forOp, stores, storeToAlloc, base);
    assert forOp.before == before1 && forOp.nextBuffer == next1 && forOp.body == body1;
    if hasDeviceSideTMA {
      LowerTMADescriptorCreation(forOp);
    }
    RewrittenWellFormed(body0, base);
    return true;
  }
}
