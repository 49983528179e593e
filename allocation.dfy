/**
 * The staging-buffer allocator of `pipelineTMAStores`: one `local_alloc` per
 * distinct (shape, element type) key, created at the first store with that key,
 * and the buffer each store is given.
 */
module Allocation {
  import opened Util
  import opened IR
  import opened Collector

  /** The key of `allocs`: the shape and element type of the stored tensor. */
  type AllocKey = (seq<int>, ElementType)

  function Key(store: TMAStore): AllocKey
  {
    (store.src.ty.shape, store.src.ty.elementType)
  }

  /** `getEncodingFromDescriptor(op, tensorType, desc)`, supplied by the caller. */
  type EncodingOracle = (Op, RankedTensorType, Value) -> Encoding

  /** The mutable shared-memory type of the buffer `createAlloc` makes for `store`. */
  function BufferType(store: TMAStore, encodingOf: EncodingOracle): MemDescType
  {
    var ty := store.src.ty;
    MemDescType(ty.shape, ty.elementType, encodingOf(store.op, ty, store.desc), SharedMemory, true)
  }

  /**
   * The keys of `allocs` once the first `n` stores are processed, in the
   * order their buffers were created.
   */
  function KeysOf(stores: seq<TMAStore>, n: nat): seq<AllocKey>
    requires n <= |stores|
  {
    if n == 0 then []
    else
      var prev := KeysOf(stores, n - 1);
      if Key(stores[n - 1]) in prev then prev else prev + [Key(stores[n - 1])]
  }

  /** The `local_alloc`s created for the first `n` stores, in creation order. */
  function AllocsOf(stores: seq<TMAStore>, n: nat, base: nat, encodingOf: EncodingOracle): seq<Op>
    requires n <= |stores|
  {
    if n == 0 then []
    else
      var prev := AllocsOf(stores, n - 1, base, encodingOf);
      var keys := KeysOf(stores, n - 1);
      if Key(stores[n - 1]) in keys then prev
      else prev + [Emitted(LocalAlloc(Buffer(base + |keys|), BufferType(stores[n - 1], encodingOf)))]
  }

  /** The position of the first `k` in `keys`, or `|keys|` when there is none. */
  function IndexOf<K(==)>(keys: seq<K>, k: K): (r: nat)
    ensures r <= |keys|
    ensures r < |keys| <==> k in keys
    ensures r < |keys| ==> keys[r] == k
  {
    if keys == [] then 0 else if keys[0] == k then 0 else 1 + IndexOf(keys[1..], k)
  }

  /** No earlier position of `keys` holds `k`. */
  lemma {:induction false} IndexOfFirst<K>(keys: seq<K>, k: K)
    ensures forall j :: 0 <= j < IndexOf(keys, k) ==> keys[j] != k
  {
    if keys != [] && keys[0] != k {
      IndexOfFirst(keys[1..], k);
      forall j | 0 <= j < IndexOf(keys, k) ensures keys[j] != k {
        if j > 0 {
          assert keys[j] == keys[1..][j - 1];
        }
      }
    }
  }

  /** No earlier store has the key of store `i`. */
  ghost predicate FirstOfKey(stores: seq<TMAStore>, i: nat)
    requires i < |stores|
  {
    forall j :: 0 <= j < i ==> Key(stores[j]) != Key(stores[i])
  }

  /** The buffer `storeToAlloc` gives store `i`: the one made for its key. */
  function BufferOf(stores: seq<TMAStore>, i: nat, base: nat): Buffer
    requires i < |stores|
  {
    Buffer(base + IndexOf(KeysOf(stores, |stores|), Key(stores[i])))
  }

  /** The buffer of each of the first `n` stores, in store order. */
  function StoreBuffers(stores: seq<TMAStore>, n: nat, base: nat): (r: seq<Buffer>)
    requires n <= |stores|
    ensures |r| == n
  {
    if n == 0 then [] else StoreBuffers(stores, n - 1, base) + [BufferOf(stores, n - 1, base)]
  }

  /** Position `i` of `StoreBuffers` is the buffer of store `i`. */
  lemma {:induction false} StoreBuffersAt(stores: seq<TMAStore>, n: nat, base: nat, i: nat)
    requires i < n <= |stores|
    ensures StoreBuffers(stores, n, base)[i] == BufferOf(stores, i, base)
  {
    if i < n - 1 {
      StoreBuffersAt(stores, n - 1, base, i);
    }
  }

  /** How many of the first `n` stores have key `k`. */
  function CountKey(stores: seq<TMAStore>, n: nat, k: AllocKey): nat
    requires n <= |stores|
  {
    if n == 0 then 0 else CountKey(stores, n - 1, k) + (if Key(stores[n - 1]) == k then 1 else 0)
  }

  /** The distinct keys among the stores. */
  ghost function KeySet(stores: seq<TMAStore>): set<AllocKey>
  {
    set i | 0 <= i < |stores| :: Key(stores[i])
  }

  // ---------------------------------------------------------------------------

  /**
   * After `n` stores, `allocs` holds each key seen so far exactly once and
   * nothing else, so it is never larger than the number of stores.
   */
  lemma {:induction false} KeysOfSpec(stores: seq<TMAStore>, n: nat)
    requires n <= |stores|
    ensures Distinct(KeysOf(stores, n))
    ensures forall k :: k in KeysOf(stores, n) <==> exists i :: 0 <= i < n && Key(stores[i]) == k
    ensures |KeysOf(stores, n)| <= n
  {
    KeysOfSeen(stores, n);
    forall k | k in KeysOf(stores, n) ensures exists i :: 0 <= i < n && Key(stores[i]) == k {
      var w := KeysOfWitness(stores, n, k);
    }
  }

  /** The keys after `n` stores are distinct and include the key of each of those stores. */
  lemma {:induction false} KeysOfSeen(stores: seq<TMAStore>, n: nat)
    requires n <= |stores|
    ensures Distinct(KeysOf(stores, n)) && |KeysOf(stores, n)| <= n
    ensures forall i :: 0 <= i < n ==> Key(stores[i]) in KeysOf(stores, n)
  {
    if n > 0 {
      KeysOfSeen(stores, n - 1);
      var prev := KeysOf(stores, n - 1);
      if Key(stores[n - 1]) !in prev {
        DistinctSnoc(prev, Key(stores[n - 1]));
      }
    }
  }

  /** Every key after `n` stores is the key of one of those stores. */
  lemma {:induction false} KeysOfWitness(stores: seq<TMAStore>, n: nat, k: AllocKey) returns (w: nat)
    requires n <= |stores| && k in KeysOf(stores, n)
    ensures w < n && Key(stores[w]) == k
  {
    var prev := KeysOf(stores, n - 1);
    if k in prev {
      w := KeysOfWitness(stores, n - 1, k);
    } else {
      w := n - 1;
    }
  }

  /** The keys of an earlier point are a prefix of the keys of a later one. */
  lemma {:induction false} KeysOfPrefix(stores: seq<TMAStore>, i: nat, n: nat)
    requires i <= n <= |stores|
    ensures KeysOf(stores, i) <= KeysOf(stores, n)
    decreases n - i
  {
    if i < n {
      KeysOfPrefix(stores, i, n - 1);
    }
  }

  lemma IndexOfPrefix<K>(a: seq<K>, b: seq<K>, k: K)
    requires k in a && a <= b
    ensures IndexOf(b, k) == IndexOf(a, k)
  {
    var r := IndexOf(a, k);
    assert b[r] == a[r];
    IndexOfFirst(a, k);
    IndexOfFirst(b, k);
    if IndexOf(b, k) < r {
      assert a[IndexOf(b, k)] == b[IndexOf(b, k)];
    }
  }

  /** A key appended to keys that lack it is found at the end. */
  lemma {:induction false} IndexOfAppended<K>(keys: seq<K>, k: K)
    requires k !in keys
    ensures IndexOf(keys + [k], k) == |keys|
  {
    if keys != [] {
      assert (keys + [k])[0] == keys[0] && (keys + [k])[1..] == keys[1..] + [k];
      IndexOfAppended(keys[1..], k);
    }
  }

  lemma IndexOfDistinct<K>(keys: seq<K>, p: nat)
    requires p < |keys| && Distinct(keys)
    ensures IndexOf(keys, keys[p]) == p
  {
    IndexOfFirst(keys, keys[p]);
  }

  /** Two stores share a buffer if and only if their keys are equal, whatever their descriptors. */
  lemma BufferSharing(stores: seq<TMAStore>, i: nat, j: nat, base: nat)
    requires i < |stores| && j < |stores|
    ensures BufferOf(stores, i, base) == BufferOf(stores, j, base) <==> Key(stores[i]) == Key(stores[j])
  {
    KeysOfSeen(stores, |stores|);
  }

  /** There are exactly as many buffers as distinct keys, and no more than stores. */
  lemma BufferCount(stores: seq<TMAStore>, base: nat, encodingOf: EncodingOracle)
    ensures |AllocsOf(stores, |stores|, base, encodingOf)| == |KeysOf(stores, |stores|)| == |KeySet(stores)|
    ensures |KeySet(stores)| <= |stores|
  {
    var n := |stores|;
    AllocsShape(stores, n, base, encodingOf);
    KeysOfSpec(stores, n);
    var keys := KeysOf(stores, n);
    assert (set k | k in keys) == KeySet(stores) by {
      forall k | k in KeySet(stores) ensures k in keys {
        var i :| 0 <= i < |stores| && Key(stores[i]) == k;
      }
    }
    DistinctCardinality(keys);
  }

  /**
   * The buffers are created in order of the first store of each key: buffer
   * `base + j` is a mutable shared-memory buffer of the `j`-th distinct key.
   */
  lemma {:induction false} AllocsShape(stores: seq<TMAStore>, n: nat, base: nat, encodingOf: EncodingOracle)
    requires n <= |stores|
    ensures |AllocsOf(stores, n, base, encodingOf)| == |KeysOf(stores, n)|
    ensures forall j :: 0 <= j < |KeysOf(stores, n)| ==>
      var a := AllocsOf(stores, n, base, encodingOf)[j];
      a.Emitted? && a.e.LocalAlloc? && a.e.result == Buffer(base + j) &&
      (a.e.ty.shape, a.e.ty.elementType) == KeysOf(stores, n)[j] &&
      a.e.ty.memorySpace == SharedMemory && a.e.ty.mutableMemory
  {
    if n > 0 {
      AllocsShape(stores, n - 1, base, encodingOf);
    }
  }

  /** One `local_alloc` per key. */
  lemma {:induction false} AllocsLength(stores: seq<TMAStore>, n: nat, base: nat, encodingOf: EncodingOracle)
    requires n <= |stores|
    ensures |AllocsOf(stores, n, base, encodingOf)| == |KeysOf(stores, n)|
  {
    if n > 0 {
      AllocsLength(stores, n - 1, base, encodingOf);
    }
  }

  /**
   * After `n` stores, the `local_alloc` of store `i`'s key is at the key's
   * position and has the type worked out from store `i`.
   */
  ghost predicate AllocatedFrom(stores: seq<TMAStore>, n: nat, i: nat, base: nat, encodingOf: EncodingOracle)
    requires i < n <= |stores|
  {
    var j := IndexOf(KeysOf(stores, n), Key(stores[i]));
    j < |AllocsOf(stores, n, base, encodingOf)| &&
    AllocsOf(stores, n, base, encodingOf)[j] == Emitted(LocalAlloc(Buffer(base + j), BufferType(stores[i], encodingOf)))
  }

  /**
   * The store that first has a key is the one whose `local_alloc` is created:
   * its descriptor decides the layout of the buffer every store of that key uses.
   */
  lemma AllocsFirstOccurrence(stores: seq<TMAStore>, n: nat, i: nat, base: nat, encodingOf: EncodingOracle)
    requires i < n <= |stores| && FirstOfKey(stores, i)
    ensures Key(stores[i]) in KeysOf(stores, n)
    ensures var j := IndexOf(KeysOf(stores, n), Key(stores[i]));
      j < |AllocsOf(stores, n, base, encodingOf)| &&
      AllocsOf(stores, n, base, encodingOf)[j] == Emitted(LocalAlloc(Buffer(base + j), BufferType(stores[i], encodingOf)))
  {
    AllocatedFromFirst(stores, n, i, base, encodingOf);
  }

  lemma {:induction false} AllocatedFromFirst(stores: seq<TMAStore>, n: nat, i: nat, base: nat, encodingOf: EncodingOracle)
    requires i < n <= |stores| && FirstOfKey(stores, i)
    ensures Key(stores[i]) in KeysOf(stores, n) && AllocatedFrom(stores, n, i, base, encodingOf)
    decreases n
  {
    if i < n - 1 {
      AllocatedFromFirst(stores, n - 1, i, base, encodingOf);
      AllocsKeptLater(stores, n, i, base, encodingOf);
    } else {
      KeyNotSeen(stores, i, i);
      AllocsCreatedAt(stores, i, base, encodingOf);
    }
  }

  /** A later store leaves the `local_alloc` of an existing key where it was. */
  lemma AllocsKeptLater(stores: seq<TMAStore>, n: nat, i: nat, base: nat, encodingOf: EncodingOracle)
    requires i < n - 1 && n <= |stores|
    requires Key(stores[i]) in KeysOf(stores, n - 1) && AllocatedFrom(stores, n - 1, i, base, encodingOf)
    ensures Key(stores[i]) in KeysOf(stores, n) && AllocatedFrom(stores, n, i, base, encodingOf)
  {
    var keys := KeysOf(stores, n - 1);
    var prev := AllocsOf(stores, n - 1, base, encodingOf);
    KeysOfPrefix(stores, n - 1, n);
    IndexOfPrefix(keys, KeysOf(stores, n), Key(stores[i]));
    assert prev <= AllocsOf(stores, n, base, encodingOf);
  }

  /** The first store of a key creates its `local_alloc`, after those of the earlier keys. */
  lemma AllocsCreatedAt(stores: seq<TMAStore>, i: nat, base: nat, encodingOf: EncodingOracle)
    requires i < |stores| && Key(stores[i]) !in KeysOf(stores, i)
    ensures Key(stores[i]) in KeysOf(stores, i + 1) && AllocatedFrom(stores, i + 1, i, base, encodingOf)
  {
    var keys, prev := KeysOf(stores, i), AllocsOf(stores, i, base, encodingOf);
    var alloc := Emitted(LocalAlloc(Buffer(base + |keys|), BufferType(stores[i], encodingOf)));
    NewKeyIndex(stores, i);
    NewKeyAlloc(stores, i, base, encodingOf);
    AllocsLength(stores, i, base, encodingOf);
    assert (prev + [alloc])[|keys|] == alloc;
  }

  /** A new key goes at the end of the keys. */
  lemma NewKeyIndex(stores: seq<TMAStore>, i: nat)
    requires i < |stores| && Key(stores[i]) !in KeysOf(stores, i)
    ensures Key(stores[i]) in KeysOf(stores, i + 1)
    ensures IndexOf(KeysOf(stores, i + 1), Key(stores[i])) == |KeysOf(stores, i)|
  {
    IndexOfAppended(KeysOf(stores, i), Key(stores[i]));
  }

  /** A new key appends its `local_alloc`, typed after the store that brings it. */
  lemma NewKeyAlloc(stores: seq<TMAStore>, i: nat, base: nat, encodingOf: EncodingOracle)
    requires i < |stores| && Key(stores[i]) !in KeysOf(stores, i)
    ensures AllocsOf(stores, i + 1, base, encodingOf) == AllocsOf(stores, i, base, encodingOf) +
      [Emitted(LocalAlloc(Buffer(base + |KeysOf(stores, i)|), BufferType(stores[i], encodingOf)))]
  {
  }

  /** The first store of a key finds it missing from the keys of the stores before it. */
  lemma {:induction false} KeyNotSeen(stores: seq<TMAStore>, n: nat, i: nat)
    requires n <= i < |stores| && FirstOfKey(stores, i)
    ensures Key(stores[i]) !in KeysOf(stores, n)
  {
    if n > 0 {
      KeyNotSeen(stores, n - 1, i);
      assert Key(stores[n - 1]) != Key(stores[i]);
    }
  }

  /**
   * A buffer shared by several stores is listed once per store: the number
   * of times store `i`'s buffer occurs is the number of stores with its key.
   */
  lemma {:induction false} StoreBuffersCount(stores: seq<TMAStore>, n: nat, base: nat, i: nat)
    requires i < |stores| && n <= |stores|
    ensures multiset(StoreBuffers(stores, n, base))[BufferOf(stores, i, base)] == CountKey(stores, n, Key(stores[i]))
  {
    if n > 0 {
      StoreBuffersCount(stores, n - 1, base, i);
      BufferSharing(stores, i, n - 1, base);
      SnocCount(StoreBuffers(stores, n - 1, base), BufferOf(stores, n - 1, base), BufferOf(stores, i, base));
    }
  }

  /**
   * Processing store `i` either finds its key already present, leaving the
   * keys alone, or appends the key; the keys already there keep their position.
   */
  lemma KeysOfStep(stores: seq<TMAStore>, i: nat)
    requires i < |stores|
    ensures Key(stores[i]) in KeysOf(stores, i) ==> KeysOf(stores, i + 1) == KeysOf(stores, i)
    ensures Key(stores[i]) !in KeysOf(stores, i) ==>
      KeysOf(stores, i + 1) == KeysOf(stores, i) + [Key(stores[i])] &&
      IndexOf(KeysOf(stores, i + 1), Key(stores[i])) == |KeysOf(stores, i)|
    ensures forall k :: k in KeysOf(stores, i) ==> IndexOf(KeysOf(stores, i + 1), k) == IndexOf(KeysOf(stores, i), k)
  {
    KeysOfSeen(stores, i + 1);
    KeysOfPrefix(stores, i, i + 1);
    forall k | k in KeysOf(stores, i) ensures IndexOf(KeysOf(stores, i + 1), k) == IndexOf(KeysOf(stores, i), k) {
      IndexOfPrefix(KeysOf(stores, i), KeysOf(stores, i + 1), k);
    }
    if Key(stores[i]) !in KeysOf(stores, i) {
      IndexOfDistinct(KeysOf(stores, i + 1), |KeysOf(stores, i)|);
    }
  }

  /** Every store counts towards its own key. */
  lemma {:induction false} CountKeyPositive(stores: seq<TMAStore>, n: nat, i: nat)
    requires i < n <= |stores|
    ensures CountKey(stores, n, Key(stores[i])) >= 1
  {
    if i < n - 1 {
      CountKeyPositive(stores, n - 1, i);
    }
  }

  /**
   * Processing store `i` creates a buffer exactly when its key is new; the
   * new buffer goes after those created before it.
   */
  lemma AllocsOfStep(pre: seq<Op>, stores: seq<TMAStore>, i: nat, base: nat, encodingOf: EncodingOracle)
    requires i < |stores|
    ensures Key(stores[i]) in KeysOf(stores, i) ==>
      pre + AllocsOf(stores, i + 1, base, encodingOf) == pre + AllocsOf(stores, i, base, encodingOf)
    ensures Key(stores[i]) !in KeysOf(stores, i) ==>
      pre + AllocsOf(stores, i + 1, base, encodingOf) == (pre + AllocsOf(stores, i, base, encodingOf)) +
        [Emitted(LocalAlloc(Buffer(base + |KeysOf(stores, i)|), BufferType(stores[i], encodingOf)))]
  {
  }
}
