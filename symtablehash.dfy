/**
 * The chained-hash-table backend (symtablehash.c): a fixed array of 509
 * bucket chains, a field recording that bucket count, and a count of the live
 * bindings.
 *
 * A binding with key K lives in bucket Hash(K, 509), where Hash is the
 * multiplicative string hash of SymTable_hash.  The table never grows: the
 * bucket count is the constant BUCKET_COUNT for the table's whole life.
 *
 * As in module SymTableList, the binding nodes are objects whose `value` and
 * `next` fields are rewritten in place; the ghost field `chains` lists the
 * nodes of each bucket head first and `contents` lists the entries they hold.
 * The map operation visits Flatten(contents): buckets in index order, each
 * chain head to tail.
 */
module SymTableHash {
  import opened SymTable

  /** The number of buckets (BUCKET_COUNT). */
  const BUCKET_COUNT: nat := 509

  /** HASH_MULTIPLIER of SymTable_hash. */
  const HASH_MULTIPLIER: nat := 65599

  /** size_t is 64 bits wide: its arithmetic wraps modulo 2^64. */
  const SIZE_MODULUS: nat := 0x1_0000_0000_0000_0000

  // ---------------------------------------------------------------------
  // The hash function (SymTable_hash)
  // ---------------------------------------------------------------------

  /** uHash after the loop has consumed the bytes of `s`: h := h * 65599 + byte, wrapping. */
  function Accumulate(s: Key): nat {
    if |s| == 0 then 0
    else (Accumulate(s[..|s| - 1]) * HASH_MULTIPLIER + s[|s| - 1] as int) % SIZE_MODULUS
  }

  /** The bucket index SymTable_hash returns for `key` and `bucketCount` buckets. */
  function Hash(key: Key, bucketCount: nat): (r: nat)
    requires bucketCount > 0
    ensures r < bucketCount
  {
    Accumulate(key) % bucketCount
  }

  /** The hash polynomial over unbounded integers: sum of byte * 65599^(bytes after it). */
  function Horner(s: Key): nat {
    if |s| == 0 then 0 else Horner(s[..|s| - 1]) * HASH_MULTIPLIER + s[|s| - 1] as int
  }

  /** One step of the loop commutes with reduction modulo 2^64. */
  lemma StepMod(a: nat, c: nat)
    ensures ((a % SIZE_MODULUS) * HASH_MULTIPLIER + c) % SIZE_MODULUS == (a * HASH_MULTIPLIER + c) % SIZE_MODULUS
  {
    var q := a / SIZE_MODULUS;
    assert a * HASH_MULTIPLIER + c == (a % SIZE_MODULUS) * HASH_MULTIPLIER + c + (q * HASH_MULTIPLIER) * SIZE_MODULUS;
  }

  /** Wrapping at every step is the same as wrapping once at the end. */
  lemma {:induction false} AccumulateIsHornerMod(s: Key)
    ensures Accumulate(s) == Horner(s) % SIZE_MODULUS
  {
    if |s| > 0 {
      var init := s[..|s| - 1];
      AccumulateIsHornerMod(init);
      StepMod(Horner(init), s[|s| - 1] as int);
    }
  }

  /** SymTable_hash: the loop over the key's bytes, then the reduction modulo the bucket count. */
  method ComputeHash(key: Key, bucketCount: nat) returns (h: nat)
    requires bucketCount > 0
    ensures h == Hash(key, bucketCount)
    ensures h < bucketCount && h == Horner(key) % SIZE_MODULUS % bucketCount
  {
    var uHash: nat := 0;
    var u := 0;
    while u < |key|
      invariant 0 <= u <= |key|
      invariant uHash == Accumulate(key[..u])
    {
      assert key[..u + 1][..u] == key[..u];
      uHash := (uHash * HASH_MULTIPLIER + key[u] as int) % SIZE_MODULUS;
      u := u + 1;
    }
    assert key[..u] == key;
    AccumulateIsHornerMod(key);
    h := uHash % bucketCount;
  }

  // ---------------------------------------------------------------------
  // Buckets of entries: placement and the visit order
  // ---------------------------------------------------------------------

  /** Every entry sits in the bucket its key hashes to, and no bucket holds a key twice. */
  ghost predicate Hashed<V>(t: seq<seq<Entry<V>>>) {
    && |t| > 0
    && (forall b, k :: 0 <= b < |t| && k in Keys(t[b]) ==> Hash(k, |t|) == b)
    && (forall b :: 0 <= b < |t| ==> DistinctKeys(t[b]))
  }

  /** The buckets from index `j` on, concatenated in index order. */
  function FlattenFrom<V>(t: seq<seq<Entry<V>>>, j: nat): seq<Entry<V>>
    decreases |t| - j
  {
    if j >= |t| then [] else t[j] + FlattenFrom(t, j + 1)
  }

  /** All bindings in the order SymTable_map visits them: bucket by bucket, each head to tail. */
  function Flatten<V>(t: seq<seq<Entry<V>>>): seq<Entry<V>> {
    FlattenFrom(t, 0)
  }

  /** The buckets before index `j`, concatenated in index order. */
  function FlattenTo<V>(t: seq<seq<Entry<V>>>, j: nat): seq<Entry<V>>
    requires j <= |t|
  {
    if j == 0 then [] else FlattenTo(t, j - 1) + t[j - 1]
  }

  /** The buckets before `j` followed by the buckets from `j` on are all the buckets. */
  lemma {:induction false} FlattenToAll<V>(t: seq<seq<Entry<V>>>, j: nat)
    requires j <= |t|
    ensures FlattenTo(t, j) + FlattenFrom(t, j) == Flatten(t)
    ensures j == |t| ==> FlattenTo(t, j) == Flatten(t)
  {
    if j > 0 {
      FlattenToAll(t, j - 1);
      assert FlattenFrom(t, j - 1) == t[j - 1] + FlattenFrom(t, j);
    }
  }

  /** A key occurs in the buckets from `j` on exactly when it occurs in its own bucket and that is not before `j`. */
  lemma {:induction false} KeysFlattenFrom<V>(t: seq<seq<Entry<V>>>, j: nat, k: Key)
    requires Hashed(t) && j <= |t|
    ensures k in Keys(FlattenFrom(t, j)) <==> j <= Hash(k, |t|) && k in Keys(t[Hash(k, |t|)])
    decreases |t| - j
  {
    if j < |t| {
      KeysFlattenFrom(t, j + 1, k);
      KeysAppend(t[j], FlattenFrom(t, j + 1));
    }
  }

  /** Scanning all buckets from `j` on finds what scanning the key's own bucket finds. */
  lemma {:induction false} LookupFlattenFrom<V>(t: seq<seq<Entry<V>>>, j: nat, k: Key)
    requires Hashed(t) && j <= |t|
    ensures Lookup(FlattenFrom(t, j), k) == if j <= Hash(k, |t|) then Lookup(t[Hash(k, |t|)], k) else None
    decreases |t| - j
  {
    if j < |t| {
      LookupFlattenFrom(t, j + 1, k);
      LookupAppend(t[j], FlattenFrom(t, j + 1), k);
      LookupAbsent(t[j], k);
    }
  }

  /** Placement makes the keys of the whole table distinct. */
  lemma {:induction false} DistinctFlattenFrom<V>(t: seq<seq<Entry<V>>>, j: nat)
    requires Hashed(t) && j <= |t|
    ensures DistinctKeys(FlattenFrom(t, j))
    decreases |t| - j
  {
    if j < |t| {
      DistinctFlattenFrom(t, j + 1);
      forall k | k in Keys(t[j]) ensures k !in Keys(FlattenFrom(t, j + 1)) {
        KeysFlattenFrom(t, j + 1, k);
      }
      DistinctAppend(t[j], FlattenFrom(t, j + 1));
    }
  }

  /** Replacing bucket `h` changes the number of bindings by the change in that bucket's length. */
  lemma {:induction false} FlattenFromUpdateLength<V>(t: seq<seq<Entry<V>>>, h: nat, c: seq<Entry<V>>, j: nat)
    requires h < |t|
    ensures |FlattenFrom(t[h := c], j)| == |FlattenFrom(t, j)| + (if j <= h then |c| - |t[h]| else 0)
    decreases |t| - j
  {
    if j < |t| {
      FlattenFromUpdateLength(t, h, c, j + 1);
    }
  }

  /** Buckets that are all empty hold no binding. */
  lemma {:induction false} FlattenFromEmpty<V>(t: seq<seq<Entry<V>>>, j: nat)
    requires forall b :: 0 <= b < |t| ==> t[b] == []
    ensures FlattenFrom(t, j) == []
    decreases |t| - j
  {
    if j < |t| {
      FlattenFromEmpty(t, j + 1);
    }
  }

  /** The abstract value of a table of buckets. */
  ghost function AsMap<V>(t: seq<seq<Entry<V>>>): map<Key, V> {
    ToMap(Flatten(t))
  }

  /** With keys placed by the hash, a key is bound exactly as its own bucket binds it. */
  lemma AsMapLookup<V>(t: seq<seq<Entry<V>>>, k: Key)
    requires Hashed(t)
    ensures Lookup(t[Hash(k, |t|)], k) == if k in AsMap(t) then Some(AsMap(t)[k]) else None
  {
    LookupFlattenFrom(t, 0, k);
    LookupIsToMap(Flatten(t), k);
  }

  /** The table holds one binding per entry: the number of entries is the size of the abstract map. */
  lemma AsMapSize<V>(t: seq<seq<Entry<V>>>)
    requires Hashed(t)
    ensures |AsMap(t)| == |Flatten(t)|
  {
    DistinctFlattenFrom(t, 0);
    ToMapSize(Flatten(t));
  }

  /** Rewriting bucket `h` changes what the table binds only for the keys that hash to `h`. */
  lemma LookupAfterUpdate<V>(t: seq<seq<Entry<V>>>, h: nat, c: seq<Entry<V>>, k: Key)
    requires Hashed(t) && h < |t| && Hashed(t[h := c])
    ensures Lookup(Flatten(t[h := c]), k) == if Hash(k, |t|) == h then Lookup(c, k) else Lookup(Flatten(t), k)
  {
    LookupFlattenFrom(t[h := c], 0, k);
    LookupFlattenFrom(t, 0, k);
  }

  /** put of an absent key: prepend to its bucket; the table stays hashed, binds the key and grows by one. */
  lemma PutBucket<V>(t: seq<seq<Entry<V>>>, key: Key, value: V)
    requires Hashed(t) && key !in AsMap(t)
    ensures var h := Hash(key, |t|);
      var t' := t[h := [Entry(key, value)] + t[h]];
      && Hashed(t')
      && AsMap(t') == AsMap(t)[key := value]
      && |Flatten(t')| == |Flatten(t)| + 1
  {
    var h := Hash(key, |t|);
    var c := [Entry(key, value)] + t[h];
    var t' := t[h := c];
    AsMapLookup(t, key);
    LookupAbsent(t[h], key);
    Prepend(Entry(key, value), t[h]);
    assert Hashed(t');
    var m := AsMap(t)[key := value];
    forall k ensures Lookup(Flatten(t'), k) == if k in m then Some(m[k]) else None {
      LookupAfterUpdate(t, h, c, k);
      if Hash(k, |t|) == h {
        AsMapLookup(t, k);
        assert c[1..] == t[h];
      } else {
        LookupIsToMap(Flatten(t), k);
      }
    }
    ToMapByLookup(Flatten(t'), m);
    FlattenFromUpdateLength(t, h, c, 0);
  }

  /** remove: unlink the key from its bucket; the table stays hashed, loses the key and shrinks by one if it was bound. */
  lemma RemoveBucket<V>(t: seq<seq<Entry<V>>>, key: Key)
    requires Hashed(t)
    ensures var h := Hash(key, |t|);
      var t' := t[h := RemoveKey(t[h], key)];
      && Hashed(t')
      && AsMap(t') == AsMap(t) - {key}
      && |Flatten(t')| == if key in AsMap(t) then |Flatten(t)| - 1 else |Flatten(t)|
  {
    var h := Hash(key, |t|);
    var c := RemoveKey(t[h], key);
    var t' := t[h := c];
    RemoveKeyEffect(t[h], key);
    assert Keys(c) <= Keys(t[h]) by {
      assert ToMap(c).Keys == Keys(c) && ToMap(t[h]).Keys == Keys(t[h]);
    }
    assert Hashed(t');
    var m := AsMap(t) - {key};
    forall k ensures Lookup(Flatten(t'), k) == if k in m then Some(m[k]) else None {
      LookupAfterUpdate(t, h, c, k);
      if Hash(k, |t|) == h {
        AsMapLookup(t, k);
        LookupIsToMap(c, k);
        LookupIsToMap(t[h], k);
      } else {
        LookupIsToMap(Flatten(t), k);
      }
    }
    ToMapByLookup(Flatten(t'), m);
    FlattenFromUpdateLength(t, h, c, 0);
    AsMapLookup(t, key);
    LookupAbsent(t[h], key);
  }

  /** replace: overwrite the key's value in its bucket; the table stays hashed, rebinds the key if bound, keeps its size. */
  lemma ReplaceBucket<V>(t: seq<seq<Entry<V>>>, key: Key, value: V)
    requires Hashed(t)
    ensures var h := Hash(key, |t|);
      var t' := t[h := ReplaceValue(t[h], key, value)];
      && Hashed(t')
      && AsMap(t') == (if key in AsMap(t) then AsMap(t)[key := value] else AsMap(t))
      && |Flatten(t')| == |Flatten(t)|
  {
    var h := Hash(key, |t|);
    var c := ReplaceValue(t[h], key, value);
    var t' := t[h := c];
    ReplaceValueEffect(t[h], key, value);
    assert Keys(c) == Keys(t[h]) by {
      assert ToMap(c).Keys == Keys(c) && ToMap(t[h]).Keys == Keys(t[h]);
    }
    assert Hashed(t');
    AsMapLookup(t, key);
    LookupAbsent(t[h], key);
    var m := if key in AsMap(t) then AsMap(t)[key := value] else AsMap(t);
    forall k ensures Lookup(Flatten(t'), k) == if k in m then Some(m[k]) else None {
      LookupAfterUpdate(t, h, c, k);
      if Hash(k, |t|) == h {
        AsMapLookup(t, k);
        LookupIsToMap(c, k);
        LookupIsToMap(t[h], k);
      } else {
        LookupIsToMap(Flatten(t), k);
      }
    }
    ToMapByLookup(Flatten(t'), m);
    FlattenFromUpdateLength(t, h, c, 0);
  }

  // ---------------------------------------------------------------------
  // The table (struct SymTable) and its operations
  // ---------------------------------------------------------------------

  /** A symbol table (struct SymTable): the bucket heads, the bucket count, the binding count. */
  class Table<V> {
    const buckets: array<Node?<V>>
    var size: nat
    var len: nat
    ghost var chains: seq<seq<Node<V>>>
    ghost var contents: seq<seq<Entry<V>>>
    ghost var Repr: set<Node<V>>

    /** Each bucket head starts its chain, every binding is in its hash bucket, keys are unique, len counts them. */
    ghost predicate Valid()
      reads this, buckets, Repr
    {
      && size == BUCKET_COUNT == buckets.Length
      && |chains| == |contents| == BUCKET_COUNT
      && (forall b, n :: 0 <= b < BUCKET_COUNT && n in chains[b] ==> n in Repr)
      && (forall b :: 0 <= b < BUCKET_COUNT ==> Chain(buckets[b], chains[b], contents[b]))
      && Hashed(contents)
      && len == |Flatten(contents)|
    }

    /** The abstract value of the table. */
    ghost function Abstract(): map<Key, V>
      reads this
    {
      AsMap(contents)
    }

    /** Node `i` of bucket `b` holds a key that hashes to `b`. */
    lemma NodeInBucket(b: nat, i: nat)
      requires Valid() && b < BUCKET_COUNT && i < |chains[b]|
      ensures Hash(chains[b][i].key, BUCKET_COUNT) == b
    {
      assert Chain(buckets[b], chains[b], contents[b]);
      KeysIndex(contents[b], contents[b][i].key);
    }

    /** Two places in the chains hold two different nodes: their keys differ. */
    lemma DistinctNodes(b: nat, j: nat, c: nat, k: nat)
      requires Valid() && b < BUCKET_COUNT && j < |chains[b]| && c < BUCKET_COUNT && k < |chains[c]|
      requires b != c || j != k
      ensures chains[b][j].key != chains[c][k].key && chains[b][j] != chains[c][k]
    {
      NodeInBucket(b, j);
      NodeInBucket(c, k);
      if b == c {
        assert Chain(buckets[b], chains[b], contents[b]);
        assert DistinctKeys(contents[b]);
        assert contents[b][j].key == chains[b][j].key;
        assert contents[b][k].key == chains[b][k].key;
      }
    }

    /** Node `i` of bucket `h` occurs nowhere else in the chains. */
    lemma Isolated(h: nat, i: nat)
      requires Valid() && h < BUCKET_COUNT && i < |chains[h]|
      ensures forall b, j :: 0 <= b < BUCKET_COUNT && 0 <= j < |chains[b]| && (b != h || j != i) ==> chains[b][j] != chains[h][i]
    {
      forall b, j | 0 <= b < BUCKET_COUNT && 0 <= j < |chains[b]| && (b != h || j != i)
        ensures chains[b][j] != chains[h][i]
      {
        DistinctNodes(b, j, h, i);
      }
    }

    /** SymTable_new: 509 empty buckets, size 509, no bindings. */
    constructor ()
      ensures Valid() && fresh(buckets) && Repr == {}
      ensures size == BUCKET_COUNT && len == 0
      ensures forall b :: 0 <= b < BUCKET_COUNT ==> buckets[b] == null && contents[b] == []
      ensures Abstract() == map[]
    {
      buckets := new Node?<V>[BUCKET_COUNT](_ => null);
      size := BUCKET_COUNT;
      len := 0;
      chains := seq(BUCKET_COUNT, _ => []);
      contents := seq(BUCKET_COUNT, _ => []);
      Repr := {};
      new;
      FlattenFromEmpty(contents, 0);
    }

    /** SymTable_getLength: the number of bindings, which is the size of the abstract map. */
    method GetLength() returns (n: nat)
      requires Valid()
      ensures n == |Flatten(contents)| && n == |Abstract()|
    {
      AsMapSize(contents);
      n := len;
    }

    /** SymTable_contains: whether the key's bucket has a node with key `key`. */
    method Contains(key: Key) returns (found: bool)
      requires Valid()
      ensures found <==> key in Keys(contents[Hash(key, BUCKET_COUNT)])
      ensures found <==> key in Abstract()
    {
      var h := ComputeHash(key, size);
      AsMapLookup(contents, key);
      LookupAbsent(contents[h], key);
      var p := buckets[h];
      ghost var ns := chains[h];
      assert Chain(buckets[h], ns, contents[h]);
      if p == null {
        return false;
      }
      ghost var i := 0;
      while p != null
        invariant 0 <= i <= |ns|
        invariant p == if i < |ns| then ns[i] else null
        invariant forall j :: 0 <= j < i ==> contents[h][j].key != key
        decreases |ns| - i
      {
        if p.key == key {
          KeysIndex(contents[h], key);
          return true;
        }
        p := p.next;
        i := i + 1;
      }
      KeysIndex(contents[h], key);
      found := false;
    }

    /** SymTable_get: the value of the node with key `key` in the key's bucket, or None. */
    method Get(key: Key) returns (r: Option<V>)
      requires Valid()
      ensures r == Lookup(contents[Hash(key, BUCKET_COUNT)], key)
      ensures r == if key in Abstract() then Some(Abstract()[key]) else None
    {
      var h := ComputeHash(key, size);
      AsMapLookup(contents, key);
      var p := buckets[h];
      ghost var ns := chains[h];
      assert Chain(buckets[h], ns, contents[h]);
      if p == null {
        return None;
      }
      ghost var i := 0;
      while p != null
        invariant 0 <= i <= |ns|
        invariant p == if i < |ns| then ns[i] else null
        invariant forall j :: 0 <= j < i ==> contents[h][j].key != key
        decreases |ns| - i
      {
        if p.key == key {
          LookupFirstMatch(contents[h], key, i);
          return Some(p.value);
        }
        p := p.next;
        i := i + 1;
      }
      KeysIndex(contents[h], key);
      LookupAbsent(contents[h], key);
      r := None;
    }

    /** The store of SymTable_put: node `n`, already pointing at bucket `h`'s head, becomes that head. */
    method Link(h: nat, n: Node<V>)
      requires Valid() && h < BUCKET_COUNT && n !in Repr && n.next == buckets[h]
      requires Hashed(contents[h := [Entry(n.key, n.value)] + contents[h]])
      requires |Flatten(contents[h := [Entry(n.key, n.value)] + contents[h]])| == len + 1
      modifies this, buckets
      ensures Valid()
      ensures buckets[..] == old(buckets[..])[h := n]
      ensures chains == old(chains)[h := [n] + old(chains[h])]
      ensures contents == old(contents)[h := [Entry(n.key, n.value)] + old(contents[h])]
      ensures len == old(len) + 1 && Repr == old(Repr) + {n}
    {
      assert Chain(buckets[h], chains[h], contents[h]);
      ChainCons(n, chains[h], contents[h]);
      buckets[h] := n;
      len := len + 1;
      chains := chains[h := [n] + chains[h]];
      contents := contents[h := [Entry(n.key, n.value)] + contents[h]];
      Repr := Repr + {n};
      forall b | 0 <= b < BUCKET_COUNT
        ensures Chain(buckets[b], chains[b], contents[b])
      {
        if b != h {
          assert old(Chain(buckets[b], chains[b], contents[b]));
        }
      }
    }

    /** SymTable_put: a new binding at the head of the key's bucket, unless the key is already bound. */
    method Put(key: Key, value: V) returns (inserted: bool)
      requires Valid()
      modifies this, buckets
      ensures Valid()
      ensures inserted <==> key !in old(Abstract())
      ensures var h := Hash(key, BUCKET_COUNT);
        contents == if inserted then old(contents)[h := [Entry(key, value)] + old(contents)[h]] else old(contents)
      ensures forall b :: 0 <= b < BUCKET_COUNT && b != Hash(key, BUCKET_COUNT) ==> buckets[b] == old(buckets[b])
      ensures !inserted ==> buckets[..] == old(buckets[..])
      ensures len == if inserted then old(len) + 1 else old(len)
      ensures Abstract() == if inserted then old(Abstract())[key := value] else old(Abstract())
      ensures old(Repr) <= Repr && fresh(Repr - old(Repr))
    {
      var h := ComputeHash(key, size);
      var present := Contains(key);
      if present {
        return false;
      }
      PutBucket(contents, key, value);
      var n := new Node(key, value, buckets[h]);
      Link(h, n);
      inserted := true;
    }

    /** The store of SymTable_replace: node `i` of bucket `h` gets value `value`; every other node is untouched. */
    method Overwrite(h: nat, p: Node<V>, ghost i: nat, value: V)
      requires Valid() && h < BUCKET_COUNT && i < |chains[h]| && p == chains[h][i]
      requires Hashed(contents[h := contents[h][i := Entry(p.key, value)]])
      requires |Flatten(contents[h := contents[h][i := Entry(p.key, value)]])| == len
      modifies this, p
      ensures Valid()
      ensures chains == old(chains) && len == old(len) && Repr == old(Repr)
      ensures contents == old(contents)[h := old(contents[h])[i := Entry(p.key, value)]]
    {
      Isolated(h, i);
      p.value := value;
      contents := contents[h := contents[h][i := Entry(p.key, value)]];
      forall b | 0 <= b < BUCKET_COUNT
        ensures Chain(buckets[b], chains[b], contents[b])
      {
        assert old(Chain(buckets[b], chains[b], contents[b]));
        forall j {:trigger chains[b][j].next} | 0 <= j < |chains[b]|
          ensures chains[b][j].next == Succ(chains[b], j)
        {
          assert old(chains[b][j].next) == old(Succ(chains[b], j));
        }
        forall j | 0 <= j < |chains[b]|
          ensures contents[b][j] == Entry(chains[b][j].key, chains[b][j].value)
        {
          assert old(contents[b][j]) == old(Entry(chains[b][j].key, chains[b][j].value));
        }
      }
    }

    /** SymTable_replace: overwrite the value of the node with key `key` in the key's bucket and return the old value. */
    method Replace(key: Key, value: V) returns (r: Option<V>)
      requires Valid()
      modifies this, Repr
      ensures Valid()
      ensures chains == old(chains) && len == old(len) && Repr == old(Repr)
      ensures var h := Hash(key, BUCKET_COUNT);
        && r == Lookup(old(contents[h]), key)
        && contents == old(contents)[h := ReplaceValue(old(contents[h]), key, value)]
      ensures Abstract() == if key in old(Abstract()) then old(Abstract())[key := value] else old(Abstract())
      ensures r == if key in old(Abstract()) then Some(old(Abstract())[key]) else None
    {
      var h := ComputeHash(key, size);
      var p := buckets[h];
      ghost var ns := chains[h];
      assert Chain(buckets[h], ns, contents[h]);
      if p == null {
        AsMapLookup(contents, key);
        ReplaceValueAbsent(contents[h], key, value);
        return None;
      }
      ghost var i := 0;
      while p != null
        invariant 0 <= i <= |ns|
        invariant p == if i < |ns| then ns[i] else null
        invariant forall j :: 0 <= j < i ==> contents[h][j].key != key
        invariant Valid() && unchanged(this) && unchanged(Repr)
        decreases |ns| - i
      {
        if p.key == key {
          LookupFirstMatch(contents[h], key, i);
          ReplaceValueAt(contents[h], key, value, i);
          AsMapLookup(contents, key);
          ReplaceBucket(contents, key, value);
          r := Some(p.value);
          Overwrite(h, p, i, value);
          return;
        }
        p := p.next;
        i := i + 1;
      }
      KeysIndex(contents[h], key);
      LookupAbsent(contents[h], key);
      ReplaceValueAbsent(contents[h], key, value);
      AsMapLookup(contents, key);
      r := None;
    }

    /** SymTable_remove at the head of bucket `h`: the head pointer skips node `p`, and the count drops. */
    method UnlinkFirst(h: nat, p: Node<V>)
      requires Valid() && h < BUCKET_COUNT && 0 < |chains[h]| && p == chains[h][0]
      requires Hashed(contents[h := contents[h][1..]])
      requires |Flatten(contents[h := contents[h][1..]])| + 1 == len
      modifies this, buckets
      ensures Valid()
      ensures buckets[..] == old(buckets[..])[h := old(p.next)]
      ensures forall b :: 0 <= b < BUCKET_COUNT && b != h ==> buckets[b] == old(buckets[b])
      ensures chains == old(chains)[h := old(chains[h][1..])]
      ensures contents == old(contents)[h := old(contents[h][1..])]
      ensures len == old(len) - 1 && Repr == old(Repr)
    {
      assert Chain(buckets[h], chains[h], contents[h]);
      ChainTail(buckets[h], chains[h], contents[h]);
      buckets[h] := p.next;
      len := len - 1;
      chains := chains[h := chains[h][1..]];
      contents := contents[h := contents[h][1..]];
      forall b | 0 <= b < BUCKET_COUNT && b != h
        ensures Chain(buckets[b], chains[b], contents[b])
      {
        assert old(Chain(buckets[b], chains[b], contents[b]));
      }
    }

    /** SymTable_remove past the head: node `i` of bucket `h` is bypassed through its predecessor `prev`, and the count drops. */
    method UnlinkAfter(h: nat, prev: Node<V>, p: Node<V>, ghost i: nat)
      requires Valid() && h < BUCKET_COUNT && 0 < i < |chains[h]| && p == chains[h][i] && prev == chains[h][i - 1]
      requires Hashed(contents[h := contents[h][..i] + contents[h][i + 1..]])
      requires |Flatten(contents[h := contents[h][..i] + contents[h][i + 1..]])| + 1 == len
      modifies this, prev
      ensures Valid()
      ensures chains == old(chains)[h := old(chains[h][..i] + chains[h][i + 1..])]
      ensures contents == old(contents)[h := old(contents[h][..i] + contents[h][i + 1..])]
      ensures len == old(len) - 1 && Repr == old(Repr)
    {
      Isolated(h, i - 1);
      assert Chain(buckets[h], chains[h], contents[h]);
      ghost var ons, oes := chains[h], contents[h];
      ghost var ns := ons[..i] + ons[i + 1..];
      ghost var es := oes[..i] + oes[i + 1..];
      prev.next := p.next;
      len := len - 1;
      chains := chains[h := ns];
      contents := contents[h := es];
      forall j {:trigger ons[j].next} | 0 <= j < |ons| && j != i - 1 ensures ons[j].next == Succ(ons, j) {
        assert old(ons[j].next) == Succ(ons, j);
      }
      forall j | 0 <= j < |ons| ensures oes[j] == Entry(ons[j].key, ons[j].value) {
        assert old(oes[j] == Entry(ons[j].key, ons[j].value));
      }
      ChainSkip(ons, oes, i);
      forall b | 0 <= b < BUCKET_COUNT && b != h
        ensures Chain(buckets[b], chains[b], contents[b])
      {
        assert old(Chain(buckets[b], chains[b], contents[b]));
        assert prev !in chains[b];
      }
    }

    /** SymTable_remove: unlink the node with key `key` from the key's bucket and return its value. */
    method Remove(key: Key) returns (r: Option<V>)
      requires Valid()
      modifies this, buckets, Repr
      ensures Valid()
      ensures var h := Hash(key, BUCKET_COUNT);
        && r == Lookup(old(contents[h]), key)
        && contents == old(contents)[h := RemoveKey(old(contents[h]), key)]
      ensures r == if key in old(Abstract()) then Some(old(Abstract())[key]) else None
      ensures len == if r.Some? then old(len) - 1 else old(len)
      ensures Abstract() == old(Abstract()) - {key}
      ensures Repr == old(Repr)
      ensures r.None? ==> buckets[..] == old(buckets[..]) && chains == old(chains)
      ensures forall b :: 0 <= b < BUCKET_COUNT && b != Hash(key, BUCKET_COUNT) ==> chains[b] == old(chains[b]) && buckets[b] == old(buckets[b])
    {
      var h := ComputeHash(key, size);
      var p := buckets[h];
      ghost var ns := chains[h];
      assert Chain(buckets[h], ns, contents[h]);
      if p == null {
        AsMapLookup(contents, key);
        RemoveBucket(contents, key);
        RemoveKeyAbsent(contents[h], key);
        return None;
      }
      var prev: Node?<V> := null;
      ghost var i := 0;
      while p != null
        invariant 0 <= i <= |ns|
        invariant p == if i < |ns| then ns[i] else null
        invariant prev == if i == 0 then null else ns[i - 1]
        invariant forall j :: 0 <= j < i ==> contents[h][j].key != key
        invariant Valid() && unchanged(this) && unchanged(buckets) && unchanged(Repr)
        decreases |ns| - i
      {
        if p.key == key {
          LookupFirstMatch(contents[h], key, i);
          RemoveKeyAt(contents[h], key, i);
          AsMapLookup(contents, key);
          RemoveBucket(contents, key);
          r := Some(p.value);
          if prev == null {
            assert contents[h][..0] + contents[h][1..] == contents[h][1..];
            UnlinkFirst(h, p);
          } else {
            UnlinkAfter(h, prev, p, i);
          }
          return;
        }
        prev := p;
        p := p.next;
        i := i + 1;
      }
      KeysIndex(contents[h], key);
      LookupAbsent(contents[h], key);
      RemoveKeyAbsent(contents[h], key);
      AsMapLookup(contents, key);
      RemoveBucket(contents, key);
      r := None;
    }

    /** SymTable_map: the bindings in the order the callback sees them, bucket by bucket, each head to tail. */
    method Map() returns (visited: seq<Entry<V>>)
      requires Valid()
      ensures visited == Flatten(contents) && DistinctKeys(visited)
      ensures |visited| == len == |Abstract()| && ToMap(visited) == Abstract()
    {
      visited := [];
      for b := 0 to size
        invariant visited == FlattenTo(contents, b)
      {
        var p := buckets[b];
        ghost var ns, es := chains[b], contents[b];
        assert Chain(p, ns, es);
        ghost var k := 0;
        while p != null
          invariant 0 <= k <= |ns|
          invariant p == if k < |ns| then ns[k] else null
          invariant visited == FlattenTo(contents, b) + es[..k]
          decreases |ns| - k
        {
          assert es[..k + 1] == es[..k] + [es[k]];
          visited := visited + [Entry(p.key, p.value)];
          p := p.next;
          k := k + 1;
        }
        assert es[..k] == es;
      }
      FlattenToAll(contents, size);
      AsMapSize(contents);
      DistinctFlattenFrom(contents, 0);
    }
  }
}
