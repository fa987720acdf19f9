/**
 * The two backends implement one interface (symtable.h): a client that
 * drives a list table and a hash table with the same calls observes the
 * same results.  Each method below performs one operation of the interface
 * on both tables, which start out denoting the same map, and shows that the
 * two calls return the same answer and leave the tables denoting the same
 * map again.  The only observable difference is the order SymTable_map
 * visits the bindings in: newest first for the list, bucket by bucket for the
 * hash table; as maps the visits agree.
 */
module Agreement {
  import opened SymTable
  import SymTableList
  import SymTableHash

  /** Both tables are well formed, share no node, and denote the same map. */
  ghost predicate Same<V>(l: SymTableList.Table<V>, h: SymTableHash.Table<V>)
    reads l, l.nodes, h, h.buckets, h.Repr
  {
    && l.Valid() && h.Valid()
    && (forall n :: n in l.nodes ==> n !in h.Repr)
    && l.Abstract() == h.Abstract()
  }

  /** SymTable_new on both backends: two fresh, empty tables. */
  method New<V>() returns (l: SymTableList.Table<V>, h: SymTableHash.Table<V>)
    ensures Same(l, h) && l.Abstract() == map[]
    ensures fresh(l) && fresh(h) && fresh(h.buckets)
    ensures l.nodes == [] && h.Repr == {}
  {
    l := new SymTableList.Table();
    h := new SymTableHash.Table();
  }

  /** SymTable_getLength on both backends: the same count, the size of the map. */
  method GetLength<V>(l: SymTableList.Table<V>, h: SymTableHash.Table<V>) returns (byList: nat, byHash: nat)
    requires Same(l, h)
    ensures byList == byHash == |l.Abstract()|
  {
    byList := l.GetLength();
    byHash := h.GetLength();
  }

  /** SymTable_contains on both backends: the same answer, whether the key is bound. */
  method Contains<V>(l: SymTableList.Table<V>, h: SymTableHash.Table<V>, key: Key) returns (byList: bool, byHash: bool)
    requires Same(l, h)
    ensures byList == byHash
    ensures byList <==> key in l.Abstract()
  {
    byList := l.Contains(key);
    byHash := h.Contains(key);
  }

  /** SymTable_get on both backends: the same value or the same absence. */
  method Get<V>(l: SymTableList.Table<V>, h: SymTableHash.Table<V>, key: Key) returns (byList: Option<V>, byHash: Option<V>)
    requires Same(l, h)
    ensures byList == byHash
    ensures byList == if key in l.Abstract() then Some(l.Abstract()[key]) else None
  {
    byList := l.Get(key);
    byHash := h.Get(key);
  }

  /** SymTable_put on both backends: the same verdict, and the same map afterwards. */
  method Put<V>(l: SymTableList.Table<V>, h: SymTableHash.Table<V>, key: Key, value: V) returns (byList: bool, byHash: bool)
    requires Same(l, h)
    modifies l, h, h.buckets
    ensures Same(l, h)
    ensures byList == byHash
    ensures byList <==> key !in old(l.Abstract())
    ensures l.Abstract() == if byList then old(l.Abstract())[key := value] else old(l.Abstract())
    ensures l.nodes == if byList then [l.first] + old(l.nodes) else old(l.nodes)
    ensures byList ==> fresh(l.first)
    ensures old(h.Repr) <= h.Repr && fresh(h.Repr - old(h.Repr))
  {
    byHash := h.Put(key, value);
    byList := l.Put(key, value);
  }

  /** SymTable_replace on both backends: the same old value, and the same map afterwards. */
  method Replace<V>(l: SymTableList.Table<V>, h: SymTableHash.Table<V>, key: Key, value: V) returns (byList: Option<V>, byHash: Option<V>)
    requires Same(l, h)
    modifies l, l.nodes, h, h.Repr
    ensures Same(l, h)
    ensures byList == byHash
    ensures byList == if key in old(l.Abstract()) then Some(old(l.Abstract())[key]) else None
    ensures l.Abstract() == if key in old(l.Abstract()) then old(l.Abstract())[key := value] else old(l.Abstract())
    ensures l.nodes == old(l.nodes) && h.Repr == old(h.Repr)
  {
    byHash := h.Replace(key, value);
    byList := l.Replace(key, value);
    LookupIsToMap(old(l.contents), key);
  }

  /** SymTable_remove on both backends: the same removed value, and the same map afterwards. */
  method Remove<V>(l: SymTableList.Table<V>, h: SymTableHash.Table<V>, key: Key) returns (byList: Option<V>, byHash: Option<V>)
    requires Same(l, h)
    modifies l, l.nodes, h, h.buckets, h.Repr
    ensures Same(l, h)
    ensures byList == byHash
    ensures byList == if key in old(l.Abstract()) then Some(old(l.Abstract())[key]) else None
    ensures l.Abstract() == old(l.Abstract()) - {key}
    ensures forall j :: 0 <= j < |l.nodes| ==> l.nodes[j] in old(l.nodes)
    ensures h.Repr == old(h.Repr)
  {
    byHash := h.Remove(key);
    byList := l.Remove(key);
    LookupIsToMap(old(l.contents), key);
  }

  /** SymTable_map on both backends: visits of equal length that denote the same map. */
  method Map<V>(l: SymTableList.Table<V>, h: SymTableHash.Table<V>) returns (byList: seq<Entry<V>>, byHash: seq<Entry<V>>)
    requires Same(l, h)
    ensures |byList| == |byHash| == |l.Abstract()|
    ensures DistinctKeys(byList) && DistinctKeys(byHash)
    ensures ToMap(byList) == ToMap(byHash) == l.Abstract()
  {
    byList := l.Map();
    byHash := h.Map();
  }
}
