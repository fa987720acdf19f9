/**
 * The contract shared by both symbol-table backends (symtable.h).
 *
 * A symbol table is a collection of bindings from unique string keys to
 * opaque values.  Both backends keep their bindings in one or more chains;
 * here a chain is described by the sequence of its entries, head first, and
 * the abstract value of a table is the map that sequence denotes.  The
 * functions below are the reference definitions that the backends' methods
 * are proved against: a head-to-tail scan (Lookup), unlinking the first
 * match (RemoveKey), overwriting the first match's value (ReplaceValue), and
 * the abstraction to a map (ToMap).
 */
module SymTable {

  /** One byte of a C string: any character code except the NUL terminator. */
  type CChar = c: char | 1 <= c as int < 256 witness 'a'

  /** A key: the bytes of a NUL-terminated C string, terminator excluded. */
  type Key = seq<CChar>

  /** A value or the absence of one (the C code's NULL return). */
  datatype Option<T> = None | Some(value: T)

  /** One binding: a key and the opaque value bound to it. */
  datatype Entry<V> = Entry(key: Key, value: V)

  /** The keys of a chain. */
  function Keys<V>(s: seq<Entry<V>>): set<Key> {
    if |s| == 0 then {} else {s[0].key} + Keys(s[1..])
  }

  /** `i` is the position of the first entry of `s` whose key is `k`. */
  ghost predicate FirstMatch<V>(s: seq<Entry<V>>, k: Key, i: int) {
    0 <= i < |s| && s[i].key == k && forall j :: 0 <= j < i ==> s[j].key != k
  }

  /** No two entries of `s` have equal keys (compared byte for byte). */
  ghost predicate DistinctKeys<V>(s: seq<Entry<V>>) {
    forall i, j :: 0 <= i < j < |s| ==> s[i].key != s[j].key
  }

  /** What a head-to-tail scan comparing keys with strcmp finds: the value of the first match. */
  function Lookup<V>(s: seq<Entry<V>>, k: Key): Option<V> {
    if |s| == 0 then None
    else if s[0].key == k then Some(s[0].value)
    else Lookup(s[1..], k)
  }

  /** The chain with the first entry whose key is `k` unlinked. */
  function RemoveKey<V>(s: seq<Entry<V>>, k: Key): seq<Entry<V>> {
    if |s| == 0 then []
    else if s[0].key == k then s[1..]
    else [s[0]] + RemoveKey(s[1..], k)
  }

  /** The chain with the value of the first entry whose key is `k` overwritten by `v`. */
  function ReplaceValue<V>(s: seq<Entry<V>>, k: Key, v: V): seq<Entry<V>> {
    if |s| == 0 then []
    else if s[0].key == k then [Entry(k, v)] + s[1..]
    else [s[0]] + ReplaceValue(s[1..], k, v)
  }

  /** The abstract value of a chain: each key bound to the value of its first entry. */
  function ToMap<V>(s: seq<Entry<V>>): (m: map<Key, V>)
    ensures m.Keys == Keys(s)
  {
    if |s| == 0 then map[] else ToMap(s[1..])[s[0].key := s[0].value]
  }

  /** A key is in the chain exactly when some entry carries it. */
  lemma {:induction false} KeysIndex<V>(s: seq<Entry<V>>, k: Key)
    ensures k in Keys(s) <==> exists i :: 0 <= i < |s| && s[i].key == k
  {
    if |s| > 0 {
      KeysIndex(s[1..], k);
      if k != s[0].key && k in Keys(s[1..]) {
        var i :| 0 <= i < |s[1..]| && s[1..][i].key == k;
        assert s[i + 1].key == k;
      }
      if exists i :: 0 <= i < |s| && s[i].key == k {
        var i :| 0 <= i < |s| && s[i].key == k;
        if i > 0 {
          assert s[1..][i - 1].key == k;
        }
      }
    }
  }

  /** A scan that reaches the first entry with key `k` returns that entry's value. */
  lemma {:induction false} LookupFirstMatch<V>(s: seq<Entry<V>>, k: Key, i: int)
    requires FirstMatch(s, k, i)
    ensures Lookup(s, k) == Some(s[i].value)
  {
    if i > 0 {
      assert FirstMatch(s[1..], k, i - 1);
      LookupFirstMatch(s[1..], k, i - 1);
    }
  }

  /** The scan reports absence exactly when no entry has the key. */
  lemma {:induction false} LookupAbsent<V>(s: seq<Entry<V>>, k: Key)
    ensures Lookup(s, k).None? <==> k !in Keys(s)
  {
    if |s| > 0 {
      LookupAbsent(s[1..], k);
    }
  }

  /** The scan agrees with the abstract map: Lookup is map membership and selection. */
  lemma {:induction false} LookupIsToMap<V>(s: seq<Entry<V>>, k: Key)
    ensures Lookup(s, k) == if k in ToMap(s) then Some(ToMap(s)[k]) else None
  {
    if |s| > 0 && s[0].key != k {
      LookupIsToMap(s[1..], k);
    }
  }

  /** Unlinking the first match removes exactly that position and keeps the order of the rest. */
  lemma {:induction false} RemoveKeyAt<V>(s: seq<Entry<V>>, k: Key, i: int)
    requires FirstMatch(s, k, i)
    ensures RemoveKey(s, k) == s[..i] + s[i + 1..]
  {
    if i > 0 {
      assert FirstMatch(s[1..], k, i - 1);
      RemoveKeyAt(s[1..], k, i - 1);
      assert s[..i] + s[i + 1..] == [s[0]] + (s[1..][..i - 1] + s[1..][i..]);
    }
  }

  /** Overwriting the first match changes exactly that position. */
  lemma {:induction false} ReplaceValueAt<V>(s: seq<Entry<V>>, k: Key, v: V, i: int)
    requires FirstMatch(s, k, i)
    ensures ReplaceValue(s, k, v) == s[i := Entry(k, v)]
  {
    if i > 0 {
      assert FirstMatch(s[1..], k, i - 1);
      ReplaceValueAt(s[1..], k, v, i - 1);
      assert s[i := Entry(k, v)] == [s[0]] + s[1..][i - 1 := Entry(k, v)];
    }
  }

  /** Unlinking a missing key leaves the chain unchanged. */
  lemma {:induction false} RemoveKeyAbsent<V>(s: seq<Entry<V>>, k: Key)
    requires k !in Keys(s)
    ensures RemoveKey(s, k) == s
  {
    if |s| > 0 {
      RemoveKeyAbsent(s[1..], k);
    }
  }

  /** Overwriting the value of a missing key leaves the chain unchanged. */
  lemma {:induction false} ReplaceValueAbsent<V>(s: seq<Entry<V>>, k: Key, v: V)
    requires k !in Keys(s)
    ensures ReplaceValue(s, k, v) == s
  {
    if |s| > 0 {
      ReplaceValueAbsent(s[1..], k, v);
    }
  }

  /** The keys of a concatenation are the keys of both parts. */
  lemma {:induction false} KeysAppend<V>(a: seq<Entry<V>>, b: seq<Entry<V>>)
    ensures Keys(a + b) == Keys(a) + Keys(b)
  {
    if |a| > 0 {
      assert (a + b)[1..] == a[1..] + b;
      KeysAppend(a[1..], b);
    } else {
      assert a + b == b;
    }
  }

  /** Scanning a concatenation finds the first part's match, else the second part's. */
  lemma {:induction false} LookupAppend<V>(a: seq<Entry<V>>, b: seq<Entry<V>>, k: Key)
    ensures Lookup(a + b, k) == if k in Keys(a) then Lookup(a, k) else Lookup(b, k)
  {
    if |a| > 0 {
      assert (a + b)[1..] == a[1..] + b;
      LookupAppend(a[1..], b, k);
    } else {
      assert a + b == b;
    }
  }

  /** Two chains with distinct keys and no key in common concatenate to a chain with distinct keys. */
  lemma DistinctAppend<V>(a: seq<Entry<V>>, b: seq<Entry<V>>)
    requires DistinctKeys(a) && DistinctKeys(b) && Keys(a) !! Keys(b)
    ensures DistinctKeys(a + b)
  {
    var c := a + b;
    forall i, j | 0 <= i < j < |c| ensures c[i].key != c[j].key {
      if j < |a| {
        assert c[i] == a[i] && c[j] == a[j];
      } else if |a| <= i {
        assert c[i] == b[i - |a|] && c[j] == b[j - |a|];
      } else {
        KeysIndex(a, c[i].key);
        KeysIndex(b, c[j].key);
        assert c[i] == a[i] && c[j] == b[j - |a|];
      }
    }
  }

  /** A chain denotes the map `m` if scanning it agrees with `m` on every key. */
  lemma ToMapByLookup<V>(s: seq<Entry<V>>, m: map<Key, V>)
    requires forall k :: Lookup(s, k) == if k in m then Some(m[k]) else None
    ensures ToMap(s) == m
  {
    forall k ensures k in ToMap(s) <==> k in m {
      LookupIsToMap(s, k);
    }
    forall k | k in m ensures ToMap(s)[k] == m[k] {
      LookupIsToMap(s, k);
    }
  }

  /** Prepending an entry keeps keys distinct exactly when its key was absent. */
  lemma Prepend<V>(e: Entry<V>, s: seq<Entry<V>>)
    ensures DistinctKeys([e] + s) <==> DistinctKeys(s) && e.key !in Keys(s)
    ensures ToMap([e] + s) == ToMap(s)[e.key := e.value]
  {
    var t := [e] + s;
    assert t[1..] == s;
    KeysIndex(s, e.key);
    if DistinctKeys(t) {
      forall i, j | 0 <= i < j < |s| ensures s[i].key != s[j].key {
        assert s[i] == t[i + 1] && s[j] == t[j + 1];
      }
      forall j | 0 <= j < |s| ensures s[j].key != e.key {
        assert s[j] == t[j + 1] && t[0] == e;
      }
    }
    if DistinctKeys(s) && e.key !in Keys(s) {
      forall i, j | 0 <= i < j < |t| ensures t[i].key != t[j].key {
        if i == 0 {
          assert t[j] == s[j - 1];
        } else {
          assert t[i] == s[i - 1] && t[j] == s[j - 1];
        }
      }
    }
  }

  /** With distinct keys the map has exactly one key per entry: the length is the map's size. */
  lemma {:induction false} ToMapSize<V>(s: seq<Entry<V>>)
    requires DistinctKeys(s)
    ensures |ToMap(s)| == |s|
  {
    if |s| > 0 {
      assert s == [s[0]] + s[1..];
      Prepend(s[0], s[1..]);
      ToMapSize(s[1..]);
    }
  }

  /** Unlinking a key shortens the chain by one when the key is present, keeps keys distinct and deletes the key from the map. */
  lemma {:induction false} RemoveKeyEffect<V>(s: seq<Entry<V>>, k: Key)
    requires DistinctKeys(s)
    ensures DistinctKeys(RemoveKey(s, k))
    ensures ToMap(RemoveKey(s, k)) == ToMap(s) - {k}
    ensures |RemoveKey(s, k)| == if k in Keys(s) then |s| - 1 else |s|
  {
    if |s| > 0 {
      var e, t := s[0], s[1..];
      assert s == [e] + t;
      Prepend(e, t);
      if e.key != k {
        var rest := RemoveKey(t, k);
        RemoveKeyEffect(t, k);
        Prepend(e, rest);
      }
    }
  }

  /** Overwriting a value keeps the length and every key in place. */
  lemma {:induction false} ReplaceValueKeys<V>(s: seq<Entry<V>>, k: Key, v: V)
    ensures |ReplaceValue(s, k, v)| == |s|
    ensures forall i :: 0 <= i < |s| ==> ReplaceValue(s, k, v)[i].key == s[i].key
  {
    if |s| > 0 && s[0].key != k {
      var r, rest := ReplaceValue(s, k, v), ReplaceValue(s[1..], k, v);
      ReplaceValueKeys(s[1..], k, v);
      forall i | 0 <= i < |s| ensures r[i].key == s[i].key {
        if i > 0 {
          assert r[i] == rest[i - 1] && s[i] == s[1..][i - 1];
        }
      }
    }
  }

  /** Overwriting a value keeps the keys in place and distinct, and rebinds the key in the map when present. */
  lemma {:induction false} ReplaceValueEffect<V>(s: seq<Entry<V>>, k: Key, v: V)
    requires DistinctKeys(s)
    ensures |ReplaceValue(s, k, v)| == |s|
    ensures forall i :: 0 <= i < |s| ==> ReplaceValue(s, k, v)[i].key == s[i].key
    ensures DistinctKeys(ReplaceValue(s, k, v))
    ensures ToMap(ReplaceValue(s, k, v)) == if k in Keys(s) then ToMap(s)[k := v] else ToMap(s)
  {
    ReplaceValueKeys(s, k, v);
    if |s| > 0 {
      var e, t := s[0], s[1..];
      assert s == [e] + t;
      Prepend(e, t);
      if e.key == k {
        Prepend(Entry(k, v), t);
      } else {
        var rest := ReplaceValue(t, k, v);
        ReplaceValueEffect(t, k, v);
        Prepend(e, rest);
      }
    }
  }

  // ---------------------------------------------------------------------
  // Chains of nodes, the pointer structure both backends are built from
  // ---------------------------------------------------------------------

  /**
   * One node of a chain (struct Node of the list backend, struct Binding of
   * the hash backend, which have the same three fields): the table's own copy
   * of the key, the value, and the link to the next node.
   */
  class Node<V> {
    const key: Key
    var value: V
    var next: Node?<V>

    constructor (key: Key, value: V, next: Node?<V>)
      ensures this.key == key && this.value == value && this.next == next
    {
      this.key := key;
      this.value := value;
      this.next := next;
    }
  }

  /** The node after position `i` of `ns`, or null after the last one. */
  ghost function Succ<V>(ns: seq<Node<V>>, i: int): Node?<V> {
    if 0 <= i && i + 1 < |ns| then ns[i + 1] else null
  }

  /** The nodes `ns` are the chain that starts at `head`, head to tail, and they hold the entries `es`. */
  ghost predicate Chain<V>(head: Node?<V>, ns: seq<Node<V>>, es: seq<Entry<V>>)
    reads ns
  {
    && |ns| == |es|
    && head == (if |ns| == 0 then null else ns[0])
    && (forall i {:trigger ns[i].next} :: 0 <= i < |ns| ==> ns[i].next == Succ(ns, i))
    && (forall i :: 0 <= i < |ns| ==> es[i] == Entry(ns[i].key, ns[i].value))
  }

  /** Past its first node, a chain is the chain that starts at that node's successor. */
  lemma ChainTail<V>(head: Node?<V>, ns: seq<Node<V>>, es: seq<Entry<V>>)
    requires Chain(head, ns, es) && 0 < |ns|
    ensures Chain(ns[0].next, ns[1..], es[1..])
  {
    var ns', es' := ns[1..], es[1..];
    assert ns[0].next == Succ(ns, 0);
    forall j {:trigger ns'[j].next} | 0 <= j < |ns'| ensures ns'[j].next == Succ(ns', j) {
      assert ns'[j] == ns[j + 1];
      assert ns[j + 1].next == Succ(ns, j + 1);
    }
    forall j | 0 <= j < |ns'| ensures es'[j] == Entry(ns'[j].key, ns'[j].value) {
      assert ns'[j] == ns[j + 1] && es'[j] == es[j + 1];
    }
  }

  /**
   * Bypassing node `i` (not the first) of a chain: when its predecessor points past
   * it and every other node still points to its successor, the rest is a chain again.
   */
  lemma ChainSkip<V>(ns: seq<Node<V>>, es: seq<Entry<V>>, i: nat)
    requires 0 < i < |ns| == |es|
    requires forall j {:trigger ns[j].next} :: 0 <= j < |ns| && j != i - 1 ==> ns[j].next == Succ(ns, j)
    requires ns[i - 1].next == Succ(ns, i)
    requires forall j :: 0 <= j < |ns| ==> es[j] == Entry(ns[j].key, ns[j].value)
    ensures Chain(ns[0], ns[..i] + ns[i + 1..], es[..i] + es[i + 1..])
  {
    var ns', es' := ns[..i] + ns[i + 1..], es[..i] + es[i + 1..];
    forall j {:trigger ns'[j].next} | 0 <= j < |ns'| ensures ns'[j].next == Succ(ns', j) {
      var k := if j < i then j else j + 1;
      assert ns'[j] == ns[k];
      assert ns[k].next == if k == i - 1 then Succ(ns, i) else Succ(ns, k);
    }
    forall j | 0 <= j < |ns'| ensures es'[j] == Entry(ns'[j].key, ns'[j].value) {
      var k := if j < i then j else j + 1;
      assert ns'[j] == ns[k] && es'[j] == es[k];
    }
  }

  /** A node linked in front of a chain starts a chain one longer. */
  lemma ChainCons<V>(n: Node<V>, ns: seq<Node<V>>, es: seq<Entry<V>>)
    requires Chain(n.next, ns, es)
    ensures Chain(n, [n] + ns, [Entry(n.key, n.value)] + es)
  {
    var ns', es' := [n] + ns, [Entry(n.key, n.value)] + es;
    forall i {:trigger ns'[i].next} | 0 <= i < |ns'| ensures ns'[i].next == Succ(ns', i) {
      if i == 0 {
        assert n.next == if |ns| == 0 then null else ns[0];
      } else {
        assert ns'[i] == ns[i - 1];
        assert ns[i - 1].next == if i < |ns| then ns[i] else null;
        if i + 1 < |ns'| {
          assert ns'[i + 1] == ns[i];
        }
      }
    }
    forall i | 0 <= i < |ns'| ensures es'[i] == Entry(ns'[i].key, ns'[i].value) {
      if i > 0 {
        assert ns'[i] == ns[i - 1] && es'[i] == es[i - 1];
      }
    }
    assert |ns'| == |es'| && n == ns'[0];
    assert forall i :: 0 <= i < |ns'| ==> es'[i] == Entry(ns'[i].key, ns'[i].value);
    assert Chain(n, ns', es');
  }
}
