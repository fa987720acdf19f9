/**
 * The association-list backend (symtablelist.c): one singly linked chain of
 * nodes, most recently inserted first, and a count of the live bindings.
 *
 * The nodes are real objects whose `value` and `next` fields are rewritten
 * in place.  Two ghost fields describe the chain: `nodes`, the node objects
 * from `first` to the last one, and `contents`, the entries they hold.  The
 * table invariant `Valid` ties them to the pointers and requires distinct
 * keys; the methods are proved against the reference functions of module
 * SymTable, and each also states its effect on the abstract map.
 */
module SymTableList {
  import opened SymTable

  /** A symbol table (struct SymTable): the head of the chain and the binding count. */
  class Table<V> {
    var first: Node?<V>
    var len: nat
    ghost var nodes: seq<Node<V>>
    ghost var contents: seq<Entry<V>>

    /** `first` starts the chain `nodes`, which holds `contents`; keys are unique; len counts them. */
    ghost predicate Valid()
      reads this, nodes
    {
      && |nodes| == len
      && Chain(first, nodes, contents)
      && DistinctKeys(contents)
    }

    /** The abstract value of the table. */
    ghost function Abstract(): map<Key, V>
      reads this
    {
      ToMap(contents)
    }

    /** SymTable_new: an empty list. */
    constructor ()
      ensures Valid()
      ensures nodes == [] && contents == [] && len == 0 && Abstract() == map[]
    {
      first := null;
      len := 0;
      nodes := [];
      contents := [];
    }

    /** SymTable_getLength: the number of bindings, which is the size of the abstract map. */
    method GetLength() returns (n: nat)
      requires Valid()
      ensures n == |contents| && n == |Abstract()|
    {
      ToMapSize(contents);
      n := len;
    }

    /** SymTable_contains: whether some node has key `key`. */
    method Contains(key: Key) returns (found: bool)
      requires Valid()
      ensures found <==> key in Keys(contents)
      ensures found <==> key in Abstract()
    {
      var p := first;
      if p == null {
        return false;
      }
      ghost var i := 0;
      while p != null
        invariant 0 <= i <= |nodes|
        invariant p == if i < |nodes| then nodes[i] else null
        invariant forall j :: 0 <= j < i ==> contents[j].key != key
        decreases |nodes| - i
      {
        if p.key == key {
          KeysIndex(contents, key);
          return true;
        }
        p := p.next;
        i := i + 1;
      }
      KeysIndex(contents, key);
      found := false;
    }

    /** SymTable_get: the value of the node with key `key`, or None. */
    method Get(key: Key) returns (r: Option<V>)
      requires Valid()
      ensures r == Lookup(contents, key)
      ensures r == if key in Abstract() then Some(Abstract()[key]) else None
    {
      LookupIsToMap(contents, key);
      var p := first;
      if p == null {
        return None;
      }
      ghost var i := 0;
      while p != null
        invariant 0 <= i <= |nodes|
        invariant p == if i < |nodes| then nodes[i] else null
        invariant forall j :: 0 <= j < i ==> contents[j].key != key
        decreases |nodes| - i
      {
        if p.key == key {
          LookupFirstMatch(contents, key, i);
          return Some(p.value);
        }
        p := p.next;
        i := i + 1;
      }
      KeysIndex(contents, key);
      LookupAbsent(contents, key);
      r := None;
    }

    /** SymTable_put: prepend a new node unless the key is already bound. */
    method Put(key: Key, value: V) returns (inserted: bool)
      requires Valid()
      modifies this
      ensures Valid()
      ensures inserted <==> key !in old(Abstract())
      ensures contents == if inserted then [Entry(key, value)] + old(contents) else old(contents)
      ensures len == if inserted then old(len) + 1 else old(len)
      ensures Abstract() == if inserted then old(Abstract())[key := value] else old(Abstract())
      ensures nodes == if inserted then [first] + old(nodes) else old(nodes)
      ensures inserted ==> fresh(first)
    {
      var present := Contains(key);
      if present {
        return false;
      }
      Prepend(Entry(key, value), contents);
      var n := new Node(key, value, first);
      ChainCons(n, nodes, contents);
      first := n;
      len := len + 1;
      nodes := [n] + nodes;
      contents := [Entry(key, value)] + contents;
      inserted := true;
    }

    /** No two positions of the chain hold the same node: keys are distinct and constant. */
    ghost predicate NodesDistinct()
      reads this
    {
      forall a, b :: 0 <= a < b < |nodes| ==> nodes[a] != nodes[b]
    }

    lemma DistinctNodes()
      requires Valid()
      ensures NodesDistinct()
    {
      forall a, b | 0 <= a < b < |nodes| ensures nodes[a] != nodes[b] {
        assert contents[a].key != contents[b].key;
      }
    }

    /** The store of SymTable_replace: node `i` gets value `value`; every other node is untouched. */
    method Overwrite(p: Node<V>, ghost i: nat, value: V)
      requires Valid() && i < |nodes| && p == nodes[i]
      modifies this, p
      ensures Valid()
      ensures nodes == old(nodes) && first == old(first) && len == old(len)
      ensures contents == old(contents)[i := Entry(p.key, value)]
    {
      DistinctNodes();
      p.value := value;
      contents := contents[i := Entry(p.key, value)];
      forall j {:trigger nodes[j].next} | 0 <= j < |nodes| ensures nodes[j].next == Succ(nodes, j) {
        assert old(nodes[j].next) == old(Succ(nodes, j));
      }
      forall j | 0 <= j < |nodes|
        ensures contents[j].key == old(contents[j].key)
        ensures contents[j] == Entry(nodes[j].key, nodes[j].value)
      {
        if j != i {
          assert nodes[j] != p;
          assert old(contents[j]) == old(Entry(nodes[j].key, nodes[j].value));
        }
      }
      assert DistinctKeys(contents);
    }

    /** SymTable_replace: overwrite the value of the node with key `key` and return the old value. */
    method Replace(key: Key, value: V) returns (r: Option<V>)
      requires Valid()
      modifies this, nodes
      ensures Valid()
      ensures nodes == old(nodes) && first == old(first) && len == old(len)
      ensures r == Lookup(old(contents), key)
      ensures contents == ReplaceValue(old(contents), key, value)
      ensures Abstract() == if key in old(Abstract()) then old(Abstract())[key := value] else old(Abstract())
    {
      var p := first;
      if p == null {
        return None;
      }
      ghost var i := 0;
      while p != null
        invariant 0 <= i <= |nodes|
        invariant p == if i < |nodes| then nodes[i] else null
        invariant forall j :: 0 <= j < i ==> contents[j].key != key
        invariant Valid() && unchanged(this) && unchanged(nodes)
        decreases |nodes| - i
      {
        if p.key == key {
          LookupFirstMatch(contents, key, i);
          ReplaceValueAt(contents, key, value, i);
          ReplaceValueEffect(contents, key, value);
          r := Some(p.value);
          Overwrite(p, i, value);
          return;
        }
        p := p.next;
        i := i + 1;
      }
      KeysIndex(contents, key);
      LookupAbsent(contents, key);
      ReplaceValueAbsent(contents, key, value);
      r := None;
    }

    /** SymTable_remove at the head: `first` skips node `p`, and the count drops. */
    method UnlinkFirst(p: Node<V>)
      requires Valid() && 0 < |nodes| && p == nodes[0]
      modifies this
      ensures Valid()
      ensures first == old(p.next)
      ensures nodes == old(nodes[1..]) && contents == old(contents[1..])
      ensures len == old(len) - 1
      ensures forall j :: 0 <= j < |nodes| ==> nodes[j] in old(nodes)
    {
      ChainTail(first, nodes, contents);
      first := p.next;
      len := len - 1;
      nodes := nodes[1..];
      contents := contents[1..];
    }

    /** SymTable_remove past the head: node `i` is bypassed through its predecessor `prev`, and the count drops. */
    method UnlinkAfter(prev: Node<V>, p: Node<V>, ghost i: nat)
      requires Valid() && 0 < i < |nodes| && p == nodes[i] && prev == nodes[i - 1]
      modifies this, prev
      ensures Valid()
      ensures first == old(first)
      ensures nodes == old(nodes[..i] + nodes[i + 1..])
      ensures contents == old(contents[..i] + contents[i + 1..])
      ensures len == old(len) - 1
      ensures forall j :: 0 <= j < |nodes| ==> nodes[j] in old(nodes)
    {
      DistinctNodes();
      ghost var ons, oes := nodes, contents;
      ghost var ns := ons[..i] + ons[i + 1..];
      ghost var es := oes[..i] + oes[i + 1..];
      assert forall j :: 0 <= j < |es| ==> es[j] == oes[if j < i then j else j + 1];
      assert DistinctKeys(es);
      prev.next := p.next;
      len := len - 1;
      nodes := ns;
      contents := es;
      forall j {:trigger ons[j].next} | 0 <= j < |ons| && j != i - 1 ensures ons[j].next == Succ(ons, j) {
        assert old(ons[j].next) == Succ(ons, j);
      }
      forall j | 0 <= j < |ons| ensures oes[j] == Entry(ons[j].key, ons[j].value) {
        assert old(oes[j] == Entry(ons[j].key, ons[j].value));
      }
      ChainSkip(ons, oes, i);
      assert forall j :: 0 <= j < |ns| ==> ns[j] == ons[if j < i then j else j + 1];
    }

    /** SymTable_remove: unlink the node with key `key`, head or interior, and return its value. */
    method Remove(key: Key) returns (r: Option<V>)
      requires Valid()
      modifies this, nodes
      ensures Valid()
      ensures r == Lookup(old(contents), key)
      ensures contents == RemoveKey(old(contents), key)
      ensures len == if r.Some? then old(len) - 1 else old(len)
      ensures Abstract() == old(Abstract()) - {key}
      ensures forall j :: 0 <= j < |nodes| ==> nodes[j] in old(nodes)
      ensures r.None? ==> nodes == old(nodes)
    {
      var p := first;
      if p == null {
        return None;
      }
      var prev: Node?<V> := null;
      ghost var i := 0;
      while p != null
        invariant 0 <= i <= |nodes|
        invariant p == if i < |nodes| then nodes[i] else null
        invariant prev == if i == 0 then null else nodes[i - 1]
        invariant forall j :: 0 <= j < i ==> contents[j].key != key
        invariant Valid() && unchanged(this) && unchanged(nodes)
        decreases |nodes| - i
      {
        if p.key == key {
          LookupFirstMatch(contents, key, i);
          RemoveKeyAt(contents, key, i);
          RemoveKeyEffect(contents, key);
          if prev == null {
            assert contents[..0] + contents[1..] == contents[1..];
            UnlinkFirst(p);
          } else {
            UnlinkAfter(prev, p, i);
          }
          r := Some(p.value);
          return;
        }
        prev := p;
        p := p.next;
        i := i + 1;
      }
      KeysIndex(contents, key);
      LookupAbsent(contents, key);
      RemoveKeyAbsent(contents, key);
      RemoveKeyEffect(contents, key);
      r := None;
    }

    /** SymTable_map: the bindings in the order the callback sees them, head to tail. */
    method Map() returns (visited: seq<Entry<V>>)
      requires Valid()
      ensures visited == contents && DistinctKeys(visited)
      ensures |visited| == |Abstract()| && ToMap(visited) == Abstract()
    {
      ToMapSize(contents);
      visited := [];
      var p := first;
      ghost var i := 0;
      while p != null
        invariant 0 <= i <= |nodes|
        invariant p == if i < |nodes| then nodes[i] else null
        invariant visited == contents[..i]
        decreases |nodes| - i
      {
        visited := visited + [Entry(p.key, p.value)];
        p := p.next;
        i := i + 1;
      }
    }
  }
}
