# Symbol table: list and hash backends

This project models, in Dafny, a C symbol table. It maps unique string keys to opaque values and has one interface (`symtable.h`) with two interchangeable implementations:

- **symtablelist.c** keeps one singly linked list of nodes, newest first, and a binding count.
- **symtablehash.c** keeps a fixed array of 509 bucket chains, the bucket count and a binding count. A key lives in the bucket given by `SymTable_hash`, which accumulates `h = h * 65599 + byte` over the key's bytes with 64-bit wrap-around and then reduces modulo the bucket count. The table never grows.

The model is imperative like the code:

- A table is a `class` whose fields the methods update: `first`/`len`, or `buckets`/`size`/`len`.
- `buckets` is an `array`.
- Nodes are objects of class `SymTable.Node`, whose `value` and `next` fields are rewritten in place.
- Ghost fields record each chain's node objects and the entries they hold.
- `Valid()` ties these to the pointers. It requires:
  - unique keys;
  - every hash binding in its own bucket;
  - `len` equal to the number of reachable bindings.
- Every scan is a `while` loop over the pointers, as in the C code. It is proved against reference functions on entry sequences:
  - `Lookup` is the first match;
  - `RemoveKey` unlinks the first match;
  - `ReplaceValue` overwrites the first match;
  - `ToMap` is the abstract map.
- Each operation also states its effect on the abstract `map<Key, V>`.
- Module `Agreement` performs the same operation on a list table and a hash table that denote the same map. Both return the same result and again denote equal maps.

Files:

- `symtable.dfy`, module `SymTable`: keys, entries, the reference functions and their lemmas, the node class and the `Chain` predicate.
- `symtablelist.dfy`: module `SymTableList`.
- `symtablehash.dfy`: module `SymTableHash`.
- `agreement.dfy`: module `Agreement`.

The interface comment at `symtable.h:22-23` says a new table "uses the first entry of BUCKET_COUNT" as its bucket count, as if there were a sequence of bucket counts to grow through. The code has no such sequence and never grows:

- the bucket array is the inline constant-size array of `symtablehash.c:14`;
- `SymTable_new` sets `size` to 509 (`symtablehash.c:45`);
- `SymTable_put` never resizes (`symtablehash.c:73-93`).

The model therefore has a constant `BUCKET_COUNT = 509` and proves that `size` stays 509.

## Model

| member | source | states |
|---|---|---|
| SymTable.ToMap | symtable.h:15-17 | the abstract map of a chain binds exactly the keys the chain holds |
| SymTable.KeysIndex | symtablelist.c:94-98 | a key is in a chain exactly when some position holds it, the fact a strcmp scan relies on |
| SymTable.LookupFirstMatch | symtablelist.c:111-114 | a scan that stops at the first node with an equal key returns that node's value |
| SymTable.LookupAbsent | symtablelist.c:109-116 | the scan reports absence exactly when no node has the key, including on the empty chain |
| SymTable.LookupIsToMap | symtable.h:46-48 | the scan's answer is the abstract map's: Some of the bound value when the key is bound, None otherwise |
| SymTable.RemoveKeyAt | symtablelist.c:131-139 | unlinking the first match deletes exactly that position and keeps the order of the rest |
| SymTable.ReplaceValueAt | symtablelist.c:75-80 | overwriting the first match changes exactly that position's value |
| SymTable.RemoveKeyAbsent | symtablelist.c:142 | remove of a missing key leaves the chain unchanged |
| SymTable.ReplaceValueAbsent | symtablelist.c:82 | replace of a missing key leaves the chain unchanged |
| SymTable.KeysAppend | symtablehash.c:196-204 | the keys of two concatenated chains are the keys of both |
| SymTable.LookupAppend | symtablehash.c:196-204 | scanning a concatenation finds the first part's match if it has one, else the second part's |
| SymTable.DistinctAppend | symtable.h:15-17 | chains with unique keys and no key in common concatenate to a chain with unique keys |
| SymTable.ToMapByLookup | symtable.h:15-17 | a chain denotes map m if scanning it agrees with m on every key (the converse is LookupIsToMap) |
| SymTable.Prepend | symtablelist.c:51-59 | prepending a binding keeps keys unique if and only if its key was absent, and adds that key to the map |
| SymTable.ToMapSize | symtablelist.c:6 | with unique keys, the chain's length equals the number of keys the map binds |
| SymTable.RemoveKeyEffect | symtable.h:50-52 | removing a key keeps keys unique, deletes the key from the map, and shortens the chain by one exactly when the key was present |
| SymTable.ReplaceValueKeys | symtablelist.c:75-80 | replace keeps the chain's length and the key at every position |
| SymTable.ReplaceValueEffect | symtable.h:38-40 | replace keeps keys unique and in place, and rebinds the key in the map when it was present |
| SymTable.Node.constructor | symtablelist.c:53-58 | a new node holds the given key, value and next link |
| SymTable.ChainTail | symtablelist.c:133 | the nodes after the head form the chain that starts at the head's `next` |
| SymTable.ChainSkip | symtablelist.c:134 | once a predecessor's `next` bypasses an interior node, the other nodes form a chain in the same order |
| SymTable.ChainCons | symtablelist.c:58-59 | a node whose `next` is the old head starts the old chain extended at the front |
| SymTableList.Table.constructor | symtablelist.c:16-23 | SymTable_new: an empty list with `len == 0` and the empty map |
| SymTableList.Table.GetLength | symtablelist.c:40 | the count equals the number of bindings and the size of the abstract map |
| SymTableList.Table.Contains | symtablelist.c:85-100 | returns true exactly when some node has the key, that is, when the key is bound |
| SymTableList.Table.Get | symtablelist.c:102-117 | returns the first matching node's value, or None on a missing key or an empty list, and agrees with the abstract map |
| SymTableList.Table.Put | symtablelist.c:43-62 | inserts exactly when the key is absent, as a fresh node at the head; `len` grows by one; the map gains the binding; a present key changes nothing |
| SymTableList.Table.DistinctNodes | symtablelist.c:6 | no node occurs twice in the list |
| SymTableList.Table.Overwrite | symtablelist.c:79 | storing into one node's value changes that entry only and keeps the list valid |
| SymTableList.Table.Replace | symtablelist.c:64-83 | returns the old value of the matching node and stores the new one; `len` and all nodes stay, and the map is rebound; a missing key returns None and changes nothing |
| SymTableList.Table.UnlinkFirst | symtablelist.c:133 | bypassing the head drops the first node and entry and decrements `len` |
| SymTableList.Table.UnlinkAfter | symtablelist.c:134-135 | bypassing an interior node drops exactly that node and entry, keeps the order of the rest and decrements `len` |
| SymTableList.Table.Remove | symtablelist.c:119-143 | unlinks exactly the matching node, head or interior, keeps the order, decrements `len`, returns its value and deletes the key from the map; no node is added; a missing key is a no-op returning None that keeps every node |
| SymTableList.Table.Map | symtablelist.c:145-156 | visits every binding exactly once, head to tail, newest first; the visit denotes the abstract map |
| SymTableHash.Hash | symtablehash.c:19-31 | the bucket index is below the bucket count and depends only on the key's bytes and the count |
| SymTableHash.StepMod | symtablehash.c:28 | one step of the accumulation commutes with reduction modulo 2^64 |
| SymTableHash.AccumulateIsHornerMod | symtablehash.c:27-28 | the wrapping loop value is the exact polynomial sum of byte * 65599^k reduced once modulo 2^64 |
| SymTableHash.ComputeHash | symtablehash.c:19-31 | the loop computes Hash: the polynomial modulo 2^64, then modulo the bucket count, always in range |
| SymTableHash.FlattenToAll | symtablehash.c:196-198 | the buckets visited before index j, then those from j on, are all the buckets in index order |
| SymTableHash.KeysFlattenFrom | symtablehash.c:30 | with bindings placed by the hash, a key occurs among buckets j.. exactly when its own bucket is at or after j and holds it |
| SymTableHash.LookupFlattenFrom | symtablehash.c:121-122 | scanning all buckets finds what scanning the key's own bucket finds |
| SymTableHash.DistinctFlattenFrom | symtablehash.c:82 | per-bucket unique keys and hash placement make the keys of the whole table unique |
| SymTableHash.FlattenFromUpdateLength | symtablehash.c:91 | rewriting one bucket changes the binding count by that bucket's change in length |
| SymTableHash.FlattenFromEmpty | symtablehash.c:43 | all-empty buckets hold no binding |
| SymTableHash.AsMapLookup | symtablehash.c:140-154 | a key is bound in the table exactly as its own bucket binds it |
| SymTableHash.AsMapSize | symtablehash.c:71 | the number of entries in all buckets equals the size of the abstract map |
| SymTableHash.LookupAfterUpdate | symtablehash.c:89-90 | rewriting bucket h changes lookups only for keys that hash to h |
| SymTableHash.PutBucket | symtablehash.c:89-91 | prepending an absent key to its bucket keeps placement and uniqueness, adds the binding and grows the count by one |
| SymTableHash.RemoveBucket | symtablehash.c:173-175 | unlinking a key from its bucket keeps placement and uniqueness, deletes the key and shrinks the count by one exactly when it was bound |
| SymTableHash.ReplaceBucket | symtablehash.c:109-112 | overwriting a key's value in its bucket keeps placement, uniqueness and the count, and rebinds the key if it was bound |
| SymTableHash.Table.NodeInBucket | symtablehash.c:14 | every node of bucket b holds a key that hashes to b |
| SymTableHash.Table.DistinctNodes | symtablehash.c:14 | two positions in the buckets hold different nodes with different keys |
| SymTableHash.Table.Isolated | symtablehash.c:14 | a node of one bucket occurs at no other position of any bucket |
| SymTableHash.Table.constructor | symtablehash.c:40-48 | SymTable_new: a fresh array of 509 null bucket heads, `size == 509`, `len == 0`, no nodes, the empty map |
| SymTableHash.Table.GetLength | symtablehash.c:71 | the count equals the number of bindings in all buckets and the size of the abstract map |
| SymTableHash.Table.Contains | symtablehash.c:119-136 | returns true exactly when the key's own bucket holds the key, that is, when the key is bound |
| SymTableHash.Table.Get | symtablehash.c:138-155 | returns the value of the first match in the key's bucket, or None, and agrees with the abstract map |
| SymTableHash.Table.Link | symtablehash.c:89-91 | a node pointing at bucket h's head becomes that head; only bucket h changes; `len` grows by one |
| SymTableHash.Table.Put | symtablehash.c:73-93 | inserts exactly when the key is absent, at the head of bucket Hash(key); other buckets, and on refusal every bucket, are unchanged; `len` and the map change accordingly |
| SymTableHash.Table.Overwrite | symtablehash.c:111 | storing into one node's value changes that entry only and keeps the table valid |
| SymTableHash.Table.Replace | symtablehash.c:95-117 | returns the old value from the key's bucket and stores the new one; chains, `len` and keys stay; the map is rebound; a missing key returns None and changes nothing |
| SymTableHash.Table.UnlinkFirst | symtablehash.c:173 | bypassing a bucket's head drops its first node and entry and decrements `len` |
| SymTableHash.Table.UnlinkAfter | symtablehash.c:174-175 | bypassing an interior node drops exactly that node and entry from its bucket, keeps the order and decrements `len` |
| SymTableHash.Table.Remove | symtablehash.c:157-184 | unlinks exactly the matching node of the key's bucket, head or interior, keeps the order, decrements `len`, returns its value and deletes the key; every other bucket's head and chain stay; a missing key changes no head, chain or entry |
| SymTableHash.Table.Map | symtablehash.c:186-205 | visits every binding exactly once, buckets in index order and each chain head to tail; the visit denotes the abstract map |
| Agreement.New | symtable.h:21-24 | both backends start out fresh, with no nodes, denoting the empty map |
| Agreement.GetLength | symtable.h:26-27 | both backends return the same count, the size of the map |
| Agreement.Contains | symtable.h:42-44 | both backends return the same answer: whether the key is bound |
| Agreement.Get | symtable.h:46-48 | both backends return the same result: the bound value, or None for a missing key |
| Agreement.Put | symtable.h:33-36 | both backends return the same verdict, true exactly when the key was absent, and denote the same updated map afterwards; only fresh nodes are added |
| Agreement.Replace | symtable.h:38-40 | both backends return the same old value, or None, and denote the same rebound map afterwards; no node is added |
| Agreement.Remove | symtable.h:50-52 | both backends return the same removed value, or None, and denote the same map without the key afterwards; no node is added |
| Agreement.Map | symtable.h:54-56 | the two visits have the same length and denote the same map; only their order differs |

## Left out

- SymTable_free (both files): it only releases memory, which the model does not represent. The hash version is also defective as written. Its loop (`symtablehash.c:61-64`) advances to `p->next` before freeing, so it never frees a bucket's head and passes NULL to `Binding_free`, whose assertion rejects it. It also frees the inline bucket array (`symtablehash.c:67`), which was never allocated on its own.
- Allocation failure and the `printf` diagnostics (`symtablehash.c:44`, `:85`; `symtablelist.c:20`, `:54`): allocation always succeeds in the model.
- Key copying (`malloc`/`strcpy`, `symtablehash.c:86-87`, `symtablelist.c:55-56`): a node stores the key as an immutable value, which is what the copy achieves.
- The callback and `pvExtra` of SymTable_map: `Map` returns the sequence of (key, value) pairs the callback would see, in order. The callback's own side effects are not modelled.
- SymTableHash.Hash: key bytes are taken as unsigned (codes 1..255). On a platform where `char` is signed, the cast at `symtablehash.c:28` sign-extends bytes above 127 to large `size_t` values, giving a different bucket. `size_t` is taken to be 64 bits wide.
- `len` is an unbounded `nat`. Overflow of the `size_t` binding count needs more than 2^64 nodes and is not modelled.
- The `assert` checks on NULL tables and NULL keys become types that cannot be null, since a Dafny reference or sequence is never NULL. Keys contain no NUL byte by their type.
- Values are a type parameter `V`, and absence is `None`. In C, a stored NULL value cannot be told apart from "absent" in `get`, `replace` and `remove`. The model distinguishes them, so its `Some(v)` results are exactly what the C code returns when `v` is not NULL.
- The const-casting of values is not modelled.
- The two C node structs (`struct Node`, `struct Binding`) have identical fields and are modelled by one class, `SymTable.Node`.
- Growth through a sequence of bucket counts, suggested by `symtable.h:22-23`, is not in the code (see above).
