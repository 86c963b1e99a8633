# List Decision Diagrams, modelled in Dafny

This project models the core of a Rust library for List Decision Diagrams
(LDDs). An LDD represents a set of vectors of one fixed length. A handle is an
index into a table of `(value, down, right)` triples. Handle 0 ('false') is
the empty set and handle 1 ('true') is the set that holds only the empty
vector. Every other node stands for its `down` set with `value` put in front
of each vector, together with the set of its `right` sibling. This is the
denotation given in the comment at the top of `ldd/src/lib.rs`, and it is the
ghost function `Storage.Denote` here. The properties of `Storage`,
`Operations`, `Iterators`, `Format` and the Sylvan readers are stated against
it; `Counted`, `Protection`, `Cache` and `SylvanFormat` state theirs over their
own records. Where the source does something evidently unintended (see Findings), the
members the rest of the model uses implement the corrected behaviour, and a
separate as-written member shows what the source does instead.

The modules follow the library's files:

- `Storage` (storage.dfy) is the hash-consed node table of
  `ldd/src/storage.rs`. It also covers its earlier plain-index copy in
  `src/ldd.rs`. `insert`'s well-formedness checks are its precondition.
  `Valid` is the invariant every reachable table keeps. The table is
  canonical: two handles with the same set are the same handle.
- `Counted` (counted.dfy) adds the crate's per-node reference counts, with
  the count changes made by `protect`, `unprotect`, `get`, `insert`,
  `Ldd::clone` and `Ldd::drop`.
- `Operations` (operations.dfy) covers `singleton`, `union` and
  `element_of`. Each is proved against the denotation, and the table stays
  valid.
- `Iterators` (iterators.dfy) covers `iter_right` and the depth-first
  iterator `iter`, which uses an explicit stack. `Enumerate` is the order in
  which `iter` yields its vectors. Running the iterator to the end lists
  every vector of the set exactly once.
- `Protection` (protection.dfy) is the protection set of
  `ldd/src/storage/ldd.rs`. Its free list is embedded in the `roots` array,
  used last-in first-out, and ends in a slot that points to itself. The
  module also covers the handle type that uses the set (`new`, `clone`,
  `drop`, `eq` and `hash`).
- `Cache` (cache.dfy) is the operation cache of `ldd/src/storage/cache.rs`.
  It memoises by the operands' indices, puts the operands of commutative
  operators in order, and can be cleared. It returns what the operator would
  return whenever every stored entry agrees with the operator.
- `Format` (format.dfy) is the text printer of `ldd/src/format.rs`. It writes
  one `<v1 v2 ... >` line per vector.
- `SylvanFormat` (sylvan_format.dfy) covers the byte-level part of the
  Sylvan file readers. That means little-endian words and the bit layout of
  one node record.
- `Sylvan` (sylvan_reader.dfy) is the `SylvanReader` of
  `examples/reach/src/sylvan_io.rs`, which `example/src/sylvan_io.rs`
  repeats. It numbers file nodes from 2 across all LDDs it reads, and maps
  indices 0 and 1 to the terminals, for the root index as well (the
  corrected lookup). The LDD it reads stands for exactly the set the file's
  records describe (`FileDenote`).
- `SylvanModel` (sylvan_model.dfy) models the `load_model` functions of both
  programs. They read the header, the initial states and the projections of
  the transition groups. The reachability tool also builds a meta vector for
  each group. Then both read one relation per group, and the i-th relation
  stands for the set of the i-th LDD the file holds after the projections
  (`FileSets`). These members build the corrected programs: the root lookup
  includes the terminals, and a meta vector has one position more than the
  largest variable named.

`Wrappers` (wrappers.dfy) holds the `Option` and `Result` types.

Handles are natural numbers. Values are 64-bit unsigned (`u64`). Reading a
file is modelled as reading a sequence of bytes that is given as input;
32-bit words and the record layout are bit-vectors, and 64-bit words are read
as numbers (`SylvanFormat.WordAt`). Running out of bytes is the `EndOfFile` error.
The places where the source panics are modelled as error results:

- an `unwrap` on an unknown index is `UnknownIndex`;
- an `insert` assertion that a node read from a file fails is `InvalidNode`.

## Model

| member | source | states |
|---|---|---|
| Storage.New | ldd/src/storage.rs:119-140 | A fresh storage is valid. It holds exactly the two terminals, both of height 0 and with an empty index. Handle 0 stands for the empty set and handle 1 for the set holding only the empty vector. |
| Storage.Insert | ldd/src/storage.rs:143-171 | Given insert's checks, the result is a valid extension of the storage (nodes are only appended). The result handle holds the triple and has height one more than `down`. A known triple gives back its existing handle with the storage unchanged. A new triple is appended at the old length. The handle stands for `value` in front of `[[down]]`, together with `[[right]]`. |
| Storage.KnownNode | ldd/src/storage.rs:159-170 | The index entry of a known triple points at a slot above its `down` child that holds that triple. That slot stands for the triple's set. |
| Storage.AppendKeepsValid | src/ldd.rs:76-84 | Pushing one node and one height for a new, admissible triple, and registering it in the index, keeps every table invariant. The table and the heights keep equal lengths. |
| Storage.Value | ldd/src/storage.rs:196-199 | The value of an inner node is the smallest first entry among its vectors, and some vector starts with it. |
| Storage.Get | ldd/src/storage.rs:201-210 | The children of an inner node are earlier handles, `down` is not 'false' and `right` is not 'true'. The node's set is `value` in front of the `down` set, together with the `right` set. |
| Storage.DenoteFrame | ldd/src/storage.rs:164-167 | Appending nodes never changes the set an existing handle stands for. |
| Storage.DenoteLengths | ldd/src/storage.rs:151-166 | Every vector of a handle has the handle's height as its length, so an LDD is a set of equal-length vectors. |
| Storage.DenoteHeads | ldd/src/storage.rs:151-157 | Siblings rise strictly, so every vector of an inner node starts at or above the node's value. |
| Storage.SomeMember | ldd/src/storage.rs:145-147 | Every handle other than 'false' stands for a non-empty set. An inner node has a vector that starts with its value. |
| Storage.DenoteEmpty | ldd/src/storage.rs:145-147 | A handle stands for the empty set if and only if it is 'false'. |
| Storage.Decompose | ldd/src/storage.rs:151-157 | A vector `value·y` is in a node exactly when `y` is in its `down` set. Any other vector is in the node exactly when it is in the `right` set. |
| Storage.Canonical | ldd/src/storage.rs:99-101 | Maximal sharing: two handles of a valid table that stand for the same set are the same handle. |
| Counted.SameNodeIsSameKey | ldd/src/storage.rs:69-86 | Node equality, and so the index key, is the triple alone. The reference count plays no part in it. |
| Counted.Protect | ldd/src/storage.rs:216-219 | Protecting a node raises only that node's count, by one. The triples stay as they are. |
| Counted.Unprotect | ldd/src/storage.rs:221-224 | Unprotecting a node lowers only that node's count, by one. The triples stay as they are. |
| Counted.CountedNew | ldd/src/storage.rs:130-137 | The table part is the fresh plain storage. Each terminal is held once, by the storage's own `empty_set` and `empty_vector` handles. |
| Counted.Grow | ldd/src/storage.rs:159-168 | Finding or appending the triple changes the table exactly as the plain model's insert does, and leaves every count as it was. |
| Counted.CountedInsert | ldd/src/storage.rs:143-171 | The table changes as in the plain model. The result node gains one holder. The `down` and `right` handles passed in by value lose one holder each. |
| Counted.CountedValue | ldd/src/storage.rs:196-199 | The value read from the counted table is the value of the plain table. |
| Counted.CountedGet | ldd/src/storage.rs:201-210 | `get` returns the plain triple and leaves the table unchanged. Its `down` and `right` children gain one holder each. |
| Counted.CloneAsWritten | ldd/src/storage.rs:26-30 | `clone` as written adds two holders to the node: one from its own `protect` and one from `Ldd::new`. |
| Counted.Clone | ldd/src/storage.rs:26-30 | A clone adds exactly one holder to the node and changes nothing else. |
| Counted.Drop | ldd/src/storage.rs:35-38 | Dropping a handle removes exactly one holder from its node. |
| Counted.CloneThenDropAsWritten | ldd/src/storage.rs:24-39 | With `clone` as written, cloning a handle and dropping the clone leaves the node with one holder too many. |
| Counted.CloneThenDrop | ldd/src/storage.rs:24-39 | With one protection per clone, cloning and then dropping the clone restores the storage exactly. |
| Protection.NewSet | ldd/src/storage/ldd.rs:84-91 | A new protection set has no slots, an empty free list and no insertions. |
| Protection.Protect | ldd/src/storage/ldd.rs:115-139 | The returned slot holds the index and is marked valid. The insertion count rises by one. With no free slot, the entry is appended and the free list stays empty. Otherwise the free-list head is reused and `roots` does not grow. |
| Protection.Unprotect | ldd/src/storage/ldd.rs:142-154 | The slot becomes invalid and the new free head. It links to the old head, or to itself when the list was empty. Every other slot is unchanged. |
| Protection.ProtectKeeps | ldd/src/storage/ldd.rs:119-137 | `protect` only takes a fresh or free slot, never one that is in use. The rest of the free list stays well formed. |
| Protection.UnprotectKeeps | ldd/src/storage/ldd.rs:142-154 | Freeing a valid slot pushes it on the free list, and the list stays well formed. Every slot on the list is invalid, and the list ends in a self-loop. |
| Protection.Lifo | ldd/src/storage/ldd.rs:125-136 | A `protect` right after `unprotect(r)` returns `r`. Only that slot is changed, and the free list is as before. |
| Protection.StaysProtected | ldd/src/storage/ldd.rs:210-214 | A valid slot keeps its entry through any sequence of protects and unprotects of held slots that never names it. |
| Protection.ProtSetNext | ldd/src/storage/ldd.rs:167-180 | `next` finds nothing exactly when no valid slot lies ahead, and then it moves to the end. Otherwise it moves past the slot it found. |
| Protection.CollectRoots | ldd/src/storage/ldd.rs:163-180 | Iterating the protection set yields the indices of the valid slots, in slot order, and nothing else. |
| Protection.NextValid | ldd/src/storage/ldd.rs:167-180 | The valid slot the iterator stops at, after skipping invalid ones, comes next among the valid roots. |
| Protection.LddNew | ldd/src/storage/ldd.rs:17-21 | A new handle names the given node index and holds a valid slot for it. |
| Protection.LddClone | ldd/src/storage/ldd.rs:30-36 | A clone names the same node index and holds a valid slot of its own. |
| Protection.LddDrop | ldd/src/storage/ldd.rs:38-44 | Dropping a handle frees its own slot and no other slot. |
| Protection.CloneIsEqual | ldd/src/storage/ldd.rs:30-67 | A clone equals the original and hashes the same, but takes a different slot. After the clone is dropped, the original is still protected. |
| Protection.EqualHashEqual | ldd/src/storage/ldd.rs:46-67 | Two handles are equal exactly when their hashes agree, because both look at the node index only. |
| Cache.CacheNew | ldd/src/storage/cache.rs:53-60 | A new operation cache has two binary caches and one ternary cache, all empty, and shares the given protection set. |
| Cache.Clear | ldd/src/storage/cache.rs:72-81 | `clear` empties every binary and every ternary cache and keeps how many there are. |
| Cache.Create | ldd/src/storage/cache.rs:83-86 | `create` returns a protected handle to the index and leaves the caches alone. |
| Cache.CacheBinaryOp | ldd/src/storage/cache.rs:108-123 | On a hit, the stored result comes back and the caches are unchanged. On a miss, `f(a, b)` is returned and stored under `(a, b)`. If every entry agreed with `f` before, the result is `f(a, b)` and every entry still agrees. |
| Cache.CacheCommBinaryOp | ldd/src/storage/cache.rs:125-135 | Only the operator's own cache can change, and only under the ordered key of `{a, b}`. For a commutative `f` whose entries all agree with it, the result is `f(a, b)` and the agreement is kept. |
| Cache.CommSymmetric | ldd/src/storage/cache.rs:130-135 | Swapping the operands gives the same result and the same caches, so `(a, b)` and `(b, a)` share one entry. |
| Cache.CacheTernaryOp | ldd/src/storage/cache.rs:90-105 | The same hit, miss and agreement behaviour as the binary case, with key `(a, b, c)` in the ternary caches. |
| Cache.ClearedAgrees | ldd/src/storage/cache.rs:72-81 | After `clear`, every cache agrees with any operator, so the memo invariant starts out true. |
| Operations.Singleton | ldd/src/operations.rs:6-16 | `singleton(v)` stands for exactly `{v}` and has height `|v|`. The table stays valid and only grows. `singleton([])` is 'true'. |
| Operations.SingletonLoop | src/ldd.rs:111-120 | The loop that inserts the values back to front gives the same storage and handle as the recursive definition, so its handle stands for `{v}`. |
| Operations.Union | ldd/src/operations.rs:19-47 | The result stands for `[[a]] ∪ [[b]]`, and the table stays valid and only grows. The base cases return `a` for `union(a, a)` and for `union(a, 0)`, and `b` for `union(0, b)`. |
| Operations.BothNodes | ldd/src/operations.rs:21-29 | Past the three base cases, both operands are inner nodes. |
| Operations.UnionLess | ldd/src/operations.rs:32-35 | When `a`'s value is smaller, keeping `a`'s head over the union of `a.right` with `b` gives the union. |
| Operations.LessStep | ldd/src/operations.rs:32-35 | The `insert` in the smaller-value branch passes insert's checks, and its result is the union. |
| Operations.UnionEqual | ldd/src/operations.rs:36-40 | With equal values, the union of the `down` sets under the common value, followed by the union of the `right` sets, gives the union. |
| Operations.EqualRightArgs | ldd/src/operations.rs:37-38 | The first recursive union leaves the `right` operands valid, of equal height, and with their sets and triples unchanged. |
| Operations.EqualStepChecks | ldd/src/operations.rs:37-39 | The two recursive results meet insert's height and ordering checks. |
| Operations.EqualStep | ldd/src/operations.rs:36-40 | The `insert` in the equal-value branch passes insert's checks, and its result is the union. |
| Operations.UnionGreater | ldd/src/operations.rs:41-44 | When `b`'s value is smaller, keeping `b`'s head over the union of `a` with `b.right` gives the union. |
| Operations.GreaterStep | ldd/src/operations.rs:41-44 | The `insert` in the greater-value branch passes insert's checks, and its result is the union. |
| Operations.UnionAsWritten | ldd/src/operations.rs:19-47 | `union` as written, with no height check on its operands and `None` where an `insert` assertion would panic. When it returns, the storage is valid and only grew. |
| Operations.InsertChecked | ldd/src/storage.rs:143-157 | `insert` with its assertions as a check: it succeeds exactly when they hold, and then the storage stays valid and only grows. |
| Operations.ChildrenBelow | ldd/src/storage.rs:121-126 | The children of every handle other than 'false' are smaller handles. The terminal 'true' stores 0 for both. |
| Operations.UnionAsWrittenAgrees | ldd/src/operations.rs:19-47 | On operands of equal height, or 'false', `union` as written never panics and returns what `Operations.Union` returns. |
| Operations.EqualAgrees | ldd/src/operations.rs:36-40 | The same agreement in the equal-value branch. |
| Operations.UnionMixedHeightsAsWritten | ldd/src/operations.rs:19-40 | As written, `union(1, n)` with `n` standing for `{<0>}` returns `n`, which does not hold the empty vector. |
| Operations.ElementOf | ldd/src/operations.rs:50-73 | `element_of(v, n)` holds if and only if `v` is in `[[n]]`. For the empty vector it holds exactly on 'true'. |
| Operations.ScanSiblings | ldd/src/operations.rs:62-69 | For a non-empty vector, scanning the siblings, and stopping at the first value above `v[0]`, finds `v` if and only if it is in the set. |
| Operations.WrongLengthNotMember | ldd/src/operations.rs:99-111 | A vector whose length differs from the LDD's height is never a member. |
| Operations.MemberUnion | ldd/src/operations.rs:123-143 | A vector is in the union if and only if it is in either operand. |
| Operations.UnionCommutes | ldd/src/storage/cache.rs:125-126 | `union` is commutative, down to the storage it builds. That is what the commutative cache relies on. |
| Iterators.IterRightNext | ldd/src/iterators.rs:40-53 | On 'false' the sibling iterator yields nothing and stays put. Otherwise it yields the current triple and moves to that triple's `right`, a smaller handle. |
| Iterators.SiblingsNext | ldd/src/iterators.rs:40-53 | Taking the current triple off the sibling list still to come leaves the sibling list of its `right`. |
| Iterators.CollectRight | ldd/src/iterators.rs:36-53 | `iter_right(n)` yields `n`'s triple and then each right sibling, up to 'false'. Their values rise strictly, and the siblings' contributions make up `[[n]]`. `iter_right(0)` yields nothing. |
| Iterators.SiblingsSorted | ldd/src/storage.rs:151-157 | Along a sibling list the values rise strictly. |
| Iterators.SiblingsHead | ldd/src/storage.rs:155-156 | No sibling of a node has a value below the node's value. |
| Iterators.SiblingsDenote | ldd/src/iterators.rs:36-53 | The set of a handle is the union of what each of its siblings contributes through its `down` set. |
| Iterators.EnumerateMembers | ldd/src/tests.rs:122-126 | The depth-first order lists exactly the vectors of the set. |
| Iterators.EnumerateDistinct | ldd/src/tests.rs:119-120 | The depth-first order lists no vector twice. |
| Iterators.EnumerateCount | ldd/src/tests.rs:119-126 | The number of vectors iterated is the size of the set, and every vector iterated is in the set. |
| Iterators.IterNew | ldd/src/iterators.rs:13-28 | `iter(0)` starts with an empty stack. Otherwise the stack holds the root alone. Either way, what is left to yield is the depth-first listing of the set. |
| Iterators.Descend | ldd/src/iterators.rs:78-88 | Pushing a `down` child that is not 'true' keeps the stack to inner nodes and does not change what is left to yield. |
| Iterators.EnumerateNode | ldd/src/iterators.rs:78-88 | A node's listing is its `down` listing under its value, followed by its right sibling's listing. |
| Iterators.EnumerateLeaf | ldd/src/iterators.rs:80-83 | A node whose `down` child is 'true' lists the one-entry vector of its value first. |
| Iterators.Found | ldd/src/iterators.rs:78-84 | When the top's `down` is 'true', the next vector to yield is the path's values. |
| Iterators.AdvanceEmpty | ldd/src/iterators.rs:94-102 | Popping an entry whose right sibling is 'false' does not change what is left to yield. |
| Iterators.AdvanceRight | ldd/src/iterators.rs:100-106 | Replacing the top by its non-'false' right sibling keeps the stack to inner nodes and lists the same vectors. |
| Iterators.Pop | ldd/src/iterators.rs:92-107 | One round of the climbing loop: the stack below the top and its values are a path again. What was still to come is what comes after the popped stack, or, when the top's right sibling is not 'false', what that sibling and the popped stack hold. |
| Iterators.IterNext | ldd/src/iterators.rs:67-110 | `next` keeps the iterator's invariant. On an empty stack it yields nothing. Otherwise it yields the first vector still to come, and the rest are still to come. |
| Iterators.GoDown | ldd/src/iterators.rs:71-89 | The descent pushes `down` children until one is 'true'. The vector it then holds is the values along the stack, it is the next vector still to come, and what follows it is what the stack has left after its top. |
| Iterators.GoUp | ldd/src/iterators.rs:92-107 | Popping entries until one has a right sibling other than 'false', and putting that sibling in its place, keeps the stack to inner nodes and loses no vector still to come. The vector drops to the values below the new top, or to empty once the stack is empty. |
| Iterators.IterAll | ldd/src/iterators.rs:63-110 | Running `iter` to the end yields each vector of the set exactly once, in depth-first order. It yields as many vectors as the set holds, and nothing for 'false'. |
| Iterators.SingletonEnumerates | ldd/src/operations.rs:147-157 | Iterating `singleton(v)` yields exactly `v`. |
| Iterators.TerminalNeverStops | ldd/src/iterators.rs:71-89 | From a stack whose top is a terminal, the descent loop never stops, however many rounds it runs. |
| Iterators.IterTrueAsWritten | ldd/src/iterators.rs:13-28 | The first `next` on `iter(1)` as written does not return. |
| Iterators.IterVectors | ldd/src/iterators.rs:13-28 | Iterating any handle, 'true' included, yields each vector of its set exactly once. For 'true' that is the single empty vector. |
| Format.Digit | ldd/src/format.rs:34 | A decimal digit is the character whose code is `'0'` plus the digit. |
| Format.DecimalText | ldd/src/format.rs:34 | A value prints as a non-empty string of decimal digits with no leading zero. |
| Format.DecimalRoundTrip | ldd/src/format.rs:34 | Reading the decimal text of a value back gives the value. |
| Format.ValuesHaveNoBreak | ldd/src/format.rs:32-35 | The printed values of a vector contain no newline. |
| Format.LinesCount | ldd/src/format.rs:31-36 | The printed lines hold exactly one newline per vector. |
| Format.PrintStep | ldd/src/format.rs:43-59 | Printing a node is printing its `down` set with the value pushed on the buffer, followed by printing its right sibling with the buffer as before. |
| Format.PrintRound | ldd/src/format.rs:43-59 | One round of the loop of `print`: after the lines of the current node's `down` set, what is left to write are the lines of its right sibling, and nothing once that sibling is 'false'. |
| Format.WriteLine | ldd/src/format.rs:31-36 | A vector prints as `<`, each value followed by a space, then `>` and a newline. |
| Format.Print | ldd/src/format.rs:23-62 | `print` writes one line per vector of the set, in depth-first order, each prefixed by the buffer's values. The empty set writes nothing. |
| Format.Display | ldd/src/format.rs:66-73 | The output is `{ ` and a newline, then the lines of the set, then `}`. It has one newline more than the set has vectors. |
| SylvanFormat.LeBytes64 | examples/reach/src/sylvan_io.rs:87-93 | A word takes eight bytes. |
| SylvanFormat.WordRoundTrip | examples/reach/src/sylvan_io.rs:87-93 | Reading back the little-endian bytes of a word gives the word. |
| SylvanFormat.ReadU64 | examples/reach/src/sylvan_io.rs:87-93 | Reading a word fails with end-of-file exactly when fewer than eight bytes are left. Otherwise it is the number the first eight bytes give little-endian, below `2^64`, and those bytes are consumed. |
| SylvanFormat.ReadU32 | examples/reach/src/sylvan_io.rs:79-85 | Reading a 32-bit number fails exactly when fewer than four bytes are left. Otherwise it decodes four bytes little-endian and consumes them. |
| SylvanFormat.DecodeRecord | examples/reach/src/sylvan_io.rs:31-39 | The `right` and `down` fields of a record are below `2^47`. |
| SylvanFormat.DecodeValue | examples/reach/src/sylvan_io.rs:41-44 | The value is the top 16 bits of the first word below the low 16 bits of the second. |
| SylvanFormat.FlagsIgnored | examples/reach/src/sylvan_io.rs:31-39 | The mark bit (bit 0 of the first word) and the copy bit (bit 16 of the second) do not change the record. |
| SylvanFormat.EncodedFields | example/src/sylvan_io.rs:37-43 | Each field, placed at its documented position, is extracted again by the decoder's shifts and masks. |
| SylvanFormat.DecodeEncode | example/src/sylvan_io.rs:30-43 | Every record that fits the layout decodes back from the two words that lay it out, so the decoder reads every field of the layout. |
| Sylvan.ReaderNew | examples/reach/src/sylvan_io.rs:15-21 | A new reader knows no file index and numbers from 2. |
| Sylvan.NodeFromIndex | examples/reach/src/sylvan_io.rs:62-76 | Index 0 is the empty set and index 1 the empty vector. Any other index succeeds exactly when it was read before, and names a node of the storage. An unknown index is the `unwrap` failure. |
| Sylvan.ReadNode | examples/reach/src/sylvan_io.rs:34-54 | One record is inserted and registered under the next index, and the node registered is exactly what `insert` returns for the looked-up children. Every earlier index keeps its node, and numbering moves on by one. An unknown `down` index fails naming `down`; a known `down` with an unknown `right` fails naming `right`; a node `insert` would reject fails as an invalid node. |
| Sylvan.EntryAt | examples/reach/src/sylvan_io.rs:34-44 | A record's value is below `2^32`, and its `down` and `right` are below `2^47`: the value is bytes 6 to 9, `down` drops the low 17 bits of the second word, and `right` is bytes 0 to 5 without the mark bit. |
| Sylvan.ChildDenotes | examples/reach/src/sylvan_io.rs:48-49 | A child looked up by file index stands for the set its file records describe. |
| Sylvan.NewNodeDenotes | examples/reach/src/sylvan_io.rs:48-52 | The node inserted for a record stands for the set that record describes in the file. |
| Sylvan.OldNodesDenote | examples/reach/src/sylvan_io.rs:51-52 | Registering a new record leaves every earlier index standing for its set. |
| Sylvan.ReadNodeDenotes | examples/reach/src/sylvan_io.rs:34-54 | After one record, every index the reader knows stands for what the records read so far describe. |
| Sylvan.DenotesExtends | examples/reach/src/sylvan_io.rs:170-175 | Nodes inserted between two reads, such as the meta vectors, leave every index the reader knows standing for its records' set. |
| Sylvan.ReadEntries | examples/reach/src/sylvan_io.rs:29-55 | Reading `k` records numbers them consecutively from the reader's next index and keeps every earlier index. Each index then stands for what the file's records describe. |
| Sylvan.EntriesStep | examples/reach/src/sylvan_io.rs:29-55 | Reading the first record and then the others is reading all of them, numbered from the reader's next index. |
| Sylvan.Records | examples/reach/src/sylvan_io.rs:29-35 | `count` records take `16 * count` bytes, one decoded record per 16 bytes. |
| Sylvan.ReadRecords | examples/reach/src/sylvan_io.rs:26-55 | Too few bytes for the announced records is a failure. Otherwise the records are read in order and the bytes after them are left over. |
| Sylvan.ReadRoot | examples/reach/src/sylvan_io.rs:57-58 | The root index is looked up as `node_from_index` does, so 0 and 1 give the terminals. |
| Sylvan.ReadLdd | examples/reach/src/sylvan_io.rs:24-59 | A file without a count, the records and a root index fails. Otherwise the first word counts the records, which are decoded and read in file order, numbered on from the reader's next index, and the bytes after the root index are left over. |
| Sylvan.LddTail | examples/reach/src/sylvan_io.rs:57 | After the records, fewer than eight bytes left means the input holds no complete LDD. Otherwise the next word is the root index, and what follows it is left over. |
| Sylvan.ReadLddRoot | examples/reach/src/sylvan_io.rs:57-58 | The root returned is the node `node_from_index` gives for the root index written after the records. |
| Sylvan.ReadLddGrows | examples/reach/src/sylvan_io.rs:24-59 | `read_ldd` keeps every node it knew, numbers on by the node count, and returns a node of the storage. |
| Sylvan.ReadLddDenote | examples/reach/src/sylvan_io.rs:24-59 | When the reader's indices stood for the records read before, the LDD read stands for exactly the set its root index describes, with this LDD's records numbered on after those (`LddSet`). |
| Sylvan.ReadRootAsWritten | examples/reach/src/sylvan_io.rs:57-58 | As written, the root index is looked up among the nodes read only, so any index not read, 0 and 1 included, fails. |
| Sylvan.ReadLddAsWritten | examples/reach/src/sylvan_io.rs:24-59 | As written, a successful `read_ldd` always returns an inner node and never a terminal. |
| Sylvan.EmptySetFileAsWritten | examples/reach/src/sylvan_io.rs:57-58 | On the file of the empty set (no records, root 0), the reader as written fails, while the corrected reader returns 'false'. |
| SylvanModel.ReadU32s | examples/reach/src/sylvan_io.rs:100-106 | `n` numbers are read exactly when `4n` bytes are there. They are the numbers at consecutive offsets, and the bytes after them are left over. |
| SylvanModel.ReadProjection | example/src/sylvan_io.rs:94-118 | A projection is two counts followed by that many read entries and then write entries, in file order. It fails exactly when the bytes run out. |
| SylvanModel.Repeat | examples/reach/src/sylvan_io.rs:143-145 | Reading `n` items one after the other gives `n` items. |
| SylvanModel.RepeatSnoc | examples/reach/src/sylvan_io.rs:143-145 | Reading one more item where the first `n` ended is reading `n + 1` items. |
| SylvanModel.RepeatFails | examples/reach/src/sylvan_io.rs:143-145 | Once the first `m` items cannot be read, no longer run can be read either. |
| SylvanModel.MaxOr0 | examples/reach/src/sylvan_io.rs:148-158 | This is the largest entry, and it occurs in the list. With no entries it is 0. |
| SylvanModel.MetaLengthAsWritten | examples/reach/src/sylvan_io.rs:147-158 | The meta length as written is the largest variable the projection names. |
| SylvanModel.MetaLengthAsWrittenExample | examples/reach/src/sylvan_io.rs:147-168 | A group that reads only variable 0 gets the empty meta vector as written, which has no position for that variable. The corrected length is 1. |
| SylvanModel.MetaLength | examples/reach/src/sylvan_io.rs:147-158 | The meta length leaves a position for every variable the projection names. It is one more than the largest of them, or 0 when there are none. |
| SylvanModel.MetaLengthLeast | examples/reach/src/sylvan_io.rs:147-158 | No shorter length leaves a position for every variable named. |
| SylvanModel.MetaVector | examples/reach/src/sylvan_io.rs:160-168 | The corrected meta vector: all zeros, of the corrected meta length. For a group that reads only variable 0 it is `[0]`, where the source's loop gives the empty vector (see Findings). |
| SylvanModel.ReadInitial | examples/reach/src/sylvan_io.rs:133-137 | After the two header numbers, the initial states are read by a fresh reader. They stand for the set the file's records describe. |
| SylvanModel.InitialDenote | examples/reach/src/sylvan_io.rs:131-137 | After the initial states are read by a fresh reader, it numbers on from 2 past the node count, every index it knows stands for its records' set, and the root stands for the set the file gives this LDD. |
| SylvanModel.NextLdd | examples/reach/src/sylvan_io.rs:178-181 | One relation is `read_ldd` where the last LDD ended. The reader stays valid, the storage only grows, numbering moves on by the node count and the bytes after the root index are left over. When the reader's indices stood for the records read before, the root stands for the set the file gives this LDD. |
| SylvanModel.RootsSnoc | examples/reach/src/sylvan_io.rs:178-181 | After one more LDD read where the last one ended, the earlier roots still stand for their LDDs' sets, and the new root stands for the set of the file's next LDD. |
| SylvanModel.NextRoot | examples/reach/src/sylvan_io.rs:178-181 | One more relation adds one root and the storage only grows. When the earlier roots stood for the file's first LDDs, the new root stands for the next one. |
| SylvanModel.ReadRelations | examples/reach/src/sylvan_io.rs:178-181 | `n` relations read one after the other give `n` roots, and the storage only grows. When the reader's indices stood for the records read before, the i-th root stands for the set of the i-th LDD the file holds from there on. |
| SylvanModel.MetasSnoc | examples/reach/src/sylvan_io.rs:161-175 | A meta vector inserted after the others leaves theirs in place. |
| SylvanModel.NextMeta | examples/reach/src/sylvan_io.rs:145-175 | One projection read, with its corrected meta vector inserted. It fails exactly as reading the projection does, and the handle stands for just that meta vector. |
| SylvanModel.ReadMetas | examples/reach/src/sylvan_io.rs:143-176 | The projections are read in file order, and each group's meta handle stands for just its corrected meta vector. |
| SylvanModel.Transitions | examples/reach/src/sylvan_io.rs:170-181 | Each transition pairs the relation and the meta vector at the same position. |
| SylvanModel.ReadTransitions | examples/reach/src/sylvan_io.rs:139-181 | There is one transition per announced group. The i-th meta handle stands for just the i-th group's corrected meta vector. When the reader's indices stood for the records read before, the i-th relation stands for the set of the i-th LDD after the projections. |
| SylvanModel.LoadModel | examples/reach/src/sylvan_io.rs:128-186 | The corrected `load_model` (root lookup including the terminals, meta length one more than the largest variable): the initial states stand for the set the file gives them, the i-th relation for the set of the i-th LDD after the projections and each meta handle for its group's meta vector. The storage only grows. |
| SylvanModel.TransitionsAfter | examples/reach/src/sylvan_io.rs:139-185 | What `load_model` reads after the initial states: the storage only grows and keeps the initial states' set, and the i-th relation stands for the set of the i-th LDD after the projections, with the records numbered on from the initial states' records. |
| SylvanModel.Groups | example/src/sylvan_io.rs:146-158 | Each group keeps its projections verbatim and takes the relation read at its position. |
| SylvanModel.GroupsBuilt | example/src/sylvan_io.rs:143-158 | Groups made of the projections read and of nodes of the table are the groups the file gives. |
| SylvanModel.ReadProjectionList | example/src/sylvan_io.rs:143-153 | The loop over the projections reads the same items as reading them one after another. |
| SylvanModel.ReadGroups | example/src/sylvan_io.rs:139-158 | There is one group per announced projection, carrying its read and write entries verbatim. When the reader's indices stood for the records read before, the i-th relation stands for the set of the i-th LDD after the projections. |
| SylvanModel.LoadGroups | example/src/sylvan_io.rs:128-163 | The example's `load_model` with the corrected root lookup: the initial states stand for the set the file gives them, each group keeps its projections, and the i-th relation stands for the set of the i-th LDD after the projections. The storage only grows. |
| SylvanModel.GroupsAfter | example/src/sylvan_io.rs:139-162 | What the example's `load_model` reads after the initial states: the storage only grows and keeps the initial states' set, each group keeps its projections, and the i-th relation stands for the set of the i-th LDD after the projections. |

## Left out

- File handling. `File::open` and `read_exact` are replaced by a byte sequence given as input. Running out of bytes is the `EndOfFile` error.
- Panics. The `unwrap` on an unknown index becomes `UnknownIndex`. An `insert` assertion that a record read from a file fails becomes `InvalidNode`. The assertions of `insert` itself are its precondition.
- Effects of a failed read. When reading fails part way through, the source has already inserted the earlier records. The model discards the partial storage, because `load_model` gives up anyway.
- Sharing. `Rc<RefCell<...>>` sharing, and the moment at which Rust runs `drop`, are not modelled. Handles are natural numbers, and drops happen where the model says.
- Garbage collection. `Storage::garbage_collect` is an empty function, so there is nothing to model.
- Hashing. The hash maps are Dafny maps, so hash values play no part. `Protection.LddHash` stands for the node index being hashed.
- Unsigned overflow. The `u64` counters (`number_of_insertions`, `last_index`, reference counts and heights) are unbounded naturals. Overflow needs `2^64` operations.
- Protection-set accessors. `maximum_size` and `number_of_insertions` are plain accessors with nothing to prove, so they have no members.
- Cache wiring. `storage.operation_cache()` is not part of the storage shown. The cache is modelled on its own, and the operator is a function parameter.
- Iterators.IterNew: requires a handle other than 'true', because `iter(1)` never yields (see Findings). `Iterators.IterVectors` covers 'true' as well.
- Program drivers and tooling. The reachability drivers, the command-line parsing, the demo programs, the benchmarks and the random test helpers are outside this model. The tests are used only as statements of properties.
- The `src/ldd.rs` display stub. It prints only the root value, so it is not modelled.
- `println!`. The debug output of `read_projection` is not modelled.
- SylvanModel.LoadModel: the relations are read after all the projections, into a separate list. The source first stores 'false' placeholders and then overwrites them in order, which has the same final result.
- SylvanModel.MetaVector: the read and write flags that the meta loop computes and never uses are not modelled. The second flag is also computed from the read projection. The vector is all zeros either way.
- SylvanModel.ReadInitial: the header's vector length and the unused `k` are read and discarded, as in the source.
- Sylvan.EntryAt: decodes a record's fields arithmetically from its bytes. That this agrees with the bit-level `SylvanFormat.DecodeRecord` is not proved, because the solver cannot relate 64-bit bit-vectors and unbounded integers at this size.
- SylvanFormat.ReadU64: reads the word as a number (`WordAt`). That this agrees with the bit-vector `FromLe64` is not proved, for the same reason.
- Operations.Union: requires operands of equal height, or 'false'. The source does not check this. `Operations.UnionAsWritten` models the unchecked function, and `Operations.UnionAsWrittenAgrees` shows the two agree on the operands the requirement admits (see Findings).
- Format.Print: the formatter is taken never to fail. The `?` after each `write!` and after the recursive call (ldd/src/format.rs:31, 34 and 48) only passes a formatter error on, so the model returns the text without an error case.
- Format.Display: the same for the `?` after its `write!` and `print` calls (ldd/src/format.rs:70-71).
- The rest of the file. Any bytes after the relations are ignored, as in the source.

## Findings

| source | as written | input that shows it | evidently intended | confidence | as-written member | corrected member |
|---|---|---|---|---|---|---|
| examples/reach/src/sylvan_io.rs:57-58 | The root index of `read_ldd` is looked up only among the nodes read, with `unwrap`. The same lookup is at example/src/sylvan_io.rs:56-57. | A file holding the empty set: node count 0, root index 0 (16 zero bytes). | Look the root up as `node_from_index` does, so that 0 and 1 give the terminals. | not executed; high | Sylvan.ReadLddAsWritten, Sylvan.EmptySetFileAsWritten | Sylvan.ReadLdd |
| ldd/src/storage.rs:26-30 | `clone` protects the node and then calls `Ldd::new`, which protects it again, while `drop` unprotects once. | Clone any handle and drop the clone: the node's count ends one above where it started. | One protection per handle, so that clone and drop balance. | not executed; high | Counted.CloneAsWritten, Counted.CloneThenDropAsWritten | Counted.Clone, Counted.CloneThenDrop |
| examples/reach/src/sylvan_io.rs:147-158 | The meta length is the largest variable named by the projections. | A group reading variable 0 only: length 0, so there is no position for variable 0. | One more than the largest variable named, so that every variable gets a position. | not executed; medium | SylvanModel.MetaLengthAsWritten, SylvanModel.MetaLengthAsWrittenExample | SylvanModel.MetaLength, SylvanModel.MetaLengthLeast |
| ldd/src/operations.rs:19-47 | `union` does not check that its operands have the same height. With 'true' and an inner node whose value is 0, the equal-value branch merges the terminal's stored `(0, 0, 0)` as if it were a node. | `union(1, n)` where `n` stands for `{<0>}`: the result is `n`, so the empty vector is lost. | Operands of one height, as every LDD of the library is, with the height checked or required of callers. | not executed; low | Operations.UnionAsWritten, Operations.UnionMixedHeightsAsWritten | Operations.Union, Operations.UnionAsWrittenAgrees |
| ldd/src/iterators.rs:13-28 | `iter(1)` puts the 'true' node on the stack. Both terminals store `(0, 0, 0)`, so `next` keeps pushing 'false' and never returns. | `iter` on the empty-vector LDD `{<>}`. | Yield the empty vector once. | not executed; high | Iterators.TerminalNeverStops, Iterators.IterTrueAsWritten | Iterators.IterVectors |
