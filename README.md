# DataStructures: ArrayList, LinkedList and HashMap in Dafny

This project models the three hand-written containers of the Java library
`com.bondarenko.datastructures` and proves properties of the model.

- `ArrayList` is backed by an array that grows by a factor when an insertion
  finds it full.
- `LinkedList` is a doubly-linked chain of nodes with `first`, `last` and a
  separate `size`.
- `HashMap` chains its entries in five fixed buckets. The code never resizes
  the array, and `getIterator` returns a stub.

Each container is a Dafny `class` whose methods update its fields in place.
Each method is proved against a value-level specification:

- `ArrayList` is proved against `Elements()`, the first `size` slots of its array.
- `LinkedList` is proved against the ghost `nodes` and `Contents` sequences of its chain.
- `HashMap` is proved against the ghost `table`, one sequence of key/value cells
  per bucket, and against the pure operations of module `Buckets` on such
  tables: `Lookup`, `Insert`, `Update` and `Delete`.

Java behaviour is modelled as follows:

- A Java `null` is `Nullable.Null`.
- A thrown exception is a `Throw` result, never a precondition.
- The key type's `hashCode` and `equals` are the `KeyOps` the map is built
  with. `Lawful` states their Java contract: `equals` is an equivalence, and
  equal keys have equal hash codes.
- Java's truncating `/` and `%` are written out as `Java.Quot` and `Java.Rem`.

Files:

- `java.dfy`: nullable references, exceptions, 32-bit integers and truncating division and remainder.
- `seqs.dfy`: positional insertion and removal, and the two linear searches.
- `array_list.dfy`: `ArrayList` and its iterator.
- `linked_list.dfy`: `Node`, `LinkedList` and its iterator.
- `buckets.dfy`: the bucket table as a value: where a key lives, how a bucket is searched, and what put, remove and get do.
- `hash_map.dfy`: `Entry`, `HashMap`, and `ArrayList.indexOf` as the map uses it.

The model follows the code where the code departs from the library's design:

- The map never grows, because its resize branch cannot run.
- The map's iterator is a stub.
- Several operations do things their names do not promise; see Findings.
- An `ArrayList` created with capacity 0, or with growth factor 1, never gains
  room. `add` on it when full throws `ArrayIndexOutOfBoundsException` from
  `System.arraycopy`, and `ArrayList.AddAt` states exactly when this happens.

## Model

| member | source | states |
|---|---|---|
| Java.Abs | src/main/java/com/bondarenko/datastructures/map/HashMap.java:107 | `Math.abs`: the result is non-negative and is `x` or `-x` |
| Java.Quot | src/main/java/com/bondarenko/datastructures/map/HashMap.java:107 | Java's `/` truncates: its magnitude is the floor of the magnitudes' quotient, and it is non-negative when the signs agree and non-positive when they differ |
| Java.Rem | src/main/java/com/bondarenko/datastructures/map/HashMap.java:107 | Java's `%` is what `/` leaves over, `Quot(a, b) * b + Rem(a, b) == a`; it is smaller in magnitude than the divisor and takes the sign of the dividend |
| Seqs.InsertAt | src/main/java/com/bondarenko/datastructures/list/ArrayList.java:36-42 | insertion at `i`: elements before `i` stay, `v` is at `i`, later elements move up one |
| Seqs.RemoveAt | src/main/java/com/bondarenko/datastructures/list/ArrayList.java:45-52 | removal at `i`: elements before `i` stay, later elements move down one |
| Seqs.RemoveInserted | src/main/java/com/bondarenko/datastructures/list/ArrayList.java:36-52 | `remove(i)` after `add(v, i)` gives the original sequence back |
| Seqs.InsertRemoved | src/main/java/com/bondarenko/datastructures/list/ArrayList.java:36-52 | re-inserting a removed element where it was gives the sequence back |
| Seqs.InsertAtMultiset | src/main/java/com/bondarenko/datastructures/list/ArrayList.java:36-42 | insertion adds exactly one occurrence of `v` and loses nothing |
| Seqs.RemoveAtMultiset | src/main/java/com/bondarenko/datastructures/list/ArrayList.java:45-52 | removal takes away exactly the element at `i` |
| Seqs.FirstIndex | src/main/java/com/bondarenko/datastructures/list/ArrayList.java:74-81 | -1 exactly when `v` is absent; otherwise a position holding `v` with no earlier occurrence |
| Seqs.LastIndex | src/main/java/com/bondarenko/datastructures/list/ArrayList.java:84-91 | -1 exactly when `v` is absent; otherwise a position holding `v` with no later occurrence |
| ArrayLists.EffectiveGrowth | src/main/java/com/bondarenko/datastructures/list/ArrayList.java:26 | a factor of at least 1 is kept as given, and a factor below 1 is replaced by `DEFAULT_GROWTH_FACTOR`, 2.5 |
| ArrayLists.GrownCapacity | src/main/java/com/bondarenko/datastructures/list/ArrayList.java:132-139 | growing never shrinks the array, and a list with room keeps its capacity |
| ArrayLists.RoomAfterGrowth | src/main/java/com/bondarenko/datastructures/list/ArrayList.java:132-139 | after growing there is a free slot iff the list had room or floor(size * factor) exceeds size |
| ArrayLists.EmptyArrayNeverGrows | src/main/java/com/bondarenko/datastructures/list/ArrayList.java:132-139 | a full array of length 0 stays at length 0 whatever the factor |
| ArrayLists.UnitGrowthNeverGrows | src/main/java/com/bondarenko/datastructures/list/ArrayList.java:132-139 | with factor 1 a full array is reallocated to the same length |
| ArrayLists.DefaultGrowthMakesRoom | src/main/java/com/bondarenko/datastructures/list/ArrayList.java:132-139 | with the default factor 2.5 a full non-empty array at least doubles |
| ArrayLists.ValidateIndex | src/main/java/com/bondarenko/datastructures/list/ArrayList.java:120-124 | passes iff `0 <= index < size`, else `IndexOutOfBoundsException` |
| ArrayLists.ValidateIndexForAdd | src/main/java/com/bondarenko/datastructures/list/ArrayList.java:126-130 | passes iff `0 <= index <= size`, else `IndexOutOfBoundsException` |
| ArrayLists.IteratorRemoved | src/main/java/com/bondarenko/datastructures/list/ArrayList.java:169-176 | iterator remove as written: one element shorter, the slot at the cursor nulled, every other slot kept |
| ArrayLists.IteratorRemovedAtEnd | src/main/java/com/bondarenko/datastructures/list/ArrayList.java:169-176 | when the last element was returned and the array has a slot past it, nulling that slot and decrementing size removes exactly that element; when the array is full the cursor is at `array.length` and the store throws `ArrayIndexOutOfBoundsException` instead (see `ArrayListIterator.Remove`) |
| ArrayLists.IteratorRemoveKeepsReturned | src/main/java/com/bondarenko/datastructures/list/ArrayList.java:169-176 | on [a, b, c] after one `next()`, remove leaves [a, null] where [b, c] is meant, whatever a, b and c are |
| ArrayLists.ArrayList.Default | src/main/java/com/bondarenko/datastructures/list/ArrayList.java:16-18 | an empty list of capacity 10 with growth factor 2.5 |
| ArrayLists.ArrayList.WithCapacity | src/main/java/com/bondarenko/datastructures/list/ArrayList.java:20-22 | an empty list of the given capacity with growth factor 2.5 |
| ArrayLists.ArrayList.constructor | src/main/java/com/bondarenko/datastructures/list/ArrayList.java:25-28 | an empty list of the given capacity; a factor below 1 is replaced by 2.5 |
| ArrayLists.ArrayList.EnsureCapacity | src/main/java/com/bondarenko/datastructures/list/ArrayList.java:132-139 | the elements are kept; the capacity becomes `GrownCapacity`; a fresh array only when the old one was full |
| ArrayLists.ArrayList.Add | src/main/java/com/bondarenko/datastructures/list/ArrayList.java:31-33 | succeeds iff the grown array has room, and then the elements are the old ones plus `value` at the end; the array is the old one or a freshly allocated one |
| ArrayLists.ArrayList.AddAt | src/main/java/com/bondarenko/datastructures/list/ArrayList.java:36-42 | bad index: `IndexOutOfBoundsException`, nothing changed; full array after growing: `ArrayIndexOutOfBoundsException`; otherwise elements become `InsertAt(old, index, value)`; the array is the old one or a freshly allocated one |
| ArrayLists.ArrayList.Remove | src/main/java/com/bondarenko/datastructures/list/ArrayList.java:45-52 | returns the old element at `index`; elements become `RemoveAt(old, index)`; the vacated slot is null; bad index throws and changes nothing |
| ArrayLists.ArrayList.Get | src/main/java/com/bondarenko/datastructures/list/ArrayList.java:55-58 | the element at `index`, or `IndexOutOfBoundsException` |
| ArrayLists.ArrayList.Set | src/main/java/com/bondarenko/datastructures/list/ArrayList.java:61-66 | returns the old element and replaces only that slot; bad index throws and changes nothing |
| ArrayLists.ArrayList.Contains | src/main/java/com/bondarenko/datastructures/list/ArrayList.java:69-71 | true iff `value` is among the elements, nulls included |
| ArrayLists.ArrayList.IndexOf | src/main/java/com/bondarenko/datastructures/list/ArrayList.java:74-81 | the loop returns `FirstIndex(Elements(), value)` |
| ArrayLists.ArrayList.LastIndexOf | src/main/java/com/bondarenko/datastructures/list/ArrayList.java:84-91 | the loop returns `LastIndex(Elements(), value)` |
| ArrayLists.ArrayList.IsEmpty | src/main/java/com/bondarenko/datastructures/list/ArrayList.java:94-96 | true iff there are no elements |
| ArrayLists.ArrayList.Clear | src/main/java/com/bondarenko/datastructures/list/ArrayList.java:99-104 | no elements remain; the former element slots are null; the array and slots past the old size are kept |
| ArrayLists.ArrayList.Size | src/main/java/com/bondarenko/datastructures/list/ArrayList.java:107-109 | the number of elements |
| ArrayLists.ArrayList.Iterator | src/main/java/com/bondarenko/datastructures/list/ArrayList.java:146-148 | a fresh iterator at index 0 that does not allow remove |
| ArrayLists.ArrayListIterator.constructor | src/main/java/com/bondarenko/datastructures/list/ArrayList.java:150-152 | cursor 0, remove not allowed |
| ArrayLists.ArrayListIterator.HasNext | src/main/java/com/bondarenko/datastructures/list/ArrayList.java:155-157 | true iff the cursor is below the list's size |
| ArrayLists.ArrayListIterator.Next | src/main/java/com/bondarenko/datastructures/list/ArrayList.java:160-166 | the element at the cursor; the cursor advances and remove becomes allowed; at the end `NoSuchElementException` and nothing moves |
| ArrayLists.ArrayListIterator.Remove | src/main/java/com/bondarenko/datastructures/list/ArrayList.java:169-176 | without a preceding next: `IllegalStateException`; otherwise the flag clears, and then a cursor at `array.length` (the last element of a full array was returned) makes the store throw `ArrayIndexOutOfBoundsException` with nothing else changed; when the cursor is below `array.length`, that slot is nulled, size drops by one, and the elements become `IteratorRemoved(old, index)` |
| LinkedLists.LastIndexAfterHead | src/main/java/com/bondarenko/datastructures/list/LinkedList.java:90-99 | the scan as written: never 0; -1 iff `v` is absent from positions 1 onward; otherwise the last occurrence |
| LinkedLists.LastIndexAfterHeadMissesOnlyHead | src/main/java/com/bondarenko/datastructures/list/LinkedList.java:90-99 | the scan equals the true last index except that an only occurrence at index 0 reports -1 |
| LinkedLists.LastIndexOfSingletonMisses | src/main/java/com/bondarenko/datastructures/list/LinkedList.java:90-99 | on [x], lastIndexOf(x) is -1 while x is at index 0 |
| LinkedLists.ValidateIndex | src/main/java/com/bondarenko/datastructures/list/LinkedList.java:180-184 | passes iff `0 <= index < size`, else `IndexOutOfBoundsException` |
| LinkedLists.ValidateIndexForAdd | src/main/java/com/bondarenko/datastructures/list/LinkedList.java:174-178 | passes iff `0 <= index <= size`, else `IndexOutOfBoundsException` |
| LinkedLists.Node.constructor | src/main/java/com/bondarenko/datastructures/list/LinkedList.java:191-193 | a node holding `value` with no links |
| LinkedLists.LinkedList.constructor | src/main/java/com/bondarenko/datastructures/list/LinkedList.java:8-11 | an empty, well-formed list |
| LinkedLists.LinkedList.FindByIndex | src/main/java/com/bondarenko/datastructures/list/LinkedList.java:166-172 | walking `index` links from `first` reaches the node at position `index` |
| LinkedLists.LinkedList.Add | src/main/java/com/bondarenko/datastructures/list/LinkedList.java:14-16 | appends `value` and keeps the list well-formed |
| LinkedLists.LinkedList.AddAt | src/main/java/com/bondarenko/datastructures/list/LinkedList.java:19-40 | bad index throws and changes nothing; at either end the contents become `InsertAt(old, index, value)`; in the middle only `size` changes, so the list is no longer well-formed |
| LinkedLists.LinkedList.LinkOnly | src/main/java/com/bondarenko/datastructures/list/LinkedList.java:22-23 | the new node becomes the whole chain |
| LinkedLists.LinkedList.LinkFirst | src/main/java/com/bondarenko/datastructures/list/LinkedList.java:24-27 | the new node is prepended to the chain |
| LinkedLists.LinkedList.LinkLast | src/main/java/com/bondarenko/datastructures/list/LinkedList.java:28-31 | the new node is appended to the chain |
| LinkedLists.LinkedList.Remove | src/main/java/com/bondarenko/datastructures/list/LinkedList.java:43-60 | returns the value at `index`; the contents become `RemoveAt(old, index)`; bad index throws and changes nothing |
| LinkedLists.LinkedList.UnlinkFirst | src/main/java/com/bondarenko/datastructures/list/LinkedList.java:48-50 | the chain loses its first node |
| LinkedLists.LinkedList.UnlinkLast | src/main/java/com/bondarenko/datastructures/list/LinkedList.java:51-53 | the chain loses its last node |
| LinkedLists.LinkedList.UnlinkInner | src/main/java/com/bondarenko/datastructures/list/LinkedList.java:54-56 | the chain loses the inner node at `index` |
| LinkedLists.LinkedList.Get | src/main/java/com/bondarenko/datastructures/list/LinkedList.java:63-66 | the value at `index`, or `IndexOutOfBoundsException` |
| LinkedLists.LinkedList.Set | src/main/java/com/bondarenko/datastructures/list/LinkedList.java:69-75 | returns the old value and replaces only that position; bad index throws and changes nothing |
| LinkedLists.LinkedList.IndexOf | src/main/java/com/bondarenko/datastructures/list/LinkedList.java:78-87 | the walk returns `FirstIndex(Contents, value)` |
| LinkedLists.LinkedList.LastIndexOf | src/main/java/com/bondarenko/datastructures/list/LinkedList.java:90-99 | the backward walk returns `LastIndexAfterHead(Contents, value)` |
| LinkedLists.LinkedList.Contains | src/main/java/com/bondarenko/datastructures/list/LinkedList.java:127-129 | true iff `value` is in the list |
| LinkedLists.LinkedList.Clear | src/main/java/com/bondarenko/datastructures/list/LinkedList.java:102-105 | the list becomes empty and stays well-formed |
| LinkedLists.LinkedList.IsEmpty | src/main/java/com/bondarenko/datastructures/list/LinkedList.java:108-110 | true iff the list has no values |
| LinkedLists.LinkedList.Size | src/main/java/com/bondarenko/datastructures/list/LinkedList.java:113-115 | the number of values in the chain |
| LinkedLists.LinkedList.Iterator | src/main/java/com/bondarenko/datastructures/list/LinkedList.java:132-134 | a fresh, well-formed iterator at position 0 |
| LinkedLists.MiddleInsertIsLost | src/main/java/com/bondarenko/datastructures/list/LinkedList.java:32-38 | `add(3, 1)` on [1, 2] leaves size 3 but a chain reading 1, 2 |
| LinkedLists.IteratorRemoveTruncates | src/main/java/com/bondarenko/datastructures/list/LinkedList.java:155-163 | after one `next()` on [1, 2, 3], remove succeeds with size 2 but a chain holding only 1 |
| LinkedLists.LinkedListIterator.constructor | src/main/java/com/bondarenko/datastructures/list/LinkedList.java:137 | the cursor starts on `first` |
| LinkedLists.LinkedListIterator.HasNext | src/main/java/com/bondarenko/datastructures/list/LinkedList.java:140-142 | true iff values remain after the cursor |
| LinkedLists.LinkedListIterator.Next | src/main/java/com/bondarenko/datastructures/list/LinkedList.java:145-152 | the value under the cursor, which advances; at the end `NoSuchElementException` |
| LinkedLists.LinkedListIterator.Remove | src/main/java/com/bondarenko/datastructures/list/LinkedList.java:155-163 | with a node after the cursor: `last` becomes the node before the cursor, whose `next` is set to null, and size drops by one. On the last node: `IllegalStateException`. Past the end: `NullPointerException`. On the first node: `NullPointerException`, after `last` is nulled |
| Buckets.SameKeyIsEquivalence | src/main/java/com/bondarenko/datastructures/map/HashMap.java:197-212 | key matching, with null matching only null, is reflexive, symmetric and transitive |
| Buckets.BucketIndex | src/main/java/com/bondarenko/datastructures/map/HashMap.java:103-108 | always a valid bucket index, and 0 for the null key |
| Buckets.SameKeySameBucket | src/main/java/com/bondarenko/datastructures/map/HashMap.java:103-108 | keys that match land in the same bucket |
| Buckets.Find | src/main/java/com/bondarenko/datastructures/map/HashMap.java:197-212 | -1 iff no key in the bucket matches; otherwise the first matching position |
| Buckets.FindMatching | src/main/java/com/bondarenko/datastructures/map/HashMap.java:27 | among pairwise distinct keys, the search finds the one matching position |
| Buckets.StoredIsFound | src/main/java/com/bondarenko/datastructures/map/HashMap.java:58-71 | every stored cell is found by its own key |
| Buckets.KeysUnique | src/main/java/com/bondarenko/datastructures/map/HashMap.java:24-39 | no two cells anywhere in the table have matching keys |
| Buckets.EmptyIffNothingMapped | src/main/java/com/bondarenko/datastructures/map/HashMap.java:90-92 | the table has no cells iff no key is mapped |
| Buckets.InsertSpec | src/main/java/com/bondarenko/datastructures/map/HashMap.java:29-32 | inserting an absent key keeps the invariant, adds one cell, maps the key to the new value and leaves every other key alone |
| Buckets.UpdateSpec | src/main/java/com/bondarenko/datastructures/map/HashMap.java:33-37 | overwriting a present key keeps the invariant and the count, maps the key to the new value and leaves every other key alone |
| Buckets.DeleteSpec | src/main/java/com/bondarenko/datastructures/map/HashMap.java:46-53 | deleting keeps the invariant, removes one cell iff the key was present, unmaps the key and leaves every other key alone |
| Buckets.KeysRemoveAt | src/main/java/com/bondarenko/datastructures/map/HashMap.java:51 | cutting a cell out of a bucket cuts its key out of the bucket's keys |
| Buckets.DeleteAt | src/main/java/com/bondarenko/datastructures/map/HashMap.java:45-52 | deleting a key found at position j of bucket i cuts exactly that cell, keeps the invariant and lowers the count by one |
| Buckets.UpdateAt | src/main/java/com/bondarenko/datastructures/map/HashMap.java:33-36 | updating a key found at position j of bucket i rewrites exactly that cell's value, keeps the invariant and the count |
| HashMaps.Wrap | src/main/java/com/bondarenko/datastructures/map/HashMap.java:24 | a null argument becomes a null field, any other becomes that value |
| HashMaps.Entry.constructor | src/main/java/com/bondarenko/datastructures/map/HashMap.java:187-190 | an entry with the given key and value |
| HashMaps.Entry.Equals | src/main/java/com/bondarenko/datastructures/map/HashMap.java:197-212 | throws exactly when comparing a null-keyed entry with another entry; otherwise, for another entry, whether the keys match |
| HashMaps.IndexOf | src/main/java/com/bondarenko/datastructures/map/HashMap.java:27 | with a null probe key and a non-empty bucket: `NullPointerException`; otherwise the loop returns `Find` on the bucket's keys |
| HashMaps.HashMap.constructor | src/main/java/com/bondarenko/datastructures/map/HashMap.java:13-21 | five empty buckets, size 0, no key mapped; the resize branch is unreachable |
| HashMaps.HashMap.Size | src/main/java/com/bondarenko/datastructures/map/HashMap.java:85-87 | the number of cells in the table |
| HashMaps.HashMap.IsEmpty | src/main/java/com/bondarenko/datastructures/map/HashMap.java:90-92 | true iff the table has no cells |
| HashMaps.HashMap.Append | src/main/java/com/bondarenko/datastructures/map/HashMap.java:30-32 | the entry is appended to bucket i and the table becomes `Insert(old, key, value)` |
| HashMaps.HashMap.Overwrite | src/main/java/com/bondarenko/datastructures/map/HashMap.java:34-36 | the bucket list is kept, the entry at the position now holds `value` in place, and the table becomes `Update(old, key, value)` |
| HashMaps.HashMap.Cut | src/main/java/com/bondarenko/datastructures/map/HashMap.java:51-52 | entry j is cut out of bucket i and the table becomes `Delete(old, key)` |
| HashMaps.HashMap.Put | src/main/java/com/bondarenko/datastructures/map/HashMap.java:24-39 | a null key in a non-empty bucket 0 throws and changes nothing; otherwise an absent key gives null, a freshly allocated entry appended to the key's bucket and the table `Insert(old, key, value)`; a present key gives its previous value, keeps the bucket lists (its entry is overwritten in place) and the table becomes `Update(old, key, value)` |
| HashMaps.HashMap.Remove | src/main/java/com/bondarenko/datastructures/map/HashMap.java:42-55 | throws as put does; otherwise the table becomes `Delete(old, key)`; returns null if the key was absent, and otherwise the removed Entry, one that sat in the key's bucket before the call, whose key matches and whose value field holds the old value |
| HashMaps.HashMap.RemoveValue | src/main/java/com/bondarenko/datastructures/map/HashMap.java:42-55 | remove as evidently intended: throws as put does; otherwise the table becomes `Delete(old, key)` and the result is the value the key was mapped to, or null when it was absent |
| HashMaps.HashMap.Get | src/main/java/com/bondarenko/datastructures/map/HashMap.java:58-71 | throws as put does; returns the mapped value, or null with the table unchanged; a found key is then mapped to its own Entry: the table becomes `Update(old, key, that Entry)`, where that Entry sits in the key's bucket (the buckets themselves are unchanged), its key matches and its value field now refers to itself |
| HashMaps.HashMap.ContainsKey | src/main/java/com/bondarenko/datastructures/map/HashMap.java:74-82 | true iff the key is mapped; `NullPointerException` as for put |
| HashMaps.HashMap.FindEntry | src/main/java/com/bondarenko/datastructures/map/HashMap.java:114-124 | null iff the key is unmapped; otherwise an entry in the key's bucket whose key matches and whose value is the mapped one |
| HashMaps.HashMap.AddBucket | src/main/java/com/bondarenko/datastructures/map/HashMap.java:126-137 | a freshly allocated entry is appended to the key's bucket, every other bucket is kept, and the table becomes `Insert(old, key, value)` |
| HashMaps.HashMap.PutIfAbsent | src/main/java/com/bondarenko/datastructures/map/HashMap.java:94-101 | throws as put does; a mapped key: returns its value and the table is unchanged; otherwise null is returned and the table becomes `Insert(old, key, value)` |
| HashMaps.IntKeys | src/main/java/com/bondarenko/datastructures/map/HashMap.java:103-108 | integer keys compared by `==` and all hashed to 0 form a lawful `equals`/`hashCode` pair |
| HashMaps.GetTwiceReturnsEntry | src/main/java/com/bondarenko/datastructures/map/HashMap.java:66-68 | after `put(1, 10)`, the first `get(1)` returns 10 and the second returns the entry |
| HashMaps.RemoveReturnsEntry | src/main/java/com/bondarenko/datastructures/map/HashMap.java:50 | after `put(1, 10)`, `remove(1)` returns the entry holding 10, not 10 |
| HashMaps.RemoveValueReturnsValue | src/main/java/com/bondarenko/datastructures/map/HashMap.java:49-50 | after `put(1, 10)`, `remove(1)` returns an entry, while the intended `RemoveValue` returns 10, and the two differ |

## Left out

- `toString` of both lists: string formatting is not modelled.
- `HashMap.getIterator` and `HashMapIterator`: `getIterator` calls the constructor that leaves the inner iterator null, so `hasNext` is always false and `next` and `remove` do nothing. There is no state to model. `Entry.getKey` is used only there.
- The map's resize code: it sits in a constructor branch that cannot run, and the model proves that branch dead.
- `LinkedHashMap` and the `List` and `Map` interfaces are not part of this model.
- Integer overflow: `size` is an unbounded integer, so a container holding 2^31 elements is not modelled.
- ArrayLists.ArrayList.WithCapacity: the capacity is a natural number, so the `NegativeArraySizeException` of a negative capacity is not modelled.
- ArrayLists.ArrayList.constructor: the same holds for a negative capacity.
- ArrayLists.GrownCapacity: the growth factor is an exact real rather than a `double`. Rounding of `size * loadFactor` and the saturating `(int)` cast are not modelled.
- List elements are compared by value equality. A user-defined `equals` on list elements, which `Objects.equals` would call, is not modelled.
- Hash keys use `KeyOps`, which `HashMaps.HashMap.constructor` requires to be lawful. A key type whose `equals` or `hashCode` breaks the Java contract is not modelled.
- Once `add` in the middle or the iterator's `remove` has run, a `LinkedList` is no longer well-formed. Every other list method requires a well-formed list, so calls on such a list are not modelled beyond the two clients under Findings.
- The `ClassCastException` that a caller of `HashMap.remove` meets when it uses the returned Entry as a `V` happens outside the map and is not modelled.
- `add(key, value, newBuckets)` is folded into `HashMaps.HashMap.AddBucket`. It is only ever called with the map's own buckets. Its `newBuckets[index] == null` branch never runs, because the constructor creates every bucket.
- Concurrent modification during iteration is not checked by the source and not modelled.
- The map's bucket array is a sequence-valued field of the map rather than a separate array object. The array is private and never escapes, so its identity is not observable; the model does not capture aliasing of the array or of the bucket lists.

## Findings

| source | as written | input that shows it | evidently intended | confidence | as-written member | corrected member |
|---|---|---|---|---|---|---|
| src/main/java/com/bondarenko/datastructures/list/LinkedList.java:92 | the loop runs while `index > 0`, so index 0 is never compared | `lastIndexOf(x)` on [x] returns -1 | loop while `index >= 0` and return the last occurrence | not executed | LinkedLists.LastIndexOfSingletonMisses | Seqs.LastIndex |
| src/main/java/com/bondarenko/datastructures/list/LinkedList.java:33-37 | a middle insert relinks `node.prev.next` to `node` itself and never links `newNode` in, yet `size` grows | `add(3, 1)` on [1, 2] leaves size 3 and a chain reading 1, 2 | link `newNode` between `node.prev` and `node` | not executed | LinkedLists.MiddleInsertIsLost | Seqs.InsertAt |
| src/main/java/com/bondarenko/datastructures/list/LinkedList.java:155-163 | iterator remove cuts the chain just before the cursor and decrements size once | `next()` then `remove()` on [1, 2, 3] leaves size 2 and a chain holding only 1 | remove only the value `next()` returned last | not executed | LinkedLists.IteratorRemoveTruncates | Seqs.RemoveAt |
| src/main/java/com/bondarenko/datastructures/list/ArrayList.java:174-175 | iterator remove nulls the slot at the cursor, the one after the element returned, shifts nothing, and drops the last element from view | `next()` then `remove()` on [a, b, c] leaves [a, null] | remove the element returned last and shift the tail down, giving [b, c] | not executed | ArrayLists.IteratorRemoveKeepsReturned | Seqs.RemoveAt |
| src/main/java/com/bondarenko/datastructures/map/HashMap.java:50 | `remove` returns the Entry object, cast unchecked to `V` | `put(1, 10)` then `remove(1)` returns the entry, not 10 | return the value the key was mapped to before the deletion | not executed | HashMaps.RemoveReturnsEntry | HashMaps.HashMap.RemoveValue |
| src/main/java/com/bondarenko/datastructures/map/HashMap.java:68 | `get` stores the entry into its own value field | `put(1, 10)`, then `get(1)` twice: the second call returns the entry | return the stored value and leave the map unchanged | not executed | HashMaps.GetTwiceReturnsEntry | Buckets.StoredIsFound |
