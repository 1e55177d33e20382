/**
 * The chained hash map: five buckets, each a list of Entry objects whose
 * value field is updated in place. The bucket array is private and never
 * escapes, so it is held as a sequence-valued field of the map. The ghost
 * `table` mirrors the buckets as key/value cells, and every operation is
 * proved against the bucket-table definitions of module Buckets.
 */
module HashMaps {
  import opened Java
  import opened Buckets
  import opened Seqs

  const LOAD_FACTOR: real := 0.75
  const DEFAULT_INITIAL_CAPACITY: nat := 5

  /**
   * What an entry's value field holds: null, a value of type V, or — once
   * get has run on it, which stores the entry into its own value field — an
   * Entry.
   */
  datatype Ref<K, V> = NullRef | Value(v: V) | EntryRef(entry: Entry<K, V>)

  /** A possibly-null argument of type V as a value-field content. */
  function Wrap<K, V>(x: Nullable<V>): (r: Ref<K, V>)
    ensures r.NullRef? <==> x.Null?
    ensures x.NonNull? ==> r == Value(x.get)
  {
    if x.Null? then NullRef else Value(x.get)
  }

  class Entry<K, V> {
    const key: Nullable<K>
    var value: Ref<K, V>

    constructor (key: Nullable<K>, value: Ref<K, V>)
      ensures this.key == key && this.value == value
    {
      this.key := key;
      this.value := value;
    }

    /**
     * equals(object) against another entry or null: false for null, true for
     * the same object, otherwise whether this entry's key equals the other's,
     * which throws when this entry's key is null.
     */
    function Equals(ops: KeyOps<K>, that: Nullable<Entry<K, V>>): (r: Result<bool>)
      ensures r.Throw? <==> that.NonNull? && that.get != this && key.Null?
      ensures r.Throw? ==> r.exception == NullPointer
      ensures r.Ok? && that.NonNull? && that.get != this ==> r.value == SameKey(ops, key, that.get.key)
      ensures r == Ok(true) ==> that.NonNull?
    {
      if that.Null? then Ok(false)
      else if that.get == this then Ok(true)
      else if key.Null? then Throw(NullPointer)
      else Ok(SameKey(ops, key, that.get.key))
    }
  }

  /**
   * The keys of a bucket of entries, in order: the Keys of the bucket's
   * cells, each entry's (immutable) key paired with no value.
   */
  function EntryKeys<K, V>(bucket: seq<Entry<K, V>>): (keys: seq<Nullable<K>>)
    ensures |keys| == |bucket|
    ensures forall j | 0 <= j < |bucket| :: keys[j] == bucket[j].key
  {
    Keys(seq(|bucket|, j requires 0 <= j < |bucket| => Cell(bucket[j].key, ())))
  }

  /**
   * java.util.ArrayList.indexOf(probe) on a bucket, with the probe entry's
   * equals: the first entry whose key the probe's key matches, or -1; a null
   * probe key throws as soon as there is an entry to compare against.
   */
  method IndexOf<K, V>(ops: KeyOps<K>, bucket: seq<Entry<K, V>>, probe: Entry<K, V>) returns (r: Result<int>)
    requires probe !in bucket
    ensures probe.key.Null? && bucket != [] ==> r == Throw(NullPointer)
    ensures !(probe.key.Null? && bucket != []) ==> r == Ok(Find(ops, EntryKeys(bucket), probe.key))
  {
    for j := 0 to |bucket|
      invariant forall m | 0 <= m < j :: !SameKey(ops, probe.key, bucket[m].key)
      invariant probe.key.Null? ==> j == 0
    {
      var equal := probe.Equals(ops, NonNull(bucket[j]));
      if equal.Throw? {
        return Throw(equal.exception);
      }
      if equal.value {
        return Ok(j);
      }
    }
    return Ok(-1);
  }

  class HashMap<K(!new), V> {
    /** hashCode and equals of the key type. */
    const ops: KeyOps<K>
    var buckets: seq<seq<Entry<K, V>>>
    var size: int
    /** The buckets' contents as key/value cells. */
    ghost var table: seq<seq<Cell<K, Ref<K, V>>>>
    ghost var Repr: set<object>

    ghost predicate Valid()
      reads this, Repr
    {
      && this in Repr
      && |buckets| == DEFAULT_INITIAL_CAPACITY
      && Lawful(ops)
      && |table| == |buckets|
      && (forall i | 0 <= i < |buckets| :: |table[i]| == |buckets[i]|)
      && (forall i, j | 0 <= i < |buckets| && 0 <= j < |buckets[i]| ::
            buckets[i][j] in Repr && table[i][j] == Cell(buckets[i][j].key, buckets[i][j].value))
      && TableInv(ops, table)
      && size == Count(table)
    }

    /** Whether a null key would make the probe of its bucket throw. */
    ghost predicate ProbeThrows(key: Nullable<K>)
      reads this
      requires |buckets| > 0
    {
      key.Null? && buckets[0] != []
    }

    lemma BucketKeys(i: nat)
      requires Valid() && i < |buckets|
      ensures EntryKeys(buckets[i]) == Keys(table[i])
    {
    }

    /** Each entry object sits at one position only. */
    lemma EntriesDistinct(i1: nat, j1: nat, i2: nat, j2: nat)
      requires Valid()
      requires i1 < |buckets| && j1 < |buckets[i1]| && i2 < |buckets| && j2 < |buckets[i2]|
      requires buckets[i1][j1] == buckets[i2][j2]
      ensures i1 == i2 && j1 == j2
    {
      SameKeyIsEquivalence(ops);
      KeysUnique(ops, table, i1, j1, i2, j2);
    }

    constructor (ops: KeyOps<K>)
      requires Lawful(ops)
      ensures Valid() && fresh(Repr) && this.ops == ops
      ensures size == 0
      ensures forall q :: Lookup(ops, table, q) == None
    {
      this.ops := ops;
      buckets := seq(DEFAULT_INITIAL_CAPACITY, _ => []);
      size := 0;
      table := seq(DEFAULT_INITIAL_CAPACITY, _ => []);
      new;
      Repr := {this};
      for i := 0 to DEFAULT_INITIAL_CAPACITY
        invariant Repr == {this} && size == 0 && buckets == seq(DEFAULT_INITIAL_CAPACITY, _ => [])
        invariant table == seq(DEFAULT_INITIAL_CAPACITY, _ => [])
      {
        buckets := buckets[i := []];
        // The source grows the array here, by a factor of 2, once size
        // exceeds 0.75 of the length; with size still 0 that never happens.
        if |buckets| as real * LOAD_FACTOR < size as real {
          assert false;
        }
      }
      CountEmpty(table);
    }

    function Size(): (n: int)
      reads this, Repr
      requires Valid()
      ensures n == Count(table)
    {
      size
    }

    /** Whether the map is empty; by EmptyIffNothingMapped, exactly when no key is mapped. */
    function IsEmpty(): (r: bool)
      reads this, Repr
      requires Valid()
      ensures r <==> Count(table) == 0
    {
      size == 0
    }

    /** bucket.add(e) followed by size++, for an entry whose key is absent. */
    method Append(i: nat, e: Entry<K, V>)
      requires Valid() && e !in Repr
      requires i == BucketIndex(ops, e.key, |buckets|) && Lookup(ops, table, e.key) == None
      modifies this
      ensures Valid() && Repr == old(Repr) + {e}
      ensures buckets == old(buckets)[i := old(buckets)[i] + [e]]
      ensures table == Insert(ops, old(table), e.key, e.value)
    {
      InsertSpec(ops, table, e.key, e.value);
      buckets := buckets[i := buckets[i] + [e]];
      size := size + 1;
      table := Insert(ops, table, e.key, e.value);
      Repr := Repr + {e};
    }

    /** Stores a new value into the entry at position j of bucket i, whose key matches `key`. */
    method Overwrite(i: nat, j: nat, ghost key: Nullable<K>, value: Ref<K, V>)
      requires Valid() && i < |buckets| && j < |buckets[i]| && SameKey(ops, key, buckets[i][j].key)
      modifies this, buckets[i][j]
      ensures Valid() && Repr == old(Repr)
      ensures buckets == old(buckets) && buckets[i][j].value == value
      ensures table == Update(ops, old(table), key, value)
    {
      var e := buckets[i][j];
      ghost var cells := table[i][j := Cell(e.key, value)];
      UpdateAt(ops, table, i, j, key, value);
      forall i', j' | 0 <= i' < |buckets| && 0 <= j' < |buckets[i']| && buckets[i'][j'] == e
        ensures i' == i && j' == j
      {
        EntriesDistinct(i', j', i, j);
      }
      e.value := value;
      table := table[i := cells];
    }

    /** bucket.remove(j) on bucket i, whose entry there has a key matching `key`, followed by size--. */
    method Cut(i: nat, j: nat, ghost key: Nullable<K>)
      requires Valid() && i < |buckets| && j < |buckets[i]| && SameKey(ops, key, buckets[i][j].key)
      modifies this
      ensures Valid() && Repr == old(Repr)
      ensures buckets == old(buckets)[i := RemoveAt(old(buckets)[i], j)]
      ensures table == Delete(ops, old(table), key)
    {
      ghost var cells := RemoveAt(table[i], j);
      var entries := RemoveAt(buckets[i], j);
      DeleteAt(ops, table, i, j, key);
      forall j' | 0 <= j' < |entries|
        ensures entries[j'] in Repr && cells[j'] == Cell(entries[j'].key, entries[j'].value)
      {
        if j' >= j {
          assert entries[j'] == buckets[i][j' + 1] && cells[j'] == table[i][j' + 1];
        }
      }
      buckets := buckets[i := entries];
      size, table := size - 1, table[i := cells];
    }

    method Put(key: Nullable<K>, value: Nullable<V>) returns (r: Result<Ref<K, V>>)
      requires Valid()
      modifies Repr
      ensures Valid() && fresh(Repr - old(Repr))
      ensures old(ProbeThrows(key)) ==> r == Throw(NullPointer) && table == old(table)
      ensures !old(ProbeThrows(key)) ==>
        match Lookup(ops, old(table), key)
        case None => r == Ok(NullRef) && table == Insert(ops, old(table), key, Wrap(value))
        case Some(w) => r == Ok(w) && table == Update(ops, old(table), key, Wrap(value)) && buckets == old(buckets)
      ensures !old(ProbeThrows(key)) && Lookup(ops, old(table), key).None? ==>
        var i := BucketIndex(ops, key, |buckets|);
        && |buckets[i]| > 0 && fresh(buckets[i][|buckets[i]| - 1])
        && buckets == old(buckets)[i := old(buckets)[i] + [buckets[i][|buckets[i]| - 1]]]
    {
      var i := BucketIndex(ops, key, |buckets|);
      var bucket := buckets[i];
      var newEntry := new Entry(key, Wrap(value));
      var index := IndexOf(ops, bucket, newEntry);
      if index.Throw? {
        return Throw(index.exception);
      }
      BucketKeys(i);
      if index.value == -1 {
        Append(i, newEntry);
        r := Ok(NullRef);
      } else {
        var oldEntry := bucket[index.value];
        r := Ok(oldEntry.value);
        Overwrite(i, index.value, key, Wrap(value));
      }
    }

    /**
     * remove(key): unmaps the key; when it was mapped, what comes back is the
     * removed Entry object itself, whose value field holds the old value.
     */
    method Remove(key: Nullable<K>) returns (r: Result<Ref<K, V>>)
      requires Valid()
      modifies this
      ensures Valid() && Repr == old(Repr)
      ensures old(ProbeThrows(key)) ==> r == Throw(NullPointer) && table == old(table)
      ensures !old(ProbeThrows(key)) ==> table == Delete(ops, old(table), key)
      ensures !old(ProbeThrows(key)) && Lookup(ops, old(table), key).None? ==> r == Ok(NullRef)
      ensures !old(ProbeThrows(key)) && Lookup(ops, old(table), key).Some? ==>
        && r.Ok? && r.value.EntryRef? && r.value.entry in Repr
        && SameKey(ops, key, r.value.entry.key)
        && Lookup(ops, old(table), key) == Some(r.value.entry.value)
        && r.value.entry in old(buckets)[BucketIndex(ops, key, |old(buckets)|)]
    {
      var i := BucketIndex(ops, key, |buckets|);
      var bucket := buckets[i];
      var newEntry := new Entry(key, NullRef);
      var index := IndexOf(ops, bucket, newEntry);
      if index.Throw? {
        return Throw(index.exception);
      }
      BucketKeys(i);
      if index.value == -1 {
        assert Lookup(ops, table, key) == None && Delete(ops, table, key) == table;
        return Ok(NullRef);
      }
      var e := bucket[index.value];
      assert e in Repr && table[i][index.value] == Cell(e.key, e.value);
      assert Lookup(ops, table, key) == Some(e.value);
      ghost var before := buckets;
      assert e in before[i];
      r := Ok(EntryRef(e));
      Cut(i, index.value, key);
      assert before == old(buckets);
    }

    /**
     * remove(key) as evidently intended: unmaps the key exactly as remove
     * does, but returns the value the key was mapped to, read from the
     * removed entry, instead of the entry itself.
     */
    method RemoveValue(key: Nullable<K>) returns (r: Result<Ref<K, V>>)
      requires Valid()
      modifies this
      ensures Valid() && Repr == old(Repr)
      ensures old(ProbeThrows(key)) ==> r == Throw(NullPointer) && table == old(table)
      ensures !old(ProbeThrows(key)) ==>
        && table == Delete(ops, old(table), key)
        && r == Ok(match Lookup(ops, old(table), key) case None => NullRef case Some(w) => w)
    {
      r := Remove(key);
      if r.Ok? && r.value.EntryRef? {
        r := Ok(r.value.entry.value);
      }
    }

    /**
     * get(key): the value mapped to the key, or null; as a side effect the
     * entry found stores itself into its own value field, so the key is then
     * mapped to that entry.
     */
    method Get(key: Nullable<K>) returns (r: Result<Ref<K, V>>)
      requires Valid()
      modifies this, Repr
      ensures Valid() && Repr == old(Repr)
      ensures old(ProbeThrows(key)) ==> r == Throw(NullPointer) && table == old(table)
      ensures !old(ProbeThrows(key)) && Lookup(ops, old(table), key).None? ==> r == Ok(NullRef) && table == old(table)
      ensures !old(ProbeThrows(key)) && Lookup(ops, old(table), key).Some? ==>
        && r == Ok(Lookup(ops, old(table), key).value)
        && Lookup(ops, table, key).Some? && Lookup(ops, table, key).value.EntryRef?
        && SameKey(ops, key, Lookup(ops, table, key).value.entry.key)
        && Lookup(ops, table, key).value.entry in Repr
        && Lookup(ops, table, key).value.entry.value == Lookup(ops, table, key).value
        && buckets == old(buckets)
        && Lookup(ops, table, key).value.entry in buckets[BucketIndex(ops, key, |buckets|)]
        && table == Update(ops, old(table), key, Lookup(ops, table, key).value)
    {
      var i := BucketIndex(ops, key, |buckets|);
      var bucket := buckets[i];
      var newEntry := new Entry(key, NullRef);
      var index := IndexOf(ops, bucket, newEntry);
      if index.Throw? {
        return Throw(index.exception);
      }
      BucketKeys(i);
      if index.value == -1 {
        return Ok(NullRef);
      }
      var oldEntry := bucket[index.value];
      r := Ok(oldEntry.value);
      SameKeyIsEquivalence(ops);
      UpdateLookup(ops, table, key, EntryRef(oldEntry), key);
      Overwrite(i, index.value, key, EntryRef(oldEntry));
    }

    method ContainsKey(key: Nullable<K>) returns (r: Result<bool>)
      requires Valid()
      ensures ProbeThrows(key) ==> r == Throw(NullPointer)
      ensures !ProbeThrows(key) ==> r == Ok(Lookup(ops, table, key).Some?)
    {
      var i := BucketIndex(ops, key, |buckets|);
      var bucket := buckets[i];
      var newEntry := new Entry(key, NullRef);
      var index := IndexOf(ops, bucket, newEntry);
      if index.Throw? {
        return Throw(index.exception);
      }
      BucketKeys(i);
      return Ok(index.value != -1);
    }

    /** findBucketByKey(key): the entry whose key the given key equals, or null. */
    method FindEntry(key: Nullable<K>) returns (r: Result<Nullable<Entry<K, V>>>)
      requires Valid()
      ensures ProbeThrows(key) ==> r == Throw(NullPointer)
      ensures !ProbeThrows(key) ==> r.Ok? && (r.value.Null? <==> Lookup(ops, table, key) == None)
      ensures r.Ok? && r.value.NonNull? ==>
        && r.value.get in Repr && SameKey(ops, key, r.value.get.key)
        && r.value.get in buckets[BucketIndex(ops, key, |buckets|)]
        && Lookup(ops, table, key) == Some(r.value.get.value)
    {
      var i := BucketIndex(ops, key, |buckets|);
      BucketKeys(i);
      for j := 0 to |buckets[i]|
        invariant forall m | 0 <= m < j :: !SameKey(ops, key, buckets[i][m].key)
        invariant key.Null? ==> j == 0
      {
        var entry := buckets[i][j];
        if key.Null? {
          return Throw(NullPointer);
        }
        if SameKey(ops, key, entry.key) {
          SameKeyIsEquivalence(ops);
          FindMatching(ops, Keys(table[i]), key, j);
          return Ok(NonNull(entry));
        }
      }
      return Ok(Null);
    }

    /** addBucket(key, value): a new entry appended to the key's bucket, and size++. */
    method AddBucket(key: Nullable<K>, value: Nullable<V>)
      requires Valid() && Lookup(ops, table, key) == None
      modifies this
      ensures Valid() && fresh(Repr - old(Repr))
      ensures table == Insert(ops, old(table), key, Wrap(value))
      ensures var i := BucketIndex(ops, key, |buckets|);
        && |buckets[i]| > 0 && fresh(buckets[i][|buckets[i]| - 1])
        && buckets == old(buckets)[i := old(buckets)[i] + [buckets[i][|buckets[i]| - 1]]]
    {
      var index := BucketIndex(ops, key, |buckets|);
      var entry := new Entry(key, Wrap(value));
      Append(index, entry);
    }

    /** putIfAbsent(key, value): maps the key only when it is not mapped yet, and returns the value it had. */
    method PutIfAbsent(key: Nullable<K>, value: Nullable<V>) returns (r: Result<Ref<K, V>>)
      requires Valid()
      modifies this
      ensures Valid() && fresh(Repr - old(Repr))
      ensures old(ProbeThrows(key)) ==> r == Throw(NullPointer) && table == old(table)
      ensures !old(ProbeThrows(key)) ==>
        match Lookup(ops, old(table), key)
        case None => r == Ok(NullRef) && table == Insert(ops, old(table), key, Wrap(value))
        case Some(w) => r == Ok(w) && table == old(table)
    {
      var result := FindEntry(key);
      if result.Throw? {
        return Throw(result.exception);
      }
      if result.value.Null? {
        AddBucket(key, value);
        return Ok(NullRef);
      }
      return Ok(result.value.get.value);
    }
  }

  /** Keys compared with == and all hashed to 0: a lawful equals/hashCode pair. */
  function IntKeys(): (ops: KeyOps<int>)
    ensures Lawful(ops)
  {
    KeyOps(_ => 0, (a: int, b: int) => a == b)
  }

  /**
   * put(1, 10) then get(1) twice: the first get returns 10, the second the
   * entry object the first one stored into the value field.
   */
  method GetTwiceReturnsEntry() returns (first: Result<Ref<int, int>>, second: Result<Ref<int, int>>)
    ensures first == Ok(Value(10))
    ensures second.Ok? && second.value.EntryRef? && second.value.entry.key == NonNull(1)
  {
    var m := new HashMap<int, int>(IntKeys());
    ghost var empty := m.table;
    var _ := m.Put(NonNull(1), NonNull(10));
    InsertLookup(m.ops, empty, NonNull(1), Value(10), NonNull(1));
    first := m.Get(NonNull(1));
    second := m.Get(NonNull(1));
  }

  /** put(1, 10) then remove(1): what comes back is the removed entry, not 10. */
  method RemoveReturnsEntry() returns (r: Result<Ref<int, int>>)
    ensures r.Ok? && r.value.EntryRef? && r.value.entry.key == NonNull(1)
    ensures r.value.entry.value == Value(10)
  {
    var m := new HashMap<int, int>(IntKeys());
    ghost var empty := m.table;
    var _ := m.Put(NonNull(1), NonNull(10));
    InsertLookup(m.ops, empty, NonNull(1), Value(10), NonNull(1));
    r := m.Remove(NonNull(1));
  }

  /**
   * put(1, 10) into two maps, then remove(1) from each: the map's own remove
   * hands back the entry, the intended one hands back 10.
   */
  method RemoveValueReturnsValue() returns (asWritten: Result<Ref<int, int>>, intended: Result<Ref<int, int>>)
    ensures asWritten.Ok? && asWritten.value.EntryRef?
    ensures intended == Ok(Value(10))
    ensures asWritten != intended
  {
    var m := new HashMap<int, int>(IntKeys());
    ghost var empty := m.table;
    var _ := m.Put(NonNull(1), NonNull(10));
    InsertLookup(m.ops, empty, NonNull(1), Value(10), NonNull(1));
    asWritten := m.Remove(NonNull(1));
    var n := new HashMap<int, int>(IntKeys());
    empty := n.table;
    var _ := n.Put(NonNull(1), NonNull(10));
    InsertLookup(n.ops, empty, NonNull(1), Value(10), NonNull(1));
    intended := n.RemoveValue(NonNull(1));
  }
}
