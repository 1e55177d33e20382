/**
 * The bucket table of the chained hash map, as a value: one sequence of
 * key/value cells per bucket. It fixes where a key lives, how a bucket is
 * searched, what the map denotes (Lookup) and what put, remove and get do to
 * the cells; the HashMap class is proved against these definitions.
 */
module Buckets {
  import opened Java
  import opened Seqs

  datatype Option<T> = None | Some(value: T)

  /** The key type's hashCode and equals, supplied with the map. */
  datatype KeyOps<!K> = KeyOps(hash: K -> Int32, eq: (K, K) -> bool)

  /** The contract of equals and hashCode: equals is an equivalence, and equal keys hash alike. */
  ghost predicate Lawful<K(!new)>(ops: KeyOps<K>) {
    && (forall a :: ops.eq(a, a))
    && (forall a, b :: ops.eq(a, b) ==> ops.eq(b, a))
    && (forall a, b, c :: ops.eq(a, b) && ops.eq(b, c) ==> ops.eq(a, c))
    && (forall a, b :: ops.eq(a, b) ==> ops.hash(a) == ops.hash(b))
  }

  /**
   * Whether two keys denote the same map key: equals for non-null keys
   * (a non-null key never equals null), and the null key matches only itself.
   */
  predicate SameKey<K>(ops: KeyOps<K>, a: Nullable<K>, b: Nullable<K>) {
    if a.Null? || b.Null? then a.Null? && b.Null? else ops.eq(a.get, b.get)
  }

  lemma SameKeyIsEquivalence<K(!new)>(ops: KeyOps<K>)
    requires Lawful(ops)
    ensures forall a :: SameKey(ops, a, a)
    ensures forall a, b :: SameKey(ops, a, b) ==> SameKey(ops, b, a)
    ensures forall a, b, c :: SameKey(ops, a, b) && SameKey(ops, b, c) ==> SameKey(ops, a, c)
  {
  }

  /** Two keys that match a third match each other. */
  lemma SameKeyViaThird<K(!new)>(ops: KeyOps<K>, a: Nullable<K>, b: Nullable<K>, c: Nullable<K>)
    requires Lawful(ops) && SameKey(ops, a, c) && SameKey(ops, b, c)
    ensures SameKey(ops, a, b)
  {
    SameKeyIsEquivalence(ops);
  }

  /**
   * getIndexOfBucket: bucket 0 for the null key, otherwise
   * Math.abs(hashCode % n) with Java's truncating remainder; always a valid
   * bucket index.
   */
  function BucketIndex<K>(ops: KeyOps<K>, key: Nullable<K>, n: nat): (i: nat)
    requires n > 0
    ensures i < n
    ensures key.Null? ==> i == 0
  {
    if key.Null? then 0 else Abs(Rem(ops.hash(key.get), n))
  }

  /** Keys that match share a bucket, so a key is only ever looked for in one bucket. */
  lemma SameKeySameBucket<K(!new)>(ops: KeyOps<K>, a: Nullable<K>, b: Nullable<K>, n: nat)
    requires Lawful(ops) && n > 0 && SameKey(ops, a, b)
    ensures BucketIndex(ops, a, n) == BucketIndex(ops, b, n)
  {
  }

  /**
   * The linear search of a bucket's keys: the first position whose key
   * matches `key`, or -1.
   */
  function Find<K>(ops: KeyOps<K>, keys: seq<Nullable<K>>, key: Nullable<K>): (j: int)
    ensures -1 <= j < |keys|
    ensures j == -1 <==> forall m | 0 <= m < |keys| :: !SameKey(ops, key, keys[m])
    ensures j >= 0 ==> SameKey(ops, key, keys[j]) && forall m | 0 <= m < j :: !SameKey(ops, key, keys[m])
  {
    if keys == [] then -1
    else if SameKey(ops, key, keys[0]) then 0
    else
      var j := Find(ops, keys[1..], key);
      assert forall m | 1 <= m < |keys| :: keys[m] == keys[1..][m - 1];
      if j == -1 then -1 else j + 1
  }

  /** Keys no two of which match. */
  ghost predicate Distinct<K>(ops: KeyOps<K>, keys: seq<Nullable<K>>) {
    forall m, n {:trigger SameKey(ops, keys[m], keys[n])} | 0 <= m < |keys| && 0 <= n < |keys| && m != n ::
      !SameKey(ops, keys[m], keys[n])
  }

  /** Among distinct keys, the search finds the one position whose key matches. */
  lemma {:induction false} FindMatching<K(!new)>(ops: KeyOps<K>, keys: seq<Nullable<K>>, key: Nullable<K>, j: int)
    requires Lawful(ops) && Distinct(ops, keys)
    requires 0 <= j < |keys| && SameKey(ops, key, keys[j])
    ensures Find(ops, keys, key) == j
  {
    SameKeyIsEquivalence(ops);
  }

  datatype Cell<K, W> = Cell(key: Nullable<K>, value: W)

  /** The keys of a bucket, in order. */
  function Keys<K, W>(bucket: seq<Cell<K, W>>): (keys: seq<Nullable<K>>)
    ensures |keys| == |bucket|
    ensures forall j | 0 <= j < |bucket| :: keys[j] == bucket[j].key
  {
    seq(|bucket|, j requires 0 <= j < |bucket| => bucket[j].key)
  }

  /**
   * The table invariant: at least one bucket, every cell in the bucket its
   * key selects, and no two cells of a bucket with matching keys.
   */
  ghost predicate TableInv<K, W>(ops: KeyOps<K>, t: seq<seq<Cell<K, W>>>) {
    && |t| > 0
    && (forall i, j | 0 <= i < |t| && 0 <= j < |t[i]| :: BucketIndex(ops, t[i][j].key, |t|) == i)
    && (forall i | 0 <= i < |t| :: Distinct(ops, Keys(t[i])))
  }

  /** The number of cells in the table. */
  function Count<K, W>(t: seq<seq<Cell<K, W>>>): nat {
    if t == [] then 0 else Count(t[..|t| - 1]) + |t[|t| - 1]|
  }

  /** Replacing one bucket changes the count by the difference in that bucket's length. */
  lemma {:induction false} CountReplace<K, W>(t: seq<seq<Cell<K, W>>>, i: nat, b: seq<Cell<K, W>>)
    requires i < |t|
    ensures Count(t[i := b]) == Count(t) - |t[i]| + |b|
  {
    var n := |t| - 1;
    if i < n {
      assert t[i := b][..n] == t[..n][i := b];
      CountReplace(t[..n], i, b);
    } else {
      assert t[i := b][..n] == t[..n];
    }
  }

  /** A table of empty buckets has no cells. */
  lemma {:induction false} CountEmpty<K, W>(t: seq<seq<Cell<K, W>>>)
    requires forall i | 0 <= i < |t| :: t[i] == []
    ensures Count(t) == 0
  {
    if t != [] {
      CountEmpty(t[..|t| - 1]);
    }
  }

  /** The value a bucket holds under `key`, if any. */
  function BucketLookup<K, W>(ops: KeyOps<K>, bucket: seq<Cell<K, W>>, key: Nullable<K>): Option<W> {
    var j := Find(ops, Keys(bucket), key);
    if j == -1 then None else Some(bucket[j].value)
  }

  /** What the table denotes: the value stored under `key`, if any, found in the key's bucket. */
  function Lookup<K, W>(ops: KeyOps<K>, t: seq<seq<Cell<K, W>>>, key: Nullable<K>): Option<W>
    requires |t| > 0
  {
    BucketLookup(ops, t[BucketIndex(ops, key, |t|)], key)
  }

  /** Every stored cell is found by its own key. */
  lemma StoredIsFound<K(!new), W>(ops: KeyOps<K>, t: seq<seq<Cell<K, W>>>, i: nat, j: nat)
    requires Lawful(ops) && TableInv(ops, t)
    requires i < |t| && j < |t[i]|
    ensures Lookup(ops, t, t[i][j].key) == Some(t[i][j].value)
  {
    SameKeyIsEquivalence(ops);
    FindMatching(ops, Keys(t[i]), t[i][j].key, j);
  }

  /** No two cells anywhere in the table have matching keys: the table is a finite map. */
  lemma KeysUnique<K(!new), W>(ops: KeyOps<K>, t: seq<seq<Cell<K, W>>>, i1: nat, j1: nat, i2: nat, j2: nat)
    requires Lawful(ops) && TableInv(ops, t)
    requires i1 < |t| && j1 < |t[i1]| && i2 < |t| && j2 < |t[i2]|
    requires SameKey(ops, t[i1][j1].key, t[i2][j2].key)
    ensures i1 == i2 && j1 == j2
  {
    SameKeySameBucket(ops, t[i1][j1].key, t[i2][j2].key, |t|);
    assert Keys(t[i1])[j1] == t[i1][j1].key && Keys(t[i1])[j2] == t[i1][j2].key;
  }

  /** A table is empty exactly when no key is mapped. */
  lemma {:induction false} EmptyIffNothingMapped<K(!new), W>(ops: KeyOps<K>, t: seq<seq<Cell<K, W>>>)
    requires Lawful(ops) && TableInv(ops, t)
    ensures Count(t) == 0 <==> forall key :: Lookup(ops, t, key) == None
  {
    if Count(t) == 0 {
      forall key ensures Lookup(ops, t, key) == None {
        var i := BucketIndex(ops, key, |t|);
        CountReplace(t, i, []);
      }
    } else {
      var i :| 0 <= i < |t| && t[i] != [] by {
        if forall i | 0 <= i < |t| :: t[i] == [] {
          CountEmpty(t);
        }
      }
      StoredIsFound(ops, t, i, 0);
    }
  }

  /** put of an absent key: a new cell appended to the key's bucket. */
  function Insert<K, W>(ops: KeyOps<K>, t: seq<seq<Cell<K, W>>>, key: Nullable<K>, value: W): seq<seq<Cell<K, W>>>
    requires |t| > 0
  {
    var i := BucketIndex(ops, key, |t|);
    t[i := t[i] + [Cell(key, value)]]
  }

  /** put of a present key: the matching cell's value overwritten in place. */
  function Update<K, W>(ops: KeyOps<K>, t: seq<seq<Cell<K, W>>>, key: Nullable<K>, value: W): seq<seq<Cell<K, W>>>
    requires |t| > 0
  {
    var i := BucketIndex(ops, key, |t|);
    var j := Find(ops, Keys(t[i]), key);
    if j == -1 then t else t[i := t[i][j := Cell(t[i][j].key, value)]]
  }

  /** remove of a key: the matching cell cut out of its bucket. */
  function Delete<K, W>(ops: KeyOps<K>, t: seq<seq<Cell<K, W>>>, key: Nullable<K>): seq<seq<Cell<K, W>>>
    requires |t| > 0
  {
    var i := BucketIndex(ops, key, |t|);
    var j := Find(ops, Keys(t[i]), key);
    if j == -1 then t else t[i := RemoveAt(t[i], j)]
  }

  /** Searching a bucket with one more key at its end. */
  lemma FindAppended<K>(ops: KeyOps<K>, keys: seq<Nullable<K>>, k: Nullable<K>, q: Nullable<K>)
    ensures Find(ops, keys + [k], q)
         == if Find(ops, keys, q) != -1 then Find(ops, keys, q)
            else if SameKey(ops, q, k) then |keys| else -1
  {
    var ks := keys + [k];
    assert forall m | 0 <= m < |keys| :: ks[m] == keys[m];
    assert ks[|keys|] == k;
  }

  /** Searching a bucket with the key at position j cut out, for a key that does not match it. */
  lemma FindCut<K>(ops: KeyOps<K>, keys: seq<Nullable<K>>, j: nat, q: Nullable<K>)
    requires j < |keys| && !SameKey(ops, q, keys[j])
    ensures Find(ops, RemoveAt(keys, j), q)
         == if Find(ops, keys, q) == -1 then -1
            else if Find(ops, keys, q) < j then Find(ops, keys, q)
            else Find(ops, keys, q) - 1
  {
    var ks := RemoveAt(keys, j);
    var f := Find(ops, keys, q);
    assert forall m | 0 <= m < j :: ks[m] == keys[m];
    assert forall m | j <= m < |ks| :: ks[m] == keys[m + 1];
    if f == -1 {
      assert forall m | 0 <= m < |ks| :: !SameKey(ops, q, ks[m]);
    } else if f < j {
      assert SameKey(ops, q, ks[f]);
    } else {
      assert SameKey(ops, q, ks[f - 1]);
      assert forall m | 0 <= m < f - 1 :: !SameKey(ops, q, ks[m]);
    }
  }

  /** The cells left in a bucket after a cut still have pairwise distinct keys. */
  lemma CutDistinct<K, W>(ops: KeyOps<K>, bucket: seq<Cell<K, W>>, j: nat)
    requires j < |bucket| && Distinct(ops, Keys(bucket))
    ensures Distinct(ops, Keys(RemoveAt(bucket, j)))
  {
    var b := RemoveAt(bucket, j);
    forall m, n | 0 <= m < |b| && 0 <= n < |b| && m != n ensures !SameKey(ops, Keys(b)[m], Keys(b)[n]) {
      var m' := if m < j then m else m + 1;
      var n' := if n < j then n else n + 1;
      assert Keys(b)[m] == Keys(bucket)[m'] && Keys(b)[n] == Keys(bucket)[n'];
    }
  }

  lemma InsertLookup<K(!new), W>(ops: KeyOps<K>, t: seq<seq<Cell<K, W>>>, key: Nullable<K>, value: W, q: Nullable<K>)
    requires Lawful(ops) && TableInv(ops, t) && Lookup(ops, t, key) == None
    ensures Lookup(ops, Insert(ops, t, key, value), q)
         == if SameKey(ops, q, key) then Some(value) else Lookup(ops, t, q)
  {
    var i := BucketIndex(ops, key, |t|);
    var b := t[i] + [Cell(key, value)];
    assert Keys(b) == Keys(t[i]) + [key];
    FindAppended(ops, Keys(t[i]), key, q);
    if SameKey(ops, q, key) {
      SameKeySameBucket(ops, q, key, |t|);
      SameKeyIsEquivalence(ops);
      assert Find(ops, Keys(t[i]), q) == -1;
    } else if BucketIndex(ops, q, |t|) != i {
      assert Insert(ops, t, key, value)[BucketIndex(ops, q, |t|)] == t[BucketIndex(ops, q, |t|)];
    }
  }

  /**
   * Inserting an absent key keeps the invariant, adds one cell, maps the key
   * to the new value and leaves every other key's value alone.
   */
  lemma InsertSpec<K(!new), W>(ops: KeyOps<K>, t: seq<seq<Cell<K, W>>>, key: Nullable<K>, value: W)
    requires Lawful(ops) && TableInv(ops, t) && Lookup(ops, t, key) == None
    ensures TableInv(ops, Insert(ops, t, key, value))
    ensures Count(Insert(ops, t, key, value)) == Count(t) + 1
    ensures forall q :: Lookup(ops, Insert(ops, t, key, value), q)
                     == if SameKey(ops, q, key) then Some(value) else Lookup(ops, t, q)
  {
    var i := BucketIndex(ops, key, |t|);
    var b := t[i] + [Cell(key, value)];
    CountReplace(t, i, b);
    assert Distinct(ops, Keys(b)) by {
      var ks := Keys(b);
      assert ks == Keys(t[i]) + [key];
      assert Find(ops, Keys(t[i]), key) == -1;
      SameKeyIsEquivalence(ops);
      forall m, n | 0 <= m < |ks| && 0 <= n < |ks| && m != n ensures !SameKey(ops, ks[m], ks[n]) {
        if m < |t[i]| && n < |t[i]| {
          assert ks[m] == Keys(t[i])[m] && ks[n] == Keys(t[i])[n];
        }
      }
    }
    forall q ensures Lookup(ops, Insert(ops, t, key, value), q)
                  == if SameKey(ops, q, key) then Some(value) else Lookup(ops, t, q) {
      InsertLookup(ops, t, key, value, q);
    }
  }

  lemma UpdateLookup<K(!new), W>(ops: KeyOps<K>, t: seq<seq<Cell<K, W>>>, key: Nullable<K>, value: W, q: Nullable<K>)
    requires Lawful(ops) && TableInv(ops, t) && Lookup(ops, t, key).Some?
    ensures Lookup(ops, Update(ops, t, key, value), q)
         == if SameKey(ops, q, key) then Some(value) else Lookup(ops, t, q)
  {
    var i := BucketIndex(ops, key, |t|);
    var j := Find(ops, Keys(t[i]), key);
    var b := t[i][j := Cell(t[i][j].key, value)];
    assert Keys(b) == Keys(t[i]);
    if SameKey(ops, q, key) {
      SameKeySameBucket(ops, q, key, |t|);
      SameKeyIsEquivalence(ops);
      FindMatching(ops, Keys(t[i]), q, j);
    } else if BucketIndex(ops, q, |t|) == i {
      assert Find(ops, Keys(t[i]), q) != j;
    }
  }

  /**
   * Overwriting a present key's value keeps the invariant and the count, maps
   * the key to the new value and leaves every other key's value alone.
   */
  lemma UpdateSpec<K(!new), W>(ops: KeyOps<K>, t: seq<seq<Cell<K, W>>>, key: Nullable<K>, value: W)
    requires Lawful(ops) && TableInv(ops, t) && Lookup(ops, t, key).Some?
    ensures TableInv(ops, Update(ops, t, key, value))
    ensures Count(Update(ops, t, key, value)) == Count(t)
    ensures forall q :: Lookup(ops, Update(ops, t, key, value), q)
                     == if SameKey(ops, q, key) then Some(value) else Lookup(ops, t, q)
  {
    var i := BucketIndex(ops, key, |t|);
    var j := Find(ops, Keys(t[i]), key);
    var b := t[i][j := Cell(t[i][j].key, value)];
    assert Keys(b) == Keys(t[i]);
    CountReplace(t, i, b);
    forall q ensures Lookup(ops, Update(ops, t, key, value), q)
                  == if SameKey(ops, q, key) then Some(value) else Lookup(ops, t, q) {
      UpdateLookup(ops, t, key, value, q);
    }
  }

  lemma DeleteUnmaps<K(!new), W>(ops: KeyOps<K>, t: seq<seq<Cell<K, W>>>, key: Nullable<K>, q: Nullable<K>)
    requires Lawful(ops) && TableInv(ops, t) && SameKey(ops, q, key)
    ensures Lookup(ops, Delete(ops, t, key), q) == None
  {
    var i := BucketIndex(ops, key, |t|);
    var ks := Keys(t[i]);
    var j := Find(ops, ks, key);
    SameKeySameBucket(ops, q, key, |t|);
    SameKeyIsEquivalence(ops);
    if j != -1 {
      var b := RemoveAt(t[i], j);
      assert Delete(ops, t, key)[i] == b;
      forall m | 0 <= m < |b| ensures !SameKey(ops, q, Keys(b)[m]) {
        var m' := if m < j then m else m + 1;
        assert Keys(b)[m] == ks[m'] && m' != j;
        assert !SameKey(ops, ks[j], ks[m']);
      }
    }
  }

  /** The keys of a bucket with a cell cut out are its keys with that key cut out. */
  lemma KeysRemoveAt<K, W>(bucket: seq<Cell<K, W>>, j: nat)
    requires j < |bucket|
    ensures Keys(RemoveAt(bucket, j)) == RemoveAt(Keys(bucket), j)
  {
    var b := RemoveAt(bucket, j);
    forall m | j <= m < |b| ensures Keys(b)[m] == RemoveAt(Keys(bucket), j)[m] {
      assert b[m] == bucket[m + 1];
    }
  }

  /** Cutting a cell out of a bucket does not change what the bucket holds under a key that does not match it. */
  lemma CutKeeps<K, W>(ops: KeyOps<K>, bucket: seq<Cell<K, W>>, j: nat, q: Nullable<K>)
    requires j < |bucket| && !SameKey(ops, q, bucket[j].key)
    ensures BucketLookup(ops, RemoveAt(bucket, j), q) == BucketLookup(ops, bucket, q)
  {
    var b := RemoveAt(bucket, j);
    var ks := Keys(bucket);
    KeysRemoveAt(bucket, j);
    FindCut(ops, ks, j, q);
    var f := Find(ops, ks, q);
    if f > j {
      assert b[f - 1] == bucket[f];
    } else if f >= 0 {
      assert b[f] == bucket[f];
    }
  }

  lemma DeleteKeeps<K(!new), W>(ops: KeyOps<K>, t: seq<seq<Cell<K, W>>>, key: Nullable<K>, q: Nullable<K>)
    requires |t| > 0 && forall c :: SameKey(ops, key, c) ==> !SameKey(ops, q, c)
    ensures Lookup(ops, Delete(ops, t, key), q) == Lookup(ops, t, q)
  {
    var i := BucketIndex(ops, key, |t|);
    var j := Find(ops, Keys(t[i]), key);
    var iq := BucketIndex(ops, q, |t|);
    if j != -1 {
      assert Delete(ops, t, key) == t[i := RemoveAt(t[i], j)];
      if iq == i {
        assert SameKey(ops, key, t[i][j].key);
        CutKeeps(ops, t[i], j, q);
      }
    }
  }

  /**
   * Deleting a key keeps the invariant, removes one cell exactly when the key
   * was present, unmaps the key and leaves every other key's value alone.
   */
  lemma DeleteSpec<K(!new), W>(ops: KeyOps<K>, t: seq<seq<Cell<K, W>>>, key: Nullable<K>)
    requires Lawful(ops) && TableInv(ops, t)
    ensures TableInv(ops, Delete(ops, t, key))
    ensures Count(Delete(ops, t, key)) == Count(t) - (if Lookup(ops, t, key).Some? then 1 else 0)
    ensures forall q :: Lookup(ops, Delete(ops, t, key), q)
                     == if SameKey(ops, q, key) then None else Lookup(ops, t, q)
  {
    var i := BucketIndex(ops, key, |t|);
    var j := Find(ops, Keys(t[i]), key);
    if j != -1 {
      var b := RemoveAt(t[i], j);
      CountReplace(t, i, b);
      CutDistinct(ops, t[i], j);
    }
    forall q ensures Lookup(ops, Delete(ops, t, key), q) == if SameKey(ops, q, key) then None else Lookup(ops, t, q) {
      if SameKey(ops, q, key) {
        DeleteUnmaps(ops, t, key, q);
      } else {
        forall c | SameKey(ops, key, c) ensures !SameKey(ops, q, c) {
          if SameKey(ops, q, c) {
            SameKeyViaThird(ops, q, key, c);
          }
        }
        DeleteKeeps(ops, t, key, q);
      }
    }
  }

  /** Deleting a key found at position j of bucket i cuts exactly that cell and keeps the invariant. */
  lemma DeleteAt<K(!new), W>(ops: KeyOps<K>, t: seq<seq<Cell<K, W>>>, i: nat, j: nat, key: Nullable<K>)
    requires Lawful(ops) && TableInv(ops, t)
    requires i < |t| && j < |t[i]| && SameKey(ops, key, t[i][j].key)
    ensures Delete(ops, t, key) == t[i := RemoveAt(t[i], j)]
    ensures TableInv(ops, t[i := RemoveAt(t[i], j)]) && Count(t[i := RemoveAt(t[i], j)]) == Count(t) - 1
  {
    SameKeySameBucket(ops, key, t[i][j].key, |t|);
    FindMatching(ops, Keys(t[i]), key, j);
    DeleteSpec(ops, t, key);
  }

  /** Updating a key found at position j of bucket i rewrites exactly that cell and keeps the invariant. */
  lemma UpdateAt<K(!new), W>(ops: KeyOps<K>, t: seq<seq<Cell<K, W>>>, i: nat, j: nat, key: Nullable<K>, value: W)
    requires Lawful(ops) && TableInv(ops, t)
    requires i < |t| && j < |t[i]| && SameKey(ops, key, t[i][j].key)
    ensures Update(ops, t, key, value) == t[i := t[i][j := Cell(t[i][j].key, value)]]
    ensures TableInv(ops, t[i := t[i][j := Cell(t[i][j].key, value)]])
    ensures Count(t[i := t[i][j := Cell(t[i][j].key, value)]]) == Count(t)
  {
    SameKeySameBucket(ops, key, t[i][j].key, |t|);
    FindMatching(ops, Keys(t[i]), key, j);
    UpdateSpec(ops, t, key, value);
  }
}
