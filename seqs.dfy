/**
 * Positional insertion and removal and the two linear searches, stated on
 * sequences. Both lists are proved against these definitions.
 */
module Seqs {

  /** The sequence with `v` inserted at position `i`, the later elements moved up by one. */
  function InsertAt<T>(s: seq<T>, i: nat, v: T): (r: seq<T>)
    requires i <= |s|
    ensures |r| == |s| + 1 && r[i] == v
    ensures forall j | 0 <= j < i :: r[j] == s[j]
    ensures forall j | i < j < |r| :: r[j] == s[j - 1]
  {
    s[..i] + [v] + s[i..]
  }

  /** The sequence without its element at position `i`, the later elements moved down by one. */
  function RemoveAt<T>(s: seq<T>, i: nat): (r: seq<T>)
    requires i < |s|
    ensures |r| == |s| - 1
    ensures forall j | 0 <= j < i :: r[j] == s[j]
    ensures forall j | i <= j < |r| :: r[j] == s[j + 1]
  {
    s[..i] + s[i + 1..]
  }

  /** Removing what was inserted gives the sequence back. */
  lemma {:induction false} RemoveInserted<T>(s: seq<T>, i: nat, v: T)
    requires i <= |s|
    ensures RemoveAt(InsertAt(s, i, v), i) == s
  {
    var r := RemoveAt(InsertAt(s, i, v), i);
    assert |r| == |s|;
    forall j | 0 <= j < |s| ensures r[j] == s[j] {
      if j >= i {
        assert r[j] == InsertAt(s, i, v)[j + 1];
      }
    }
  }

  /** Re-inserting a removed element where it was gives the sequence back. */
  lemma {:induction false} InsertRemoved<T>(s: seq<T>, i: nat)
    requires i < |s|
    ensures InsertAt(RemoveAt(s, i), i, s[i]) == s
  {
    var r := InsertAt(RemoveAt(s, i), i, s[i]);
    assert |r| == |s|;
    forall j | 0 <= j < |s| ensures r[j] == s[j] {
      if j > i {
        assert r[j] == RemoveAt(s, i)[j - 1];
      }
    }
  }

  /** Insertion adds exactly one occurrence of `v` and loses nothing. */
  lemma {:induction false} InsertAtMultiset<T>(s: seq<T>, i: nat, v: T)
    requires i <= |s|
    ensures multiset(InsertAt(s, i, v)) == multiset(s) + multiset{v}
  {
    assert s == s[..i] + s[i..];
  }

  /** Removal loses exactly the one occurrence at position `i`. */
  lemma {:induction false} RemoveAtMultiset<T>(s: seq<T>, i: nat)
    requires i < |s|
    ensures multiset(RemoveAt(s, i)) == multiset(s) - multiset{s[i]}
  {
    assert s == s[..i] + [s[i]] + s[i + 1..];
  }

  /** The smallest index holding `v`, or -1 when `v` does not occur. */
  function FirstIndex<T(==)>(s: seq<T>, v: T): (r: int)
    ensures -1 <= r < |s|
    ensures r == -1 <==> v !in s
    ensures r >= 0 ==> s[r] == v && v !in s[..r]
  {
    if s == [] then -1
    else if s[0] == v then 0
    else
      var j := FirstIndex(s[1..], v);
      assert s[1..][..if j < 0 then 0 else j] == s[1..if j < 0 then 1 else j + 1];
      if j == -1 then -1 else j + 1
  }

  /** The largest index holding `v`, or -1 when `v` does not occur. */
  function LastIndex<T(==)>(s: seq<T>, v: T): (r: int)
    ensures -1 <= r < |s|
    ensures r == -1 <==> v !in s
    ensures r >= 0 ==> s[r] == v && v !in s[r + 1..]
  {
    if s == [] then -1
    else if s[|s| - 1] == v then |s| - 1
    else
      var j := LastIndex(s[..|s| - 1], v);
      assert s == s[..|s| - 1] + [s[|s| - 1]];
      j
  }

  /** The contracts of FirstIndex determine it: any index meeting them is FirstIndex. */
  lemma FirstIndexUnique<T>(s: seq<T>, v: T, k: int)
    requires 0 <= k < |s| && s[k] == v && v !in s[..k]
    ensures FirstIndex(s, v) == k
  {
  }

  /** The contracts of LastIndex determine it: any index meeting them is LastIndex. */
  lemma LastIndexUnique<T>(s: seq<T>, v: T, k: int)
    requires 0 <= k < |s| && s[k] == v && v !in s[k + 1..]
    ensures LastIndex(s, v) == k
  {
  }
}
