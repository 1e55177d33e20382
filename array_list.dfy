/**
 * The array-backed list: a fixed-length array whose first `size` slots hold
 * the elements, grown by a factor when an insertion finds it full.
 */
module ArrayLists {
  import opened Java
  import Seqs

  const DEFAULT_INITIAL_CAPACITY: nat := 10
  const DEFAULT_GROWTH_FACTOR: real := 2.5

  /** The growth factor the constructor keeps: a factor below 1 is replaced by the default. */
  function EffectiveGrowth(loadFactor: real): (g: real)
    ensures g >= 1.0
    ensures loadFactor >= 1.0 ==> g == loadFactor
    ensures loadFactor < 1.0 ==> g == DEFAULT_GROWTH_FACTOR
  {
    if loadFactor < 1.0 then DEFAULT_GROWTH_FACTOR else loadFactor
  }

  /** Multiplying a count by a factor of at least 1 and truncating never shrinks it. */
  lemma ScaledFloor(n: nat, g: real)
    requires g >= 1.0
    ensures (n as real * g).Floor >= n
  {
    assert n as real * g == n as real + n as real * (g - 1.0);
    assert n as real * (g - 1.0) >= 0.0;
  }

  /**
   * The capacity ensureCapacity leaves: the array is reallocated to
   * floor(size * growth) exactly when it is full, and kept otherwise.
   */
  function GrownCapacity(size: nat, capacity: nat, growth: real): (c: nat)
    requires size <= capacity && growth >= 1.0
    ensures c >= capacity
    ensures size < capacity ==> c == capacity
  {
    if size == capacity then ScaledFloor(size, growth); (size as real * growth).Floor else capacity
  }

  /** An insertion has room after growing exactly when the list is not full or the growth adds a slot. */
  lemma {:induction false} RoomAfterGrowth(size: nat, capacity: nat, growth: real)
    requires size <= capacity && growth >= 1.0
    ensures size < GrownCapacity(size, capacity, growth)
        <==> size < capacity || (size as real * growth).Floor > size
  {
  }

  /** An empty array never grows: floor(0 * growth) is 0, whatever the factor. */
  lemma {:induction false} EmptyArrayNeverGrows(growth: real)
    requires growth >= 1.0
    ensures GrownCapacity(0, 0, growth) == 0
  {
  }

  /** A growth factor of exactly 1 reallocates a full array to the same length. */
  lemma {:induction false} UnitGrowthNeverGrows(size: nat)
    ensures GrownCapacity(size, size, 1.0) == size
  {
  }

  /** With the default factor 2.5 a full, non-empty array always gains room. */
  lemma {:induction false} DefaultGrowthMakesRoom(size: nat)
    requires size > 0
    ensures GrownCapacity(size, size, DEFAULT_GROWTH_FACTOR) >= 2 * size > size
  {
    assert size as real * DEFAULT_GROWTH_FACTOR == 2.0 * size as real + 0.5 * size as real;
  }

  /** validateIndex: an index must address an existing element. */
  function ValidateIndex(index: int, size: int): (r: Result<()>)
    ensures r.Ok? <==> 0 <= index < size
    ensures r.Throw? ==> r.exception == IndexOutOfBounds
  {
    if index > size - 1 || index < 0 then Throw(IndexOutOfBounds) else Ok(())
  }

  /** validateIndexForAdd: an insertion index may also be one past the last element. */
  function ValidateIndexForAdd(index: int, size: int): (r: Result<()>)
    ensures r.Ok? <==> 0 <= index <= size
    ensures r.Throw? ==> r.exception == IndexOutOfBounds
  {
    if index > size || index < 0 then Throw(IndexOutOfBounds) else Ok(())
  }

  /**
   * What the iterator's remove leaves of the elements `s` when the cursor
   * stands at `index`: the slot at the cursor (the one after the element
   * last returned) is nulled, nothing is shifted, and the last element
   * drops out of view.
   */
  function IteratorRemoved<T>(s: seq<Nullable<T>>, index: nat): (r: seq<Nullable<T>>)
    requires 0 < |s|
    ensures |r| == |s| - 1
    ensures index < |r| ==> r[index] == Null
    ensures forall j | 0 <= j < |r| && j != index :: r[j] == s[j]
  {
    if index < |s| then s[index := Null][..|s| - 1] else s[..|s| - 1]
  }

  /** When the element returned last is the last one, the iterator's remove deletes exactly it. */
  lemma {:induction false} IteratorRemovedAtEnd<T>(s: seq<Nullable<T>>)
    requires 0 < |s|
    ensures IteratorRemoved(s, |s|) == Seqs.RemoveAt(s, |s| - 1)
  {
  }

  /**
   * Anywhere else it keeps the element returned last: after next() has
   * returned `a` from [a, b, c], remove() leaves [a, null] where [b, c] is meant.
   */
  lemma {:induction false} IteratorRemoveKeepsReturned<T>(a: T, b: T, c: T)
    ensures IteratorRemoved([NonNull(a), NonNull(b), NonNull(c)], 1) == [NonNull(a), Null]
    ensures Seqs.RemoveAt([NonNull(a), NonNull(b), NonNull(c)], 0) == [NonNull(b), NonNull(c)]
    ensures IteratorRemoved([NonNull(a), NonNull(b), NonNull(c)], 1)
         != Seqs.RemoveAt([NonNull(a), NonNull(b), NonNull(c)], 0)
  {
    var s := [NonNull(a), NonNull(b), NonNull(c)];
    assert IteratorRemoved(s, 1)[1] == Null;
    assert Seqs.RemoveAt(s, 0)[1] == NonNull(c);
  }

  class ArrayList<T(==)> {
    /** The backing array; the source calls it `array`. */
    var data: array<Nullable<T>>
    var size: int
    /** The growth factor; the source calls it loadFactor. */
    var loadFactor: real

    ghost predicate Valid()
      reads this
    {
      0 <= size <= data.Length && loadFactor >= 1.0
    }

    /** The elements of the list: the first `size` slots. */
    ghost function Elements(): seq<Nullable<T>>
      reads this, data
      requires Valid()
    {
      data[..size]
    }

    /** ArrayList(): capacity 10, growth factor 2.5. */
    constructor Default()
      ensures Valid() && fresh(data)
      ensures data.Length == DEFAULT_INITIAL_CAPACITY && loadFactor == DEFAULT_GROWTH_FACTOR
      ensures Elements() == []
    {
      loadFactor := DEFAULT_GROWTH_FACTOR;
      data := new Nullable<T>[DEFAULT_INITIAL_CAPACITY](_ => Null);
      size := 0;
    }

    /** ArrayList(initialCapacity): the given capacity, growth factor 2.5. */
    constructor WithCapacity(initialCapacity: nat)
      ensures Valid() && fresh(data)
      ensures data.Length == initialCapacity && loadFactor == DEFAULT_GROWTH_FACTOR
      ensures Elements() == []
    {
      loadFactor := DEFAULT_GROWTH_FACTOR;
      data := new Nullable<T>[initialCapacity](_ => Null);
      size := 0;
    }

    /** ArrayList(initialCapacity, loadFactor): a factor below 1 is replaced by 2.5. */
    constructor (initialCapacity: nat, loadFactor: real)
      ensures Valid() && fresh(data)
      ensures data.Length == initialCapacity
      ensures this.loadFactor == (if loadFactor < 1.0 then DEFAULT_GROWTH_FACTOR else loadFactor)
      ensures Elements() == []
    {
      this.loadFactor := EffectiveGrowth(loadFactor);
      data := new Nullable<T>[initialCapacity](_ => Null);
      size := 0;
    }

    /**
     * Reallocates a full array to floor(size * loadFactor) slots, copying the
     * elements; a list with room keeps its array.
     */
    method EnsureCapacity()
      requires Valid()
      modifies this
      ensures Valid() && size == old(size) && loadFactor == old(loadFactor)
      ensures data.Length == GrownCapacity(old(size), old(data.Length), loadFactor)
      ensures Elements() == old(Elements())
      ensures old(size) < old(data.Length) ==> data == old(data)
      ensures old(size) == old(data.Length) ==> fresh(data)
      ensures old(size) == old(data.Length) ==> forall i | size <= i < data.Length :: data[i] == Null
    {
      if size == data.Length {
        ScaledFloor(size, loadFactor);
        var newArray := new Nullable<T>[(size as real * loadFactor).Floor](_ => Null);
        forall i | 0 <= i < size {
          newArray[i] := data[i];
        }
        data := newArray;
      }
    }

    /** add(value): appends, by inserting at position size. */
    method Add(value: Nullable<T>) returns (r: Result<()>)
      requires Valid()
      modifies this, data
      ensures Valid() && loadFactor == old(loadFactor)
      ensures data == old(data) || fresh(data)
      ensures data.Length == GrownCapacity(old(size), old(data.Length), loadFactor)
      ensures r.Ok? <==> old(size) < data.Length
      ensures r.Ok? ==> Elements() == old(Elements()) + [value]
      ensures r.Throw? ==> r.exception == ArrayIndexOutOfBounds && Elements() == old(Elements())
    {
      r := AddAt(value, size);
      if r.Ok? {
        assert Seqs.InsertAt(old(Elements()), old(size), value) == old(Elements()) + [value];
      }
    }

    /**
     * add(value, index): validates the index, grows a full array, shifts the
     * tail up by one slot and stores the value. When growing leaves no free
     * slot (an empty array, or a factor too small to add one), the shift
     * overruns the array and System.arraycopy throws before anything moves.
     */
    method AddAt(value: Nullable<T>, index: int) returns (r: Result<()>)
      requires Valid()
      modifies this, data
      ensures Valid() && loadFactor == old(loadFactor)
      ensures data == old(data) || fresh(data)
      ensures !(0 <= index <= old(size)) ==>
                r == Throw(IndexOutOfBounds) && data == old(data) && size == old(size) && unchanged(data)
      ensures 0 <= index <= old(size) ==>
                data.Length == GrownCapacity(old(size), old(data.Length), loadFactor)
      ensures 0 <= index <= old(size) && old(size) < data.Length ==>
                r == Ok(()) && Elements() == Seqs.InsertAt(old(Elements()), index, value)
      ensures 0 <= index <= old(size) && old(size) == data.Length ==>
                r == Throw(ArrayIndexOutOfBounds) && Elements() == old(Elements())
    {
      var valid := ValidateIndexForAdd(index, size);
      if valid.Throw? {
        return Throw(valid.exception);
      }
      EnsureCapacity();
      if size + 1 > data.Length {
        return Throw(ArrayIndexOutOfBounds);
      }
      forall i | index < i <= size {
        data[i] := data[i - 1];
      }
      data[index] := value;
      size := size + 1;
      r := Ok(());
    }

    /**
     * remove(index): returns the element at `index`, shifts the tail down by
     * one slot and nulls the slot that falls vacant.
     */
    method Remove(index: int) returns (r: Result<Nullable<T>>)
      requires Valid()
      modifies this, data
      ensures Valid() && data == old(data) && loadFactor == old(loadFactor)
      ensures !(0 <= index < old(size)) ==>
                r == Throw(IndexOutOfBounds) && size == old(size) && unchanged(data)
      ensures 0 <= index < old(size) ==>
                && r == Ok(old(Elements())[index])
                && Elements() == Seqs.RemoveAt(old(Elements()), index)
                && data[size] == Null
                && forall i | old(size) <= i < data.Length :: data[i] == old(data[i])
    {
      var valid := ValidateIndex(index, size);
      if valid.Throw? {
        return Throw(valid.exception);
      }
      var value := data[index];
      forall i | index <= i < size - 1 {
        data[i] := data[i + 1];
      }
      data[size - 1] := Null;
      size := size - 1;
      r := Ok(value);
    }

    /** get(index): the element at `index`. */
    method Get(index: int) returns (r: Result<Nullable<T>>)
      requires Valid()
      ensures 0 <= index < size ==> r == Ok(Elements()[index])
      ensures !(0 <= index < size) ==> r == Throw(IndexOutOfBounds)
    {
      var valid := ValidateIndex(index, size);
      if valid.Throw? {
        return Throw(valid.exception);
      }
      r := Ok(data[index]);
    }

    /** set(value, index): replaces the element at `index` and returns the one it held. */
    method Set(value: Nullable<T>, index: int) returns (r: Result<Nullable<T>>)
      requires Valid()
      modifies data
      ensures Valid()
      ensures !(0 <= index < size) ==> r == Throw(IndexOutOfBounds) && unchanged(data)
      ensures 0 <= index < size ==>
                r == Ok(old(Elements())[index]) && data[..] == old(data[..])[index := value]
    {
      var valid := ValidateIndex(index, size);
      if valid.Throw? {
        return Throw(valid.exception);
      }
      var oldValue := data[index];
      data[index] := value;
      r := Ok(oldValue);
    }

    /** contains(value): whether some element equals `value` (nulls included). */
    method Contains(value: Nullable<T>) returns (r: bool)
      requires Valid()
      ensures r <==> value in Elements()
    {
      var i := IndexOf(value);
      r := i != -1;
    }

    /** indexOf(value): the first position holding `value`, scanning up from 0, or -1. */
    method IndexOf(value: Nullable<T>) returns (r: int)
      requires Valid()
      ensures r == Seqs.FirstIndex(Elements(), value)
    {
      var i := 0;
      while i < size
        invariant 0 <= i <= size
        invariant value !in data[..i]
      {
        if data[i] == value {
          Seqs.FirstIndexUnique(Elements(), value, i);
          return i;
        }
        i := i + 1;
      }
      assert data[..i] == Elements();
      r := -1;
    }

    /** lastIndexOf(value): the last position holding `value`, scanning down from size - 1, or -1. */
    method LastIndexOf(value: Nullable<T>) returns (r: int)
      requires Valid()
      ensures r == Seqs.LastIndex(Elements(), value)
    {
      var i := size - 1;
      while i >= 0
        invariant -1 <= i < size
        invariant value !in data[i + 1..size]
      {
        if data[i] == value {
          Seqs.LastIndexUnique(Elements(), value, i);
          return i;
        }
        i := i - 1;
      }
      assert data[0..size] == Elements();
      r := -1;
    }

    /** isEmpty(). */
    function IsEmpty(): (r: bool)
      reads this, data
      requires Valid()
      ensures r <==> Elements() == []
    {
      size == 0
    }

    /** size(). */
    function Size(): (n: int)
      reads this, data
      requires Valid()
      ensures n == |Elements()|
    {
      size
    }

    /** clear(): nulls every element slot and empties the list; the capacity stays. */
    method Clear()
      requires Valid()
      modifies this, data
      ensures Valid() && data == old(data) && loadFactor == old(loadFactor)
      ensures Elements() == []
      ensures forall i | 0 <= i < old(size) :: data[i] == Null
      ensures forall i | old(size) <= i < data.Length :: data[i] == old(data[i])
    {
      for i := 0 to size
        invariant data == old(data) && size == old(size) && loadFactor == old(loadFactor)
        invariant forall j | 0 <= j < i :: data[j] == Null
        invariant forall j | i <= j < data.Length :: data[j] == old(data[j])
      {
        data[i] := Null;
      }
      size := 0;
    }

    /** iterator(): a fresh iterator standing before the first element. */
    method Iterator() returns (it: ArrayListIterator<T>)
      ensures fresh(it) && it.list == this && it.index == 0 && !it.removable
    {
      it := new ArrayListIterator(this);
    }
  }

  /** The list's iterator: a cursor and the flag that allows one remove per next. */
  class ArrayListIterator<T(==)> {
    const list: ArrayList<T>
    var index: nat
    /** Whether remove is allowed; the source calls the flag `remove`. */
    var removable: bool

    constructor (list: ArrayList<T>)
      ensures this.list == list && index == 0 && !removable
    {
      this.list := list;
      index := 0;
      removable := false;
    }

    /** hasNext(): the cursor is below the list's size. */
    method HasNext() returns (r: bool)
      requires list.Valid()
      ensures r <==> index < |list.Elements()|
    {
      r := index < list.size;
    }

    /** next(): the element at the cursor, which moves on and allows a remove; at the end it throws. */
    method Next() returns (r: Result<Nullable<T>>)
      requires list.Valid()
      modifies this
      ensures old(index) < |list.Elements()| ==>
                r == Ok(list.Elements()[old(index)]) && index == old(index) + 1 && removable
      ensures old(index) >= |list.Elements()| ==>
                r == Throw(NoSuchElement) && index == old(index) && removable == old(removable)
    {
      if !(index < list.size) {
        return Throw(NoSuchElement);
      }
      removable := true;
      r := Ok(list.data[index]);
      index := index + 1;
    }

    /**
     * remove(): without a preceding next it throws; otherwise it clears the
     * flag, nulls the slot at the cursor and shrinks the list by one.
     */
    method Remove() returns (r: Result<()>)
      requires list.Valid()
      modifies this`removable, list`size, list.data
      ensures list.data == old(list.data) && !removable
      ensures !old(removable) ==> r == Throw(IllegalState) && list.size == old(list.size) && unchanged(list.data)
      ensures old(removable) && index >= list.data.Length ==>
                r == Throw(ArrayIndexOutOfBounds) && list.size == old(list.size) && unchanged(list.data)
      ensures old(removable) && index < list.data.Length ==>
                && r == Ok(())
                && list.size == old(list.size) - 1
                && list.data[..] == old(list.data[..])[index := Null]
      ensures old(removable) && 0 < index <= old(list.size) && index < list.data.Length ==>
                list.Valid() && list.Elements() == IteratorRemoved(old(list.Elements()), index)
    {
      if !removable {
        return Throw(IllegalState);
      }
      removable := false;
      if index >= list.data.Length {
        return Throw(ArrayIndexOutOfBounds);
      }
      list.data[index] := Null;
      list.size := list.size - 1;
      r := Ok(());
    }
  }
}
