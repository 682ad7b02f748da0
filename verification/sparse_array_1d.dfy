/**
 * The one-dimensional `SparseArray` of sparse_array_1D_slicing.py: a logical
 * length and a dictionary that holds only the non-zero positions, read and
 * written like a dense list.
 */
module SparseArray1D {
  import opened Results
  import opened Slices

  /** The logical value at position i of a store: its entry, or 0 when none is stored. */
  function ValueAt(data: map<int, int>, i: int): int {
    if i in data then data[i] else 0
  }

  /** The zero-suppression invariant: every key is a position and no stored value is 0. */
  ghost predicate Canonical(data: map<int, int>, length: nat) {
    forall k :: k in data ==> 0 <= k < length && data[k] != 0
  }

  /** The dense list that a store of the given length stands for. */
  function Dense(data: map<int, int>, length: nat): seq<int> {
    seq(length, i => ValueAt(data, i))
  }

  /** The store the constructor builds from a dense list: its non-zero positions. */
  function Compress(values: seq<int>): map<int, int> {
    map i | 0 <= i < |values| && values[i] != 0 :: values[i]
  }

  /** Building a store from a list and reading it back gives the list. */
  lemma CompressRoundTrip(values: seq<int>)
    ensures Canonical(Compress(values), |values|)
    ensures Dense(Compress(values), |values|) == values
  {
    var d := Compress(values);
    forall i | 0 <= i < |values|
      ensures Dense(d, |values|)[i] == values[i]
    {
      if values[i] != 0 {
        assert i in d;
      } else {
        assert i !in d;
      }
    }
  }

  /** Zero suppression makes the store canonical: equal dense views mean equal stores. */
  lemma {:induction false} CanonicalUnique(d1: map<int, int>, d2: map<int, int>, length: nat)
    requires Canonical(d1, length) && Canonical(d2, length)
    requires Dense(d1, length) == Dense(d2, length)
    ensures d1 == d2
  {
    forall k | k in d1
      ensures k in d2 && d2[k] == d1[k]
    {
      assert Dense(d1, length)[k] == d1[k];
    }
    forall k | k in d2
      ensures k in d1
    {
      assert Dense(d2, length)[k] == d2[k];
    }
  }

  /** The other half of the round trip: compressing the dense view of a store gives the store back. */
  lemma DenseCompress(data: map<int, int>, length: nat)
    requires Canonical(data, length)
    ensures Compress(Dense(data, length)) == data
  {
    CompressRoundTrip(Dense(data, length));
    CanonicalUnique(Compress(Dense(data, length)), data, length);
  }

  /** `__setitem__` on the store once the bounds check passed: 0 removes the entry, any other value is stored. */
  function Assign(data: map<int, int>, index: int, value: int): map<int, int> {
    if value != 0 then data[index := value] else data - {index}
  }

  /** A write changes exactly the written position and keeps the store canonical. */
  lemma AssignView(data: map<int, int>, length: nat, index: int, value: int)
    requires Canonical(data, length) && 0 <= index < length
    ensures Canonical(Assign(data, index, value), length)
    ensures Dense(Assign(data, index, value), length) == Dense(data, length)[index := value]
    ensures value == 0 ==> index !in Assign(data, index, value)
  {
  }

  /** Writing the same value twice is the same as writing it once. */
  lemma AssignIdempotent(data: map<int, int>, index: int, value: int)
    ensures Assign(Assign(data, index, value), index, value) == Assign(data, index, value)
  {
  }

  /** One step of `__delitem__`'s loop: the entry at `key` moves to `key - 1`, overwriting what is stored there. */
  function MoveDown(data: map<int, int>, key: int): (m: map<int, int>)
    ensures key in data ==> key !in m && key - 1 in m && m[key - 1] == data[key]
    ensures key !in data ==> m == data
    ensures forall j :: j != key && j != key - 1 ==> (j in m <==> j in data) && (j in m ==> m[j] == data[j])
    ensures |m| <= |data|
  {
    if key in data then
      var rest := data - {key};
      assert |rest| == |data| - 1;
      rest[key - 1 := data[key]]
    else data
  }

  /**
   * `__delitem__`'s loop as written: the keys above the deleted index are
   * moved down in `order`, the dictionary's iteration (insertion) order.
   */
  function ShiftKeys(data: map<int, int>, order: seq<int>): (m: map<int, int>)
    ensures |m| <= |data|
    ensures forall j :: j in data && (forall i :: 0 <= i < |order| ==> j != order[i] && j != order[i] - 1) ==>
      j in m && m[j] == data[j]
    decreases |order|
  {
    if order == [] then data else ShiftKeys(MoveDown(data, order[0]), order[1..])
  }

  /**
   * Insertion order loses an entry: write 5 at index 2, then 7 at index 1,
   * then delete index 0. Key 2 is moved first and overwrites the 7 at key 1;
   * the result reads [5, 0] where the dense list minus its first element is [7, 5].
   */
  lemma ShiftKeysLosesEntry()
    ensures ShiftKeys(map[2 := 5, 1 := 7], [2, 1]) == map[0 := 5]
    ensures Dense(map[0 := 5], 2) == [5, 0]
    ensures Dense(map[2 := 5, 1 := 7], 3)[1..] == [7, 5]
  {
    var d := map[2 := 5, 1 := 7];
    assert MoveDown(d, 2) == map[1 := 5];
    assert MoveDown(map[1 := 5], 1) == map[0 := 5];
    assert ShiftKeys(map[0 := 5], []) == map[0 := 5];
    assert Dense(d, 3) == [0, 7, 5];
  }

  /** `k` is the least element of `s`. */
  predicate IsLeast(k: int, s: set<int>) {
    k in s && forall j :: j in s ==> k <= j
  }

  lemma LeastOfInsert(x: int, m: int, rest: set<int>)
    requires IsLeast(m, rest)
    ensures IsLeast(if x < m then x else m, rest + {x})
  {
  }

  /** A non-empty finite set of keys has a least element. */
  lemma {:induction false} LeastKey(s: set<int>)
    requires s != {}
    ensures exists k :: IsLeast(k, s)
    decreases |s|
  {
    if forall y :: y !in s {
      assert false;
    }
    var x :| x in s;
    var rest := s - {x};
    if rest == {} {
      assert s == {x};
      assert IsLeast(x, {x});
    } else {
      LeastKey(rest);
      var m :| IsLeast(m, rest);
      LeastOfInsert(x, m, rest);
      assert s == rest + {x};
    }
  }

  /** The stored keys above `t`. */
  function KeysAbove(data: map<int, int>, t: int): set<int> {
    set k | k in data && k > t
  }

  /**
   * The state of `del a[index]` part-way through its loop, `t` being the last
   * key moved (or `index` before the first): positions below `index` are as
   * before, positions from `index` to `t - 1` hold the old value one above,
   * position `t` is empty, and positions above `t` are untouched.
   */
  ghost predicate ShiftedThrough(data: map<int, int>, length: nat, before: seq<int>, index: int, t: int) {
    && |before| == length
    && 0 <= index <= t < length
    && t !in data
    && Canonical(data, length)
    && (forall j :: 0 <= j < index ==> ValueAt(data, j) == before[j])
    && (forall j :: index <= j < t ==> ValueAt(data, j) == before[j + 1])
    && (forall j :: t < j < length ==> ValueAt(data, j) == before[j])
  }

  /** Moving the least key above `t` down by one carries the loop state from `t` to that key. */
  lemma ShiftStep(data: map<int, int>, length: nat, before: seq<int>, index: int, t: int, k: int)
    requires ShiftedThrough(data, length, before, index, t)
    requires IsLeast(k, KeysAbove(data, t))
    ensures k in data
    ensures ShiftedThrough(MoveDown(data, k), length, before, index, k)
    ensures KeysAbove(MoveDown(data, k), k) == KeysAbove(data, t) - {k}
  {
    assert k in data && k > t;
    var d := MoveDown(data, k);
    assert d == (data - {k})[k - 1 := data[k]];
    forall j | index <= j < t
      ensures ValueAt(d, j) == before[j + 1]
    {
      assert j != k - 1 && j != k;
      assert ValueAt(d, j) == ValueAt(data, j);
    }
    assert ValueAt(d, k - 1) == before[k];
    forall j | t <= j < k - 1
      ensures ValueAt(d, j) == before[j + 1]
    {
      assert j + 1 !in KeysAbove(data, t);
      if j > t {
        assert j !in KeysAbove(data, t);
      }
    }
    forall j | k < j < length
      ensures ValueAt(d, j) == before[j]
    {
    }
  }

  /** Once no key is left above `t`, the store is the old list with position `index` removed. */
  lemma ShiftDone(data: map<int, int>, length: nat, before: seq<int>, index: int, t: int)
    requires ShiftedThrough(data, length, before, index, t)
    requires KeysAbove(data, t) == {}
    ensures Canonical(data, length - 1)
    ensures Dense(data, length - 1) == before[..index] + before[index + 1..]
  {
    forall k | k in data
      ensures k < t
    {
      assert k !in KeysAbove(data, t);
    }
    forall j | t <= j < length - 1
      ensures ValueAt(data, j) == before[j + 1]
    {
      assert j + 1 !in data;
    }
  }

  /** For a canonical store, a non-zero value is among the stored values exactly when some position reads it. */
  lemma StoredValues(data: map<int, int>, length: nat, value: int)
    requires Canonical(data, length)
    ensures value != 0 ==> (value in data.Values <==> value in Dense(data, length))
  {
    if value != 0 {
      if value in data.Values {
        if forall k :: k in data ==> data[k] != value {
          assert false;
        }
        var k :| k in data && data[k] == value;
        assert Dense(data, length)[k] == value;
      }
      if value in Dense(data, length) {
        var i :| 0 <= i < length && Dense(data, length)[i] == value;
        assert i in data && data[i] == value;
      }
    }
  }

  class SparseArray {
    var data: map<int, int>
    var length: nat

    /** The object invariant: the store is zero-suppressed and within the length. */
    ghost predicate Valid()
      reads this
    {
      Canonical(data, length)
    }

    /** The dense list the array reads as. */
    function View(): seq<int>
      reads this
    {
      Dense(data, length)
    }

    /** `SparseArray(values)`: keeps the non-zero positions of `values`. */
    constructor (values: seq<int>)
      ensures Valid() && View() == values
      ensures data == Compress(values)
    {
      var d: map<int, int> := map[];
      var i := 0;
      while i < |values|
        invariant 0 <= i <= |values|
        invariant forall k :: k in d ==> 0 <= k < i && d[k] == values[k] != 0
        invariant forall k :: 0 <= k < i && values[k] != 0 ==> k in d
      {
        if values[i] != 0 {
          d := d[i := values[i]];
        }
        i := i + 1;
      }
      data := d;
      length := |values|;
      CompressRoundTrip(values);
      CanonicalUnique(d, Compress(values), |values|);
    }

    /** `len(a)`: the number of logical positions, stored or not. */
    function Len(): (n: nat)
      reads this
      ensures n == |View()|
    {
      length
    }

    /** `a[index]`: IndexError outside [0, len), else the logical value. */
    function Get(index: int): (r: Result<int>)
      reads this
      ensures r.Ok? <==> 0 <= index < |View()|
      ensures r.Ok? ==> r.value == View()[index]
      ensures r.Err? ==> r.error == IndexError
    {
      if index >= length || index < 0 then Err(IndexError) else Ok(ValueAt(data, index))
    }

    /** `a[s]`: a new array of the positions the slice selects; the source is untouched. */
    method GetSlice(s: Slice) returns (a: SparseArray)
      requires NonZeroStep(s)
      ensures fresh(a) && a.Valid()
      ensures a.View() == SliceOf(View(), s)
    {
      var r := Indices(s, length);
      var d := data;
      var values := seq(Count(r), j requires 0 <= j < Count(r) => ValueAt(d, Nth(r, j)));
      a := new SparseArray(values);
      forall j | 0 <= j < Count(r)
        ensures values[j] == SliceOf(View(), s)[j]
      {
        RangeWithin(r, length, j);
      }
    }

    /** `a[index] = value`: IndexError outside [0, len); 0 removes the entry, anything else is stored. */
    method Set(index: int, value: int) returns (r: Outcome)
      requires Valid()
      modifies this
      ensures Valid() && length == old(length)
      ensures r == (if 0 <= index < old(length) then Pass else Fail(IndexError))
      ensures r.Pass? ==> data == Assign(old(data), index, value)
      ensures r.Pass? ==> View() == old(View())[index := value]
      ensures r.Fail? ==> data == old(data)
    {
      if index >= length || index < 0 {
        return Fail(IndexError);
      }
      AssignView(data, length, index, value);
      if value != 0 {
        data := data[index := value];
      } else if index in data {
        data := data - {index};
      }
      r := Pass;
    }

    /**
     * `del a[index]`: IndexError outside [0, len); otherwise the position is
     * removed and every stored key above it moves down by one, the least key
     * first, so no entry is overwritten before it has moved.
     */
    method Delete(index: int) returns (r: Outcome)
      requires Valid()
      modifies this
      ensures Valid()
      ensures r == (if 0 <= index < old(length) then Pass else Fail(IndexError))
      ensures r.Pass? ==> length == old(length) - 1
      ensures r.Pass? ==> View() == old(View())[..index] + old(View())[index + 1..]
      ensures r.Fail? ==> data == old(data) && length == old(length)
    {
      if index >= length || index < 0 {
        return Fail(IndexError);
      }
      ghost var before := View();
      if index in data {
        data := data - {index};
      }
      var pending := set k | k in data && k > index;
      var t := index;
      while pending != {}
        invariant ShiftedThrough(data, length, before, index, t)
        invariant pending == KeysAbove(data, t)
        decreases pending
      {
        LeastKey(pending);
        var k :| IsLeast(k, pending);
        ShiftStep(data, length, before, index, t, k);
        var v := data[k];
        data := data - {k};
        data := data[k - 1 := v];
        pending := pending - {k};
        t := k;
      }
      ShiftDone(data, length, before, index, t);
      length := length - 1;
      r := Pass;
    }

    /** `a.append(value)`: one more position reading `value`; a 0 adds no entry. */
    method Append(value: int)
      requires Valid()
      modifies this
      ensures Valid()
      ensures length == old(length) + 1
      ensures View() == old(View()) + [value]
      ensures value == 0 ==> data == old(data)
    {
      if value != 0 {
        data := data[length := value];
      }
      length := length + 1;
    }

    /** `value in a`: 0 is always reported present; a non-zero value is present when some position holds it. */
    function Contains(value: int): (b: bool)
      reads this
      requires Valid()
      ensures value == 0 ==> b
      ensures value != 0 ==> (b <==> value in View())
    {
      StoredValues(data, length, value);
      value == 0 || value in data.Values
    }

    /** `a + b`: a new array reading this array's positions, then the other's. */
    method Concat(other: SparseArray) returns (a: SparseArray)
      ensures fresh(a) && a.Valid()
      ensures a.View() == View() + other.View()
    {
      var values := View() + other.View();
      a := new SparseArray(values);
    }

    /** `a < b`: compares lengths only. */
    function Less(other: SparseArray): (b: bool)
      reads this, other
      ensures b <==> |View()| < |other.View()|
    {
      length < other.length
    }

    /** `a > b`: compares lengths only. */
    function Greater(other: SparseArray): (b: bool)
      reads this, other
      ensures b <==> |View()| > |other.View()|
    {
      length > other.length
    }

    /** `a == b`: compares lengths only, so arrays with different contents can be equal. */
    function Equal(other: SparseArray): (b: bool)
      reads this, other
      ensures b <==> |View()| == |other.View()|
    {
      length == other.length
    }

    /** `str(a)`: the dense list, one value per position, read one position at a time. */
    method ToList() returns (values: seq<int>)
      ensures values == View()
    {
      values := [];
      var i := 0;
      while i < length
        invariant 0 <= i <= length
        invariant values == View()[..i]
      {
        values := values + [if i in data then data[i] else 0];
        i := i + 1;
      }
    }
  }
}
