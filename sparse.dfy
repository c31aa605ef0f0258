/**
 * A model of Android's sparse int-keyed arrays (SparseIntArray and
 * SparseBooleanArray).  The entries are a dictionary from key to value; the
 * keys are also kept as a strictly ascending sequence, which gives the
 * index-based view `keyAt(i)` / `valueAt(i)` the editor code iterates with.
 * `indexOfKey` is a binary search returning the index of a present key and the
 * bitwise complement of the insertion point otherwise.
 */
module SparseArrays {

  ghost predicate StrictlyIncreasing(s: seq<int>) {
    forall i, j :: 0 <= i < j < |s| ==> s[i] < s[j]
  }

  /** The number of leading elements of `s` below `k`: for an ascending `s`,
      the insertion point of `k`. */
  function Rank(s: seq<int>, k: int): (r: nat)
    ensures r <= |s|
    ensures forall j :: 0 <= j < r ==> s[j] < k
    ensures StrictlyIncreasing(s) ==> forall j :: r <= j < |s| ==> k <= s[j]
  {
    if |s| == 0 || k <= s[0] then 0 else 1 + Rank(s[1..], k)
  }

  lemma RankIs(s: seq<int>, k: int, p: nat)
    requires StrictlyIncreasing(s) && p <= |s|
    requires forall j :: 0 <= j < p ==> s[j] < k
    requires forall j :: p <= j < |s| ==> k <= s[j]
    ensures Rank(s, k) == p
  {
    var r := Rank(s, k);
    var atR, atP := if r < |s| then s[r] else k, if p < |s| then s[p] else k;
  }

  /** Binary search over an ascending sequence, as ContainerHelpers.binarySearch
      and java.util.Arrays.binarySearch: the index of `key` when present,
      `~insertionPoint` (that is, `-insertionPoint - 1`) when absent. */
  method BinarySearch(a: seq<int>, key: int) returns (r: int)
    requires StrictlyIncreasing(a)
    ensures 0 <= r ==> r < |a| && a[r] == key
    ensures r < 0 <==> key !in a
    ensures (if 0 <= r then r else -r - 1) == Rank(a, key)
  {
    var lo, hi := 0, |a| - 1;
    while lo <= hi
      invariant 0 <= lo <= hi + 1 <= |a|
      invariant forall j :: 0 <= j < lo ==> a[j] < key
      invariant forall j :: hi < j < |a| ==> key < a[j]
    {
      var mid := (lo + hi) / 2;
      if a[mid] < key {
        lo := mid + 1;
      } else if key < a[mid] {
        hi := mid - 1;
      } else {
        RankIs(a, key, mid);
        return mid;
      }
    }
    RankIs(a, key, lo);
    r := -lo - 1;
  }

  datatype SparseArray<V> = SparseArray(keys: seq<int>, entries: map<int, V>) {

    ghost predicate Valid() {
      && StrictlyIncreasing(keys)
      && (forall k :: k in entries <==> k in keys)
    }

    /** `size()`: the number of keys, which `KeysCount` shows is the number
        of entries. */
    function Size(): nat {
      |keys|
    }

    /** `valueAt(i)`: the value of the key that has exactly i smaller keys. */
    function ValueAt(i: nat): (r: V)
      requires Valid() && i < |keys|
      ensures keys[i] in entries && r == entries[keys[i]]
    {
      assert keys[i] in keys;
      entries[keys[i]]
    }

    /** `get(key, valueIfKeyNotFound)`: the value of a present key, otherwise
        the default (`KeyIndex` relates it to the index view). */
    function Get(k: int, default: V): (r: V)
      ensures k in entries ==> r == entries[k]
      ensures k !in entries ==> r == default
    {
      if k in entries then entries[k] else default
    }

    /** `put(key, value)`: replaces the value of a present key, otherwise
        inserts the key at its insertion point. */
    function Put(k: int, v: V): (r: SparseArray<V>)
      requires Valid()
      ensures r.Valid() && r.entries == entries[k := v]
      ensures k in entries ==> r.keys == keys
      ensures (|keys| == 0 || keys[|keys| - 1] < k) ==> r.keys == keys + [k]
    {
      if k in entries then
        SparseArray(keys, entries[k := v])
      else
        var i := Rank(keys, k);
        InsertSorted(keys, k, i);
        RankOfGreatest(keys, k);
        SparseArray(keys[..i] + [k] + keys[i..], entries[k := v])
    }

    /** `delete(key)`: removes a present key; no effect otherwise.  Keys below
        the deleted one keep their index. */
    function Delete(k: int): (r: SparseArray<V>)
      requires Valid()
      ensures r.Valid() && r.entries == entries - {k}
      ensures forall j :: 0 <= j < |keys| && keys[j] < k ==> j < |r.keys| && r.keys[j] == keys[j]
    {
      if k in entries then
        var i := Rank(keys, k);
        RemoveSorted(keys, i);
        SparseArray(keys[..i] + keys[i + 1..], entries - {k})
      else
        this
    }
  }

  function Empty<V>(): (r: SparseArray<V>)
    ensures r.Valid() && r.entries == map[] && r.keys == []
  {
    SparseArray([], map[])
  }

  /** The index view and the key view agree: the i-th key has exactly i
      smaller keys (so `indexOfKey(keyAt(i)) == i`), and `get` of it is
      `valueAt(i)`. */
  lemma KeyIndex<V>(a: SparseArray<V>, i: nat, default: V)
    requires a.Valid() && i < |a.keys|
    ensures Rank(a.keys, a.keys[i]) == i
    ensures a.Get(a.keys[i], default) == a.ValueAt(i)
  {
    RankIs(a.keys, a.keys[i], i);
  }

  /** An ascending sequence has as many distinct elements as it is long. */
  lemma {:induction false} DistinctCount(s: seq<int>)
    requires StrictlyIncreasing(s)
    ensures |set x | x in s| == |s|
  {
    if |s| > 0 {
      var pre, last := s[..|s| - 1], s[|s| - 1];
      DistinctCount(pre);
      assert s == pre + [last];
      assert (set x | x in s) == (set x | x in pre) + {last};
      assert last !in pre;
    }
  }

  /** A valid sparse array has one entry per key. */
  lemma KeysCount<V>(a: SparseArray<V>)
    ensures a.Valid() ==> |a.entries| == |a.keys|
  {
    if a.Valid() {
      DistinctCount(a.keys);
      var ks := set x | x in a.keys;
      assert forall x :: x in a.entries.Keys <==> x in ks;
      assert a.entries.Keys == ks;
    }
  }

  lemma RankOfGreatest(s: seq<int>, k: int)
    requires StrictlyIncreasing(s)
    ensures (|s| == 0 || s[|s| - 1] < k) ==> Rank(s, k) == |s|
  {
    if |s| == 0 || s[|s| - 1] < k {
      RankIs(s, k, |s|);
    }
  }

  /** The elements of `s` with `k` inserted at index `i`, index by index. */
  lemma InsertedAt(s: seq<int>, k: int, i: nat)
    requires i <= |s|
    ensures var r := s[..i] + [k] + s[i..];
      && |r| == |s| + 1
      && (forall j :: 0 <= j < i ==> r[j] == s[j])
      && r[i] == k
      && (forall j :: i < j < |r| ==> r[j] == s[j - 1])
  {
    var r := s[..i] + [k] + s[i..];
    forall j | i < j < |r| ensures r[j] == s[j - 1] {
      assert r[j] == s[i..][j - i - 1];
    }
  }

  /** Inserting `k` between the elements below it and those above it keeps
      a sequence ascending. */
  lemma InsertOrdered(s: seq<int>, k: int, i: nat)
    requires StrictlyIncreasing(s) && i <= |s|
    requires forall j :: 0 <= j < i ==> s[j] < k
    requires forall j :: i <= j < |s| ==> k < s[j]
    ensures StrictlyIncreasing(s[..i] + [k] + s[i..])
  {
    var r := s[..i] + [k] + s[i..];
    InsertedAt(s, k, i);
    forall a, b | 0 <= a < b < |r| ensures r[a] < r[b] {
      if a == i {
        assert k < s[b - 1];
      } else if b == i {
        assert s[a] < k;
      }
    }
  }

  /** Inserting `k` anywhere adds exactly `k` to the elements. */
  lemma InsertMembers(s: seq<int>, k: int, i: nat)
    requires i <= |s|
    ensures forall x :: x in s[..i] + [k] + s[i..] <==> x == k || x in s
  {
    var r := s[..i] + [k] + s[i..];
    InsertedAt(s, k, i);
    forall x | x in s ensures x in r {
      var j :| 0 <= j < |s| && s[j] == x;
      assert r[if j < i then j else j + 1] == x;
    }
    forall x | x in r ensures x == k || x in s {
      var j :| 0 <= j < |r| && r[j] == x;
      assert j != i ==> s[if j < i then j else j - 1] in s;
    }
  }

  /** Inserting an absent `k` at its insertion point keeps the keys ascending
      and adds exactly `k`. */
  lemma InsertSorted(s: seq<int>, k: int, i: nat)
    requires StrictlyIncreasing(s) && k !in s && i == Rank(s, k)
    ensures var r := s[..i] + [k] + s[i..];
      && StrictlyIncreasing(r)
      && (forall x :: x in r <==> x == k || x in s)
  {
    forall j | i <= j < |s| ensures k < s[j] {
      assert s[j] in s;
    }
    InsertOrdered(s, k, i);
    InsertMembers(s, k, i);
  }

  /** Removing the element at index `i` keeps the keys ascending, removes
      exactly that element and keeps the ones before it in place. */
  lemma RemoveSorted(s: seq<int>, i: nat)
    requires StrictlyIncreasing(s) && i < |s|
    ensures var r := s[..i] + s[i + 1..];
      && StrictlyIncreasing(r)
      && (forall x :: x in r <==> x != s[i] && x in s)
      && (forall j :: 0 <= j < i ==> r[j] == s[j])
  {
    var r := s[..i] + s[i + 1..];
    assert forall j :: 0 <= j < |r| ==> r[j] == (if j < i then s[j] else s[j + 1]);
    forall x | x in s && x != s[i] ensures x in r {
      var j :| 0 <= j < |s| && s[j] == x;
      assert r[if j < i then j else j - 1] == x;
    }
  }

  /** A strictly ascending sequence is determined by its elements. */
  lemma {:induction false} SortedUnique(s: seq<int>, t: seq<int>)
    requires StrictlyIncreasing(s) && StrictlyIncreasing(t)
    requires forall x :: x in s <==> x in t
    ensures s == t
  {
    if |s| > 0 {
      assert s[0] in s;
    }
    if |t| > 0 {
      assert t[0] in t;
    }
    if |s| > 0 && |t| > 0 {
      assert s[0] == t[0];
      forall x ensures x in s[1..] <==> x in t[1..] {
        assert x in s <==> x == s[0] || x in s[1..];
        assert x in t <==> x == t[0] || x in t[1..];
      }
      SortedUnique(s[1..], t[1..]);
      assert s == [s[0]] + s[1..] && t == [t[0]] + t[1..];
    }
  }

  /** Two valid sparse arrays with the same entries are the same array. */
  lemma SameEntriesSameArray<V>(a: SparseArray<V>, b: SparseArray<V>)
    requires a.Valid() && b.Valid() && a.entries == b.entries
    ensures a == b
  {
    SortedUnique(a.keys, b.keys);
  }
}
