/** The operations of an ordered set, kept as a sequence that is sorted by a "less" comparator. */
module OrderedSet {
  import opened Types

  /** Index of the first element that is not less than the key. */
  function LowerBound<T>(s: seq<T>, less: (T, T) -> bool, key: T): (i: nat)
    ensures i <= |s|
    ensures forall k :: 0 <= k < i ==> less(s[k], key)
    ensures i < |s| ==> !less(s[i], key)
  {
    if s == [] || !less(s[0], key) then 0 else 1 + LowerBound(s[1..], less, key)
  }

  /** Index of the element that compares equivalent to the key. */
  function Find<T>(s: seq<T>, less: (T, T) -> bool, key: T): (r: Option<nat>)
    ensures r.Some? ==> r.value < |s| && !less(s[r.value], key) && !less(key, s[r.value])
  {
    var i := LowerBound(s, less, key);
    if i < |s| && !less(key, s[i]) then Some(i) else None
  }

  /** An equivalent element keeps the new one out. */
  function Insert<T>(s: seq<T>, less: (T, T) -> bool, x: T): seq<T> {
    var i := LowerBound(s, less, x);
    if i < |s| && !less(x, s[i]) then s else InsertAt(s, i, x)
  }

  function RemoveAt<T>(s: seq<T>, i: nat): (t: seq<T>)
    requires i < |s|
    ensures |t| == |s| - 1
    ensures forall k :: 0 <= k < |t| ==> t[k] == if k < i then s[k] else s[k + 1]
  {
    s[..i] + s[i + 1..]
  }

  function InsertAt<T>(s: seq<T>, i: nat, x: T): (t: seq<T>)
    requires i <= |s|
    ensures |t| == |s| + 1
    ensures forall k :: 0 <= k < |t| ==> t[k] == if k < i then s[k] else if k == i then x else s[k - 1]
  {
    s[..i] + [x] + s[i..]
  }

  ghost predicate Sorted<T>(s: seq<T>, less: (T, T) -> bool) {
    forall i, j :: 0 <= i < j < |s| ==> less(s[i], s[j])
  }

  lemma RemoveAtMultiset<T>(s: seq<T>, i: nat)
    requires i < |s|
    ensures multiset(RemoveAt(s, i)) == multiset(s) - multiset{s[i]}
    ensures multiset(s) == multiset(RemoveAt(s, i)) + multiset{s[i]}
  {
    assert s == s[..i] + ([s[i]] + s[i + 1..]);
  }

  lemma {:induction false} DistinctCount<T(!new)>(s: seq<T>, g: T)
    requires forall i, j :: 0 <= i < j < |s| ==> s[i] != s[j]
    ensures multiset(s)[g] == if g in s then 1 else 0
  {
    if s == [] {
    } else {
      assert s == [s[0]] + s[1..];
      DistinctCount(s[1..], g);
    }
  }

  lemma TwiceCounted<T>(s: seq<T>, i: nat, j: nat)
    requires i < j < |s| && s[i] == s[j]
    ensures multiset(s)[s[i]] >= 2
  {
    assert s == s[..j] + [s[j]] + s[j + 1..];
    assert s[..j][i] == s[i];
  }

  lemma ConsEqual<T>(s: seq<T>, x: T, t: seq<T>)
    requires |s| == |t| + 1 && s[0] == x && forall k :: 0 <= k < |t| ==> s[k + 1] == t[k]
    ensures s == [x] + t
  {
  }

  lemma ConcatAssociative<T>(a: seq<T>, b: seq<T>, c: seq<T>)
    ensures a + (b + c) == a + b + c
  {
  }

  lemma InsertAtElements<T(!new)>(s: seq<T>, i: nat, x: T)
    requires i <= |s|
    ensures forall g :: g in InsertAt(s, i, x) <==> g in s || g == x
  {
    var t := InsertAt(s, i, x);
    assert t[i] == x;
    forall g | g in s
      ensures g in t
    {
      var k :| 0 <= k < |s| && s[k] == g;
      assert t[if k < i then k else k + 1] == g;
    }
  }

  lemma InsertAtSorted<T>(s: seq<T>, less: (T, T) -> bool, i: nat, x: T)
    requires i <= |s| && Sorted(s, less)
    requires forall k :: 0 <= k < i ==> less(s[k], x)
    requires forall k :: i <= k < |s| ==> less(x, s[k])
    ensures Sorted(InsertAt(s, i, x), less)
  {
  }

  lemma RemoveAtSorted<T>(s: seq<T>, less: (T, T) -> bool, i: nat)
    requires i < |s| && Sorted(s, less)
    ensures Sorted(RemoveAt(s, i), less)
  {
  }
}
