/** `sort.Slice` as its callers may rely on it: sorted in place, a permutation, ties in any order. */
module Sorting {

  predicate Ordered<T>(s: seq<T>, key: T -> int) {
    forall i, j :: 0 <= i < j < |s| ==> key(s[i]) <= key(s[j])
  }

  function Insert<T>(s: seq<T>, x: T, key: T -> int): seq<T> {
    if s == [] then [x]
    else if key(x) <= key(s[0]) then [x] + s
    else [s[0]] + Insert(s[1..], x, key)
  }

  lemma {:induction false} InsertAdds<T>(s: seq<T>, x: T, key: T -> int)
    ensures multiset(Insert(s, x, key)) == multiset(s) + multiset{x}
    decreases |s|
  {
    if s != [] {
      assert s == [s[0]] + s[1..];
      if key(x) > key(s[0]) { InsertAdds(s[1..], x, key); }
    }
  }

  lemma InFront<T>(x: T, s: seq<T>, key: T -> int)
    requires Ordered(s, key) && forall y :: y in multiset(s) ==> key(x) <= key(y)
    ensures Ordered([x] + s, key)
  {
    forall i | 0 <= i < |s| ensures key(x) <= key(s[i]) { assert s[i] in multiset(s); }
  }

  lemma {:induction false} InsertKeeps<T>(s: seq<T>, x: T, key: T -> int)
    requires Ordered(s, key)
    ensures Ordered(Insert(s, x, key), key)
    ensures multiset(Insert(s, x, key)) == multiset(s) + multiset{x}
    decreases |s|
  {
    InsertAdds(s, x, key);
    if s != [] {
      forall y | y in multiset(s) ensures key(s[0]) <= key(y) {
        var i :| 0 <= i < |s| && s[i] == y;
      }
      if key(x) > key(s[0]) {
        InsertKeeps(s[1..], x, key);
        InsertAdds(s[1..], x, key);
        InFront(s[0], Insert(s[1..], x, key), key);
      } else {
        InFront(x, s, key);
      }
    }
  }

  method Slice<T>(a: array<T>, key: T -> int)
    modifies a
    ensures Ordered(a[..], key)
    ensures multiset(a[..]) == multiset(old(a[..]))
  {
    var s: seq<T> := [];
    for i := 0 to a.Length
      invariant Ordered(s, key) && multiset(s) == multiset(a[..i]) && a[..] == old(a[..])
    {
      InsertKeeps(s, a[i], key);
      assert a[..i + 1] == a[..i] + [a[i]];
      s := Insert(s, a[i], key);
    }
    assert a[..a.Length] == a[..];
    assert |s| == |multiset(s)| == |multiset(a[..])| == a.Length;
    forall i | 0 <= i < a.Length { a[i] := s[i]; }
    assert a[..] == s;
  }

  /** No two different elements share a key. */
  ghost predicate Apart<T(!new)>(s: seq<T>, key: T -> int) {
    forall x, y :: x in s && y in s && key(x) == key(y) ==> x == y
  }

  /** Distinct keys leave the sorted order no freedom: it is a function of the elements. */
  lemma {:induction false} OrderedUnique<T(!new)>(s: seq<T>, t: seq<T>, key: T -> int)
    requires Ordered(s, key) && Ordered(t, key) && multiset(s) == multiset(t)
    requires Apart(s, key)
    ensures s == t
    decreases |s|
  {
    SameLength(s, t);
    if s != [] {
      SameFirst(s, t, key);
      hide Ordered; hide Apart;
      Tail(s, key);
      Tail(t, key);
      ApartTail(s, key);
      OrderedUnique(s[1..], t[1..], key);
    }
  }

  lemma SameLength<T>(s: seq<T>, t: seq<T>)
    requires multiset(s) == multiset(t)
    ensures |s| == |t|
  {
    assert |s| == |multiset(s)| == |multiset(t)| == |t|;
  }

  lemma ApartTail<T(!new)>(s: seq<T>, key: T -> int)
    requires s != [] && Apart(s, key)
    ensures Apart(s[1..], key)
  {
    assert forall x :: x in s[1..] ==> x in s;
  }

  lemma Tail<T>(s: seq<T>, key: T -> int)
    requires s != [] && Ordered(s, key)
    ensures s == [s[0]] + s[1..] && Ordered(s[1..], key)
    ensures multiset(s[1..]) == multiset(s) - multiset{s[0]}
  {
    assert s == [s[0]] + s[1..];
  }

  lemma SameFirst<T(!new)>(s: seq<T>, t: seq<T>, key: T -> int)
    requires Ordered(s, key) && Ordered(t, key) && multiset(s) == multiset(t) && s != [] && t != []
    requires Apart(s, key)
    ensures s[0] == t[0]
  {
    assert s[0] in multiset(t) && t[0] in multiset(s);
    var i :| 0 <= i < |t| && t[i] == s[0];
    var j :| 0 <= j < |s| && s[j] == t[0];
    assert key(t[0]) <= key(t[i]) && key(s[0]) <= key(s[j]);
  }
}
