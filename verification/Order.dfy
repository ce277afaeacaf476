/** Walking a store in key order, and maps built from lists of rows. */
module Order {
  import opened Basics

  lemma LeastOf(keys: set<uint64>) returns (m: uint64)
    requires keys != {}
    ensures m in keys && forall j :: j in keys ==> m <= j
    decreases |keys|
  {
    var k :| k in keys;
    if keys == {k} {
      m := k;
    } else {
      var r := LeastOf(keys - {k});
      m := if k < r then k else r;
      forall j | j in keys ensures m <= j {
        if j != k { assert j in keys - {k}; }
      }
    }
  }

  function Least(keys: set<uint64>): (k: uint64)
    requires keys != {}
    ensures k in keys && forall j :: j in keys ==> k <= j
  {
    assert exists k :: k in keys && forall j :: j in keys ==> k <= j by { var m := LeastOf(keys); }
    var k :| k in keys && forall j :: j in keys ==> k <= j;
    k
  }

  predicate Increasing(ks: seq<nat>) {
    forall i, j :: 0 <= i < j < |ks| ==> ks[i] < ks[j]
  }

  /** The order in which a store walks its uint64 keys. */
  function Ascending(keys: set<uint64>): (ks: seq<uint64>)
    ensures |ks| == |keys| && Increasing(ks)
    ensures forall i :: 0 <= i < |ks| ==> ks[i] in keys
    ensures forall k :: k in keys ==> k in ks
    decreases |keys|
  {
    if keys == {} then []
    else
      var k := Least(keys);
      [k] + Ascending(keys - {k})
  }

  predicate NoDup<T(==)>(s: seq<T>) {
    forall i, j :: 0 <= i < j < |s| ==> s[i] != s[j]
  }

  function Elements<T>(s: seq<T>): set<T> {
    set x | x in s
  }

  lemma NoDupSnoc<T>(s: seq<T>, x: T)
    ensures NoDup(s + [x]) <==> NoDup(s) && x !in s
    ensures Elements(s + [x]) == Elements(s) + {x}
  {
    var t := s + [x];
    if NoDup(t) {
      forall i, j | 0 <= i < j < |s| ensures s[i] != s[j] { assert t[i] != t[j]; }
      forall i | 0 <= i < |s| ensures s[i] != x { assert t[i] != t[|s|]; }
    }
  }

  /** A sequence has no duplicates exactly when its set of elements is as large as it is long. */
  lemma {:induction false} NoDupCount<T>(s: seq<T>)
    ensures |Elements(s)| <= |s|
    ensures |Elements(s)| == |s| <==> NoDup(s)
    decreases |s|
  {
    if s != [] {
      var init, last := s[..|s| - 1], s[|s| - 1];
      assert init + [last] == s;
      NoDupCount(init);
      NoDupSnoc(init, last);
      if last in init {
        assert Elements(init) + {last} == Elements(init);
      }
    }
  }

  /** `m` maps `ks[i]` to `vs[i]` and nothing else. */
  ghost predicate MapOf<K, V>(m: map<K, V>, ks: seq<K>, vs: seq<V>) {
    && |ks| == |vs|
    && (forall i :: 0 <= i < |ks| ==> ks[i] in m && m[ks[i]] == vs[i])
    && (forall k :: k in m ==> k in ks)
  }

  lemma MapOfSnoc<K, V>(m: map<K, V>, ks: seq<K>, vs: seq<V>, k: K, v: V)
    requires MapOf(m, ks, vs) && k !in ks
    ensures MapOf(m[k := v], ks + [k], vs + [v])
  {
  }

  lemma IncreasingNoDup(ks: seq<nat>)
    requires Increasing(ks)
    ensures NoDup(ks)
  {
  }

  /** The running maximum of a loop over ids, 0 for none. */
  function Max(ks: seq<uint64>): uint64
    decreases |ks|
  {
    if ks == [] then 0
    else
      var m, last := Max(ks[..|ks| - 1]), ks[|ks| - 1];
      if last > m then last else m
  }

  lemma MaxSnoc(ks: seq<uint64>, k: uint64)
    ensures Max(ks + [k]) == if k > Max(ks) then k else Max(ks)
  {
    assert (ks + [k])[..|ks|] == ks;
  }

  lemma {:induction false} MaxIsMax(ks: seq<uint64>)
    ensures forall k :: k in ks ==> k <= Max(ks)
    ensures Max(ks) == 0 || Max(ks) in ks
    decreases |ks|
  {
    if ks != [] {
      MaxIsMax(ks[..|ks| - 1]);
      assert ks == ks[..|ks| - 1] + [ks[|ks| - 1]];
    }
  }

  lemma SameMax(a: seq<uint64>, b: seq<uint64>)
    requires Elements(a) == Elements(b)
    ensures Max(a) == Max(b)
  {
    hide Max;
    MaxIsMax(a);
    MaxIsMax(b);
    assert forall k :: k in a <==> k in Elements(a);
    assert forall k :: k in b <==> k in Elements(b);
    if a == [] { assert b == [] || b[0] in b; }
    if b == [] { assert a == [] || a[0] in a; }
  }
}
