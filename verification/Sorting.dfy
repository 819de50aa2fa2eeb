/** The standard library's sort, as insertion sort under a total preorder. */
module Sorting {
  import opened Collections

  ghost predicate Order<T(!new)>(le: (T, T) -> bool) {
    (forall a, b :: le(a, b) || le(b, a)) && (forall a, b, c :: le(a, b) && le(b, c) ==> le(a, c))
  }

  function Insert<T>(c: T, s: seq<T>, le: (T, T) -> bool): seq<T> {
    if s == [] then [c] else if le(c, s[0]) then [c] + s else [s[0]] + Insert(c, s[1..], le)
  }

  function Sort<T>(s: seq<T>, le: (T, T) -> bool): seq<T> {
    if s == [] then [] else Insert(s[0], Sort(s[1..], le), le)
  }

  ghost predicate Sorted<T>(s: seq<T>, le: (T, T) -> bool) {
    forall i, j :: 0 <= i < j < |s| ==> le(s[i], s[j])
  }

  lemma {:induction false} InsertIs<T>(c: T, s: seq<T>, le: (T, T) -> bool)
    ensures multiset(Insert(c, s, le)) == multiset(s) + multiset{c}
    decreases s
  {
    assert s != [] ==> s == [s[0]] + s[1..];
    if s != [] && !le(c, s[0]) {
      InsertIs(c, s[1..], le);
    }
  }

  lemma {:induction false} InsertSorted<T(!new)>(c: T, s: seq<T>, le: (T, T) -> bool)
    requires Order(le) && Sorted(s, le)
    ensures Sorted(Insert(c, s, le), le)
    decreases s
  {
    if s != [] && !le(c, s[0]) {
      InsertSorted(c, s[1..], le);
      InsertIs(c, s[1..], le);
      var rest := Insert(c, s[1..], le);
      forall j | 0 <= j < |rest| ensures le(s[0], rest[j]) {
        assert rest[j] in multiset(s[1..]) + multiset{c};
      }
    }
  }

  /** A sorted permutation. */
  lemma {:induction false} SortIs<T(!new)>(s: seq<T>, le: (T, T) -> bool)
    requires Order(le)
    ensures Sorted(Sort(s, le), le) && multiset(Sort(s, le)) == multiset(s) && |Sort(s, le)| == |s|
    decreases s
  {
    if s != [] {
      SortIs(s[1..], le);
      InsertIs(s[0], Sort(s[1..], le), le);
      InsertSorted(s[0], Sort(s[1..], le), le);
      assert s == [s[0]] + s[1..];
      assert |multiset(Sort(s, le))| == |multiset(s)|;
    }
  }

  lemma Occurs<T>(s: seq<T>, t: seq<T>, i: nat) returns (j: nat)
    requires multiset(s) == multiset(t) && i < |s|
    ensures j < |t| && t[j] == s[i]
  {
    assert s[i] in multiset(t);
    j :| 0 <= j < |t| && t[j] == s[i];
  }

  lemma {:induction false} OnceEach<T>(s: seq<T>, c: T)
    requires Distinct(s)
    ensures multiset(s)[c] <= 1
    decreases s
  {
    if s != [] {
      OnceEach(s[1..], c);
      assert s == [s[0]] + s[1..];
      assert s[0] == c ==> c !in s[1..];
    }
  }

  lemma TwiceIn<T>(s: seq<T>, i: nat, j: nat)
    requires i < j < |s| && s[i] == s[j]
    ensures multiset(s)[s[i]] >= 2
  {
    var (c, a, b) := (s[i], s[..j], s[j..]);
    assert s == a + b;
    assert a[i] == c && c in multiset(a) && b[0] == c && c in multiset(b);
  }

  /** Permuting keeps elements distinct. */
  lemma DistinctKept<T>(s: seq<T>, t: seq<T>)
    requires multiset(s) == multiset(t) && Distinct(s)
    ensures Distinct(t)
  {
    forall i, j | 0 <= i < j < |t| ensures t[i] != t[j] {
      if t[i] == t[j] {
        OnceEach(s, t[i]);
        TwiceIn(t, i, j);
      }
    }
  }
}
