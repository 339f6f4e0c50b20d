/** Comparing tag lists without regard to their order, by sorting copies. */
module TagOrder {
  /** The order of strings by their characters, as a plain sort compares them. */
  predicate Le(a: string, b: string) {
    a == "" || (b != "" && (a[0] < b[0] || (a[0] == b[0] && Le(a[1..], b[1..]))))
  }

  lemma {:induction false} LeTotal(a: string, b: string)
    ensures Le(a, b) || Le(b, a)
    ensures Le(a, b) && Le(b, a) ==> a == b
  {
    if a != "" && b != "" && a[0] == b[0] {
      LeTotal(a[1..], b[1..]);
      assert a == [a[0]] + a[1..] && b == [b[0]] + b[1..];
    }
  }

  lemma {:induction false} LeTransitive(a: string, b: string, c: string)
    requires Le(a, b) && Le(b, c)
    ensures Le(a, c)
  {
    if a != "" && a[0] == b[0] == c[0] {
      LeTransitive(a[1..], b[1..], c[1..]);
    }
  }

  predicate Sorted(s: seq<string>) {
    forall i, j :: 0 <= i < j < |s| ==> Le(s[i], s[j])
  }

  function Insert(x: string, s: seq<string>): seq<string> {
    if s == [] then [x]
    else if Le(x, s[0]) then [x] + s
    else [s[0]] + Insert(x, s[1..])
  }

  function Sort(s: seq<string>): seq<string> {
    if s == [] then [] else Insert(s[0], Sort(s[1..]))
  }

  lemma SortedFront(x: string, s: seq<string>)
    requires Sorted(s) && forall y <- s :: Le(x, y)
    ensures Sorted([x] + s)
  {
  }

  lemma {:induction false} InsertKeepsElements(x: string, s: seq<string>)
    ensures multiset(Insert(x, s)) == multiset(s) + multiset{x}
  {
    if s != [] && !Le(x, s[0]) {
      InsertKeepsElements(x, s[1..]);
      assert s == [s[0]] + s[1..];
    }
  }

  lemma {:induction false} InsertKeepsSorted(x: string, s: seq<string>)
    requires Sorted(s)
    ensures Sorted(Insert(x, s))
  {
    if s == [] {
    } else if Le(x, s[0]) {
      forall i | 0 <= i < |s|
        ensures Le(x, s[i])
      {
        if i > 0 {
          LeTransitive(x, s[0], s[i]);
        }
      }
      SortedFront(x, s);
    } else {
      LeTotal(x, s[0]);
      var rest := Insert(x, s[1..]);
      InsertKeepsSorted(x, s[1..]);
      InsertKeepsElements(x, s[1..]);
      forall y | y in rest
        ensures Le(s[0], y)
      {
        assert y in multiset(rest);
        assert y == x || y in s[1..];
      }
      SortedFront(s[0], rest);
    }
  }

  lemma {:induction false} SortMeans(s: seq<string>)
    ensures Sorted(Sort(s)) && multiset(Sort(s)) == multiset(s)
  {
    if s != [] {
      SortMeans(s[1..]);
      InsertKeepsElements(s[0], Sort(s[1..]));
      InsertKeepsSorted(s[0], Sort(s[1..]));
      assert s == [s[0]] + s[1..];
    }
  }

  lemma FirstIsLeast(s: seq<string>, x: string)
    requires Sorted(s) && x in s
    ensures Le(s[0], x)
  {
    LeTotal(x, x);
    var i :| 0 <= i < |s| && s[i] == x;
    assert i > 0 ==> Le(s[0], s[i]);
  }

  lemma TailHas(s: seq<string>)
    requires s != []
    ensures multiset(s[1..]) == multiset(s) - multiset{s[0]}
  {
    assert s == [s[0]] + s[1..];
  }

  /** There is only one sorted list of given elements. */
  lemma {:induction false} SortedIsUnique(a: seq<string>, b: seq<string>)
    requires Sorted(a) && Sorted(b) && multiset(a) == multiset(b)
    ensures a == b
  {
    assert |multiset(a)| == |a| && |multiset(b)| == |b|;
    if a != [] {
      assert a[0] in multiset(b) && b[0] in multiset(a);
      FirstIsLeast(a, b[0]);
      FirstIsLeast(b, a[0]);
      LeTotal(a[0], b[0]);
      TailHas(a);
      TailHas(b);
      SortedIsUnique(a[1..], b[1..]);
      assert a == [a[0]] + a[1..] && b == [b[0]] + b[1..];
    }
  }

  predicate SameTags(a: seq<string>, b: seq<string>) {
    |a| == |b| && forall i :: 0 <= i < |Sort(a)| && i < |Sort(b)| ==> Sort(a)[i] == Sort(b)[i]
  }

  /** Tag lists count as the same exactly when they hold the same tags equally often. */
  lemma SameTagsIsMultisetEquality(a: seq<string>, b: seq<string>)
    ensures SameTags(a, b) <==> multiset(a) == multiset(b)
  {
    SortMeans(a);
    SortMeans(b);
    assert |Sort(a)| == |multiset(Sort(a))| == |a|;
    assert |Sort(b)| == |multiset(Sort(b))| == |b|;
    if SameTags(a, b) {
      assert Sort(a) == Sort(b);
    }
    if multiset(a) == multiset(b) {
      assert |multiset(a)| == |a| && |multiset(b)| == |b|;
      SortedIsUnique(Sort(a), Sort(b));
    }
  }
}
