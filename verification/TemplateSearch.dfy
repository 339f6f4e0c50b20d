/**
 * Searching the built-in templates: a name matches when the longest common
 * subsequence of query and name is as long as the query.
 */
module TemplateSearch {
  // ------------------------------------------------------------------ subsequences

  /** `idx` says where the characters of `s` stand in `t`, from left to right. */
  predicate Embeds(s: string, t: string, idx: seq<nat>) {
    && |idx| == |s|
    && (forall i :: 0 <= i < |s| ==> idx[i] < |t| && t[idx[i]] == s[i])
    && (forall i, j :: 0 <= i < j < |s| ==> idx[i] < idx[j])
  }

  ghost predicate Subsequence(s: string, t: string) {
    exists idx :: Embeds(s, t, idx)
  }

  function Max(a: nat, b: nat): nat {
    if a < b then b else a
  }

  /** The recurrence the table is filled by. */
  function Lcs(a: string, b: string): (n: nat)
    ensures n <= |a| && n <= |b|
    decreases |a| + |b|
  {
    if a == "" || b == "" then 0
    else if a[|a| - 1] == b[|b| - 1] then Lcs(a[..|a| - 1], b[..|b| - 1]) + 1
    else Max(Lcs(a[..|a| - 1], b), Lcs(a, b[..|b| - 1]))
  }

  /** There is a common subsequence of that length. */
  lemma {:induction false} LcsIsReached(a: string, b: string) returns (s: string, ia: seq<nat>, ib: seq<nat>)
    ensures |s| == Lcs(a, b) && Embeds(s, a, ia) && Embeds(s, b, ib)
    decreases |a| + |b|
  {
    if a == "" || b == "" {
      s, ia, ib := "", [], [];
    } else if a[|a| - 1] == b[|b| - 1] {
      s, ia, ib := LcsIsReached(a[..|a| - 1], b[..|b| - 1]);
      s, ia, ib := s + [a[|a| - 1]], ia + [|a| - 1], ib + [|b| - 1];
    } else if Lcs(a[..|a| - 1], b) >= Lcs(a, b[..|b| - 1]) {
      s, ia, ib := LcsIsReached(a[..|a| - 1], b);
    } else {
      s, ia, ib := LcsIsReached(a, b[..|b| - 1]);
    }
  }

  /** And none is longer. */
  lemma {:induction false} LcsIsLongest(s: string, a: string, b: string, ia: seq<nat>, ib: seq<nat>)
    requires Embeds(s, a, ia) && Embeds(s, b, ib)
    ensures |s| <= Lcs(a, b)
    decreases |a| + |b|
  {
    if s != "" {
      var last := |s| - 1;
      assert ia[last] < |a| && ib[last] < |b|;
      assert forall i :: 0 <= i < last ==> ia[i] < ia[last] && ib[i] < ib[last];
      if a[|a| - 1] == b[|b| - 1] {
        LcsIsLongest(s[..last], a[..|a| - 1], b[..|b| - 1], ia[..last], ib[..last]);
      } else if ia[last] < |a| - 1 {
        LcsIsLongest(s, a[..|a| - 1], b, ia, ib);
      } else {
        LcsIsLongest(s, a, b[..|b| - 1], ia, ib);
      }
    }
  }

  /** A subsequence as long as the whole is the whole. */
  lemma FullEmbedding(s: string, t: string, idx: seq<nat>, i: nat)
    requires Embeds(s, t, idx) && i < |s|
    ensures i <= idx[i] <= |t| - |s| + i
  {
    LowEnd(s, t, idx, i);
    HighEnd(s, t, idx, i);
  }

  lemma {:induction false} LowEnd(s: string, t: string, idx: seq<nat>, i: nat)
    requires Embeds(s, t, idx) && i < |s|
    ensures i <= idx[i]
  {
    if i > 0 {
      LowEnd(s, t, idx, i - 1);
    }
  }

  lemma {:induction false} HighEnd(s: string, t: string, idx: seq<nat>, i: nat)
    requires Embeds(s, t, idx) && i < |s|
    ensures idx[i] <= |t| - |s| + i
    decreases |s| - i
  {
    if i + 1 < |s| {
      HighEnd(s, t, idx, i + 1);
    }
  }

  /** The test the search makes is that the query is a subsequence of the name. */
  lemma LcsIsWholeQueryIff(query: string, name: string)
    ensures Lcs(query, name) == |query| <==> Subsequence(query, name)
  {
    var s, iq, iname := LcsIsReached(query, name);
    if |s| == |query| {
      forall i | 0 <= i < |s|
        ensures s[i] == query[i]
      {
        FullEmbedding(s, query, iq, i);
      }
      assert s == query;
    }
    if Subsequence(query, name) {
      var idx :| Embeds(query, name, idx);
      var identity: seq<nat> := seq(|query|, i => i);
      LcsIsLongest(query, query, name, identity, idx);
    }
  }

  // -------------------------------------------------------------------- the program

  lemma LcsOfPrefixes(a: string, b: string, i: nat, j: nat)
    requires 0 < i <= |a| && 0 < j <= |b|
    ensures Lcs(a[..i], b[..j]) == if a[i - 1] == b[j - 1] then Lcs(a[..i - 1], b[..j - 1]) + 1
                                   else Max(Lcs(a[..i - 1], b[..j]), Lcs(a[..i], b[..j - 1]))
  {
    assert a[..i][..i - 1] == a[..i - 1] && b[..j][..j - 1] == b[..j - 1];
  }

  method LcsLength(text1: string, text2: string) returns (n: nat)
    ensures n == Lcs(text1, text2)
  {
    var dp := new nat[|text1| + 1, |text2| + 1]((i, j) => 0);
    for i := 1 to |text1| + 1
      invariant forall x, y :: 0 <= x < i && 0 <= y <= |text2| ==> dp[x, y] == Lcs(text1[..x], text2[..y])
      invariant forall x :: i <= x <= |text1| ==> dp[x, 0] == 0
    {
      for j := 1 to |text2| + 1
        invariant forall x, y :: 0 <= x < i && 0 <= y <= |text2| ==> dp[x, y] == Lcs(text1[..x], text2[..y])
        invariant forall y :: 0 <= y < j ==> dp[i, y] == Lcs(text1[..i], text2[..y])
        invariant forall x :: i < x <= |text1| ==> dp[x, 0] == 0
      {
        LcsOfPrefixes(text1, text2, i, j);
        if text1[i - 1] == text2[j - 1] {
          dp[i, j] := dp[i - 1, j - 1] + 1;
        } else {
          dp[i, j] := Max(dp[i - 1, j], dp[i, j - 1]);
        }
      }
    }
    assert text1[..|text1|] == text1 && text2[..|text2|] == text2;
    n := dp[|text1|, |text2|];
  }

  /** A template; only its name takes part in the search. */
  datatype Template = Template(name: string, body: string)

  /** Categories in order, each with its templates in order. */
  type Library = seq<seq<Template>>

  /** `toLowerCase`, for every script; what it does to a letter plays no part here. */
  type LowerCase = string -> string

  ghost predicate Matches(lower: LowerCase, query: string, t: Template) {
    Subsequence(lower(query), lower(t.name))
  }

  ghost function Matching(lower: LowerCase, query: string, ts: seq<Template>): seq<Template> {
    if ts == [] then []
    else
      var before := Matching(lower, query, ts[..|ts| - 1]);
      var last := ts[|ts| - 1];
      if Matches(lower, query, last) then before + [last] else before
  }

  function Flat(library: Library): seq<Template> {
    if library == [] then [] else Flat(library[..|library| - 1]) + library[|library| - 1]
  }

  lemma {:induction false} MatchingConcat(lower: LowerCase, query: string, a: seq<Template>, b: seq<Template>)
    ensures Matching(lower, query, a + b) == Matching(lower, query, a) + Matching(lower, query, b)
  {
    if b == [] {
      assert a + b == a;
    } else {
      var front := b[..|b| - 1];
      assert (a + b)[..|a + b| - 1] == a + front;
      MatchingConcat(lower, query, a, front);
    }
  }

  /** Each template is found or not by itself, in its place; categories follow one another. */
  lemma FoundInPlace(lower: LowerCase, query: string, a: seq<Template>, t: Template, b: seq<Template>, library: Library)
    ensures Matching(lower, query, a + [t] + b)
            == Matching(lower, query, a) + (if Subsequence(lower(query), lower(t.name)) then [t] else []) + Matching(lower, query, b)
    ensures Flat(library + [b]) == Flat(library) + b && Flat([]) == []
  {
    MatchingConcat(lower, query, a + [t], b);
    MatchingConcat(lower, query, a, [t]);
    assert (library + [b])[..|library|] == library;
  }

  /** The search returns exactly the matching templates, in order. */
  method Search(lower: LowerCase, library: Library, query: string) returns (candidates: seq<Template>)
    ensures candidates == Matching(lower, query, Flat(library))
  {
    candidates := [];
    var lowered := lower(query);
    for c := 0 to |library|
      invariant candidates == Matching(lower, query, Flat(library[..c]))
    {
      var ts := library[c];
      ghost var before := Flat(library[..c]);
      for k := 0 to |ts|
        invariant candidates == Matching(lower, query, before) + Matching(lower, query, ts[..k])
      {
        assert ts[..k + 1][..k] == ts[..k];
        var n := LcsLength(lowered, lower(ts[k].name));
        LcsIsWholeQueryIff(lowered, lower(ts[k].name));
        if n == |lowered| {
          candidates := candidates + [ts[k]];
        }
      }
      assert ts[..|ts|] == ts;
      MatchingConcat(lower, query, before, ts);
      assert library[..c + 1][..c] == library[..c];
    }
    assert library[..|library|] == library;
  }

  /** A template is found exactly when it is in the library and its name matches. */
  lemma {:induction false} MatchingMeans(lower: LowerCase, query: string, ts: seq<Template>, t: Template)
    ensures t in Matching(lower, query, ts) <==> t in ts && Matches(lower, query, t)
  {
    if ts != [] {
      var front := ts[..|ts| - 1];
      assert ts == front + [ts[|ts| - 1]];
      MatchingMeans(lower, query, front, t);
    }
  }
}
