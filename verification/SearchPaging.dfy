/**
 * Paging of search results. Every page is a query of its own, ordered by score alone,
 * and a request's cursor is never read.
 */
module SearchPaging {
  import opened Common

  /** A selected row with its score; queries without a full-text match score every row alike. */
  datatype Hit = Hit(id: nat, score: int)

  /** A cursor stands for the number its string spells. */
  datatype Pagination = Pagination(limit: Option<nat>, skip: Option<nat>, cursor: Option<nat>)

  datatype Page = Page(nodes: seq<Hit>, hasMore: bool, nextCursor: Option<nat>)

  const DEFAULT_LIMIT := 20

  function Min(a: nat, b: nat): nat {
    if a < b then a else b
  }

  /** One more row than the page is fetched, only to see whether there is one. */
  function Respond(ordered: seq<Hit>, p: Pagination): Page {
    var limit := if p.limit.Some? then p.limit.value else DEFAULT_LIMIT;
    var skip := if p.skip.Some? then p.skip.value else 0;
    var from := Min(skip, |ordered|);
    var results := ordered[from..Min(from + limit + 1, |ordered|)];
    var hasMore := |results| > limit;
    Page(results[..Min(limit, |results|)], hasMore, if hasMore then Some(skip + limit) else None)
  }

  /** Without a limit a page has twenty rows, without a skip it is the first, and the cursor does not matter. */
  lemma DefaultPage(ordered: seq<Hit>, p: Pagination)
    ensures p.limit.None? ==> Respond(ordered, p) == Respond(ordered, p.(limit := Some(20)))
    ensures p.skip.None? ==> Respond(ordered, p) == Respond(ordered, p.(skip := Some(0)))
    ensures Respond(ordered, p) == Respond(ordered, p.(cursor := None))
  {
  }

  /** What a query may return for the selected rows: all of them, the best score first, ties in any order. */
  ghost predicate IsOrder(ordered: seq<Hit>, selected: set<Hit>) {
    && |ordered| == |selected| && (forall h :: h in ordered <==> h in selected)
    && (forall i, j :: 0 <= i < j < |ordered| ==> ordered[i].score >= ordered[j].score)
  }

  /** `orders[k]` is what the query of the `k`-th request returns. */
  type Orders = seq<seq<Hit>>

  /** Legal results of as many queries as a client can need. */
  ghost predicate AreOrders(orders: Orders, selected: set<Hit>) {
    |orders| > |selected| && forall k :: 0 <= k < |orders| ==> IsOrder(orders[k], selected)
  }

  // ------------------------------------------------------- following by skip

  ghost predicate Sized(orders: Orders, n: nat) {
    |orders| > n && forall k :: 0 <= k < |orders| ==> |orders[k]| == n
  }

  /** The pages of a list cut at multiples of the limit, page by page from its own query's list. */
  ghost function FollowBySkip(orders: Orders, n: nat, limit: nat, skip: nat, k: nat): seq<Hit>
    requires Sized(orders, n) && limit > 0 && k <= skip <= n
    decreases n - skip
  {
    if skip + limit < n then orders[k][skip..skip + limit] + FollowBySkip(orders, n, limit, skip + limit, k + 1)
    else orders[k][skip..]
  }

  lemma PageIs(ordered: seq<Hit>, limit: nat, skip: nat)
    requires skip <= |ordered|
    ensures var more := skip + limit < |ordered|;
            Respond(ordered, Pagination(Some(limit), Some(skip), None))
            == Page(if more then ordered[skip..skip + limit] else ordered[skip..], more, if more then Some(skip + limit) else None)
  {
  }

  /** They are the rows a client sees that sends each `nextCursor` back as the next `skip`. */
  lemma FollowsResponses(orders: Orders, n: nat, limit: nat, skip: nat, k: nat)
    requires Sized(orders, n) && limit > 0 && k <= skip <= n
    ensures var page := Respond(orders[k], Pagination(Some(limit), Some(skip), None));
            FollowBySkip(orders, n, limit, skip, k)
            == page.nodes + if page.nextCursor.None? then []
                            else FollowBySkip(orders, n, limit, page.nextCursor.value, k + 1)
  {
    PageIs(orders[k], limit, skip);
  }

  /** With one order for all pages, the pages are that order cut up. */
  lemma {:induction false} SameOrderCovers(orders: Orders, ordered: seq<Hit>, limit: nat, skip: nat, k: nat)
    requires limit > 0 && k <= skip <= |ordered| && |orders| > |ordered| && forall i :: 0 <= i < |orders| ==> orders[i] == ordered
    ensures FollowBySkip(orders, |ordered|, limit, skip, k) == ordered[skip..]
    decreases |ordered| - skip
  {
    if skip + limit < |ordered| {
      SameOrderCovers(orders, ordered, limit, skip + limit, k + 1);
      CutApart(ordered, skip, skip + limit);
    }
  }

  lemma CutApart(s: seq<Hit>, i: nat, j: nat)
    requires i <= j <= |s|
    ensures s[i..] == s[i..j] + s[j..]
  {
  }

  predicate TieAt(ordered: seq<Hit>, b: nat)
    requires 0 < b < |ordered|
  {
    ordered[b - 1].score == ordered[b].score
  }

  /** A page can end before position `b`, a multiple of the limit. */
  predicate PageEnd(b: nat, limit: nat)
    requires limit > 0
  {
    b == 0 || (b >= limit && PageEnd(b - limit, limit))
  }

  /** The number of pages before position `b`. */
  function PagesBefore(b: nat, limit: nat): nat
    requires limit > 0 && PageEnd(b, limit)
  {
    if b == 0 then 0 else PagesBefore(b - limit, limit) + 1
  }

  /** No page ends between two rows of the same score. */
  predicate NoTieAcrossPages(ordered: seq<Hit>, limit: nat)
    requires limit > 0
  {
    forall b :: 0 < b < |ordered| && PageEnd(b, limit) ==> !TieAt(ordered, b)
  }

  function Rows(s: seq<Hit>): set<Hit> {
    set h | h in s
  }

  lemma {:induction false} RowsSize(s: seq<Hit>)
    ensures |Rows(s)| <= |s|
    ensures |Rows(s)| == |s| ==> forall i, j :: 0 <= i < j < |s| ==> s[i] != s[j]
  {
    if s != [] {
      var front, last := s[..|s| - 1], s[|s| - 1];
      RowsSize(front);
      assert s == front + [last];
      assert Rows(s) == Rows(front) + {last};
      if |Rows(s)| == |s| {
        assert last !in front;
      }
    }
  }

  lemma OrderHasNoRepeats(ordered: seq<Hit>, selected: set<Hit>)
    requires IsOrder(ordered, selected)
    ensures forall i, j :: 0 <= i < j < |ordered| ==> ordered[i] != ordered[j]
  {
    assert Rows(ordered) == selected;
    RowsSize(ordered);
  }

  lemma {:induction false} DistinctRows(s: seq<Hit>)
    requires forall i, j :: 0 <= i < j < |s| ==> s[i] != s[j]
    ensures |Rows(s)| == |s|
  {
    if s != [] {
      var front, last := s[..|s| - 1], s[|s| - 1];
      DistinctRows(front);
      assert s == front + [last];
      assert Rows(s) == Rows(front) + {last};
    }
  }

  lemma {:induction false} SubsetEqual(a: set<Hit>, b: set<Hit>)
    requires a <= b && |a| == |b|
    ensures a == b
  {
    if a != b {
      var x :| x in b && x !in a;
      SubsetSize(a, b - {x});
    }
  }

  /** Whatever scores better than a row stands before it. */
  lemma BetterRowsFirst(p: seq<Hit>, selected: set<Hit>, score: int, i: nat)
    requires IsOrder(p, selected) && i < |p| && p[i].score < score
    ensures forall h <- selected | h.score >= score :: h in p[..i]
  {
    forall h | h in selected && h.score >= score
      ensures h in p[..i]
    {
      assert h in p;
      var n :| 0 <= n < |p| && p[n] == h;
      assert n < i;
      assert p[..i][n] == h;
    }
  }

  /** Where the score falls, every order has the same rows before and behind. */
  lemma PrefixIsFixed(o: seq<Hit>, p: seq<Hit>, selected: set<Hit>, b: nat)
    requires IsOrder(o, selected) && IsOrder(p, selected) && b <= |o|
    requires 0 < b < |o| ==> !TieAt(o, b)
    ensures Rows(o[..b]) == Rows(p[..b])
  {
    if 0 < b < |o| {
      var best := set h | h in selected && h.score >= o[b - 1].score;
      CutAtScore(o, selected, b);
      OrderHasNoRepeats(o, selected);
      DistinctRows(o[..b]);
      forall i | 0 <= i < b
        ensures p[i] in best
      {
        assert p[i] in selected;
        if p[i].score < o[b - 1].score {
          BetterRowsFirst(p, selected, o[b - 1].score, i);
          SubsetSize(best, Rows(p[..i]));
          RowsSize(p[..i]);
          assert false;
        }
      }
      OrderHasNoRepeats(p, selected);
      DistinctRows(p[..b]);
      SubsetEqual(Rows(p[..b]), best);
    } else if b == |o| {
      assert o[..b] == o && p[..b] == p;
    }
  }

  lemma CutAtScore(o: seq<Hit>, selected: set<Hit>, b: nat)
    requires IsOrder(o, selected) && 0 < b < |o| && !TieAt(o, b)
    ensures Rows(o[..b]) == set h | h in selected && h.score >= o[b - 1].score
  {
    assert o[b - 1].score > o[b].score;
    BetterRowsFirst(o, selected, o[b - 1].score, b);
  }

  predicate SeesAll(list: seq<Hit>, selected: set<Hit>) {
    |list| == |selected| && Rows(list) == selected
  }

  lemma PageJoins(o: seq<Hit>, p: seq<Hit>, rest: seq<Hit>, skip: nat, next: nat)
    requires SamePrefix(p, o, skip) && SamePrefix(p, o, next) && skip <= next && Rows(o[..next]) + Rows(rest) == Rows(o)
    ensures Rows(o[..skip]) + Rows(p[skip..next] + rest) == Rows(o)
  {
    assert p[..next] == p[..skip] + p[skip..next];
    RowsOfBoth(p[..skip], p[skip..next]);
    RowsOfBoth(p[skip..next], rest);
  }

  lemma RowsOfBoth(a: seq<Hit>, b: seq<Hit>)
    ensures Rows(a + b) == Rows(a) + Rows(b)
  {
  }

  ghost predicate SamePrefix(p: seq<Hit>, o: seq<Hit>, b: nat) {
    b <= |o| == |p| && Rows(o[..b]) == Rows(p[..b])
  }

  ghost predicate CutAlike(orders: Orders, o: seq<Hit>, b: nat) {
    forall k :: 0 <= k < |orders| ==> SamePrefix(orders[k], o, b)
  }

  /** Wherever a page or the list ends, every order has shown the same rows. */
  ghost predicate PagesCutAlike(orders: Orders, o: seq<Hit>, limit: nat)
    requires limit > 0
  {
    CutAlike(orders, o, |o|) && forall b :: 0 <= b < |o| && PageEnd(b, limit) ==> CutAlike(orders, o, b)
  }

  lemma OrdersCutAlike(orders: Orders, selected: set<Hit>, o: seq<Hit>, b: nat)
    requires AreOrders(orders, selected) && IsOrder(o, selected) && b <= |o| && (0 < b < |o| ==> !TieAt(o, b))
    ensures CutAlike(orders, o, b)
  {
    forall k | 0 <= k < |orders|
      ensures SamePrefix(orders[k], o, b)
    {
      PrefixIsFixed(o, orders[k], selected, b);
    }
  }

  lemma {:induction false} PagesComplete(orders: Orders, o: seq<Hit>, limit: nat, skip: nat, k: nat)
    requires limit > 0 && PagesCutAlike(orders, o, limit) && Sized(orders, |o|)
    requires k <= skip <= |o| && (PageEnd(skip, limit) || skip == |o|)
    ensures |FollowBySkip(orders, |o|, limit, skip, k)| == |o| - skip
    ensures Rows(o[..skip]) + Rows(FollowBySkip(orders, |o|, limit, skip, k)) == Rows(o)
    decreases |o| - skip
  {
    assert CutAlike(orders, o, skip);
    if skip + limit < |o| {
      assert PageEnd(skip + limit, limit);
      assert CutAlike(orders, o, skip + limit);
      PagesComplete(orders, o, limit, skip + limit, k + 1);
      PageJoins(o, orders[k], FollowBySkip(orders, |o|, limit, skip + limit, k + 1), skip, skip + limit);
    } else {
      LastPage(orders[k], o, skip);
    }
  }

  lemma LastPage(p: seq<Hit>, o: seq<Hit>, skip: nat)
    requires SamePrefix(p, o, skip) && SamePrefix(p, o, |o|)
    ensures Rows(o[..skip]) + Rows(p[skip..]) == Rows(o)
  {
    assert p[skip..|o|] + [] == p[skip..] && o[..|o|] == o;
    PageJoins(o, p, [], skip, |o|);
  }

  /** The same order but for the two rows at a tie. */
  function Swapped(o: seq<Hit>, b: nat): seq<Hit>
    requires 0 < b < |o|
  {
    o[b - 1 := o[b]][b := o[b - 1]]
  }

  lemma SwappedIsOrder(o: seq<Hit>, selected: set<Hit>, b: nat)
    requires IsOrder(o, selected) && 0 < b < |o| && TieAt(o, b)
    ensures IsOrder(Swapped(o, b), selected)
  {
    var p := Swapped(o, b);
    assert p[b] == o[b - 1] && p[b - 1] == o[b];
    forall h
      ensures h in p <==> h in o
    {
      if h in o {
        var i :| 0 <= i < |o| && o[i] == h;
        assert p[if i == b then b - 1 else if i == b - 1 then b else i] == h;
      }
    }
  }

  /** Page `m` begins at `b`, seen from request `k` that begins at `skip`. */
  predicate OnTrack(b: nat, m: nat, limit: nat, skip: nat, k: nat)
    requires limit > 0
  {
    if skip <= b then PageEnd(b - skip, limit) && k + PagesBefore(b - skip, limit) == m else k > m
  }

  lemma TrackNext(b: nat, m: nat, limit: nat, skip: nat, k: nat)
    requires limit > 0 && OnTrack(b, m, limit, skip, k)
    ensures k == m <==> skip == b
    ensures skip < b ==> skip + limit <= b
    ensures OnTrack(b, m, limit, skip + limit, k + 1)
  {
    if skip < b {
      assert b - skip - limit == b - (skip + limit);
    }
  }

  /** Page `m` comes from the swapped order, every other page from the first one. */
  ghost predicate SwappedAt(orders: Orders, o: seq<Hit>, b: nat, m: nat)
    requires 0 < b < |o|
  {
    forall k :: 0 <= k < |orders| ==> orders[k] == if k == m then Swapped(o, b) else o
  }

  /** The row is at this place only. */
  ghost predicate Alone(o: seq<Hit>, b: nat)
    requires b < |o|
  {
    forall i :: 0 <= i < |o| && i != b ==> o[i] != o[b]
  }

  /** Neither side of the cut before page `m` shows the row: the other orders have it behind, this one before. */
  lemma PageHides(orders: Orders, o: seq<Hit>, limit: nat, b: nat, m: nat, skip: nat, k: nat)
    requires limit > 0 && 0 < b < |o| && k < |orders| && skip <= |o|
    requires Alone(o, b)
    requires SwappedAt(orders, o, b, m) && OnTrack(b, m, limit, skip, k)
    ensures |orders[k]| == |o| && o[b] !in orders[k][skip..Min(skip + limit, |o|)]
  {
    TrackNext(b, m, limit, skip, k);
    PageMisses(orders[k], o, b, skip, Min(skip + limit, |o|));
  }

  lemma {:induction false} SwapHides(orders: Orders, o: seq<Hit>, limit: nat, b: nat, m: nat, skip: nat, k: nat)
    requires limit > 0 && 0 < b < |o| && k <= skip <= |o| && Sized(orders, |o|)
    requires Alone(o, b)
    requires SwappedAt(orders, o, b, m) && OnTrack(b, m, limit, skip, k)
    ensures o[b] !in FollowBySkip(orders, |o|, limit, skip, k)
    decreases |o| - skip
  {
    PageHides(orders, o, limit, b, m, skip, k);
    if skip + limit < |o| {
      TrackNext(b, m, limit, skip, k);
      SwapHides(orders, o, limit, b, m, skip + limit, k + 1);
      MissesBoth(orders[k][skip..skip + limit], FollowBySkip(orders, |o|, limit, skip + limit, k + 1), o[b]);
    } else {
      assert orders[k][skip..|o|] == orders[k][skip..];
    }
  }

  lemma MissesBoth(page: seq<Hit>, rest: seq<Hit>, h: Hit)
    requires h !in page && h !in rest
    ensures h !in page + rest
  {
  }

  lemma PageMisses(p: seq<Hit>, o: seq<Hit>, b: nat, skip: nat, next: nat)
    requires 0 < b < |o| == |p| && skip <= next <= |o|
    requires Alone(o, b)
    requires (p == o && (next <= b || skip > b)) || (p == Swapped(o, b) && skip >= b)
    ensures o[b] !in p[skip..next] && (next == |o| ==> o[b] !in p[skip..])
  {
  }

  /** At a tie across pages, two legal orders show one row twice and another never. */
  lemma TieLosesRow(o: seq<Hit>, selected: set<Hit>, limit: nat, b: nat)
    requires IsOrder(o, selected) && limit > 0 && 0 < b < |o| && PageEnd(b, limit) && TieAt(o, b)
    ensures exists orders: Orders :: AreOrders(orders, selected) && !ShowsAll(orders, selected, limit)
  {
    var m := PagesBefore(b, limit);
    var orders: Orders := seq(|o| + 1, k => if k == m then Swapped(o, b) else o);
    SwappedIsOrder(o, selected, b);
    OrderHasNoRepeats(o, selected);
    SwapHides(orders, o, limit, b, m, 0, 0);
    assert o[b] in selected;
    assert AreOrders(orders, selected) && !ShowsAll(orders, selected, limit);
  }

  /** Following the skips shows every selected row, and none twice. */
  ghost predicate ShowsAll(orders: Orders, selected: set<Hit>, limit: nat)
    requires limit > 0
  {
    Sized(orders, |selected|) ==> SeesAll(FollowBySkip(orders, |selected|, limit, 0, 0), selected)
  }

  /**
   * Sending the cursor back as `skip` shows every selected row once, whatever order
   * each query gives to ties, exactly when no page ends between rows of one score.
   */
  lemma PagesCoverAllIff(selected: set<Hit>, o: seq<Hit>, limit: nat)
    requires IsOrder(o, selected) && limit > 0
    ensures (forall orders: Orders | AreOrders(orders, selected) :: ShowsAll(orders, selected, limit))
            <==> NoTieAcrossPages(o, limit)
  {
    if NoTieAcrossPages(o, limit) {
      forall orders: Orders | AreOrders(orders, selected)
        ensures ShowsAll(orders, selected, limit)
      {
        forall b | b == |o| || (0 <= b < |o| && PageEnd(b, limit))
          ensures CutAlike(orders, o, b)
        {
          OrdersCutAlike(orders, selected, o, b);
        }
        assert Rows(o) == selected && Rows(o[..0]) == {};
        PagesComplete(orders, o, limit, 0, 0);
      }
    } else {
      var b :| 0 < b < |o| && PageEnd(b, limit) && TieAt(o, b);
      TieLosesRow(o, selected, limit, b);
    }
  }

  /** Without a full-text match all scores are the same, so only a single page is safe. */
  lemma EqualScoresCoverIff(selected: set<Hit>, o: seq<Hit>, limit: nat)
    requires IsOrder(o, selected) && limit > 0 && forall h, g :: h in selected && g in selected ==> h.score == g.score
    ensures (forall orders: Orders | AreOrders(orders, selected) :: ShowsAll(orders, selected, limit))
            <==> |selected| <= limit
  {
    PagesCoverAllIff(selected, o, limit);
    if |selected| > limit {
      assert o[limit - 1] in selected && o[limit] in selected;
      assert PageEnd(0, limit) && PageEnd(limit, limit) && TieAt(o, limit);
    } else {
      assert forall b :: 0 < b < |o| ==> !PageEnd(b, limit);
    }
  }

  // ----------------------------------------------------- following by cursor

  /** The `k`-th response to a client that sends each `nextCursor` back as `cursor`. */
  function ByCursor(orders: Orders, p: Pagination, k: nat): Page
    requires k < |orders|
  {
    Respond(orders[k], if k == 0 then p else p.(cursor := ByCursor(orders, p, k - 1).nextCursor))
  }

  /**
   * Following the cursor gets the first rows again every time, and so comes to an end,
   * however many requests are made, exactly when the first page has no more.
   */
  lemma CursorEndsIff(orders: Orders, selected: set<Hit>, p: Pagination)
    requires AreOrders(orders, selected)
    ensures forall k: nat | k < |orders| :: ByCursor(orders, p, k) == Respond(orders[k], p)
    ensures (exists k: nat :: k < |orders| && !ByCursor(orders, p, k).hasMore) <==> !ByCursor(orders, p, 0).hasMore
  {
    forall k: nat | k < |orders|
      ensures ByCursor(orders, p, k) == Respond(orders[k], p) && ByCursor(orders, p, k).hasMore == ByCursor(orders, p, 0).hasMore
    {
      assert IsOrder(orders[k], selected) && IsOrder(orders[0], selected);
    }
  }

  /** With a limit of zero the cursor stays where it was, so a client following it never ends. */
  lemma ZeroLimitNeverEnds(ordered: seq<Hit>, skip: nat)
    ensures var page := Respond(ordered, Pagination(Some(0), Some(skip), None));
            page.nodes == [] && page.nextCursor == if skip < |ordered| then Some(skip) else None
  {
  }
}
