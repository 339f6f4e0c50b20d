/**
 * Choosing and deleting the entries of the shared page index that the ledger makes
 * dispensable.
 */
module IndexPurge {
  import opened Common
  import opened TagOrder

  type Id = string

  datatype Entry = Entry(id: Id, title: Option<string>, tags: seq<string>, trash: bool)

  datatype LedgerRow = LedgerRow(title: Option<string>, tagIds: seq<string>, trash: bool,
                                 titleRevision: nat, trashRevision: nat, tagsRevision: nat)

  /** A position of the index; its id may be unreadable. */
  datatype Page = Unreadable | Page(entry: Entry)

  datatype Field = TitleField | TrashField | TagsField

  datatype Judgement = Purgeable | NoLedgerRow | Risky(fields: seq<Field>)

  // ---------------------------------------------------------------------- one entry

  function Judge(entry: Entry, row: Option<LedgerRow>): Judgement {
    if row.None? then NoLedgerRow else JudgeFields(entry, row.value, SameTags(row.value.tagIds, entry.tags))
  }

  function JudgeFields(entry: Entry, m: LedgerRow, tagsAgree: bool): Judgement {
    var titleDiffers := entry.title.Some? && m.title != entry.title;
    var risky := FieldIf(TitleField, titleDiffers && m.titleRevision == 0)
                 + FieldIf(TrashField, m.trash != entry.trash && m.trashRevision == 0)
                 + FieldIf(TagsField, !tagsAgree && m.tagsRevision == 0);
    if risky != [] then Risky(risky) else Purgeable
  }

  function FieldIf(f: Field, b: bool): seq<Field> {
    if b then [f] else []
  }

  /** The ledger agrees with the entry on a field (an absent title agrees with any). */
  predicate Agrees(entry: Entry, m: LedgerRow, f: Field) {
    match f
    case TitleField => entry.title.None? || m.title == entry.title
    case TrashField => m.trash == entry.trash
    case TagsField => multiset(m.tagIds) == multiset(entry.tags)
  }

  predicate Owns(m: LedgerRow, f: Field) {
    match f
    case TitleField => m.titleRevision >= 1
    case TrashField => m.trashRevision >= 1
    case TagsField => m.tagsRevision >= 1
  }

  /** Removing the entry loses nothing: the ledger has a row that agrees on or owns every field. */
  ghost predicate Dispensable(entry: Entry, row: Option<LedgerRow>) {
    row.Some? && forall f: Field :: Safe(entry, row.value, f)
  }

  predicate Safe(entry: Entry, m: LedgerRow, f: Field) {
    Agrees(entry, m, f) || Owns(m, f)
  }

  /** An entry is purgeable exactly when removing it loses nothing, and else the fields at risk are named. */
  lemma JudgeIsExact(entry: Entry, row: Option<LedgerRow>)
    ensures Judge(entry, row) == Purgeable <==> Dispensable(entry, row)
    ensures Judge(entry, row).NoLedgerRow? <==> row.None?
    ensures Judge(entry, row).Risky? ==> forall f: Field :: f in Judge(entry, row).fields <==> !Safe(entry, row.value, f)
  {
    if row.Some? {
      SameTagsIsMultisetEquality(row.value.tagIds, entry.tags);
      JudgeFieldsIsExact(entry, row.value, multiset(row.value.tagIds) == multiset(entry.tags));
    }
  }

  lemma JudgeFieldsIsExact(entry: Entry, m: LedgerRow, tagsAgree: bool)
    requires tagsAgree == Agrees(entry, m, TagsField)
    ensures JudgeFields(entry, m, tagsAgree) == Purgeable <==> forall f: Field :: Safe(entry, m, f)
    ensures !JudgeFields(entry, m, tagsAgree).NoLedgerRow?
    ensures JudgeFields(entry, m, tagsAgree).Risky? ==>
              forall f: Field :: f in JudgeFields(entry, m, tagsAgree).fields <==> !Safe(entry, m, f)
  {
    RiskyFieldsAre(!Safe(entry, m, TitleField), !Safe(entry, m, TrashField), !Safe(entry, m, TagsField));
  }

  lemma RiskyFieldsAre(a: bool, b: bool, c: bool)
    ensures var risky := FieldIf(TitleField, a) + FieldIf(TrashField, b) + FieldIf(TagsField, c);
            && (risky == [] <==> !a && !b && !c)
            && forall f: Field :: f in risky <==> (f == TitleField && a) || (f == TrashField && b) || (f == TagsField && c)
  {
  }

  // --------------------------------------------------------------------- the index

  datatype Kept = Kept(index: nat, judgement: Option<Judgement>)

  predicate Rising(s: seq<nat>) {
    forall i, j :: 0 <= i < j < |s| ==> s[i] < s[j]
  }

  function RowOf(ledger: map<Id, LedgerRow>, id: Id): Option<LedgerRow> {
    if id in ledger then Some(ledger[id]) else None
  }

  ghost predicate Removable(page: Page, ledger: map<Id, LedgerRow>) {
    page.Page? && Dispensable(page.entry, RowOf(ledger, page.entry.id))
  }

  /** What is noted about a page: nothing when its id is unreadable. */
  function Verdict(page: Page, ledger: map<Id, LedgerRow>): Option<Judgement> {
    if page.Unreadable? then None else Some(Judge(page.entry, RowOf(ledger, page.entry.id)))
  }

  lemma VerdictIsExact(page: Page, ledger: map<Id, LedgerRow>)
    ensures Verdict(page, ledger) == Some(Purgeable) <==> Removable(page, ledger)
  {
    if page.Page? {
      JudgeIsExact(page.entry, RowOf(ledger, page.entry.id));
    }
  }

  /** The first `n` pages have been sorted into the positions to remove and the notes on the others. */
  ghost predicate SortedOut(pages: seq<Page>, ledger: map<Id, LedgerRow>, n: nat, removable: seq<nat>, kept: seq<Kept>) {
    && n <= |pages| && |removable| + |kept| == n && Rising(removable)
    && (forall x :: 0 <= x < |removable| ==> removable[x] < n && Verdict(pages[removable[x]], ledger) == Some(Purgeable))
    && (forall i {:trigger i in removable} :: 0 <= i < n && Verdict(pages[i], ledger) == Some(Purgeable) ==> i in removable)
    && (forall x :: 0 <= x < |kept| ==> kept[x].index < n && kept[x].judgement == Verdict(pages[kept[x].index], ledger) != Some(Purgeable))
    && (forall x, y :: 0 <= x < y < |kept| ==> kept[x].index < kept[y].index)
  }

  lemma SortOutNext(pages: seq<Page>, ledger: map<Id, LedgerRow>, n: nat, removable: seq<nat>, kept: seq<Kept>)
    requires SortedOut(pages, ledger, n, removable, kept) && n < |pages|
    ensures var verdict := Verdict(pages[n], ledger);
            if verdict == Some(Purgeable) then SortedOut(pages, ledger, n + 1, removable + [n], kept)
            else SortedOut(pages, ledger, n + 1, removable, kept + [Kept(n, verdict)])
  {
  }

  /** Exactly the removable positions, in order, and a note on each of the others, in order. */
  ghost predicate IsSelection(pages: seq<Page>, ledger: map<Id, LedgerRow>, removable: seq<nat>, kept: seq<Kept>) {
    && Rising(removable) && |removable| + |kept| == |pages|
    && (forall i: nat {:trigger i in removable} :: i in removable <==> i < |pages| && Removable(pages[i], ledger))
    && (forall k <- kept :: k.index < |pages| && !Removable(pages[k.index], ledger))
    && (forall k <- kept :: k.judgement == Verdict(pages[k.index], ledger))
    && (forall i, j :: 0 <= i < j < |kept| ==> kept[i].index < kept[j].index)
  }

  lemma SortedOutMeans(pages: seq<Page>, ledger: map<Id, LedgerRow>, removable: seq<nat>, kept: seq<Kept>)
    requires SortedOut(pages, ledger, |pages|, removable, kept)
    ensures IsSelection(pages, ledger, removable, kept)
  {
    forall i | 0 <= i < |pages|
      ensures Verdict(pages[i], ledger) == Some(Purgeable) <==> Removable(pages[i], ledger)
    {
      VerdictIsExact(pages[i], ledger);
    }
  }

  /** One page: removed, or noted with the reason it stays. */
  method SortOutPage(pages: seq<Page>, ledger: map<Id, LedgerRow>, i: nat, removable: seq<nat>, kept: seq<Kept>)
    returns (removable': seq<nat>, kept': seq<Kept>)
    requires i < |pages| && SortedOut(pages, ledger, i, removable, kept)
    ensures SortedOut(pages, ledger, i + 1, removable', kept')
  {
    SortOutNext(pages, ledger, i, removable, kept);
    var verdict := Verdict(pages[i], ledger);
    if verdict != Some(Purgeable) {
      return removable, kept + [Kept(i, verdict)];
    }
    return removable + [i], kept;
  }

  /** Chooses the positions to remove and notes every other one with its reason. */
  method SelectRemovablePages(pages: seq<Page>, ledger: map<Id, LedgerRow>)
    returns (removable: seq<nat>, kept: seq<Kept>)
    ensures IsSelection(pages, ledger, removable, kept)
  {
    removable, kept := [], [];
    for i := 0 to |pages|
      invariant SortedOut(pages, ledger, i, removable, kept)
    {
      removable, kept := SortOutPage(pages, ledger, i, removable, kept);
    }
    SortedOutMeans(pages, ledger, removable, kept);
  }

  /** The pages from position `i` on whose positions are not in `removed`. */
  function Without<T>(pages: seq<T>, removed: seq<nat>, i: nat): seq<T>
    requires i <= |pages|
    decreases |pages| - i
  {
    if i == |pages| then []
    else (if i in removed then [] else [pages[i]]) + Without(pages, removed, i + 1)
  }

  lemma {:induction false} WithoutSkips<T>(pages: seq<T>, removed: seq<nat>, i: nat, j: nat)
    requires i <= j <= |pages| && forall k :: i <= k < j ==> k !in removed
    ensures Without(pages, removed, i) == pages[i..j] + Without(pages, removed, j)
    decreases j - i
  {
    var left := Without(pages, removed, j);
    if i == j {
      assert pages[i..j] == [];
    } else {
      WithoutSkips(pages, removed, i + 1, j);
      assert i !in removed;
      assert pages[i..j] + left == [pages[i]] + (pages[i + 1..j] + left);
    }
  }

  lemma NoneBetween(positions: seq<nat>, k: nat, end: nat)
    requires Rising(positions) && k < |positions| && (k + 1 < |positions| ==> end == positions[k + 1])
    requires k + 1 == |positions| || positions[k] < end
    ensures forall x: nat | positions[k] < x && (x < end || k + 1 == |positions|) :: x !in positions
  {
  }

  /** Deletes positions one by one, from the back, so that the ones before stay put. */
  method DeleteBackToFront<T>(pages: seq<T>, removable: seq<nat>) returns (left: seq<T>)
    requires Rising(removable) && forall i <- removable :: i < |pages|
    ensures left == Without(pages, removable, 0)
    ensures |left| == |pages| - |removable|
  {
    left := pages;
    var k := |removable|;
    ghost var end: nat := |pages|;
    while k > 0
      invariant 0 <= k <= |removable|
      invariant end == if k == |removable| then |pages| else removable[k]
      invariant end <= |pages| && left == pages[..end] + Without(pages, removable, end)
      invariant |left| == |pages| - (|removable| - k)
    {
      k := k - 1;
      var i := removable[k];
      assert i in removable;
      NoneBetween(removable, k, end);
      WithoutSkips(pages, removable, i + 1, end);
      var tail := Without(pages, removable, end);
      assert left == pages[..i] + [pages[i]] + (pages[i + 1..end] + tail);
      left := left[..i] + left[i + 1..];
      assert left == pages[..i] + (pages[i + 1..end] + tail);
      end := i;
      assert Without(pages, removable, i) == Without(pages, removable, i + 1);
    }
    WithoutSkips(pages, removable, 0, end);
  }

  /** The whole selection and deletion: what stays is every entry that is needed, in order. */
  method PurgePages(pages: seq<Page>, ledger: map<Id, LedgerRow>) returns (left: seq<Page>, purged: nat)
    ensures left == Needed(pages, ledger) && |left| + purged == |pages|
  {
    var removable, kept := SelectRemovablePages(pages, ledger);
    left := DeleteBackToFront(pages, removable);
    purged := |removable|;
    NeededIsWithout(pages, ledger, removable, 0);
    assert pages[0..] == pages;
  }

  ghost function Needed(pages: seq<Page>, ledger: map<Id, LedgerRow>): seq<Page> {
    if pages == [] then []
    else (if Removable(pages[0], ledger) then [] else [pages[0]]) + Needed(pages[1..], ledger)
  }

  lemma {:induction false} NeededIsWithout(pages: seq<Page>, ledger: map<Id, LedgerRow>, removable: seq<nat>, i: nat)
    requires i <= |pages| && forall k: nat :: k in removable <==> k < |pages| && Removable(pages[k], ledger)
    ensures Without(pages, removable, i) == Needed(pages[i..], ledger)
    decreases |pages| - i
  {
    if i < |pages| {
      NeededIsWithout(pages, ledger, removable, i + 1);
      assert pages[i..][1..] == pages[i + 1..];
    }
  }

  /** Each entry stays or goes by itself, and those that stay keep their places. */
  lemma {:induction false} NeededInPlace(a: seq<Page>, b: seq<Page>, p: Page, ledger: map<Id, LedgerRow>)
    ensures Needed(a + b, ledger) == Needed(a, ledger) + Needed(b, ledger)
    ensures Needed([p], ledger) == if Removable(p, ledger) then [] else [p]
  {
    if a == [] {
      assert a + b == b;
    } else {
      assert (a + b)[1..] == a[1..] + b;
      NeededInPlace(a[1..], b, p, ledger);
    }
  }

  /** An entry with no ledger row, or differing from a row that does not own the field, is never removed. */
  lemma {:induction false} NeededStays(pages: seq<Page>, ledger: map<Id, LedgerRow>, p: Page)
    ensures p in Needed(pages, ledger) <==> p in pages && !Removable(p, ledger)
  {
    if pages != [] {
      NeededStays(pages[1..], ledger, p);
      assert pages == [pages[0]] + pages[1..];
    }
  }
}
