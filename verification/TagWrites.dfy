/**
 * Concurrent tag changes on one ledger row: read, compute, compare-and-set on the
 * tag revision, and try again a bounded number of times.
 */
module TagWrites {
  type Tag = string

  datatype Change = Change(add: seq<Tag>, remove: seq<Tag>)

  // ------------------------------------------------------------- one tag change

  /** The tags that are not removed, in order. */
  function Kept(tags: seq<Tag>, remove: seq<Tag>): seq<Tag> {
    if tags == [] then []
    else
      var rest := Kept(tags[..|tags| - 1], remove);
      var last := tags[|tags| - 1];
      if last in remove then rest else rest + [last]
  }

  /** Appends the added tags that are neither removed nor there already. */
  function Extended(tags: seq<Tag>, add: seq<Tag>, remove: seq<Tag>): seq<Tag> {
    if add == [] then tags
    else
      var before := Extended(tags, add[..|add| - 1], remove);
      var last := add[|add| - 1];
      if last in remove || last in before then before else before + [last]
  }

  function Apply(tags: seq<Tag>, c: Change): seq<Tag> {
    Extended(Kept(tags, c.remove), c.add, c.remove)
  }

  function TagSet(tags: seq<Tag>): set<Tag> {
    set t | t in tags
  }

  predicate NoDuplicates(tags: seq<Tag>) {
    forall i, j :: 0 <= i < j < |tags| ==> tags[i] != tags[j]
  }

  /** The same computation with the loops of the program. */
  method NextTags(tags: seq<Tag>, c: Change) returns (next: seq<Tag>)
    ensures next == Apply(tags, c)
  {
    next := [];
    for i := 0 to |tags|
      invariant next == Kept(tags[..i], c.remove)
    {
      assert tags[..i + 1][..i] == tags[..i];
      if tags[i] !in c.remove {
        next := next + [tags[i]];
      }
    }
    assert tags[..|tags|] == tags;
    ghost var kept := next;
    for i := 0 to |c.add|
      invariant next == Extended(kept, c.add[..i], c.remove)
    {
      assert c.add[..i + 1][..i] == c.add[..i];
      if c.add[i] !in c.remove && c.add[i] !in next {
        next := next + [c.add[i]];
      }
    }
    assert c.add[..|c.add|] == c.add;
  }

  lemma {:induction false} KeptMeans(tags: seq<Tag>, remove: seq<Tag>)
    ensures TagSet(Kept(tags, remove)) == TagSet(tags) - TagSet(remove)
    ensures NoDuplicates(tags) ==> NoDuplicates(Kept(tags, remove))
  {
    if tags != [] {
      var front, last := tags[..|tags| - 1], tags[|tags| - 1];
      KeptMeans(front, remove);
      assert tags == front + [last];
      assert forall t :: t in Kept(front, remove) <==> t in TagSet(Kept(front, remove));
      if NoDuplicates(tags) {
        assert NoDuplicates(front);
        assert last !in front;
        assert last !in TagSet(Kept(front, remove));
        assert last !in Kept(front, remove);
      }
    }
  }

  lemma {:induction false} ExtendedMeans(tags: seq<Tag>, add: seq<Tag>, remove: seq<Tag>)
    ensures TagSet(Extended(tags, add, remove)) == TagSet(tags) + (TagSet(add) - TagSet(remove))
    ensures NoDuplicates(tags) ==> NoDuplicates(Extended(tags, add, remove))
    ensures tags <= Extended(tags, add, remove)
  {
    if add != [] {
      var front, last := add[..|add| - 1], add[|add| - 1];
      ExtendedMeans(tags, front, remove);
      assert add == front + [last];
      assert forall t :: t in Extended(tags, front, remove) <==> t in TagSet(Extended(tags, front, remove));
    }
  }

  /** A change removes, then adds what it does not also remove, and introduces no duplicate. */
  lemma ApplyMeans(tags: seq<Tag>, c: Change)
    ensures TagSet(Apply(tags, c)) == (TagSet(tags) - TagSet(c.remove)) + (TagSet(c.add) - TagSet(c.remove))
    ensures NoDuplicates(tags) ==> NoDuplicates(Apply(tags, c))
  {
    KeptMeans(tags, c.remove);
    ExtendedMeans(Kept(tags, c.remove), c.add, c.remove);
  }

  /** These are positions below `n`, in order. */
  ghost predicate Rising(at: seq<nat>, n: nat) {
    (forall i, j :: 0 <= i < j < |at| ==> at[i] < at[j]) && forall i :: 0 <= i < |at| ==> at[i] < n
  }

  /** What is kept are the tags that are not removed, every one of them, in their order. */
  lemma {:induction false} KeptInOrder(tags: seq<Tag>, remove: seq<Tag>) returns (at: seq<nat>)
    ensures Rising(at, |tags|) && |Kept(tags, remove)| == |at|
    ensures forall i :: 0 <= i < |at| ==> Kept(tags, remove)[i] == tags[at[i]]
    ensures forall k :: 0 <= k < |tags| ==> (k in at <==> tags[k] !in remove)
  {
    at := [];
    if tags != [] {
      var n := |tags| - 1;
      var before := KeptInOrder(tags[..n], remove);
      at := before + if tags[n] in remove then [] else [n];
      assert forall k :: 0 <= k < n ==> tags[..n][k] == tags[k];
      forall k | 0 <= k < |tags|
        ensures k in at <==> tags[k] !in remove
      {
        if k < n {
          assert k in before <==> tags[..n][k] !in remove;
        } else {
          assert k !in before;
        }
      }
    }
  }

  lemma ExtendedHas(tags: seq<Tag>, add: seq<Tag>, remove: seq<Tag>, t: Tag)
    ensures t in Extended(tags, add, remove) <==> t in tags || (t in add && t !in remove)
  {
    ExtendedMeans(tags, add, remove);
    assert t in Extended(tags, add, remove) <==> t in TagSet(Extended(tags, add, remove));
  }

  /** The position holds the first of a tag that is neither removed nor there. */
  predicate IsNew(tags: seq<Tag>, add: seq<Tag>, remove: seq<Tag>, k: nat)
    requires k < |add|
  {
    add[k] !in remove && add[k] !in tags && add[k] !in add[..k]
  }

  /** What is added comes behind, in its own order: the first of each tag that is neither removed nor there. */
  lemma {:induction false} AddedInOrder(tags: seq<Tag>, add: seq<Tag>, remove: seq<Tag>) returns (at: seq<nat>)
    ensures Rising(at, |add|)
    ensures Extended(tags, add, remove) == tags + seq(|at|, i requires 0 <= i < |at| => add[at[i]])
    ensures forall k :: 0 <= k < |add| ==> (k in at <==> IsNew(tags, add, remove, k))
  {
    at := [];
    if add != [] {
      var n := |add| - 1;
      var before := AddedInOrder(tags, add[..n], remove);
      ExtendedHas(tags, add[..n], remove, add[n]);
      at := before + if IsNew(tags, add, remove, n) then [n] else [];
      forall k | 0 <= k < |add|
        ensures k in at <==> IsNew(tags, add, remove, k)
      {
        if k < n {
          assert add[..n][..k] == add[..k];
          assert k in before <==> IsNew(tags, add[..n], remove, k);
        } else {
          assert k !in before;
        }
      }
    }
  }

  lemma {:induction false} KeepsAll(tags: seq<Tag>, remove: seq<Tag>)
    requires TagSet(tags) !! TagSet(remove)
    ensures Kept(tags, remove) == tags
  {
    if tags != [] {
      var front, last := tags[..|tags| - 1], tags[|tags| - 1];
      assert tags == front + [last];
      assert last in TagSet(tags) && TagSet(front) <= TagSet(tags);
      KeepsAll(front, remove);
    }
  }

  lemma {:induction false} ExtendsByNothing(tags: seq<Tag>, add: seq<Tag>, remove: seq<Tag>)
    requires TagSet(add) - TagSet(remove) <= TagSet(tags)
    ensures Extended(tags, add, remove) == tags
  {
    if add != [] {
      var front, last := add[..|add| - 1], add[|add| - 1];
      assert add == front + [last];
      assert last in TagSet(add) && TagSet(front) <= TagSet(add);
      ExtendsByNothing(tags, front, remove);
      assert last in remove || last in TagSet(tags);
    }
  }

  /** Sending a change again right after it changes nothing, not even the order. */
  lemma ReplayIsNoOp(tags: seq<Tag>, c: Change)
    ensures Apply(Apply(tags, c), c) == Apply(tags, c)
  {
    ApplyMeans(tags, c);
    var once := Apply(tags, c);
    KeepsAll(once, c.remove);
    ExtendsByNothing(once, c.add, c.remove);
  }

  /** What a change really adds. */
  function Adds(c: Change): set<Tag> {
    TagSet(c.add) - TagSet(c.remove)
  }

  /**
   * Two changes give the same tags in either order exactly when neither removes what
   * the other adds.
   */
  lemma OrderIrrelevantIff(tags: seq<Tag>, c: Change, d: Change)
    ensures TagSet(Apply(Apply(tags, c), d)) == TagSet(Apply(Apply(tags, d), c))
            <==> Adds(c) !! TagSet(d.remove) && Adds(d) !! TagSet(c.remove)
  {
    ApplyMeans(tags, c);
    ApplyMeans(Apply(tags, c), d);
    ApplyMeans(tags, d);
    ApplyMeans(Apply(tags, d), c);
    if t :| t in Adds(c) && t in TagSet(d.remove) {
      assert t in TagSet(Apply(Apply(tags, d), c)) && t !in TagSet(Apply(Apply(tags, c), d));
    }
    if t :| t in Adds(d) && t in TagSet(c.remove) {
      assert t in TagSet(Apply(Apply(tags, c), d)) && t !in TagSet(Apply(Apply(tags, d), c));
    }
  }

  // ---------------------------------------------------------- all interleavings

  const TAG_WRITE_ATTEMPTS := 5

  datatype Version = Version(tags: seq<Tag>, revision: nat)

  /** A call between its steps; `since` is the version that was current when it began. */
  datatype Stage =
    | Attempt(k: nat)
    | HasRead(k: nat, read: Version)
    | Ok(revision: nat, at: nat)
    | Unavailable

  datatype Call = Call(change: Change, since: nat, stage: Stage)

  /** Every version the row had, the change and the caller behind each step, and the calls. */
  datatype System = System(versions: seq<Version>, commits: seq<(nat, Change)>, calls: map<nat, Call>)

  datatype Event = Begin(call: nat, change: Change) | Read(call: nat) | Cas(call: nat)

  function Current(s: System): Version
    requires s.versions != []
  {
    s.versions[|s.versions| - 1]
  }

  predicate Enabled(s: System, e: Event) {
    match e
    case Begin(c, _) => c !in s.calls
    case Read(c) => c in s.calls && s.calls[c].stage.Attempt?
    case Cas(c) => c in s.calls && s.calls[c].stage.HasRead?
  }

  function Next(s: System, e: Event): System
    requires s.versions != [] && Enabled(s, e)
  {
    var now := |s.versions| - 1;
    match e
    case Begin(c, change) => s.(calls := s.calls[c := Call(change, now, Attempt(0))])
    case Read(c) =>
      var call, row := s.calls[c], Current(s);
      var stage := if Apply(row.tags, call.change) == row.tags && row.revision != 0 then Ok(row.revision, now)
                   else HasRead(call.stage.k, row);
      s.(calls := s.calls[c := call.(stage := stage)])
    case Cas(c) =>
      var call := s.calls[c];
      var k, read := call.stage.k, call.stage.read;
      if Current(s).revision == read.revision then
        System(s.versions + [Version(Apply(read.tags, call.change), read.revision + 1)],
               s.commits + [(c, call.change)],
               s.calls[c := call.(stage := Ok(read.revision + 1, now + 1))])
      else
        s.(calls := s.calls[c := call.(stage := if k + 1 < TAG_WRITE_ATTEMPTS then Attempt(k + 1) else Unavailable)])
  }

  /** The caller has committed since version `since`. */
  predicate Committed(s: System, c: nat, since: nat) {
    exists i :: since <= i < |s.commits| && s.commits[i].0 == c
  }

  ghost predicate CallInv(s: System, c: nat, call: Call) {
    var now := |s.versions| - 1;
    && call.since <= now
    && (!call.stage.Ok? ==> !Committed(s, c, call.since))
    && match call.stage
       case Attempt(k) => k < TAG_WRITE_ATTEMPTS && now - call.since >= k
       case HasRead(k, read) =>
         && k < TAG_WRITE_ATTEMPTS
         && exists i {:trigger s.versions[i]} :: call.since + k <= i <= now && s.versions[i] == read
       case Ok(revision, at) =>
         && call.since <= at <= now && s.versions[at].revision == revision
         && Apply(s.versions[at].tags, call.change) == s.versions[at].tags
         && (Committed(s, c, call.since) ==>
               call.since < at <= |s.commits| && s.commits[at - 1] == (c, call.change))
         && (forall i :: call.since <= i < |s.commits| && s.commits[i].0 == c ==> i == at - 1)
       case Unavailable => now - call.since >= TAG_WRITE_ATTEMPTS
  }

  /** Every commit raises the revision by one and applies its change to the tags before it. */
  predicate Chain(versions: seq<Version>, commits: seq<(nat, Change)>) {
    && |versions| == |commits| + 1
    && (forall i :: 0 <= i < |versions| ==> versions[i].revision == versions[0].revision + i)
    && (forall i :: 0 <= i < |commits| ==> versions[i + 1].tags == Apply(versions[i].tags, commits[i].1))
  }

  ghost predicate Inv(s: System) {
    && Chain(s.versions, s.commits)
    && (forall i :: 0 <= i < |s.commits| ==> s.commits[i].0 in s.calls)
    && forall c <- s.calls :: CallInv(s, c, s.calls[c])
  }

  function Start(row: Version): System {
    System([row], [], map[])
  }

  /** What a call knows survives the steps and commits of others. */
  lemma OthersKeepCallInv(s: System, s': System, b: nat, call: Call)
    requires CallInv(s, b, call) && |s.versions| == |s.commits| + 1 && |s'.versions| == |s'.commits| + 1
    requires s.versions <= s'.versions && s.commits <= s'.commits
    requires forall i :: |s.commits| <= i < |s'.commits| ==> s'.commits[i].0 != b
    ensures CallInv(s', b, call)
  {
  }

  /** The caller of a compare-and-set knows whether its read was the current version. */
  lemma CasReadIsCurrentIff(s: System, c: nat)
    requires Inv(s) && Enabled(s, Cas(c))
    ensures var call := s.calls[c];
            if Current(s).revision == call.stage.read.revision then Current(s) == call.stage.read
            else call.stage.k < TAG_WRITE_ATTEMPTS && |s.commits| - call.since >= call.stage.k + 1
  {
  }

  lemma CasKeepsOwnInv(s: System, c: nat)
    requires Inv(s) && Enabled(s, Cas(c))
    ensures var s' := Next(s, Cas(c)); CallInv(s', c, s'.calls[c])
  {
    var call := s.calls[c];
    assert CallInv(s, c, call);
    CasReadIsCurrentIff(s, c);
    ReplayIsNoOp(call.stage.read.tags, call.change);
    var s' := Next(s, Cas(c));
    if Current(s).revision == call.stage.read.revision {
      assert s'.commits[|s.commits|] == (c, call.change);
    }
  }

  lemma CasKeepsChain(s: System, c: nat)
    requires Inv(s) && Enabled(s, Cas(c))
    ensures var s' := Next(s, Cas(c)); Chain(s'.versions, s'.commits)
  {
  }

  lemma ReadKeepsOwnInv(s: System, c: nat)
    requires Inv(s) && Enabled(s, Read(c))
    ensures var s' := Next(s, Read(c)); CallInv(s', c, s'.calls[c])
  {
  }

  lemma NextKeepsCall(s: System, e: Event, b: nat)
    requires Inv(s) && Enabled(s, e) && b in Next(s, e).calls
    ensures CallInv(Next(s, e), b, Next(s, e).calls[b])
  {
    if b != e.call {
      OthersKeepCallInv(s, Next(s, e), b, s.calls[b]);
    } else if e.Cas? {
      CasKeepsOwnInv(s, b);
    } else if e.Read? {
      ReadKeepsOwnInv(s, b);
    }
  }

  lemma NextKeepsInv(s: System, e: Event)
    requires Inv(s) && Enabled(s, e)
    ensures Inv(Next(s, e))
  {
    var s' := Next(s, e);
    if e.Cas? {
      CasKeepsChain(s, e.call);
    }
    forall b | b in s'.calls
      ensures CallInv(s', b, s'.calls[b])
    {
      NextKeepsCall(s, e, b);
    }
  }

  predicate Run(s: System, es: seq<Event>)
    decreases |es|
  {
    es == [] || (s.versions != [] && Enabled(s, es[0]) && Run(Next(s, es[0]), es[1..]))
  }

  function Final(s: System, es: seq<Event>): System
    requires Run(s, es)
    decreases |es|
  {
    if es == [] then s else Final(Next(s, es[0]), es[1..])
  }

  lemma {:induction false} RunKeepsInv(s: System, es: seq<Event>)
    requires Inv(s) && Run(s, es)
    ensures Inv(Final(s, es)) && s.versions <= Final(s, es).versions
    decreases |es|
  {
    if es != [] {
      NextKeepsInv(s, es[0]);
      RunKeepsInv(Next(s, es[0]), es[1..]);
    }
  }

  function Fold(tags: seq<Tag>, commits: seq<(nat, Change)>): seq<Tag> {
    if commits == [] then tags
    else Apply(Fold(tags, commits[..|commits| - 1]), commits[|commits| - 1].1)
  }

  lemma {:induction false} VersionsAreFolds(versions: seq<Version>, commits: seq<(nat, Change)>, n: nat)
    requires Chain(versions, commits) && n <= |commits|
    ensures versions[n].tags == Fold(versions[0].tags, commits[..n])
    ensures NoDuplicates(versions[0].tags) ==> NoDuplicates(versions[n].tags)
  {
    if n > 0 {
      VersionsAreFolds(versions, commits, n - 1);
      var before := commits[..n];
      assert before[..n - 1] == commits[..n - 1] && before[n - 1] == commits[n - 1];
      ApplyMeans(versions[n - 1].tags, commits[n - 1].1);
    }
  }

  /**
   * Tag changes are linearizable: the row is the fold of the committed changes in
   * commit order, without duplicates; every `ok` names an instant of its call at which
   * its change was in effect at the revision it reports, and commits at most once, there.
   */
  lemma TagChangesLinearize(row: Version, es: seq<Event>, c: nat)
    requires Run(Start(row), es)
    ensures var s := Final(Start(row), es);
            && s.versions != [] && s.versions[0] == row
            && Current(s).tags == Fold(row.tags, s.commits)
            && Current(s).revision == row.revision + |s.commits|
            && (NoDuplicates(row.tags) ==> NoDuplicates(Current(s).tags))
            && (c in s.calls && s.calls[c].stage.Ok? ==>
                  var call := s.calls[c];
                  && call.since <= call.stage.at < |s.versions|
                  && s.versions[call.stage.at].revision == call.stage.revision
                  && Apply(s.versions[call.stage.at].tags, call.change) == s.versions[call.stage.at].tags
                  && (forall i :: call.since <= i < |s.commits| && s.commits[i].0 == c ==>
                        i == call.stage.at - 1 && s.commits[i].1 == call.change))
  {
    assert Inv(Start(row));
    RunKeepsInv(Start(row), es);
    var s := Final(Start(row), es);
    VersionsAreFolds(s.versions, s.commits, |s.commits|);
    assert s.commits[..|s.commits|] == s.commits;
    assert s.versions[0] == Start(row).versions[0];
    if c in s.calls {
      assert CallInv(s, c, s.calls[c]);
    }
  }

  /** A call gives up only if others committed to the row at least five times while it ran. */
  lemma GivesUpOnlyUnderContention(row: Version, es: seq<Event>, c: nat)
    requires Run(Start(row), es)
    requires var s := Final(Start(row), es); c in s.calls && s.calls[c].stage.Unavailable?
    ensures var s := Final(Start(row), es);
            var since := s.calls[c].since;
            && |s.commits| - since >= TAG_WRITE_ATTEMPTS
            && forall i :: since <= i < |s.commits| ==> s.commits[i].0 != c
  {
    assert Inv(Start(row));
    RunKeepsInv(Start(row), es);
    assert CallInv(Final(Start(row), es), c, Final(Start(row), es).calls[c]);
  }

  // ------------------------------------------------------------- one call, in place

  datatype Reply = Done(revision: nat) | Busy

  /** The row as one caller meets it; `log` remembers the changes committed to it. */
  class TagRow {
    var tags: seq<Tag>
    var revision: nat
    ghost var origin: Version
    ghost var log: seq<(nat, Change)>

    ghost predicate Valid()
      reads this
    {
      tags == Fold(origin.tags, log) && revision == origin.revision + |log|
    }

    constructor (row: Version)
      ensures Valid() && origin == row && log == []
    {
      tags, revision, origin, log := row.tags, row.revision, row, [];
    }

    /** The conditional update: it applies only at the revision that was read. */
    method CompareAndSet(read: nat, next: seq<Tag>, ghost c: Change, ghost who: nat) returns (applied: bool)
      requires Valid() && (read == revision ==> next == Apply(tags, c))
      modifies this
      ensures Valid() && origin == old(origin)
      ensures applied == (read == old(revision))
      ensures log == if applied then old(log) + [(who, c)] else old(log)
    {
      applied := read == revision;
      if applied {
        assert (log + [(who, c)])[..|log|] == log;
        tags, revision, log := next, revision + 1, log + [(who, c)];
      }
    }

    /** Other callers commit `changes` one after the other. */
    method Interfere(changes: seq<Change>)
      requires Valid()
      modifies this
      ensures Valid() && origin == old(origin)
      ensures |log| == |old(log)| + |changes| && old(log) <= log
      ensures forall i :: |old(log)| <= i < |log| ==> log[i].0 == 0
    {
      for i := 0 to |changes|
        invariant Valid() && origin == old(origin)
        invariant |log| == |old(log)| + i && old(log) <= log
        invariant forall j :: |old(log)| <= j < |log| ==> log[j].0 == 0
      {
        var next := NextTags(tags, changes[i]);
        var _ := CompareAndSet(revision, next, changes[i], 0);
      }
    }

    /**
     * One call (caller 1) with the retry loop; `rivals[k]` are the changes other
     * callers (caller 0) commit between the read and the write of attempt `k`.
     */
    method ChangeTags(c: Change, rivals: seq<seq<Change>>) returns (reply: Reply)
      requires Valid() && |rivals| == TAG_WRITE_ATTEMPTS
      modifies this
      ensures Valid() && origin == old(origin) && old(log) <= log
      ensures reply.Done? ==> Apply(tags, c) == tags && reply.revision == revision >= 1
      ensures Apply(old(tags), c) == old(tags) && old(revision) != 0 ==> reply.Done? && log == old(log)
      ensures forall i :: |old(log)| <= i < |log| && log[i].0 == 1 ==> log[i].1 == c
      ensures (exists k :: 0 <= k < TAG_WRITE_ATTEMPTS && rivals[k] == []) ==> reply.Done?
      ensures forall i :: |old(log)| <= i < |log| && (i < |log| - 1 || reply.Busy?) ==> log[i].0 == 0
      ensures reply.Busy? ==> |log| - |old(log)| >= TAG_WRITE_ATTEMPTS
    {
      for attempt := 0 to TAG_WRITE_ATTEMPTS
        invariant Valid() && origin == old(origin)
        invariant |log| >= |old(log)| + attempt && old(log) <= log
        invariant forall i :: |old(log)| <= i < |log| ==> log[i].0 == 0
        invariant forall k :: 0 <= k < attempt ==> rivals[k] != []
        invariant attempt > 0 ==> Apply(old(tags), c) != old(tags) || old(revision) == 0
        invariant attempt == 0 ==> tags == old(tags) && revision == old(revision) && log == old(log)
      {
        var current := Version(tags, revision);
        var next := NextTags(current.tags, c);
        if next == current.tags && current.revision != 0 {
          return Done(current.revision);
        }
        ghost var before := log;
        Interfere(rivals[attempt]);
        assert revision == current.revision ==> log == before;
        var applied := CompareAndSet(current.revision, next, c, 1);
        if applied {
          ReplayIsNoOp(current.tags, c);
          return Done(current.revision + 1);
        }
      }
      reply := Busy;
    }
  }
}
