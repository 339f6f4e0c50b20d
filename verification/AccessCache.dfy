/**
 * The cache of document access decisions: short-lived entries under string keys,
 * eviction when it is full, invalidation by document, and how stale an answer can be.
 */
module AccessCache {
  import opened Common

  const ACCESS_CACHE_TTL_MS := 5000
  const ACCESS_CACHE_MAX := 10000

  datatype Entry = Entry(allowed: bool, expiresAt: int)

  type Cache = map<string, Entry>

  // -------------------------------------------------------------------------- keys

  /** `${user}:${space}:${doc}:${action}` */
  function Key(user: string, space: string, doc: string, action: string): string {
    user + ":" + space + ":" + doc + ":" + action
  }

  predicate StandsAt(s: string, part: string, i: nat) {
    i + |part| <= |s| && s[i..i + |part|] == part
  }

  predicate Includes(s: string, part: string) {
    exists i :: 0 <= i <= |s| && StandsAt(s, part, i)
  }

  /** The test invalidation makes of every key; without a user it is for all of them. */
  predicate Matches(key: string, space: string, doc: string, user: Option<string>) {
    && Includes(key, ":" + space + ":" + doc + ":")
    && (user.Some? && user.value != "" ==> user.value + ":" <= key)
  }

  /** Every decision about the document, for the given user or for all, is matched. */
  lemma OwnKeysMatch(user: string, space: string, doc: string, action: string, target: Option<string>)
    requires target.None? || target.value == "" || target.value == user
    ensures Matches(Key(user, space, doc, action), space, doc, target)
  {
    var key, part := Key(user, space, doc, action), ":" + space + ":" + doc + ":";
    assert key == user + (part + action);
    assert StandsAt(key, part, |user|);
    assert key == user + ":" + (space + ":" + doc + ":" + action);
  }

  predicate NoColon(s: string) {
    ':' !in s
  }

  lemma ColonsOfKey(user: string, space: string, doc: string, action: string, i: nat)
    requires NoColon(user) && NoColon(space) && NoColon(doc) && NoColon(action) && i < |Key(user, space, doc, action)|
    ensures Key(user, space, doc, action)[i] == ':'
            <==> i == |user| || i == |user| + |space| + 1 || i == |user| + |space| + |doc| + 2
  {
    var key, p, q := Key(user, space, doc, action), |user| + 1, |user| + |space| + 2;
    var r := q + |doc| + 1;
    assert key[..|user|] == user && key[p..p + |space|] == space && key[q..q + |doc|] == doc && key[r..] == action;
    if i < |user| {
      assert key[i] == user[i];
    } else if p <= i < p + |space| {
      assert key[i] == space[i - p];
    } else if q <= i < q + |doc| {
      assert key[i] == doc[i - q];
    } else if r <= i {
      assert key[i] == action[i - r];
    }
  }

  lemma PartsOfKey(user: string, space: string, doc: string, action: string)
    ensures var key := Key(user, space, doc, action);
            && key[..|user|] == user && |key| == |user| + |space| + |doc| + |action| + 3
            && key[|user| + 1..|user| + 1 + |space|] == space
            && key[|user| + |space| + 2..|user| + |space| + 2 + |doc|] == doc
  {
  }

  lemma PartsOfPattern(space: string, doc: string)
    ensures var part := ":" + space + ":" + doc + ":";
            && |part| == |space| + |doc| + 3 && part[0] == ':' && part[1 + |space|] == ':' && part[|space| + |doc| + 2] == ':'
            && part[1..1 + |space|] == space && part[|space| + 2..|space| + 2 + |doc|] == doc
            && (NoColon(space) ==> forall i :: 1 <= i < 1 + |space| ==> part[i] != ':')
            && (NoColon(doc) ==> forall i :: |space| + 2 <= i < |space| + 2 + |doc| ==> part[i] != ':')
  {
    var part := ":" + space + ":" + doc + ":";
    assert forall i :: 1 <= i < 1 + |space| ==> part[i] == space[i - 1];
    assert forall i :: |space| + 2 <= i < |space| + 2 + |doc| ==> part[i] == doc[i - |space| - 2];
  }

  /** Among keys of names without colons, a match is exactly the document's own, of the given user or of all. */
  lemma MatchesIff(user: string, space: string, doc: string, action: string, space': string, doc': string, target: Option<string>)
    requires NoColon(user) && NoColon(space) && NoColon(doc) && NoColon(action) && NoColon(space') && NoColon(doc')
    requires target.Some? ==> NoColon(target.value)
    ensures Matches(Key(user, space, doc, action), space', doc', target)
            <==> space == space' && doc == doc' && (target.None? || target.value == "" || target.value == user)
  {
    var key := Key(user, space, doc, action);
    if Matches(key, space', doc', target) {
      var i :| 0 <= i <= |key| && StandsAt(key, ":" + space' + ":" + doc' + ":", i);
      PatternStands(user, space, doc, action, space', doc', i);
      if target.Some? && target.value != "" {
        PrefixIsUser(user, space, doc, action, target.value);
      }
    } else if space == space' && doc == doc' && (target.None? || target.value == "" || target.value == user) {
      OwnKeysMatch(user, space, doc, action, target);
    }
  }

  lemma PrefixIsUser(user: string, space: string, doc: string, action: string, name: string)
    requires NoColon(user) && NoColon(name) && name + ":" <= Key(user, space, doc, action)
    ensures name == user
  {
    var key := Key(user, space, doc, action);
    PartsOfKey(user, space, doc, action);
    assert key[|name|] == ':' && key[|user|] == ':' && key[..|name|] == name;
    assert forall i :: 0 <= i < |user| ==> key[i] == user[i] && user[i] in user;
    assert forall i :: 0 <= i < |name| ==> key[i] == name[i] && name[i] in name;
    assert |name| == |user|;
  }

  lemma PatternStands(user: string, space: string, doc: string, action: string, space': string, doc': string, i: nat)
    requires NoColon(user) && NoColon(space) && NoColon(doc) && NoColon(action) && NoColon(space') && NoColon(doc')
    requires StandsAt(Key(user, space, doc, action), ":" + space' + ":" + doc' + ":", i)
    ensures space == space' && doc == doc'
  {
    var key, part := Key(user, space, doc, action), ":" + space' + ":" + doc' + ":";
    PartsOfKey(user, space, doc, action);
    PartsOfPattern(space', doc');
    var j, k := i + 1 + |space'|, i + |space'| + |doc'| + 2;
    assert forall x :: 0 <= x < |part| ==> key[i + x] == part[x];
    assert key[i] == ':' && key[j] == ':' && key[k] == ':';
    ColonsOfKey(user, space, doc, action, i);
    ColonsOfKey(user, space, doc, action, j);
    ColonsOfKey(user, space, doc, action, k);
    assert i == |user| && j == |user| + |space| + 1;
    assert key[i + 1..i + 1 + |space'|] == part[1..1 + |space'|];
    assert key[j + 1..j + 1 + |doc'|] == part[|space'| + 2..|space'| + 2 + |doc'|];
  }

  // ------------------------------------------------------------- the map, in place

  function Alive(cache: Cache, now: int): Cache {
    map k | k in cache && cache[k].expiresAt > now :: cache[k]
  }

  /** What eviction leaves: all of it below the limit, else what is alive, else nothing. */
  function Evicted(cache: Cache, now: int): Cache {
    if |cache| < ACCESS_CACHE_MAX then cache
    else if |Alive(cache, now)| < ACCESS_CACHE_MAX then Alive(cache, now)
    else map[]
  }

  function Stored(cache: Cache, key: string, allowed: bool, now: int): Cache {
    Evicted(cache, now)[key := Entry(allowed, now + ACCESS_CACHE_TTL_MS)]
  }

  /** The cached answer still valid at `now`, if there is one. */
  function Lookup(cache: Cache, key: string, now: int): Option<bool> {
    if key in cache && cache[key].expiresAt > now then Some(cache[key].allowed) else None
  }

  function Invalidated(cache: Cache, space: string, doc: string, user: Option<string>): Cache {
    map k | k in cache && !Matches(k, space, doc, user) :: cache[k]
  }

  /** A stored answer stands for five seconds; no other is changed, and none is lost while there is room. */
  lemma StoredMeans(cache: Cache, key: string, allowed: bool, since: int, other: string, now: int)
    ensures Lookup(Stored(cache, key, allowed, since), key, now) == if now < since + 5000 then Some(allowed) else None
    ensures var after := Stored(cache, key, allowed, since);
            other != key ==>
              && (other in after ==> other in cache && after[other] == cache[other])
              && (|cache| < 10000 ==> Lookup(after, other, now) == Lookup(cache, other, now))
              && (|Alive(cache, since)| < 10000 && since <= now ==> Lookup(after, other, now) == Lookup(cache, other, now))
  {
  }

  /** An invalidation takes what it matches and nothing else. */
  lemma InvalidatedMeans(cache: Cache, space: string, doc: string, user: Option<string>, key: string, now: int)
    ensures Lookup(Invalidated(cache, space, doc, user), key, now)
            == if Matches(key, space, doc, user) then None else Lookup(cache, key, now)
  {
  }

  class DocAccessCache {
    var entries: Cache

    constructor ()
      ensures entries == map[]
    {
      entries := map[];
    }

    method DropExpired(now: int)
      modifies this
      ensures entries == Alive(old(entries), now)
    {
      ghost var before := entries;
      var left := entries.Keys;
      while left != {}
        invariant left <= before.Keys
        invariant forall k :: k in entries <==> k in before && (k in left || before[k].expiresAt > now)
        invariant forall k <- entries :: entries[k] == before[k]
        decreases left
      {
        var k :| k in left;
        left := left - {k};
        if entries[k].expiresAt <= now {
          entries := entries - {k};
        }
      }
      assert entries.Keys == Alive(before, now).Keys;
    }

    /** Stores a decision asked for at `now`, after making room; the map never outgrows its limit. */
    method Store(key: string, allowed: bool, now: int)
      modifies this
      ensures entries == Stored(old(entries), key, allowed, now)
      ensures |entries| <= ACCESS_CACHE_MAX
      ensures Lookup(entries, key, now) == Some(allowed)
    {
      StoredIsSmall(entries, key, allowed, now);
      if |entries| >= ACCESS_CACHE_MAX {
        DropExpired(now);
        if |entries| >= ACCESS_CACHE_MAX {
          entries := map[];
        }
      }
      entries := entries[key := Entry(allowed, now + ACCESS_CACHE_TTL_MS)];
    }

    /** Drops every decision about the document, of one user or of all. */
    method Invalidate(space: string, doc: string, user: Option<string>)
      modifies this
      ensures entries == Invalidated(old(entries), space, doc, user)
      ensures forall u, action | user.None? || user.value == u :: Key(u, space, doc, action) !in entries
    {
      var left := entries.Keys;
      while left != {}
        invariant left <= old(entries).Keys
        invariant entries == map k | k in old(entries) && (k in left || !Matches(k, space, doc, user)) :: old(entries)[k]
        decreases left
      {
        var k :| k in left;
        left := left - {k};
        if Matches(k, space, doc, user) {
          entries := entries - {k};
        }
      }
      forall u, action | user.None? || user.value == u
        ensures Key(u, space, doc, action) !in entries
      {
        OwnKeysMatch(u, space, doc, action, user);
      }
    }
  }

  // ------------------------------------------------------------ all interleavings

  /** A check in flight: asked for at `since`, and then decided by the permissions of one instant. */
  datatype Check = Asked(key: string, since: int) | Decided(key: string, since: int, allowed: bool)

  /** What the permissions were at each instant so far; `true` for the keys in the set. */
  datatype Instant = Instant(at: int, allowed: set<string>)

  datatype System = System(now: int, allowed: set<string>, cache: Cache, checks: map<nat, Check>, past: seq<Instant>)

  datatype Event =
    | Wait(ms: nat)
    | Change(allowed: set<string>)
    | Invalidate(space: string, doc: string, user: Option<string>)
    | Ask(check: nat, key: string)
    | Decide(check: nat)
    | Keep(check: nat)

  predicate Enabled(s: System, e: Event) {
    match e
    case Ask(c, key) => c !in s.checks && Lookup(s.cache, key, s.now).None?
    case Decide(c) => c in s.checks && s.checks[c].Asked?
    case Keep(c) => c in s.checks && s.checks[c].Decided?
    case _ => true
  }

  function Step(s: System, e: Event): System
    requires Enabled(s, e)
  {
    match e
    case Wait(ms) => s.(now := s.now + ms)
    case Change(allowed) => s.(allowed := allowed)
    case Invalidate(space, doc, user) => s.(cache := Invalidated(s.cache, space, doc, user))
    case Ask(c, key) => s.(checks := s.checks[c := Asked(key, s.now)])
    case Decide(c) =>
      var k := s.checks[c];
      s.(checks := s.checks[c := Decided(k.key, k.since, k.key in s.allowed)])
    case Keep(c) =>
      var k := s.checks[c];
      s.(cache := Stored(s.cache, k.key, k.allowed, k.since), checks := s.checks - {c})
  }

  /** Every instant is remembered before the step that ends it. */
  function Next(s: System, e: Event): System
    requires Enabled(s, e)
  {
    Step(s, e).(past := s.past + [Instant(s.now, s.allowed)])
  }

  /** The answer was the permission at an instant no earlier than `from`. */
  ghost predicate WasTrue(past: seq<Instant>, key: string, allowed: bool, from: int, to: int) {
    exists i {:trigger past[i]} :: 0 <= i < |past| && from <= past[i].at <= to && (key in past[i].allowed) == allowed
  }

  ghost predicate Inv(s: System) {
    && |s.cache| <= ACCESS_CACHE_MAX
    && Remembers(s.cache, s.checks, s.past, s.now)
    && (forall c <- s.checks :: s.checks[c].since <= s.now)
  }

  lemma RememberedLater(past: seq<Instant>, more: Instant, key: string, allowed: bool, from: int, to: int, to': int)
    requires WasTrue(past, key, allowed, from, to) && to <= to'
    ensures WasTrue(past + [more], key, allowed, from, to')
  {
    var i :| 0 <= i < |past| && from <= past[i].at <= to && (key in past[i].allowed) == allowed;
    assert (past + [more])[i] == past[i];
  }

  lemma StoredIsSmall(cache: Cache, key: string, allowed: bool, now: int)
    ensures |Stored(cache, key, allowed, now)| <= ACCESS_CACHE_MAX
  {
  }

  lemma InvalidatedIsSmaller(cache: Cache, space: string, doc: string, user: Option<string>)
    ensures |Invalidated(cache, space, doc, user)| <= |cache|
  {
    SubsetSize(Invalidated(cache, space, doc, user).Keys, cache.Keys);
  }

  /** The part of the invariant about what was true when. */
  ghost predicate Remembers(cache: Cache, checks: map<nat, Check>, past: seq<Instant>, now: int) {
    && (forall k <- cache :: WasTrue(past, k, cache[k].allowed, cache[k].expiresAt - ACCESS_CACHE_TTL_MS, now))
    && (forall c <- checks | checks[c].Decided? :: WasTrue(past, checks[c].key, checks[c].allowed, checks[c].since, now))
  }

  lemma RemembersLater(cache: Cache, checks: map<nat, Check>, past: seq<Instant>, more: Instant, now: int, later: int)
    requires Remembers(cache, checks, past, now) && now <= later
    ensures Remembers(cache, checks, past + [more], later)
  {
    forall k | k in cache
      ensures WasTrue(past + [more], k, cache[k].allowed, cache[k].expiresAt - ACCESS_CACHE_TTL_MS, later)
    {
      RememberedLater(past, more, k, cache[k].allowed, cache[k].expiresAt - ACCESS_CACHE_TTL_MS, now, later);
    }
    forall c | c in checks && checks[c].Decided?
      ensures WasTrue(past + [more], checks[c].key, checks[c].allowed, checks[c].since, later)
    {
      RememberedLater(past, more, checks[c].key, checks[c].allowed, checks[c].since, now, later);
    }
  }

  lemma StoredRemembers(cache: Cache, checks: map<nat, Check>, past: seq<Instant>, now: int, c: nat)
    requires Remembers(cache, checks, past, now) && c in checks && checks[c].Decided?
    ensures var k := checks[c]; Remembers(Stored(cache, k.key, k.allowed, k.since), checks - {c}, past, now)
  {
  }

  lemma DecidedRemembers(s: System, c: nat, past: seq<Instant>)
    requires Remembers(s.cache, s.checks, past, s.now) && c in s.checks && s.checks[c].since <= s.now
    requires past != [] && past[|past| - 1] == Instant(s.now, s.allowed)
    ensures var k := s.checks[c]; Remembers(s.cache, s.checks[c := Decided(k.key, k.since, k.key in s.allowed)], past, s.now)
  {
  }

  lemma NextKeepsInv(s: System, e: Event)
    requires Inv(s) && Enabled(s, e)
    ensures Inv(Next(s, e))
  {
    var s' := Next(s, e);
    RemembersLater(s.cache, s.checks, s.past, Instant(s.now, s.allowed), s.now, s'.now);
    match e
    case Keep(c) =>
      var k := s.checks[c];
      StoredRemembers(s.cache, s.checks, s'.past, s.now, c);
      StoredIsSmall(s.cache, k.key, k.allowed, k.since);
    case Invalidate(space, doc, user) => InvalidatedIsSmaller(s.cache, space, doc, user);
    case Decide(c) => DecidedRemembers(s, c, s'.past);
    case _ =>
  }

  predicate Run(s: System, es: seq<Event>)
    decreases |es|
  {
    es == [] || (Enabled(s, es[0]) && Run(Next(s, es[0]), es[1..]))
  }

  function Final(s: System, es: seq<Event>): System
    requires Run(s, es)
    decreases |es|
  {
    if es == [] then s else Final(Next(s, es[0]), es[1..])
  }

  lemma {:induction false} RunKeepsInv(s: System, es: seq<Event>)
    requires Inv(s) && Run(s, es)
    ensures Inv(Final(s, es))
    decreases |es|
  {
    if es != [] {
      NextKeepsInv(s, es[0]);
      RunKeepsInv(Next(s, es[0]), es[1..]);
    }
  }

  function Start(now: int, allowed: set<string>): System {
    System(now, allowed, map[], map[], [])
  }

  /**
   * A cached answer given at a time was the permission at some instant less than five
   * seconds before it, however checks, changes and invalidations interleave; and the
   * cache never holds more than its maximum.
   */
  lemma StalenessIsBounded(now: int, allowed: set<string>, es: seq<Event>, key: string)
    requires Run(Start(now, allowed), es)
    ensures var s := Final(Start(now, allowed), es);
            && |s.cache| <= ACCESS_CACHE_MAX
            && var answer := Lookup(s.cache, key, s.now);
               answer.Some? ==> WasTrue(s.past, key, answer.value, s.now - ACCESS_CACHE_TTL_MS + 1, s.now)
  {
    RunKeepsInv(Start(now, allowed), es);
    var s := Final(Start(now, allowed), es);
    if Lookup(s.cache, key, s.now).Some? {
      var from := s.cache[key].expiresAt - ACCESS_CACHE_TTL_MS;
      assert WasTrue(s.past, key, s.cache[key].allowed, from, s.now);
      var i :| 0 <= i < |s.past| && from <= s.past[i].at <= s.now && (key in s.past[i].allowed) == s.cache[key].allowed;
      assert s.past[i].at >= s.now - ACCESS_CACHE_TTL_MS + 1;
    }
  }

  // -------------------------------------------------- what invalidation leaves open

  /** A check of the key that may yet store an answer other than `value`. */
  predicate MayRevive(c: Check, key: string, value: bool, now: int) {
    c.key == key && c.Decided? && c.allowed != value && c.since + ACCESS_CACHE_TTL_MS > now
  }

  /** The permission of the key is `value`, and no live entry and no answer in flight says otherwise. */
  predicate Settled(s: System, key: string, value: bool) {
    && (key in s.allowed) == value
    && (key in s.cache && s.cache[key].expiresAt > s.now ==> s.cache[key].allowed == value)
    && (forall c <- s.checks :: !MayRevive(s.checks[c], key, value, s.now))
  }

  /** No step of the run changes the permission of the key. */
  predicate LeavesAlone(es: seq<Event>, key: string, value: bool) {
    forall i :: 0 <= i < |es| && es[i].Change? ==> (key in es[i].allowed) == value
  }

  lemma NextKeepsSettled(s: System, e: Event, key: string, value: bool)
    requires Settled(s, key, value) && Enabled(s, e) && (e.Change? ==> (key in e.allowed) == value)
    ensures Settled(Next(s, e), key, value)
  {
  }

  lemma {:induction false} RunKeepsSettled(s: System, es: seq<Event>, key: string, value: bool)
    requires Settled(s, key, value) && Run(s, es) && LeavesAlone(es, key, value)
    ensures Settled(Final(s, es), key, value)
    decreases |es|
  {
    if es != [] {
      NextKeepsSettled(s, es[0], key, value);
      RunKeepsSettled(Next(s, es[0]), es[1..], key, value);
    }
  }

  /** The cache gives no answer about the key other than `value`. */
  predicate AnswersRight(s: System, key: string, value: bool) {
    var answer := Lookup(s.cache, key, s.now);
    answer.Some? ==> answer.value == value
  }

  /** Whatever runs next without changing the permission of the key, the cache answers right. */
  ghost predicate StaysRight(s: System, key: string) {
    forall es | Run(s, es) && LeavesAlone(es, key, key in s.allowed) :: AnswersRight(Final(s, es), key, key in s.allowed)
  }

  lemma MayReviveSpoils(s: System, c: nat, key: string)
    requires c in s.checks && MayRevive(s.checks[c], key, key in s.allowed, s.now)
    ensures !StaysRight(s, key)
  {
    var es := [Keep(c)];
    RunFrom(s, Keep(c), []);
    assert es == [Keep(c)] + [];
    assert !AnswersRight(Final(s, es), key, key in s.allowed);
  }

  /**
   * An invalidation settles a key of its document, until the permission changes again,
   * exactly when no check in flight holds another answer that has not run out.
   */
  lemma InvalidationSettlesIff(s: System, user: string, action: string, space: string, doc: string, target: Option<string>)
    requires target.None? || target.value == "" || target.value == user
    ensures var key := Key(user, space, doc, action);
            StaysRight(Next(s, Invalidate(space, doc, target)), key)
            <==> forall c <- s.checks :: !MayRevive(s.checks[c], key, key in s.allowed, s.now)
  {
    var key := Key(user, space, doc, action);
    var s' := Next(s, Invalidate(space, doc, target));
    OwnKeysMatch(user, space, doc, action, target);
    if c :| c in s.checks && MayRevive(s.checks[c], key, key in s.allowed, s.now) {
      MayReviveSpoils(s', c, key);
    } else {
      forall es | Run(s', es) && LeavesAlone(es, key, key in s'.allowed)
        ensures AnswersRight(Final(s', es), key, key in s'.allowed)
      {
        RunKeepsSettled(s', es, key, key in s'.allowed);
      }
    }
  }

  lemma RunFrom(s: System, e: Event, rest: seq<Event>)
    requires Enabled(s, e) && Run(Next(s, e), rest)
    ensures Run(s, [e] + rest) && Final(s, [e] + rest) == Final(Next(s, e), rest)
  {
  }

  /** A check that was decided before a change and is kept after the invalidation. */
  function KeptAfterInvalidation(key: string, space: string, doc: string): seq<Event> {
    [Ask(0, key)] + ([Decide(0)] + ([Change({})] + ([Invalidate(space, doc, None)] + ([Keep(0)] + []))))
  }

  /** So an invalidation alone does not end the access: an answer in flight outlives it. */
  lemma InvalidationCanBeOutlived(user: string, space: string, doc: string, action: string)
    ensures var key := Key(user, space, doc, action);
            var es := KeptAfterInvalidation(key, space, doc);
            && Run(Start(0, {key}), es)
            && var s := Final(Start(0, {key}), es);
               key !in s.allowed && Lookup(s.cache, key, s.now) == Some(true)
  {
    var key := Key(user, space, doc, action);
    var s0 := Start(0, {key});
    var s1 := Next(s0, Ask(0, key));
    var s2 := Next(s1, Decide(0));
    var s3 := Next(s2, Change({}));
    var s4 := Next(s3, Invalidate(space, doc, None));
    assert s4.checks[0] == Decided(key, 0, true);
    RunFrom(s4, Keep(0), []);
    RunFrom(s3, Invalidate(space, doc, None), [Keep(0)] + []);
    RunFrom(s2, Change({}), [Invalidate(space, doc, None)] + ([Keep(0)] + []));
    RunFrom(s1, Decide(0), [Change({})] + ([Invalidate(space, doc, None)] + ([Keep(0)] + [])));
    RunFrom(s0, Ask(0, key), [Decide(0)] + ([Change({})] + ([Invalidate(space, doc, None)] + ([Keep(0)] + []))));
  }
}
