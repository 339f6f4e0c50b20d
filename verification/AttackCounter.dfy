/**
 * Counting rejected requests in buckets of one minute, per address up to a limit,
 * compared with the exact list of events.
 */
module AttackCounter {
  import opened Common
  import opened Text

  const BUCKET_MS := 60000
  const MAX_IPS_PER_BUCKET := 1000
  const UNKNOWN_IP := "unknown"

  datatype Kind = Throttled | UnknownEmail

  datatype Bucket = Bucket(ips: map<string, nat>, overflow: nat)

  /** A request, as it is attributed to an address. */
  datatype Event = Event(kind: Kind, at: int, id: string)

  /** The events to count: those of a kind, from any address or from one. */
  datatype Selection = All(kind: Kind) | One(kind: Kind, id: string)

  predicate Selects(f: Selection, e: Event) {
    e.kind == f.kind && (f.One? ==> e.id == f.id)
  }

  /** A minute, by the time it starts at: the key of a bucket. */
  datatype Minute = Minute(start: int)

  /** The minute a time falls in (the division rounds down). */
  function BucketKey(at: int): Minute {
    Minute(at / BUCKET_MS * BUCKET_MS)
  }

  // -------------------------------------------------------------- counting events

  /** How many of the selected events fall into the given minutes. */
  ghost function CountIn(log: seq<Event>, f: Selection, keys: iset<Minute>): nat {
    if log == [] then 0
    else
      var e := log[|log| - 1];
      CountIn(log[..|log| - 1], f, keys) + if Selects(f, e) && BucketKey(e.at) in keys then 1 else 0
  }

  /** How many of the selected events happened at `since` or later. */
  ghost function CountFrom(log: seq<Event>, f: Selection, since: int): nat {
    if log == [] then 0
    else
      var e := log[|log| - 1];
      CountFrom(log[..|log| - 1], f, since) + if Selects(f, e) && e.at >= since then 1 else 0
  }

  lemma CountInSnoc(log: seq<Event>, e: Event, f: Selection, key: Minute)
    ensures CountIn(log + [e], f, iset{key})
            == CountIn(log, f, iset{key}) + if Selects(f, e) && BucketKey(e.at) == key then 1 else 0
  {
  }

  /** The places in the log at which an event of the kind, and of the address if one is given, stands. */
  ghost function Places(log: seq<Event>, f: Selection, since: int): set<nat> {
    set i | 0 <= i < |log| && log[i].kind == f.kind && (f.One? ==> log[i].id == f.id) && log[i].at >= since
  }

  lemma {:induction false} CountFromIsSize(log: seq<Event>, f: Selection, since: int)
    ensures CountFrom(log, f, since) == |Places(log, f, since)|
  {
    if log != [] {
      var n := |log| - 1;
      CountFromIsSize(log[..n], f, since);
      var before := Places(log[..n], f, since);
      assert Places(log, f, since) == before + if Selects(f, log[n]) && log[n].at >= since then {n} else {};
    }
  }

  lemma {:induction false} CountInSplit(log: seq<Event>, f: Selection, a: iset<Minute>, b: iset<Minute>)
    requires a !! b
    ensures CountIn(log, f, a + b) == CountIn(log, f, a) + CountIn(log, f, b)
  {
    if log != [] {
      CountInSplit(log[..|log| - 1], f, a, b);
    }
  }

  lemma {:induction false} CountInSame(log: seq<Event>, f: Selection, a: iset<Minute>, b: iset<Minute>)
    requires forall e <- log | Selects(f, e) :: BucketKey(e.at) in a <==> BucketKey(e.at) in b
    ensures CountIn(log, f, a) == CountIn(log, f, b)
  {
    if log != [] {
      assert log[|log| - 1] in log;
      CountInSame(log[..|log| - 1], f, a, b);
    }
  }

  lemma {:induction false} CountInPositive(log: seq<Event>, f: Selection, keys: iset<Minute>)
    ensures CountIn(log, f, keys) > 0 <==> exists e :: e in log && Selects(f, e) && BucketKey(e.at) in keys
  {
    if log != [] {
      var front, last := log[..|log| - 1], log[|log| - 1];
      assert log == front + [last];
      CountInPositive(front, f, keys);
      if e :| e in log && Selects(f, e) && BucketKey(e.at) in keys {
        assert e == last || e in front;
      }
    }
  }

  lemma {:induction false} OneIsOfAll(log: seq<Event>, kind: Kind, id: string, keys: iset<Minute>)
    ensures CountIn(log, One(kind, id), keys) <= CountIn(log, All(kind), keys)
  {
    if log != [] {
      OneIsOfAll(log[..|log| - 1], kind, id, keys);
    }
  }

  /** The minutes whose end lies after `since`. */
  ghost function After(since: int): iset<Minute> {
    iset key | EndsAfter(key, since)
  }

  predicate EndsAfter(key: Minute, since: int) {
    key.start + BUCKET_MS > since
  }

  /** Whole minutes overshoot the window by less than one of them. */
  lemma {:induction false} MinutesCoverWindow(log: seq<Event>, f: Selection, since: int)
    ensures CountFrom(log, f, since) <= CountIn(log, f, After(since)) <= CountFrom(log, f, since - BUCKET_MS + 1)
  {
    if log != [] {
      MinutesCoverWindow(log[..|log| - 1], f, since);
    }
  }

  // ------------------------------------------------------------------ sums of maps

  ghost function Sum<K(!new)>(m: map<K, nat>): nat {
    if m == map[] then 0 else var k :| k in m; m[k] + Sum(m - {k})
  }

  lemma {:induction false} SumRemove<K(!new)>(m: map<K, nat>, k: K)
    requires k in m
    ensures Sum(m) == m[k] + Sum(m - {k})
    decreases |m|
  {
    var first :| first in m && Sum(m) == m[first] + Sum(m - {first});
    if first != k {
      SumRemove(m - {first}, k);
      SumRemove(m - {k}, first);
      assert m - {first} - {k} == m - {k} - {first};
    }
  }

  lemma SumUpdate(m: map<string, nat>, k: string, n: nat)
    ensures Sum(m[k := n]) == Sum(m - {k}) + n
    ensures Sum(m[k := n]) == Sum(m) - (if k in m then m[k] else 0) + n
  {
    SumRemove(m[k := n], k);
    assert m[k := n] - {k} == m - {k};
    if k in m {
      SumRemove(m, k);
    } else {
      assert m - {k} == m;
    }
  }

  ghost function Size(b: Bucket): nat {
    Sum(b.ips) + b.overflow
  }

  // ------------------------------------------------------------ loops over buckets

  /** `r` holds the buckets of `m` whose minute has not ended by `limit`. */
  ghost predicate IsLivePart(r: map<Minute, Bucket>, m: map<Minute, Bucket>, limit: int) {
    && (forall key :: key in r <==> key in m && EndsAfter(key, limit))
    && (forall key <- r :: r[key] == m[key])
  }

  /** Deletes the buckets whose minute has ended, one by one. */
  method DeleteEnded(m: map<Minute, Bucket>, limit: int) returns (r: map<Minute, Bucket>)
    ensures IsLivePart(r, m, limit)
  {
    r := m;
    var todo := m.Keys;
    while todo != {}
      invariant todo <= m.Keys
      invariant forall key :: key in r <==> key in m && (key in todo || EndsAfter(key, limit))
      invariant forall key <- r :: r[key] == m[key]
      decreases todo
    {
      var key :| key in todo;
      todo := todo - {key};
      if key.start + BUCKET_MS <= limit {
        r := r - {key};
      }
    }
  }

  function Get(m: map<string, nat>, ip: string): nat {
    if ip in m then m[ip] else 0
  }

  function AddTo(m: map<string, nat>, ip: string, n: nat): map<string, nat> {
    m[ip := Get(m, ip) + n]
  }

  lemma AddToSum(m: map<string, nat>, ip: string, n: nat)
    ensures Sum(AddTo(m, ip, n)) == Sum(m) + n
  {
    SumUpdate(m, ip, Get(m, ip) + n);
  }

  /** Adds the counts of one bucket to the merged ones, address by address. */
  method MergeBucket(merged: map<string, nat>, ips: map<string, nat>) returns (r: map<string, nat>, added: nat)
    ensures forall ip :: Get(r, ip) == Get(merged, ip) + Get(ips, ip)
    ensures added == Sum(ips) && Sum(r) == Sum(merged) + added
  {
    r, added := merged, 0;
    var todo := ips;
    while todo != map[]
      invariant forall x :: Get(r, x) + Get(todo, x) == Get(merged, x) + Get(ips, x)
      invariant added + Sum(todo) == Sum(ips) && Sum(r) == Sum(merged) + added
      decreases todo.Keys
    {
      var ip :| ip in todo;
      SumRemove(todo, ip);
      AddToSum(r, ip, todo[ip]);
      r := AddTo(r, ip, todo[ip]);
      added := added + todo[ip];
      todo := todo - {ip};
    }
  }

  function SumCounts(list: seq<(string, nat)>): nat {
    if list == [] then 0 else SumCounts(list[..|list| - 1]) + list[|list| - 1].1
  }

  lemma {:induction false} LargestExists(m: map<string, nat>)
    requires m != map[]
    ensures exists ip :: ip in m && forall x <- m :: m[x] <= m[ip]
    decreases |m|
  {
    var d :| d in m;
    var others := m - {d};
    if others == map[] {
      assert forall x <- m :: x == d by {
        forall x | x in m ensures x == d {
          assert x != d ==> x in others;
        }
      }
    } else {
      LargestExists(others);
      var k :| k in others && forall x <- others :: others[x] <= others[k];
      var best := if m[d] <= m[k] then k else d;
      assert forall x <- m :: x == d || x in others;
      assert best in m && forall x <- m :: m[x] <= m[best];
    }
  }

  method PickLargest(m: map<string, nat>) returns (ip: string)
    requires m != map[]
    ensures ip in m && forall x <- m :: m[x] <= m[ip]
  {
    LargestExists(m);
    ip :| ip in m && forall x <- m :: m[x] <= m[ip];
  }

  /** No address twice, the largest count first. */
  predicate Descending(list: seq<(string, nat)>) {
    forall i, j :: 0 <= i < j < |list| ==> list[i].0 != list[j].0 && list[i].1 >= list[j].1
  }

  lemma SumCountsSnoc(list: seq<(string, nat)>, x: (string, nat))
    ensures SumCounts(list + [x]) == SumCounts(list) + x.1
    ensures forall ip :: CountOf(list + [x], ip) == CountOf(list, ip) + if x.0 == ip then x.1 else 0
  {
  }

  /** What the list says of one address. */
  function CountOf(list: seq<(string, nat)>, ip: string): nat {
    if list == [] then 0
    else CountOf(list[..|list| - 1], ip) + if list[|list| - 1].0 == ip then list[|list| - 1].1 else 0
  }

  /** Every address has its count, in the list or still to come. */
  ghost predicate ListedOrLeft(m: map<string, nat>, list: seq<(string, nat)>, todo: map<string, nat>) {
    forall ip :: CountOf(list, ip) + Get(todo, ip) == Get(m, ip)
  }

  /** The largest counts are in the list and the others still to come. */
  ghost predicate LargestFirst(list: seq<(string, nat)>, todo: map<string, nat>) {
    && Descending(list) && (forall i :: 0 <= i < |list| ==> list[i].0 !in todo)
    && (forall i, x :: 0 <= i < |list| && x in todo ==> list[i].1 >= todo[x])
  }

  lemma ListedNext(list: seq<(string, nat)>, todo: map<string, nat>, ip: string)
    requires LargestFirst(list, todo) && ip in todo && forall x <- todo :: todo[x] <= todo[ip]
    ensures LargestFirst(list + [(ip, todo[ip])], todo - {ip})
  {
  }

  lemma CountedNext(m: map<string, nat>, list: seq<(string, nat)>, todo: map<string, nat>, ip: string)
    requires ListedOrLeft(m, list, todo) && ip in todo
    ensures ListedOrLeft(m, list + [(ip, todo[ip])], todo - {ip})
  {
    forall x
      ensures CountOf(list + [(ip, todo[ip])], x) + Get(todo - {ip}, x) == Get(m, x)
    {
      SumCountsSnoc(list, (ip, todo[ip]));
      assert CountOf(list, x) + Get(todo, x) == Get(m, x);
    }
  }

  /** The addresses with their counts, the largest count first. */
  method ListByCount(m: map<string, nat>) returns (list: seq<(string, nat)>)
    ensures SumCounts(list) == Sum(m) && Descending(list) && forall ip :: CountOf(list, ip) == Get(m, ip)
  {
    list := [];
    var todo := m;
    while todo != map[]
      invariant SumCounts(list) + Sum(todo) == Sum(m)
      invariant ListedOrLeft(m, list, todo) && LargestFirst(list, todo)
      decreases todo.Keys
    {
      var ip := PickLargest(todo);
      SumRemove(todo, ip);
      SumCountsSnoc(list, (ip, todo[ip]));
      CountedNext(m, list, todo, ip);
      ListedNext(list, todo, ip);
      list := list + [(ip, todo[ip])];
      todo := todo - {ip};
    }
  }

  /** The minutes after `since` that have a bucket. */
  ghost function Seen(m: map<Minute, Bucket>, since: int): iset<Minute> {
    iset key | key in m && EndsAfter(key, since)
  }

  /** The overflow of the minutes after `since`. */
  ghost function Overflow(m: map<Minute, Bucket>, since: int): map<Minute, nat> {
    map key | key in m && EndsAfter(key, since) :: m[key].overflow
  }

  /** The bucket holds the events of its minute; an address it lists, it counts in full. */
  ghost predicate IsCount(b: Bucket, key: Minute, log: seq<Event>, kind: Kind) {
    && Size(b) == CountIn(log, All(kind), iset{key})
    && forall ip :: CountsAddress(b, ip, key, log, kind)
  }

  ghost predicate CountsAddress(b: Bucket, ip: string, key: Minute, log: seq<Event>, kind: Kind) {
    if ip in b.ips then b.ips[ip] == CountIn(log, One(kind, ip), iset{key})
    else b.overflow == 0 ==> CountIn(log, One(kind, ip), iset{key}) == 0
  }

  ghost predicate Holds(m: map<Minute, Bucket>, since: int, log: seq<Event>, kind: Kind) {
    forall key <- m :: EndsAfter(key, since) ==> IsCount(m[key], key, log, kind)
  }

  /** Merged counts never exceed what the log has, and match it when nothing was dropped. */
  ghost predicate CountsAddresses(merged: map<string, nat>, dropped: nat, log: seq<Event>, kind: Kind, keys: iset<Minute>) {
    forall ip :: CountIsFair(Get(merged, ip), ip, dropped, log, kind, keys)
  }

  ghost predicate CountIsFair(count: nat, ip: string, dropped: nat, log: seq<Event>, kind: Kind, keys: iset<Minute>) {
    count <= CountIn(log, One(kind, ip), keys) && (dropped == 0 ==> count == CountIn(log, One(kind, ip), keys))
  }

  lemma MergedIsFair(merged: map<string, nat>, more: map<string, nat>, dropped: nat, b: Bucket, key: Minute,
                     log: seq<Event>, kind: Kind, done: iset<Minute>)
    requires CountsAddresses(merged, dropped, log, kind, done) && key !in done && IsCount(b, key, log, kind)
    requires forall ip :: Get(more, ip) == Get(merged, ip) + Get(b.ips, ip)
    ensures CountsAddresses(more, dropped + b.overflow, log, kind, done + iset{key})
  {
    forall ip
      ensures CountIsFair(Get(more, ip), ip, dropped + b.overflow, log, kind, done + iset{key})
    {
      assert CountIsFair(Get(merged, ip), ip, dropped, log, kind, done);
      assert CountsAddress(b, ip, key, log, kind);
      CountInSplit(log, One(kind, ip), done, iset{key});
    }
  }

  lemma NothingCounted(log: seq<Event>, kind: Kind)
    ensures CountIn(log, All(kind), iset{}) == 0 && CountsAddresses(map[], 0, log, kind, iset{})
  {
  }

  ghost predicate CountsAll(total: nat, merged: map<string, nat>, dropped: nat, log: seq<Event>, kind: Kind, keys: iset<Minute>) {
    total == CountIn(log, All(kind), keys) && CountsAddresses(merged, dropped, log, kind, keys)
  }

  lemma CollectNext(m: map<Minute, Bucket>, since: int, key: Minute, total: nat, merged: map<string, nat>, more: map<string, nat>,
                    dropped: nat, log: seq<Event>, kind: Kind, done: iset<Minute>)
    requires key in m && EndsAfter(key, since) && key !in done
    requires Holds(m, since, log, kind) ==> CountsAll(total, merged, dropped, log, kind, done)
    requires forall ip :: Get(more, ip) == Get(merged, ip) + Get(m[key].ips, ip)
    ensures Holds(m, since, log, kind) ==>
              CountsAll(total + Size(m[key]), more, dropped + m[key].overflow, log, kind, done + iset{key})
  {
    if Holds(m, since, log, kind) {
      assert IsCount(m[key], key, log, kind);
      MergedIsFair(merged, more, dropped, m[key], key, log, kind, done);
      CountInSplit(log, All(kind), done, iset{key});
    }
  }

  /** Goes over the buckets once; what they hold is what the log has in their minutes. */
  method Collect(m: map<Minute, Bucket>, since: int, ghost log: seq<Event>, ghost kind: Kind)
    returns (total: nat, merged: map<string, nat>, lastBucket: int)
    ensures total == Sum(merged) + Sum(Overflow(m, since))
    ensures Holds(m, since, log, kind) ==>
              CountsAll(total, merged, Sum(Overflow(m, since)), log, kind, Seen(m, since))
    ensures lastBucket >= 0 && forall key <- m :: EndsAfter(key, since) ==> key.start <= lastBucket
    ensures lastBucket != 0 ==> Minute(lastBucket) in m && EndsAfter(Minute(lastBucket), since)
  {
    total, merged, lastBucket := 0, map[], 0;
    ghost var done: iset<Minute>, dropped: nat, rest := iset{}, 0, Overflow(m, since);
    NothingCounted(log, kind);
    var left := m.Keys;
    while left != {}
      invariant left <= m.Keys
      invariant forall key :: key in done <==> key in m && key !in left && EndsAfter(key, since)
      invariant rest == map key | key in left && EndsAfter(key, since) :: m[key].overflow
      invariant total == Sum(merged) + dropped && dropped + Sum(rest) == Sum(Overflow(m, since))
      invariant Holds(m, since, log, kind) ==> CountsAll(total, merged, dropped, log, kind, done)
      invariant lastBucket >= 0 && forall key <- done :: key.start <= lastBucket
      invariant lastBucket != 0 ==> Minute(lastBucket) in done
      decreases left
    {
      var key :| key in left;
      left := left - {key};
      if key.start + BUCKET_MS <= since {
        continue;
      }
      var bucket := m[key];
      var more, added := MergeBucket(merged, bucket.ips);
      SumRemove(rest, key);
      assert bucket.overflow == rest[key];
      CollectNext(m, since, key, total, merged, more, dropped, log, kind, done);
      merged, total, dropped, rest := more, total + added + bucket.overflow, dropped + bucket.overflow, rest - {key};
      if key.start > lastBucket {
        lastBucket := key.start;
      }
      done := done + iset{key};
    }
    assert done == Seen(m, since);
  }

  /** The bucket after one more request from `id`. */
  function CountOne(b: Bucket, id: string): (r: Bucket)
    ensures |b.ips| <= MAX_IPS_PER_BUCKET ==> |r.ips| <= MAX_IPS_PER_BUCKET
    ensures b.ips.Keys <= r.ips.Keys && (r.overflow > b.overflow ==> |r.ips| >= MAX_IPS_PER_BUCKET)
  {
    if id in b.ips then
      assert b.ips[id := b.ips[id] + 1].Keys == b.ips.Keys;
      b.(ips := b.ips[id := b.ips[id] + 1])
    else if |b.ips| < MAX_IPS_PER_BUCKET then b.(ips := b.ips[id := 1])
    else b.(overflow := b.overflow + 1)
  }

  lemma CountOneAddsOne(b: Bucket, id: string)
    ensures Size(CountOne(b, id)) == Size(b) + 1
  {
    var ips := b.ips[id := Get(b.ips, id) + 1];
    SumUpdate(b.ips, id, Get(b.ips, id) + 1);
    assert Sum(ips) == Sum(b.ips) + 1;
    if id in b.ips {
      assert CountOne(b, id) == b.(ips := ips);
    } else if |b.ips| < MAX_IPS_PER_BUCKET {
      assert CountOne(b, id) == b.(ips := ips);
    }
  }

  // -------------------------------------------------------- buckets against events

  function BucketAt(m: map<Minute, Bucket>, key: Minute): Bucket {
    if key in m then m[key] else Bucket(map[], 0)
  }

  /** Whatever ended by the horizon may have been dropped; with none, nothing has. */
  predicate Retained(key: Minute, horizon: Option<int>) {
    horizon.Some? ==> EndsAfter(key, horizon.value)
  }

  ghost predicate AllRetained(m: map<Minute, Bucket>, horizon: Option<int>) {
    forall key <- m :: Retained(key, horizon)
  }

  function Later(horizon: Option<int>, t: int): int {
    if horizon.Some? && t < horizon.value then horizon.value else t
  }

  /** Nothing that ended after the horizon is missing. */
  ghost predicate Exact(m: map<Minute, Bucket>, log: seq<Event>, kind: Kind, horizon: Option<int>) {
    forall key :: Retained(key, horizon) ==> IsCount(BucketAt(m, key), key, log, kind)
  }

  /** No bucket holds too many addresses, only a full one overflows, and every bucket holds an event. */
  ghost predicate Bounded(m: map<Minute, Bucket>) {
    forall key <- m :: |m[key].ips| <= MAX_IPS_PER_BUCKET && Size(m[key]) > 0
                       && (m[key].overflow > 0 ==> |m[key].ips| == MAX_IPS_PER_BUCKET)
  }

  ghost predicate Good(m: map<Minute, Bucket>, log: seq<Event>, kind: Kind, horizon: Option<int>) {
    Exact(m, log, kind, horizon) && Bounded(m) && AllRetained(m, horizon)
  }

  lemma LivePartIsGood(r: map<Minute, Bucket>, m: map<Minute, Bucket>, limit: int, log: seq<Event>, kind: Kind, horizon: Option<int>)
    requires Good(m, log, kind, horizon) && IsLivePart(r, m, limit)
    ensures Good(r, log, kind, Some(Later(horizon, limit)))
  {
    forall key | EndsAfter(key, limit) && Retained(key, horizon)
      ensures IsCount(BucketAt(r, key), key, log, kind)
    {
      assert BucketAt(r, key) == BucketAt(m, key);
    }
  }

  method PruneKind(m: map<Minute, Bucket>, limit: int, ghost log: seq<Event>, ghost kind: Kind, ghost horizon: Option<int>)
    returns (r: map<Minute, Bucket>)
    requires Good(m, log, kind, horizon)
    ensures Good(r, log, kind, Some(Later(horizon, limit)))
    ensures forall key <- r :: EndsAfter(key, limit)
  {
    r := DeleteEnded(m, limit);
    LivePartIsGood(r, m, limit, log, kind, horizon);
  }

  /** The buckets with one more request counted. */
  function Counted(m: map<Minute, Bucket>, key: Minute, id: string): map<Minute, Bucket> {
    m[key := CountOne(BucketAt(m, key), id)]
  }

  lemma CountedIsCount(b: Bucket, e: Event, log: seq<Event>)
    requires IsCount(b, BucketKey(e.at), log, e.kind) && (b.overflow > 0 ==> |b.ips| >= MAX_IPS_PER_BUCKET)
    ensures IsCount(CountOne(b, e.id), BucketKey(e.at), log + [e], e.kind)
  {
    var key := BucketKey(e.at);
    CountOneAddsOne(b, e.id);
    CountInSnoc(log, e, All(e.kind), key);
    forall ip
      ensures CountsAddress(CountOne(b, e.id), ip, key, log + [e], e.kind)
    {
      assert CountsAddress(b, ip, key, log, e.kind);
      CountInSnoc(log, e, One(e.kind, ip), key);
    }
  }

  /** An event of another minute or another kind leaves a bucket exact. */
  lemma OthersCountStays(b: Bucket, key: Minute, e: Event, log: seq<Event>, kind: Kind)
    requires IsCount(b, key, log, kind) && (e.kind != kind || BucketKey(e.at) != key)
    ensures IsCount(b, key, log + [e], kind)
  {
    CountInSnoc(log, e, All(kind), key);
    forall ip
      ensures CountsAddress(b, ip, key, log + [e], kind)
    {
      assert CountsAddress(b, ip, key, log, kind);
      CountInSnoc(log, e, One(kind, ip), key);
    }
  }

  lemma EmptyBucket()
    ensures Size(Bucket(map[], 0)) == 0
  {
  }

  lemma CountedIsGood(m: map<Minute, Bucket>, e: Event, log: seq<Event>, horizon: Option<int>)
    requires Good(m, log, e.kind, horizon) && Retained(BucketKey(e.at), horizon)
    ensures Good(Counted(m, BucketKey(e.at), e.id), log + [e], e.kind, horizon)
  {
    var key := BucketKey(e.at);
    var m' := Counted(m, key, e.id);
    CountOneAddsOne(BucketAt(m, key), e.id);
    forall x | Retained(x, horizon)
      ensures IsCount(BucketAt(m', x), x, log + [e], e.kind)
    {
      assert IsCount(BucketAt(m, x), x, log, e.kind);
      if x == key {
        CountedIsCount(BucketAt(m, key), e, log);
      } else {
        OthersCountStays(BucketAt(m, x), x, e, log, e.kind);
      }
    }
  }

  lemma OtherKindIsGood(m: map<Minute, Bucket>, e: Event, log: seq<Event>, kind: Kind, horizon: Option<int>)
    requires Good(m, log, kind, horizon) && e.kind != kind
    ensures Good(m, log + [e], kind, horizon)
  {
    forall x | Retained(x, horizon)
      ensures IsCount(BucketAt(m, x), x, log + [e], kind)
    {
      OthersCountStays(BucketAt(m, x), x, e, log, kind);
    }
  }

  /** After the horizon the buckets hold every event there is. */
  lemma GoodBucketsHold(m: map<Minute, Bucket>, log: seq<Event>, kind: Kind, horizon: Option<int>, since: int)
    requires Good(m, log, kind, horizon) && Later(horizon, since) == since
    ensures Holds(m, since, log, kind)
    ensures forall e <- log | e.kind == kind && EndsAfter(BucketKey(e.at), since) :: BucketKey(e.at) in m
    ensures forall key <- m :: EndsAfter(key, since) ==> exists e :: e in log && e.kind == kind && BucketKey(e.at) == key
  {
    forall key | key in m && EndsAfter(key, since)
      ensures IsCount(m[key], key, log, kind)
      ensures exists e :: e in log && e.kind == kind && BucketKey(e.at) == key
    {
      assert IsCount(BucketAt(m, key), key, log, kind);
      CountInPositive(log, All(kind), iset{key});
    }
    forall e | e in log && e.kind == kind && EndsAfter(BucketKey(e.at), since)
      ensures BucketKey(e.at) in m
    {
      var key := BucketKey(e.at);
      CountInPositive(log, All(kind), iset{key});
      assert Selects(All(kind), e);
      assert IsCount(BucketAt(m, key), key, log, kind);
      EmptyBucket();
    }
  }

  /** So the minutes with a bucket count for all minutes after `since`, within a minute of the exact span. */
  lemma SeenCoversWindow(m: map<Minute, Bucket>, since: int, log: seq<Event>, f: Selection)
    requires forall e <- log | e.kind == f.kind && EndsAfter(BucketKey(e.at), since) :: BucketKey(e.at) in m
    ensures CountFrom(log, f, since) <= CountIn(log, f, Seen(m, since)) <= CountFrom(log, f, since - BUCKET_MS + 1)
  {
    CountInSame(log, f, Seen(m, since), After(since));
    MinutesCoverWindow(log, f, since);
  }

  // ------------------------------------------------------------------- the counter

  datatype Summary = Summary(total: nat, ips: seq<(string, nat)>, lastEventAt: Option<int>)

  /** The listed counts and the overflow of the minutes counted add up to the total. */
  ghost predicate Adds(s: Summary, m: map<Minute, Bucket>, since: int) {
    s.total == SumCounts(s.ips) + Sum(Overflow(m, since)) && Descending(s.ips)
  }

  /**
   * The total is at least the events since `since`, and at most those of one minute
   * more; the last event reported is in the minute of the last one there is.
   */
  ghost predicate Covers(s: Summary, log: seq<Event>, kind: Kind, since: int) {
    && CountFrom(log, All(kind), since) <= s.total <= CountFrom(log, All(kind), since - BUCKET_MS + 1)
    && (forall ip :: CoversAddress(s, ip, log, kind, since))
    && (s.lastEventAt.Some? ==> exists e :: e in log && e.kind == kind && BucketKey(e.at) == Minute(s.lastEventAt.value))
    && forall e <- log | e.kind == kind && e.at >= since ::
         BucketKey(e.at).start <= if s.lastEventAt.Some? then s.lastEventAt.value else 0
  }

  /** No address is charged with more than it sent, nor, when the list makes up the total, with less. */
  ghost predicate CoversAddress(s: Summary, ip: string, log: seq<Event>, kind: Kind, since: int) {
    && CountOf(s.ips, ip) <= CountFrom(log, One(kind, ip), since - BUCKET_MS + 1)
    && (SumCounts(s.ips) == s.total ==> CountOf(s.ips, ip) >= CountFrom(log, One(kind, ip), since))
  }

  lemma CountsCover(s: Summary, merged: map<string, nat>, m: map<Minute, Bucket>, from: int, log: seq<Event>, kind: Kind)
    requires CountsAll(s.total, merged, Sum(Overflow(m, from)), log, kind, Seen(m, from)) && Adds(s, m, from)
    requires forall ip :: CountOf(s.ips, ip) == Get(merged, ip)
    requires forall e <- log | e.kind == kind && EndsAfter(BucketKey(e.at), from) :: BucketKey(e.at) in m
    ensures CountFrom(log, All(kind), from) <= s.total <= CountFrom(log, All(kind), from - BUCKET_MS + 1)
    ensures forall ip :: CoversAddress(s, ip, log, kind, from)
  {
    SeenCoversWindow(m, from, log, All(kind));
    forall ip
      ensures CoversAddress(s, ip, log, kind, from)
    {
      assert CountIsFair(Get(merged, ip), ip, Sum(Overflow(m, from)), log, kind, Seen(m, from));
      SeenCoversWindow(m, from, log, One(kind, ip));
    }
  }

  lemma LastCovers(m: map<Minute, Bucket>, from: int, lastBucket: int, log: seq<Event>, kind: Kind)
    requires forall key <- m :: EndsAfter(key, from) ==> key.start <= lastBucket
    requires forall e <- log | e.kind == kind && EndsAfter(BucketKey(e.at), from) :: BucketKey(e.at) in m
    ensures forall e <- log | e.kind == kind && e.at >= from :: BucketKey(e.at).start <= lastBucket
  {
    forall e | e in log && e.kind == kind && e.at >= from
      ensures BucketKey(e.at).start <= lastBucket
    {
      assert EndsAfter(BucketKey(e.at), from);
    }
  }

  /** Buckets that ended by the horizon are gone, so the report covers what comes after it. */
  method Report(m: map<Minute, Bucket>, since: int, ghost log: seq<Event>, ghost kind: Kind, ghost horizon: Option<int>)
    returns (s: Summary)
    requires Good(m, log, kind, horizon)
    ensures Adds(s, m, since)
    ensures Covers(s, log, kind, Later(horizon, since))
  {
    var total, merged, lastBucket := Collect(m, since, log, kind);
    var ips := ListByCount(merged);
    s := Summary(total, ips, if lastBucket != 0 then Some(lastBucket) else None);
    ghost var from := Later(horizon, since);
    assert Seen(m, since) == Seen(m, from) && Overflow(m, since) == Overflow(m, from);
    GoodBucketsHold(m, log, kind, horizon, from);
    CountsCover(s, merged, m, from, log, kind);
    LastCovers(m, from, lastBucket, log, kind);
  }

  /** Requests without a usable address are counted together. */
  function AddressOf(ip: Option<string>): string {
    if ip.Some? && Trim(ip.value) != "" then Trim(ip.value) else UNKNOWN_IP
  }

  type Buckets = map<Kind, map<Minute, Bucket>>

  function BucketsOf(buckets: Buckets, kind: Kind): map<Minute, Bucket> {
    if kind in buckets then buckets[kind] else map[]
  }

  ghost predicate Sound(buckets: Buckets, log: seq<Event>, horizon: Option<int>) {
    forall kind :: Good(BucketsOf(buckets, kind), log, kind, horizon)
  }

  lemma BothAreSound(a: map<Minute, Bucket>, b: map<Minute, Bucket>, log: seq<Event>, horizon: Option<int>)
    requires Good(a, log, Throttled, horizon) && Good(b, log, UnknownEmail, horizon)
    ensures Sound(map[Throttled := a, UnknownEmail := b], log, horizon)
  {
    var both := map[Throttled := a, UnknownEmail := b];
    forall kind
      ensures Good(BucketsOf(both, kind), log, kind, horizon)
    {
      match kind
      case Throttled => assert BucketsOf(both, kind) == a;
      case UnknownEmail => assert BucketsOf(both, kind) == b;
    }
  }

  lemma AddedIsSound(buckets: Buckets, e: Event, log: seq<Event>, horizon: Option<int>)
    requires Sound(buckets, log, horizon) && Retained(BucketKey(e.at), horizon)
    ensures Sound(buckets[e.kind := Counted(BucketsOf(buckets, e.kind), BucketKey(e.at), e.id)], log + [e], horizon)
  {
    var after := buckets[e.kind := Counted(BucketsOf(buckets, e.kind), BucketKey(e.at), e.id)];
    CountedIsGood(BucketsOf(buckets, e.kind), e, log, horizon);
    forall kind
      ensures Good(BucketsOf(after, kind), log + [e], kind, horizon)
    {
      if kind == e.kind {
        assert BucketsOf(after, kind) == Counted(BucketsOf(buckets, kind), BucketKey(e.at), e.id);
      } else {
        assert BucketsOf(after, kind) == BucketsOf(buckets, kind);
        OtherKindIsGood(BucketsOf(buckets, kind), e, log, kind, horizon);
      }
    }
  }

  class Counter {
    var buckets: Buckets
    var retentionMs: int

    /** Every event ever counted, the latest time, and up to when buckets have been dropped. */
    ghost var log: seq<Event>
    ghost var clock: int
    ghost var horizon: Option<int>

    function Of(kind: Kind): map<Minute, Bucket>
      reads this`buckets
    {
      BucketsOf(buckets, kind)
    }

    ghost predicate Valid()
      reads this
    {
      && Sound(buckets, log, horizon)
      && 0 <= retentionMs && Later(horizon, clock) == clock
    }

    /** Nothing younger than the retention has ever been dropped. */
    ghost predicate Whole()
      reads this
    {
      Later(horizon, clock - retentionMs) == clock - retentionMs
    }

    constructor (now: int)
      ensures Valid() && log == [] && clock == now && horizon == None
      ensures retentionMs == 90 * BUCKET_MS
    {
      buckets, retentionMs := map[], 90 * BUCKET_MS;
      log, clock, horizon := [], now, None;
    }

    /**
     * Keeps events five minutes longer than the longer of the two spans. Nothing is
     * missing from the new span when it is set before counting begins, or not widened.
     */
    method SetRetention(windowMinutes: nat, quietMinutes: nat)
      requires Valid()
      modifies this`retentionMs
      ensures Valid()
      ensures retentionMs >= (windowMinutes + 5) * BUCKET_MS && retentionMs >= (quietMinutes + 5) * BUCKET_MS
      ensures retentionMs == (windowMinutes + 5) * BUCKET_MS || retentionMs == (quietMinutes + 5) * BUCKET_MS
      ensures horizon.None? || (old(Whole()) && retentionMs <= old(retentionMs)) ==> Whole()
    {
      var longer := if windowMinutes < quietMinutes then quietMinutes else windowMinutes;
      retentionMs := (longer + 5) * BUCKET_MS;
    }

    /** Drops what has been kept long enough. */
    method Prune(now: int)
      requires Valid() && now >= clock
      modifies this`buckets, this`clock, this`horizon
      ensures Valid() && clock == now && (old(Whole()) ==> Whole())
      ensures horizon == Some(Later(old(horizon), now - retentionMs))
      ensures forall kind, key <- Of(kind) :: EndsAfter(key, now - retentionMs)
    {
      var limit := now - retentionMs;
      assert Good(Of(Throttled), log, Throttled, horizon) && Good(Of(UnknownEmail), log, UnknownEmail, horizon);
      var a := PruneKind(Of(Throttled), limit, log, Throttled, horizon);
      var b := PruneKind(Of(UnknownEmail), limit, log, UnknownEmail, horizon);
      buckets := map[Throttled := a, UnknownEmail := b];
      clock := now;
      horizon := Some(Later(horizon, limit));
      BothAreSound(a, b, log, horizon);
    }

    /** Counts one request; beyond the limit of addresses only the number is kept. */
    method Add(kind: Kind, ip: Option<string>, now: int)
      requires Valid() && now >= clock
      modifies this
      ensures Valid() && clock == now && log == old(log) + [Event(kind, now, AddressOf(ip))]
      ensures retentionMs == old(retentionMs) && (old(Whole()) ==> Whole())
      ensures horizon == Some(Later(old(horizon), now - retentionMs))
    {
      Prune(now);
      var byBucket := Of(kind);
      var key := BucketKey(now);
      var bucket := if key in byBucket then byBucket[key] else Bucket(map[], 0);
      var id := AddressOf(ip);
      ghost var e := Event(kind, now, id);
      AddedIsSound(buckets, e, log, horizon);
      buckets := buckets[kind := byBucket[key := CountOne(bucket, id)]];
      log := log + [e];
    }

    /**
     * The events of the last `windowMinutes` minutes, or of those since the horizon if
     * that is later. For a window within the retention it is not later, unless the
     * retention was widened after something had been dropped.
     */
    method Summarize(kind: Kind, windowMinutes: nat, now: int) returns (s: Summary)
      requires Valid() && now >= clock
      modifies this`buckets, this`clock, this`horizon
      ensures Valid() && clock == now && (old(Whole()) ==> Whole())
      ensures horizon == Some(Later(old(horizon), now - retentionMs))
      ensures Adds(s, Of(kind), now - windowMinutes * BUCKET_MS)
      ensures Covers(s, log, kind, Later(horizon, now - windowMinutes * BUCKET_MS))
      ensures old(Whole()) && windowMinutes * BUCKET_MS <= retentionMs ==>
                Covers(s, log, kind, now - windowMinutes * BUCKET_MS)
    {
      Prune(now);
      var byBucket := Of(kind);
      s := Report(byBucket, now - windowMinutes * BUCKET_MS, log, kind, horizon);
      assert Of(kind) == byBucket;
    }
  }
}
