/** Cleaning of caches that keep their entries in least-recently-used order, oldest first. */
module CacheCleaner {
  import opened Trimming

  /** An entry is stale from a point in time on. */
  datatype Entry = Entry(key: int, staleFrom: int)
  {
    predicate IsStale(now: int) { staleFrom <= now }
  }

  type Lru = seq<Entry>

  /** The first n entries have been looked at and the stale ones among them erased, `limit` at most. */
  function Scanned(entries: Lru, n: nat, limit: nat, now: int): (r: Lru)
    ensures |r| <= |entries| && |entries| - |r| <= limit
  {
    if n == 0 || entries == [] || limit == 0 then entries
    else if entries[0].IsStale(now) then Scanned(entries[1..], n - 1, limit - 1, now)
    else [entries[0]] + Scanned(entries[1..], n - 1, limit, now)
  }

  /** A scan that stands at i, with n entries left to look at, is on the way to this result. */
  ghost predicate Scanning(entries: Lru, i: nat, n: int, limit: int, now: int, swept: Lru) {
    0 <= n && 0 <= limit && i <= |entries| && entries[..i] + Scanned(entries[i..], n, limit, now) == swept
  }

  lemma {:induction false} ScanStart(entries: Lru, n: nat, limit: nat, now: int)
    ensures Scanning(entries, 0, n, limit, now, Scanned(entries, n, limit, now)) == true
  {
    assert entries[0..] == entries;
  }

  lemma ScanOn(entries: Lru, i: nat, n: nat, limit: nat, now: int, swept: Lru)
    requires Scanning(entries, i, n, limit, now, swept) && i < |entries| && n > 0 && limit > 0
    ensures if entries[i].IsStale(now) then Scanning(entries[..i] + entries[i + 1..], i, n - 1, limit - 1, now, swept) == true
            else Scanning(entries, i + 1, n - 1, limit, now, swept) == true
  {
    ScanStep(entries, i, n, limit, now);
  }

  lemma ScanEnd(entries: Lru, i: nat, n: nat, limit: nat, now: int, swept: Lru)
    requires Scanning(entries, i, n, limit, now, swept) && (i == |entries| || n == 0 || limit == 0)
    ensures entries == swept
  {
    assert entries[..i] + entries[i..] == entries;
  }

  /** The entries that are not stale, in their order. */
  function NotStale(entries: Lru, now: int): Lru {
    if entries == [] then []
    else if entries[0].IsStale(now) then NotStale(entries[1..], now)
    else [entries[0]] + NotStale(entries[1..], now)
  }

  /** How many entries a scan looks at: n, unless it comes to the end or to its limit before. */
  function LookedAt(entries: Lru, n: nat, limit: nat, now: int): (k: nat)
    ensures k <= n && k <= |entries|
  {
    if n == 0 || entries == [] || limit == 0 then 0
    else 1 + LookedAt(entries[1..], n - 1, if entries[0].IsStale(now) then limit - 1 else limit, now)
  }

  /** The first entry, and what is left of the rest when k of them have been looked at. */
  lemma {:induction false} NotStaleFront(entries: Lru, k: nat, now: int)
    requires k < |entries|
    ensures NotStale(entries[..k + 1], now) + entries[k + 1..]
            == (if entries[0].IsStale(now) then [] else [entries[0]]) + (NotStale(entries[1..][..k], now) + entries[1..][k..])
  {
    assert entries[..k + 1][0] == entries[0] && entries[..k + 1][1..] == entries[1..][..k] && entries[k + 1..] == entries[1..][k..];
  }

  /** What is left when k entries have been looked at: the stale ones among them are gone, and fewer
      than n only when the limit was reached or there are no more. */
  ghost predicate ScanLeaves(r: Lru, entries: Lru, n: nat, limit: nat, now: int, k: nat)
    requires k <= |entries|
  {
    r == NotStale(entries[..k], now) + entries[k..] && (k < n && k < |entries| ==> |entries| - |r| == limit)
  }

  lemma ScanLeavesNext(r: Lru, entries: Lru, n: nat, limit: nat, now: int, k: nat)
    requires n > 0 && entries != [] && limit > 0 && k < |entries|
    requires ScanLeaves(r, entries[1..], n - 1, if entries[0].IsStale(now) then limit - 1 else limit, now, k)
    ensures ScanLeaves(if entries[0].IsStale(now) then r else [entries[0]] + r, entries, n, limit, now, k + 1) == true
  {
    NotStaleFront(entries, k, now);
  }

  /** A scan erases just the stale ones among the entries it looks at. */
  lemma {:induction false} ScannedIs(entries: Lru, n: nat, limit: nat, now: int)
    ensures ScanLeaves(Scanned(entries, n, limit, now), entries, n, limit, now, LookedAt(entries, n, limit, now)) == true
  {
    if n == 0 || entries == [] || limit == 0 {
      assert entries[..0] == [] && entries[0..] == entries;
    } else {
      var rest, left := entries[1..], if entries[0].IsStale(now) then limit - 1 else limit;
      ScannedIs(rest, n - 1, left, now);
      ScanLeavesNext(Scanned(rest, n - 1, left, now), entries, n, limit, now, LookedAt(rest, n - 1, left, now));
    }
  }

  /** Filtering keeps every entry that is not stale as often as it is there, and no other. */
  lemma {:induction false} NotStaleKeeps(entries: Lru, now: int, e: Entry)
    ensures multiset(NotStale(entries, now))[e] == if e.IsStale(now) then 0 else multiset(entries)[e]
  {
    if entries != [] {
      NotStaleKeeps(entries[1..], now, e);
      assert entries == [entries[0]] + entries[1..];
    }
  }

  ghost function StaleIn(entries: Lru, now: int): nat {
    if entries == [] then 0 else StaleIn(entries[1..], now) + if entries[0].IsStale(now) then 1 else 0
  }

  lemma {:induction false} ScannedDropsStale(entries: Lru, n: nat, limit: nat, now: int)
    ensures |entries| - |Scanned(entries, n, limit, now)| <= StaleIn(entries, now)
  {
    if !(n == 0 || entries == [] || limit == 0) {
      ScannedDropsStale(entries[1..], n - 1, if entries[0].IsStale(now) then limit - 1 else limit, now);
    }
  }

  /** One step of a scan that stands at i. */
  lemma {:induction false} ScanStep(entries: Lru, i: nat, n: nat, limit: nat, now: int)
    requires i < |entries| && n > 0 && limit > 0
    ensures var left := entries[..i] + entries[i + 1..];
            entries[..i] + Scanned(entries[i..], n, limit, now)
            == if entries[i].IsStale(now) then left[..i] + Scanned(left[i..], n - 1, limit - 1, now)
               else entries[..i + 1] + Scanned(entries[i + 1..], n - 1, limit, now)
  {
    var left, rest := entries[..i] + entries[i + 1..], entries[i..];
    assert rest[0] == entries[i] && rest[1..] == entries[i + 1..] == left[i..] && left[..i] == entries[..i];
    assert entries[..i + 1] == entries[..i] + [entries[i]];
  }

  ghost function Sizes(shards: seq<Lru>): (r: seq<nat>)
    ensures |r| == |shards|
  {
    seq(|shards|, i requires 0 <= i < |shards| => |shards[i]|)
  }

  ghost function Total(shards: seq<Lru>): nat {
    Sum(Sizes(shards), 0)
  }

  /** What the first pass leaves of every shard. */
  ghost function Swept(entries: Lru, lookAt: nat, cacheSize: nat, now: int): Lru
    requires cacheSize > 0
  {
    Scanned(entries, Ceil(lookAt, |entries|, cacheSize) + 1, |entries|, now)
  }

  lemma TotalUpdate(shards: seq<Lru>, s: nat, left: Lru)
    requires s < |shards|
    ensures Total(shards[s := left]) == Total(shards) - |shards[s]| + |left|
  {
    SumUpdate(Sizes(shards), s, |left|, 0);
    assert Sizes(shards[s := left]) == Sizes(shards)[s := |left|];
  }

  ghost function StaleCounts(shards: seq<Lru>, now: int): (r: seq<nat>)
    ensures |r| == |shards|
  {
    seq(|shards|, i requires 0 <= i < |shards| => StaleIn(shards[i], now))
  }

  lemma {:induction false} SumWithin(a: seq<nat>, b: seq<nat>, c: seq<nat>, i: nat)
    requires i <= |a| == |b| == |c| && forall k | 0 <= k < |a| :: a[k] <= b[k] + c[k]
    ensures Sum(a, i) <= Sum(b, i) + Sum(c, i)
    decreases |a| - i
  {
    if i < |a| { SumWithin(a, b, c, i + 1); }
  }

  /** The first pass takes no more than was stale. */
  lemma SweptDropsStale(swept: seq<Lru>, shards: seq<Lru>, lookAt: nat, cacheSize: nat, now: int)
    requires cacheSize > 0 && SweptAll(swept, shards, lookAt, cacheSize, now)
    ensures Total(shards) - Total(swept) <= Sum(StaleCounts(shards, now), 0)
  {
    forall i | 0 <= i < |shards| ensures Sizes(shards)[i] <= Sizes(swept)[i] + StaleCounts(shards, now)[i] {
      ScannedDropsStale(shards[i], Ceil(lookAt, |shards[i]|, cacheSize) + 1, |shards[i]|, now);
    }
    SumWithin(Sizes(shards), Sizes(swept), StaleCounts(shards, now), 0);
  }

  /** Two stale entries where there is room for one: both are erased. */
  lemma EndsBelowMaximum()
    ensures var shards: seq<Lru> := [[Entry(1, 0), Entry(2, 0)]];
            var swept: seq<Lru> := [[]];
            && Total(shards) == 2 && SweptAll(swept, shards, LookAt(2, 1), 2, 0)
            && Total(swept) < 1 < Total(shards)
  {
    var shard: Lru := [Entry(1, 0), Entry(2, 0)];
    OneShard(shard);
    OneShard([]);
    AllStaleGo(shard, Ceil(LookAt(2, 1), |shard|, 2) + 1, 2, 0);
  }

  lemma OneShard(shard: Lru)
    ensures Total([shard]) == |shard|
  {
    assert Sum(Sizes([shard]), 1) == 0;
  }

  lemma {:induction false} AllStaleGo(entries: Lru, n: nat, limit: nat, now: int)
    requires n >= |entries| && limit >= |entries| && forall e | e in entries :: e.IsStale(now)
    ensures Scanned(entries, n, limit, now) == []
  {
    if entries != [] { AllStaleGo(entries[1..], n - 1, limit - 1, now); }
  }

  /** Every shard lost its share, the oldest entries first. */
  ghost predicate Trimmed(left: seq<Lru>, shards: seq<Lru>, trim: nat)
    requires trim <= Total(shards)
  {
    && |left| == |shards|
    && forall i {:trigger left[i]} | 0 <= i < |shards| :: left[i] == shards[i][Share(Sizes(shards), trim, i)..]
  }

  /** Nothing more, when no more than the maximum was left; or every shard lost its share of the rest. */
  ghost predicate TrimmedTo(left: seq<Lru>, shards: seq<Lru>, maximum: nat) {
    if Total(shards) <= maximum then left == shards else Trimmed(left, shards, Total(shards) - maximum)
  }

  lemma TrimmedBy(left: seq<Lru>, shards: seq<Lru>, maximum: nat, trim: nat)
    requires 0 < trim == Total(shards) - maximum && Trimmed(left, shards, trim)
    ensures TrimmedTo(left, shards, maximum) == true
  {}

  /** The first s shards have lost their shares. */
  ghost predicate SomeTrimmed(left: seq<Lru>, shards: seq<Lru>, trim: nat, s: nat)
    requires trim <= Total(shards)
  {
    && |left| == |shards|
    && (forall i {:trigger left[i]} | 0 <= i < s && i < |shards| :: left[i] == shards[i][Share(Sizes(shards), trim, i)..])
    && forall i {:trigger left[i]} | s <= i < |shards| :: left[i] == shards[i]
  }

  lemma NextTrimmed(left: seq<Lru>, shards: seq<Lru>, trim: nat, s: nat)
    requires trim <= Total(shards) && SomeTrimmed(left, shards, trim, s) && s < |shards|
    ensures left[s] == shards[s] && Sizes(shards)[s] == |left[s]|
    ensures SomeTrimmed(left[s := shards[s][Share(Sizes(shards), trim, s)..]], shards, trim, s + 1) == true
  {}

  /** Shards that are not reached have nothing to lose. */
  lemma {:induction false} AllTrimmed(left: seq<Lru>, shards: seq<Lru>, trim: nat, s: nat)
    requires trim <= Total(shards) && s <= |shards| && SomeTrimmed(left, shards, trim, s)
    requires s == |shards| || ToTrim(Sizes(shards), trim, s) == 0
    ensures Trimmed(left, shards, trim) == true && Total(left) == Total(shards) - trim
  {
    forall i | s <= i < |shards| ensures left[i] == shards[i][Share(Sizes(shards), trim, i)..] {
      NothingMore(Sizes(shards), trim, s, i);
    }
    TrimmedExactly(left, shards, trim);
  }

  /** The second pass erases exactly what it set out to erase. */
  lemma TrimmedExactly(left: seq<Lru>, shards: seq<Lru>, trim: nat)
    requires trim <= Total(shards) && Trimmed(left, shards, trim)
    ensures Total(left) == Total(shards) - trim
  {
    SharesExactly(Sizes(left), Sizes(shards), trim, 0);
  }

  // ---------------------------------------------------------------- one collection

  /** What the scan of one collection leaves: above the maximum it looks at five times what is too many
      and erases no more than that, and otherwise it looks at a fraction. */
  ghost function SweptOne(entries: Lru, now: int, maxCached: nat, scanFraction: nat): (r: Lru)
    requires scanFraction > 0
    ensures |entries| > maxCached ==> maxCached <= |r|
  {
    if |entries| > maxCached then Scanned(entries, 5 * (|entries| - maxCached), |entries| - maxCached, now)
    else Scanned(entries, |entries| / scanFraction, |entries|, now)
  }

  class Collection {
    var sequence: Lru

    /** pruneCollection; `now` is the time at the call. */
    method PruneCollection(now: int, maxCached: nat, scanFraction: nat)
      requires scanFraction > 0
      modifies this
      ensures |old(sequence)| > maxCached ==> |sequence| == maxCached
      ensures var swept := SweptOne(old(sequence), now, maxCached, scanFraction);
              sequence == if |old(sequence)| > maxCached then swept[|swept| - maxCached..] else swept
    {
      var toTrim := 0;
      var cacheSize := |sequence|;
      if cacheSize > maxCached { toTrim := cacheSize - maxCached; }
      var lookAt := if toTrim != 0 then 5 * toTrim else cacheSize / scanFraction;
      var erased := ScanSome(lookAt, toTrim, now);
      if erased >= toTrim { return; }
      DropOldest(toTrim - erased);
    }

    method DropOldest(toTrim: nat)
      requires toTrim <= |sequence|
      modifies this
      ensures sequence == old(sequence)[toTrim..]
    {
      ghost var swept := sequence;
      var removed := 0;
      while removed < toTrim && sequence != []
        invariant removed <= toTrim <= |swept| && sequence == swept[removed..]
      {
        assert swept[removed..][1..] == swept[removed + 1..];
        sequence := sequence[1..];
        removed := removed + 1;
      }
    }

    /** Looks at the oldest entries and erases the stale ones, `toTrim` at most unless that is zero. */
    method ScanSome(lookAt: nat, toTrim: nat, now: int) returns (erased: nat)
      modifies this
      ensures sequence == Scanned(old(sequence), lookAt, if toTrim != 0 then toTrim else |old(sequence)|, now)
      ensures erased == |old(sequence)| - |sequence|
    {
      ghost var limit := if toTrim != 0 then toTrim else |sequence|;
      ghost var swept := Scanned(sequence, lookAt, limit, now);
      var tried, i := 0, 0;
      erased := 0;
      ScanStart(sequence, lookAt, limit, now);
      while i != |sequence| && tried < lookAt
        invariant 0 <= i <= |sequence| && 0 <= tried <= lookAt && erased <= limit && erased == |old(sequence)| - |sequence|
        invariant Scanning(sequence, i, lookAt - tried, limit - erased, now, swept) == true
        invariant toTrim != 0 ==> erased < toTrim
        decreases lookAt - tried
      {
        ScanOn(sequence, i, lookAt - tried, limit - erased, now, swept);
        if sequence[i].IsStale(now) {
          sequence := sequence[..i] + sequence[i + 1..];
          erased := erased + 1;
        } else {
          i := i + 1;
        }
        tried := tried + 1;
        if toTrim != 0 && erased >= toTrim { break; }
      }
      ScanEnd(sequence, i, lookAt - tried, limit - erased, now, swept);
    }
  }

  // ---------------------------------------------------------------- many shards

  class ShardedCollection {
    var maps: seq<Lru>
    var counts: seq<nat>

    /** Every shard's counter is its size. */
    ghost predicate Counted()
      reads this
    {
      |counts| == |maps| && forall i | 0 <= i < |maps| :: counts[i] == |maps[i]|
    }

    /** The first pass. */
    method SweepAll(lookAt: nat, cacheSize: nat, now: int) returns (totErased: nat)
      requires Counted() && cacheSize > 0
      modifies this
      ensures Counted() && SweptAll(maps, old(maps), lookAt, cacheSize, now) == true
      ensures totErased == Total(old(maps)) - Total(maps)
    {
      totErased := 0;
      for s := 0 to |maps|
        invariant Counted() && |maps| == |old(maps)|
        invariant forall i | 0 <= i < s :: maps[i] == Swept(old(maps)[i], lookAt, cacheSize, now)
        invariant forall i | s <= i < |maps| :: maps[i] == old(maps)[i]
        invariant totErased == Total(old(maps)) - Total(maps)
      {
        var left, erased := Sweep(maps[s], Ceil(lookAt, |maps[s]|, cacheSize), now);
        TotalUpdate(maps, s, left);
        maps := maps[s := left];
        counts := counts[s := counts[s] - erased];
        totErased := totErased + erased;
      }
    }

    /** The second pass. */
    method TrimAll(trim: nat, size: nat) returns (totErased: nat)
      requires Counted() && 0 < trim <= size == Total(maps)
      modifies this
      ensures Counted() && totErased == trim
      ensures Trimmed(maps, old(maps), trim) == true && Total(maps) == size - trim
    {
      var toTrim, cacheSize := trim, size;
      ghost var was, sizes := maps, Sizes(maps);
      totErased := 0;
      for s := 0 to |maps|
        invariant Counted() == true && |maps| == |was|
        invariant SomeTrimmed(maps, was, trim, s) == true
        invariant 0 < toTrim == ToTrim(sizes, trim, s) && cacheSize == Sum(sizes, s)
        invariant totErased == trim - toTrim
      {
        NextTrimmed(maps, was, trim, s);
        var t, shardSize := TrimShard(s, toTrim, cacheSize);
        assert t == Share(sizes, trim, s);
        cacheSize := cacheSize - shardSize;
        totErased := totErased + t;
        toTrim := toTrim - t;
        if toTrim == 0 {
          AllTrimmed(maps, was, trim, s + 1);
          return;
        }
      }
      // what was still to go was among what was left, so the last shard has given it up
      assert false;
    }

    /** One shard of it.  The divisor is not zero: there is something to trim, and it is among what is
        left. */
    method TrimShard(s: nat, toTrim: nat, cacheSize: nat) returns (t: nat, shardSize: nat)
      requires Counted() && s < |maps| && |maps[s]| <= cacheSize && 0 < toTrim <= cacheSize
      modifies this
      ensures shardSize == |old(maps)[s]| && t == ShareOf(toTrim, shardSize, cacheSize)
      ensures Counted() == true && maps == old(maps)[s := old(maps)[s][t..]]
    {
      shardSize := |maps[s]|;
      t := Round(toTrim, shardSize, cacheSize);
      FairShare(toTrim, shardSize, cacheSize);
      if t == 0 { return; }
      maps := maps[s := maps[s][t..]];
      counts := counts[s := counts[s] - t];
    }

    /** pruneMutexCollectionsVector: with the right total, what is left is never more than the
        maximum, and exactly the maximum unless the first pass alone erased enough.  That takes more
        stale entries than there are too many. */
    method PruneMutexCollectionsVector(now: int, maxCached: nat, cacheSize: nat) returns (totErased: nat, ghost swept: seq<Lru>)
      requires Counted() && cacheSize == Total(maps)
      modifies this
      ensures Counted() && totErased == cacheSize - Total(maps)
      ensures cacheSize == 0 ==> maps == old(maps) == swept
      ensures cacheSize > 0 ==> SweptAll(swept, old(maps), LookAt(cacheSize, maxCached), cacheSize, now)
      ensures TrimmedTo(maps, swept, maxCached)
      ensures Total(maps) == if Total(swept) <= maxCached then Total(swept) else maxCached
      ensures Total(maps) < maxCached < cacheSize ==> Sum(StaleCounts(old(maps), now), 0) > cacheSize - maxCached
    {
      var toTrim := if cacheSize > maxCached then cacheSize - maxCached else 0;
      var lookAt := LookAt(cacheSize, maxCached);
      totErased := 0;
      swept := maps;
      if |maps| == 0 || cacheSize == 0 { return; }
      totErased := SweepAll(lookAt, cacheSize, now);
      SweptDropsStale(maps, swept, lookAt, cacheSize, now);
      swept := maps;
      if totErased >= toTrim { return; }
      var trim := toTrim - totErased;
      var more := TrimAll(trim, cacheSize - totErased);
      TrimmedBy(maps, swept, maxCached, trim);
      totErased := totErased + more;
    }
  }

  ghost predicate SweptAll(left: seq<Lru>, shards: seq<Lru>, lookAt: nat, cacheSize: nat, now: int)
    requires cacheSize > 0
  {
    |left| == |shards| && forall i | 0 <= i < |shards| :: left[i] == Swept(shards[i], lookAt, cacheSize, now)
  }

  /** How many entries the first pass looks at in all: five for each that is too many, but at least a
      tenth of all, less the fraction. */
  function LookAt(cacheSize: nat, maxCached: nat): (r: nat)
    ensures 5 * (cacheSize - maxCached) <= r && cacheSize < 10 * (r + 1)
    ensures r == 5 * (cacheSize - maxCached) || 10 * r <= cacheSize
  {
    if cacheSize <= maxCached then cacheSize / 10
    else if 5 * (cacheSize - maxCached) < cacheSize / 10 then cacheSize / 10
    else 5 * (cacheSize - maxCached)
  }

  /** One shard of the first pass: entries are looked at until one more than the share has been. */
  method Sweep(entries: Lru, toScan: nat, now: int) returns (left: Lru, erased: nat)
    ensures left == Scanned(entries, toScan + 1, |entries|, now) && erased == |entries| - |left|
  {
    left, erased := entries, 0;
    var i, lookedAt := 0, 0;
    ghost var n, swept := toScan + 1, Scanned(entries, toScan + 1, |entries|, now);
    ScanStart(entries, n, |entries|, now);
    while i != |left|
      invariant 0 <= i <= |left| && 0 <= lookedAt <= toScan && erased == |entries| - |left| && n == toScan + 1 - lookedAt
      invariant Scanning(left, i, n, |entries| - erased, now, swept) == true
      decreases toScan - lookedAt
    {
      ScanOn(left, i, n, |entries| - erased, now, swept);
      n := n - 1;
      if left[i].IsStale(now) {
        left := left[..i] + left[i + 1..];
        erased := erased + 1;
      } else {
        i := i + 1;
      }
      if lookedAt >= toScan { break; }
      lookedAt := lookedAt + 1;
    }
    ScanEnd(left, i, n, |entries| - erased, now, swept);
  }
}
