/** The aggressive NSEC cache: zones of entries under one global count, searched by canonical
    predecessor and trimmed in least-recently-used order. */
module NsecCache {
  import opened DnsName
  import opened CanonicalOrder
  import opened NsecZone
  import opened Trimming
  import opened PositionArrays
  import opened LabelVisitor
  import HashPrefix
  import SuffixTree

  datatype Zone = Zone(name: Labels, nsec3: bool, salt: int, iterations: nat, entries: Entries)

  /** What an NSEC or NSEC3 record says.  `next` of an NSEC3 record is the owner name of the next hash. */
  datatype Content = NSEC(next: Labels)
                   | NSEC3(optOut: bool, iterations: nat, salt: int, nextHash: Bytes, next: Labels)

  /** The configured limits: on the iterations of a hash, and on the bits its range may share. */
  datatype Limits = Limits(iterations: nat, commonPrefix: nat)

  // ---------------------------------------------------------------- one zone

  /** isMinimallyCoveringNSEC: the next name is the owner with a label of one zero octet before it. */
  predicate IsMinimallyCovering(owner: Labels, next: Labels) {
    next == [[0]] + owner
  }

  /** The position of the entry with this owner. */
  function Position(entries: Entries, owner: Labels, i: nat): (r: nat)
    requires i <= |entries|
    ensures i <= r <= |entries|
    ensures forall k | i <= k < r :: Canon(entries[k].owner, owner) != 0
    ensures r < |entries| ==> Canon(entries[r].owner, owner) == 0
    decreases |entries| - i
  {
    if i == |entries| || Canon(entries[i].owner, owner) == 0 then i else Position(entries, owner, i + 1)
  }

  /** insert, then replace when the owner is there already: a replaced entry keeps its turn. */
  function Put(entries: Entries, e: CacheEntry): (r: Entries)
    ensures e in r && |r| == |entries| + if Position(entries, e.owner, 0) == |entries| then 1 else 0
  {
    var at := Position(entries, e.owner, 0);
    if at == |entries| then
      assert (entries + [e])[|entries|] == e;
      entries + [e]
    else
      assert entries[at := e][at] == e;
      entries[at := e]
  }

  lemma CanonSame(a: Labels, b: Labels, c: Labels)
    requires Canon(a, b) == 0
    ensures Canon(a, c) == 0 <==> Canon(b, c) == 0
    ensures Canon(c, a) == 0 <==> Canon(c, b) == 0
  {
    CanonFlips(a, b, 0);
    CanonFlips(a, c, 0);
    CanonFlips(b, c, 0);
    if Canon(a, c) == 0 { CanonTransitive(b, a, c, 0); CanonTransitive(c, a, b, 0); }
    if Canon(b, c) == 0 { CanonTransitive(a, b, c, 0); CanonTransitive(c, b, a, 0); }
  }

  /** A new owner is appended, as the youngest entry; one that is there keeps its turn.  No other entry
      changes or moves. */
  lemma PutPlaces(entries: Entries, e: CacheEntry)
    requires Unique(entries)
    ensures (forall k | 0 <= k < |entries| :: Canon(entries[k].owner, e.owner) != 0) ==> Put(entries, e) == entries + [e]
    ensures forall k | 0 <= k < |entries| && Canon(entries[k].owner, e.owner) == 0 :: Put(entries, e) == entries[k := e]
  {
    var at := Position(entries, e.owner, 0);
    forall k | 0 <= k < |entries| && Canon(entries[k].owner, e.owner) == 0 ensures k == at {
      CanonSame(entries[k].owner, e.owner, entries[at].owner);
    }
  }

  lemma PutUnique(entries: Entries, e: CacheEntry)
    requires Unique(entries)
    ensures Unique(Put(entries, e))
  {
    var at, r := Position(entries, e.owner, 0), Put(entries, e);
    forall i, j | 0 <= i < j < |r| ensures Canon(r[i].owner, r[j].owner) != 0 {
      if at < |entries| {
        CanonSame(entries[at].owner, e.owner, r[i].owner);
        CanonSame(entries[at].owner, e.owner, r[j].owner);
        assert Canon(entries[i].owner, entries[j].owner) != 0;
      } else if j == |entries| {
        assert Canon(entries[i].owner, e.owner) != 0;
      } else {
        assert Canon(entries[i].owner, entries[j].owner) != 0;
      }
    }
  }

  /** The first n entries have been looked at and the expired ones among them erased. */
  function Fresh(entries: Entries, n: nat, now: int): (r: Entries)
    ensures |r| <= |entries|
  {
    if n == 0 || entries == [] then entries
    else if entries[0].ttd <= now then Fresh(entries[1..], n - 1, now)
    else [entries[0]] + Fresh(entries[1..], n - 1, now)
  }

  /** The entries that have not expired, in their order. */
  function Unexpired(entries: Entries, now: int): Entries {
    if entries == [] then []
    else if entries[0].ttd <= now then Unexpired(entries[1..], now)
    else [entries[0]] + Unexpired(entries[1..], now)
  }

  /** Of the first n entries just the expired ones go; the others are as they were. */
  lemma {:induction false} FreshIs(entries: Entries, n: nat, now: int)
    ensures var k := if n < |entries| then n else |entries|;
            Fresh(entries, n, now) == Unexpired(entries[..k], now) + entries[k..]
  {
    if n > 0 && entries != [] {
      var rest := entries[1..];
      FreshIs(rest, n - 1, now);
      var k := if n < |entries| then n else |entries|;
      assert entries[..k][0] == entries[0] && entries[..k][1..] == rest[..k - 1] && entries[k..] == rest[k - 1..];
    }
  }

  /** Filtering keeps every entry that has not expired as often as it is there, and no other. */
  lemma {:induction false} UnexpiredKeeps(entries: Entries, now: int, e: CacheEntry)
    ensures multiset(Unexpired(entries, now))[e] == if e.ttd <= now then 0 else multiset(entries)[e]
  {
    if entries != [] {
      UnexpiredKeeps(entries[1..], now, e);
      assert entries == [entries[0]] + entries[1..];
    }
  }

  /** Of every zone a tenth is looked at, the fraction counted as one. */
  function Tenth(size: nat): (r: nat)
    ensures size <= 10 * r < size + 10
  {
    (size + 9) / 10
  }

  lemma {:induction false} FreshUnique(entries: Entries, n: nat, now: int)
    requires Unique(entries)
    ensures Unique(Fresh(entries, n, now)) && forall e | e in Fresh(entries, n, now) :: e in entries
  {
    if n > 0 && entries != [] {
      TailUnique(entries, 1);
      FreshUnique(entries[1..], n - 1, now);
      var rest := Fresh(entries[1..], n - 1, now);
      if entries[0].ttd > now {
        var r := [entries[0]] + rest;
        forall i, j | 0 <= i < j < |r| ensures Canon(r[i].owner, r[j].owner) != 0 {
          assert r[j] == rest[j - 1] && rest[j - 1] in entries[1..];
          if i == 0 {
            var m :| 0 <= m < |entries| - 1 && entries[1..][m] == r[j];
            assert Canon(entries[0].owner, entries[m + 1].owner) != 0;
          } else {
            assert Canon(rest[i - 1].owner, rest[j - 1].owner) != 0;
          }
        }
      }
    }
  }

  lemma TailUnique(entries: Entries, n: nat)
    requires Unique(entries) && n <= |entries|
    ensures Unique(entries[n..])
  {
    forall i, j | 0 <= i < j < |entries| - n ensures Canon(entries[n..][i].owner, entries[n..][j].owner) != 0 {
      assert Canon(entries[n + i].owner, entries[n + j].owner) != 0;
    }
  }

  // ---------------------------------------------------------------- moving an entry

  /** The entries but the one at i. */
  function Without(entries: Entries, i: nat): Entries
    requires i < |entries|
  {
    entries[..i] + entries[i + 1..]
  }

  function MovedToFront(entries: Entries, i: nat): Entries
    requires i < |entries|
  {
    [entries[i]] + Without(entries, i)
  }

  function MovedToBack(entries: Entries, i: nat): Entries
    requires i < |entries|
  {
    Without(entries, i) + [entries[i]]
  }

  /** A move keeps the entries. */
  lemma MovedSame(entries: Entries, i: nat)
    requires i < |entries|
    ensures multiset(MovedToFront(entries, i)) == multiset(entries)
    ensures multiset(MovedToBack(entries, i)) == multiset(entries)
  {
    assert entries == entries[..i] + [entries[i]] + entries[i + 1..];
  }

  lemma MovedUnique(entries: Entries, i: nat)
    requires Unique(entries) && i < |entries|
    ensures Unique(MovedToFront(entries, i)) && Unique(MovedToBack(entries, i))
  {
    var f, b := MovedToFront(entries, i), MovedToBack(entries, i);
    forall x, y | 0 <= x < y < |f| ensures Canon(f[x].owner, f[y].owner) != 0 {
      var u, v := if x == 0 then i else if x <= i then x - 1 else x, if y <= i then y - 1 else y;
      assert f[x] == entries[u] && f[y] == entries[v] && u != v;
      DistinctOwners(entries, u, v);
    }
    forall x, y | 0 <= x < y < |b| ensures Canon(b[x].owner, b[y].owner) != 0 {
      var u, v := if x < i then x else x + 1, if y == |b| - 1 then i else if y < i then y else y + 1;
      assert b[x] == entries[u] && b[y] == entries[v] && u != v;
      DistinctOwners(entries, u, v);
    }
  }

  lemma DistinctOwners(entries: Entries, u: nat, v: nat)
    requires Unique(entries) && u < |entries| && v < |entries| && u != v
    ensures Canon(entries[u].owner, entries[v].owner) != 0
  {
    if u > v {
      assert Canon(entries[v].owner, entries[u].owner) != 0;
      CanonFlips(entries[v].owner, entries[u].owner, 0);
    }
  }

  /** An expired entry that was moved to the front is gone after the next look at the zone. */
  lemma {:induction false} FrontIsErased(entries: Entries, i: nat, now: int)
    requires Unique(entries) && i < |entries| && entries[i].ttd <= now
    ensures var moved := MovedToFront(entries, i);
            entries[i] !in Fresh(moved, Tenth(|moved|), now)
  {
    var moved := MovedToFront(entries, i);
    MovedUnique(entries, i);
    assert moved[0] == entries[i] && Tenth(|moved|) >= 1;
    TailUnique(moved, 1);
    FreshUnique(moved[1..], Tenth(|moved|) - 1, now);
    if entries[i] in moved[1..] {
      var m :| 0 <= m < |moved| - 1 && moved[1..][m] == moved[0];
      assert Canon(moved[0].owner, moved[m + 1].owner) != 0;
      CanonEqual(moved[0].owner, moved[0].owner);
      assert false;
    }
  }

  // ---------------------------------------------------------------- the cache

  ghost function ZoneSizes(zones: seq<Zone>): (r: seq<nat>)
    ensures |r| == |zones|
  {
    seq(|zones|, i requires 0 <= i < |zones| => |zones[i].entries|)
  }

  /** The entries of all zones. */
  ghost function EntriesIn(zones: seq<Zone>): nat {
    Sum(ZoneSizes(zones), 0)
  }

  lemma ZoneUpdate(zones: seq<Zone>, z: nat, zone: Zone)
    requires z < |zones|
    ensures EntriesIn(zones[z := zone]) == EntriesIn(zones) - |zones[z].entries| + |zone.entries|
    ensures |zones[z].entries| <= EntriesIn(zones)
  {
    SumUpdate(ZoneSizes(zones), z, |zone.entries|, 0);
    SumUpdate(ZoneSizes(zones), z, 0, 0);
    assert ZoneSizes(zones[z := zone]) == ZoneSizes(zones)[z := |zone.entries|];
  }

  lemma {:induction false} SumCut(sizes: seq<nat>, z: nat, i: nat)
    requires i <= z < |sizes|
    ensures Sum(sizes[..z] + sizes[z + 1..], i) == Sum(sizes, i) - sizes[z]
    decreases z - i
  {
    var cut := sizes[..z] + sizes[z + 1..];
    if i == z { SumShift(cut, sizes, z, z + 1); } else { SumCut(sizes, z, i + 1); }
  }

  lemma {:induction false} SumShift(a: seq<nat>, b: seq<nat>, i: nat, j: nat)
    requires i <= |a| && j <= |b| && |a| - i == |b| - j
    requires forall k | i <= k < |a| :: a[k] == b[k + (j - i)]
    ensures Sum(a, i) == Sum(b, j)
    decreases |a| - i
  {
    if i < |a| {
      assert a[i] == b[i + (j - i)];
      SumShift(a, b, i + 1, j + 1);
    }
  }

  function Cut(zones: seq<Zone>, z: nat): seq<Zone>
    requires z < |zones|
  {
    zones[..z] + zones[z + 1..]
  }

  lemma ZoneCut(zones: seq<Zone>, z: nat)
    requires z < |zones|
    ensures EntriesIn(Cut(zones, z)) == EntriesIn(zones) - |zones[z].entries|
    ensures |zones[z].entries| <= EntriesIn(zones)
  {
    SumCut(ZoneSizes(zones), z, 0);
    assert ZoneSizes(Cut(zones, z)) == ZoneSizes(zones)[..z] + ZoneSizes(zones)[z + 1..];
  }

  lemma ZoneAdd(zones: seq<Zone>, z: nat, zone: Zone)
    requires z <= |zones|
    ensures EntriesIn(zones[..z] + [zone] + zones[z..]) == EntriesIn(zones) + |zone.entries|
  {
    var more := zones[..z] + [zone] + zones[z..];
    ZoneCut(more, z);
    assert Cut(more, z) == zones;
  }

  /** The position of the zone with this name. */
  function ZonePosition(zones: seq<Zone>, name: Labels, i: nat): (r: nat)
    requires i <= |zones|
    ensures i <= r <= |zones| && (forall k | i <= k < r :: Canon(zones[k].name, name) != 0)
    ensures r < |zones| ==> Canon(zones[r].name, name) == 0
    decreases |zones| - i
  {
    if i == |zones| || Canon(zones[i].name, name) == 0 then i else ZonePosition(zones, name, i + 1)
  }

  /** The zone's name is a suffix of these labels. */
  predicate Ends(zone: Labels, labels: Labels) {
    |zone| <= |labels| && SuffixTree.SameName(zone, |zone|, labels, |labels| - |zone|, |labels|)
  }

  /** lookup in the tree of zones: the zone with the longest name that the labels end with. */
  function LongestZone(zones: seq<Zone>, labels: Labels, i: nat): (r: nat)
    requires i <= |zones|
    ensures i <= r <= |zones| && (r < |zones| ==> Ends(zones[r].name, labels))
    ensures forall k | i <= k < |zones| && Ends(zones[k].name, labels) :: r < |zones| && |zones[k].name| <= |zones[r].name|
    ensures forall k | i <= k < r && r < |zones| && Ends(zones[k].name, labels) :: |zones[k].name| < |zones[r].name|
    decreases |zones| - i
  {
    if i == |zones| then i
    else
      var r := LongestZone(zones, labels, i + 1);
      if Ends(zones[i].name, labels) && (r == |zones| || |zones[r].name| <= |zones[i].name|) then i else r
  }

  /** Of the same length, it is the same name. */
  lemma WholeName(zone: Labels, labels: Labels)
    requires |zone| == |labels|
    ensures Ends(zone, labels) <==> Canon(zone, labels) == 0
  {
    WholeFrom(zone, labels, 0);
  }

  lemma {:induction false} WholeFrom(a: Labels, b: Labels, n: nat)
    requires n <= |a| == |b|
    ensures SuffixTree.SameName(a, |a| - n, b, 0, |b| - n) <==> CanonFrom(a, b, n) == 0
    decreases |a| - n
  {
    if n < |a| { WholeFrom(a, b, n + 1); }
  }

  /** With a name that is read right, the search comes to the zone of that name if there is one, and to no
      zone of that name otherwise. */
  lemma {:induction false} ZoneReadRight(zones: seq<Zone>, name: Labels, seen: Labels)
    requires LabelsFoldEq(name, seen)
    ensures var r, z := LongestZone(zones, seen, 0), ZonePosition(zones, name, 0);
            if z < |zones| then r == z else r < |zones| ==> Canon(zones[r].name, name) != 0
  {
    var r, z := LongestZone(zones, seen, 0), ZonePosition(zones, name, 0);
    CanonEqual(name, seen);
    if z < |zones| {
      SameNameSees(zones[z].name, name, seen);
      SameNameSees(zones[r].name, name, seen);
    }
  }

  lemma SameNameSees(zone: Labels, name: Labels, seen: Labels)
    requires Canon(name, seen) == 0
    ensures |name| == |seen| && (Canon(zone, name) == 0 ==> |zone| == |name|)
    ensures Canon(zone, name) == 0 <==> |zone| == |seen| && Ends(zone, seen)
  {
    CanonEqual(name, seen);
    CanonEqual(zone, name);
    CanonEqual(zone, seen);
    CanonSame(name, seen, zone);
    if |zone| == |seen| { WholeName(zone, seen); }
  }

  /** With one that is not, it never comes to a zone of that name. */
  lemma {:induction false} ZoneMisread(zones: seq<Zone>, name: Labels, seen: Labels)
    requires |name| == |seen| && !LabelsFoldEq(name, seen)
    ensures var r := LongestZone(zones, seen, 0);
            r < |zones| ==> Canon(zones[r].name, name) != 0
  {
    var r := LongestZone(zones, seen, 0);
    if r < |zones| && Canon(zones[r].name, name) == 0 {
      CanonEqual(zones[r].name, name);
      WholeName(zones[r].name, seen);
      CanonSame(zones[r].name, seen, name);
      CanonEqual(name, seen);
      CanonFlips(seen, name, 0);
    }
  }

  /** The zones that have entries left. */
  function NonEmpty(zones: seq<Zone>): (r: seq<Zone>)
    ensures forall z | z in r :: z in zones && z.entries != []
  {
    if zones == [] then []
    else if zones[0].entries == [] then NonEmpty(zones[1..])
    else [zones[0]] + NonEmpty(zones[1..])
  }

  lemma {:induction false} NonEmptySame(zones: seq<Zone>)
    ensures EntriesIn(NonEmpty(zones)) == EntriesIn(zones)
    ensures forall z | z in zones && z.entries != [] :: z in NonEmpty(zones)
  {
    if zones != [] {
      NonEmptySame(zones[1..]);
      ZoneCut(zones, 0);
      assert Cut(zones, 0) == zones[1..];
      if zones[0].entries != [] {
        var r := NonEmpty(zones);
        ZoneCut(r, 0);
        assert Cut(r, 0) == NonEmpty(zones[1..]);
      }
    }
  }

  /** What removing a subtree takes out of the tree of zones (SuffixTree.RemoveSubtreeGet and RemoveGet):
      the zones at or below the name when that has at most one label, and otherwise just its own. */
  predicate Goes(zone: Labels, name: Labels) {
    if |name| <= 1 then SuffixTree.AtOrBelow(name, |name|, zone, 0, |zone|)
    else SuffixTree.SameName(name, |name|, zone, 0, |zone|)
  }

  function Kept(zones: seq<Zone>, name: Labels): seq<Zone> {
    if zones == [] then []
    else if Goes(zones[0].name, name) then Kept(zones[1..], name)
    else [zones[0]] + Kept(zones[1..], name)
  }

  /** Just the zones that do not go are kept. */
  lemma {:induction false} KeptAre(zones: seq<Zone>, name: Labels)
    ensures forall z :: z in Kept(zones, name) <==> z in zones && !Goes(z.name, name)
  {
    if zones != [] {
      KeptAre(zones[1..], name);
      assert zones == [zones[0]] + zones[1..];
    }
  }

  ghost predicate AllUnique(zones: seq<Zone>) {
    forall z | z in zones :: Unique(z.entries)
  }

  class AggressiveNSECCache {
    /** In the order in which the tree of zones visits them. */
    var zones: seq<Zone>
    var entriesCount: nat
    var maxEntries: nat

    /** The count is the number of entries, and of some more that were lost. */
    ghost predicate Counts(lost: int)
      reads this
    {
      entriesCount == EntriesIn(zones) + lost && AllUnique(zones)
    }

    ghost predicate Valid()
      reads this
    {
      Counts(0)
    }

    constructor (entries: nat)
      ensures Valid() && zones == [] && entriesCount == 0 && maxEntries == entries
    {
      zones, entriesCount, maxEntries := [], 0, entries;
    }

    /** lookup in the tree of zones: the zone of this name, or that there is none, or an exception.
        `bare` says whether the tree has no children; then its root is the answer. */
    method FindZone(storage: Bytes, name: Labels, bare: bool) returns (ok: bool, z: nat)
      requires Holds(storage, name) && (bare ==> forall zone | zone in zones :: zone.name == [])
      ensures ok <==> bare || |name| <= MAX_VISITED
      ensures ok ==> z == if ReadRight(storage, name) then ZonePosition(zones, name, 0) else |zones|
    {
      ok, z := true, |zones|;
      if bare {
        z := ZonePosition(zones, [], 0);
        BareZones(zones, storage, name);
      } else {
        var visitor := new RawLabelsVisitor(storage);
        ok := visitor.Fill(name);
        if !ok { return; }
        var seen := ReadAll(visitor);
        z := LongestZone(zones, seen, 0);
        if ReadRight(storage, name) { ZoneReadRight(zones, name, seen); } else { ZoneMisread(zones, name, seen); }
      }
      if z < |zones| && Canon(zones[z].name, name) != 0 { z := |zones|; }
    }

    /** getZone; `at` is where the tree would visit a new zone.  A name that is not read right gets a new
        zone every time, and the entries of the one it had are lost without being taken off the count. */
    method GetZone(storage: Bytes, name: Labels, at: nat, bare: bool) returns (ok: bool, z: nat)
      requires Valid() && at <= |zones| && Holds(storage, name) && (bare ==> forall zone | zone in zones :: zone.name == [])
      modifies this`zones
      ensures ok <==> bare || |name| <= MAX_VISITED
      ensures !ok ==> zones == old(zones)
      ensures ok ==> zones == Known(old(zones), storage, name, at) && z < |zones| && Canon(zones[z].name, name) == 0
      ensures Counts(if ok then LostOf(old(zones), storage, name) else 0) == true
    {
      ok, z := FindZone(storage, name, bare);
      if !ok { return; }
      if z < |zones| {
        Keeps(zones, storage, name, at);
        return;
      }
      // add: the value at the node for this name is replaced when there is one
      CanonEqual(name, name);
      var zone := Zone(name, false, 0, 0, []);
      z := ZonePosition(zones, name, 0);
      if z < |zones| {
        ZoneUpdate(zones, z, zone);
        zones := zones[z := zone];
      } else {
        z := at;
        ZoneAdd(zones, z, zone);
        zones := zones[..z] + [zone] + zones[z..];
      }
    }

    /** clear, with the entries taken off the count. */
    method DropEntries(z: nat, ghost lost: nat)
      requires Counts(lost) && z < |zones|
      modifies this`zones, this`entriesCount
      ensures Counts(lost) == true && zones == old(zones)[z := old(zones)[z].(entries := [])]
    {
      ZoneUpdate(zones, z, zones[z].(entries := []));
      entriesCount := entriesCount - |zones[z].entries|;
      zones := zones[z := zones[z].(entries := [])];
    }

    /** insert, or replace when the owner is there already; only then does the count stay. */
    method InsertEntry(z: nat, e: CacheEntry, ghost lost: nat)
      requires Counts(lost) && z < |zones|
      modifies this`zones, this`entriesCount
      ensures Counts(lost) == true && zones == old(zones)[z := old(zones)[z].(entries := Put(old(zones)[z].entries, e))]
    {
      var zone := zones[z];
      assert zone in zones;
      PutUnique(zone.entries, e);
      ZoneUpdate(zones, z, zone.(entries := Put(zone.entries, e)));
      var at := Position(zone.entries, e.owner, 0);
      if at == |zone.entries| {
        zones := zones[z := zone.(entries := zone.entries + [e])];
        entriesCount := entriesCount + 1;
      } else {
        zones := zones[z := zone.(entries := zone.entries[at := e])];
      }
    }

    /** Changes of a zone that leave its entries alone. */
    method SetParameters(z: nat, nsec3: bool, iterations: nat, salt: int, ghost lost: nat)
      requires Counts(lost) && z < |zones|
      modifies this`zones
      ensures Counts(lost) == true
      ensures zones == old(zones)[z := old(zones)[z].(nsec3 := nsec3, iterations := iterations, salt := salt)]
    {
      var zone := zones[z].(nsec3 := nsec3, iterations := iterations, salt := salt);
      assert zones[z] in zones;
      ZoneUpdate(zones, z, zone);
      zones := zones[z := zone];
    }

    /** insertNSEC, after its early returns; `realOwner` is that of a wildcard-expanded NSEC.  The count
        stays the number of entries exactly when the name is read right, or had no entries before. */
    method InsertNSEC(storage: Bytes, name: Labels, at: nat, bare: bool, owner: Labels, realOwner: Labels, content: Content,
                      limits: Limits, ttd: int, record: int)
      returns (ok: bool, z: nat)
      requires Valid() && at <= |zones| && Holds(storage, name) && (bare ==> forall zone | zone in zones :: zone.name == [])
      modifies this`zones, this`entriesCount
      ensures ok <==> bare || |name| <= MAX_VISITED
      ensures !ok ==> zones == old(zones)
      ensures ok ==>
        var known := Known(old(zones), storage, name, at);
        && z < |known| && Canon(known[z].name, name) == 0
        && zones == known[z := ZoneAfter(known[z], name, owner, content, limits,
                                         CacheEntry(realOwner, content.next, ttd, record))]
      ensures Counts(if ok then LostOf(old(zones), storage, name) else 0) == true
      ensures Valid() <==> !ok || LostOf(old(zones), storage, name) == 0
    {
      ghost var lost := LostOf(zones, storage, name);
      ok, z := GetZone(storage, name, at, bare);
      if ok { Offer(z, name, owner, content, limits, CacheEntry(realOwner, content.next, ttd, record), lost); }
    }

    /** What a record does to its zone. */
    method Offer(z: nat, name: Labels, owner: Labels, content: Content, limits: Limits, e: CacheEntry, ghost lost: nat)
      requires Counts(lost) && z < |zones|
      modifies this`zones, this`entriesCount
      ensures Counts(lost) == true
      ensures zones == old(zones)[z := ZoneAfter(old(zones)[z], name, owner, content, limits, e)]
    {
      if content.NSEC3? && !zones[z].nsec3 {
        DropEntries(z, lost);
        SetParameters(z, true, zones[z].iterations, zones[z].salt, lost);
      }
      var refused := Refuses(name, owner, content, limits);
      if refused { return; }
      if content.NSEC3? && (zones[z].iterations != content.iterations || zones[z].salt != content.salt) {
        SetParameters(z, zones[z].nsec3, content.iterations, content.salt, lost);
        DropEntries(z, lost);
      }
      InsertEntry(z, e, lost);
    }

    /** updateEntriesCount. */
    method UpdateEntriesCount()
      requires AllUnique(zones)
      modifies this`entriesCount
      ensures Valid()
    {
      var counter := 0;
      for z := 0 to |zones|
        invariant counter + Sum(ZoneSizes(zones), z) == EntriesIn(zones)
      {
        counter := counter + |zones[z].entries|;
      }
      entriesCount := counter;
    }

    /** removeZoneInfo.  Without subzones, a zone whose name is not read right stays. */
    method RemoveZoneInfo(storage: Bytes, name: Labels, subzones: bool, bare: bool) returns (ok: bool)
      requires Valid() && Holds(storage, name) && (bare ==> forall zone | zone in zones :: zone.name == [])
      modifies this`zones, this`entriesCount
      ensures Valid() && (ok <==> subzones || bare || |name| <= MAX_VISITED)
      ensures !ok ==> zones == old(zones)
      ensures subzones ==> zones == Kept(old(zones), name)
      ensures ok && !subzones ==>
        var z := ZonePosition(old(zones), name, 0);
        zones == if z < |old(zones)| && ReadRight(storage, name) then Cut(old(zones), z) else old(zones)
    {
      ok := true;
      if subzones {
        KeptAre(zones, name);
        zones := Kept(zones, name);
        UpdateEntriesCount();
      } else {
        var z;
        ok, z := FindZone(storage, name, bare);
        if !ok || z == |zones| { return; }
        ZoneCut(zones, z);
        var removed := |zones[z].entries|;
        zones := Cut(zones, z);
        entriesCount := entriesCount - removed;
      }
    }

    /** The first pass of prune: what expired among the oldest tenth of every zone goes.  What is erased
        is counted entry by entry, and taken off the count after the visit. */
    method PruneExpired(now: int)
      requires Valid()
      modifies this`zones, this`entriesCount
      ensures Valid() && AllFresh(zones, old(zones), now) == true
    {
      ghost var was := zones;
      var erased := 0;
      for z := 0 to |zones|
        invariant SomeFresh(zones, was, now, z) == true
        invariant Counts(erased) == true
      {
        NextFresh(zones, was, now, z);
        var left, n := EraseExpired(zones[z].entries, now);
        assert zones[z] in zones;
        FreshUnique(zones[z].entries, Tenth(|zones[z].entries|), now);
        ZoneUpdate(zones, z, zones[z].(entries := left));
        zones := zones[z := zones[z].(entries := left)];
        erased := erased + n;
      }
      entriesCount := entriesCount - erased;
    }

    /** The second pass: every zone loses its share, oldest first.  The count never falls short of a
        zone's size, so the exception about an inconsistent cache is not thrown. */
    method PruneOldest(trim: nat)
      requires Valid() && 0 < trim <= entriesCount
      modifies this`zones, this`entriesCount
      ensures Valid() && AllTrimmed(zones, old(zones), trim) == true
      ensures entriesCount == old(entriesCount) - trim
    {
      ghost var was, sizes := zones, ZoneSizes(zones);
      var remaining, toErase, erased := entriesCount, trim, 0;
      for z := 0 to |zones|
        invariant |zones| == |was| && SomeTrimmed(zones, was, trim, z) == true
        invariant Counts(erased) == true && entriesCount == old(entriesCount)
        invariant remaining == Sum(sizes, z) && toErase == ToTrim(sizes, trim, z) && erased == trim - toErase
      {
        NextTrimmed(zones, was, trim, z);
        ghost var share := Share(sizes, trim, z);
        var n;
        remaining, toErase, n := PruneOldestOf(z, toErase, remaining, erased);
        assert n == share;
        erased := erased + n;
      }
      LastTrimmed(zones, was, trim);
      assert toErase == 0 && erased == trim;
      entriesCount := entriesCount - erased;
    }

    /** One zone of it. */
    method PruneOldestOf(z: nat, toErase: nat, remaining: nat, ghost erased: nat) returns (remaining': nat, toErase': nat, n: nat)
      requires Counts(erased) && z < |zones| && |zones[z].entries| <= remaining && toErase <= remaining
      modifies this`zones
      ensures n == ShareOf(toErase, |old(zones)[z].entries|, remaining)
      ensures remaining' == remaining - |old(zones)[z].entries| && toErase' == toErase - n
      ensures Counts(erased + n) == true && zones == old(zones)[z := TrimmedZone(old(zones)[z], n)]
    {
      var zoneSize := |zones[z].entries|;
      if remaining == 0 {
        assert zones[z].entries[0..] == zones[z].entries;
        return remaining, toErase, 0;
      }
      var share := Round(toErase, zoneSize, remaining);
      RoundNothing(zoneSize, remaining);
      FairShare(toErase, zoneSize, remaining);
      assert zoneSize <= remaining;  // or the cache would be inconsistent
      remaining' := remaining - zoneSize;
      var left;
      left, toErase', n := EraseOldest(zones[z].entries, share, toErase);
      assert zones[z] in zones;
      TailUnique(zones[z].entries, n);
      ZoneUpdate(zones, z, TrimmedZone(zones[z], n));
      zones := zones[z := zones[z].(entries := left)];
    }

    /** prune: when the count is still above the maximum after the first pass, it ends at exactly the
        maximum; zones without entries are gone. */
    method Prune(now: int) returns (ghost swept: seq<Zone>, ghost left: seq<Zone>)
      requires Valid()
      modifies this`zones, this`entriesCount
      ensures Valid() && AllFresh(swept, old(zones), now) == true
      ensures TrimmedTo(left, swept, maxEntries) == true
      ensures entriesCount == if EntriesIn(swept) <= maxEntries then EntriesIn(swept) else maxEntries
      ensures zones == NonEmpty(left)
    {
      PruneExpired(now);
      swept := zones;
      PruneToMaximum();
      left := zones;
      RemoveEmpty();
    }

    method PruneToMaximum()
      requires Valid()
      modifies this`zones, this`entriesCount
      ensures Valid() && TrimmedTo(zones, old(zones), maxEntries) == true
      ensures entriesCount == if old(entriesCount) <= maxEntries then old(entriesCount) else maxEntries
    {
      if entriesCount > maxEntries {
        ghost var was := zones;
        var trim := entriesCount - maxEntries;
        PruneOldest(trim);
        TrimmedBy(zones, was, maxEntries, trim);
      }
    }

    method RemoveEmpty()
      requires Valid()
      modifies this`zones
      ensures Valid() && zones == NonEmpty(old(zones))
    {
      NonEmptySame(zones);
      zones := NonEmpty(zones);
    }

    // -------------------------------------------------------------- lookups

    /** getNSECBefore: cyclic predecessor search in canonical order.  A live hit becomes the youngest
        entry of its zone, an expired one the oldest. */
    method GetNSECBefore(now: int, z: nat, name: Labels) returns (found: bool, entry: CacheEntry)
      requires Valid() && z < |zones|
      modifies this`zones
      ensures Valid() && entriesCount == old(entriesCount)
      ensures old(zones[z].entries) == [] ==> !found && zones == old(zones)
      ensures old(zones[z].entries) != [] ==>
        exists i | 0 <= i < |old(zones[z].entries)| ::
          && IsBefore(old(zones[z].entries), name, old(zones[z].entries)[i])
          && (found <==> old(zones[z].entries)[i].ttd > now)
          && (found ==> entry == old(zones[z].entries)[i])
          && zones == old(zones)[z := Touched(old(zones)[z], i, now)]
      ensures found ==> MadeYoungest(old(zones[z].entries), zones[z].entries, entry)
    {
      found, entry := false, CacheEntry([], [], 0, 0);
      var entries := zones[z].entries;
      if entries == [] { return; }
      assert zones[z] in zones;
      var idx := Ordered(entries);
      var it := LowerBound(idx, name, 0);
      var end, wrapped := false, false;
      if it == 0 && Canon(idx[0].owner, name) != 0 {
        it := |idx| - 1;
        wrapped := true;
      }
      while !end && !wrapped && (it == |idx| || (Canon(idx[it].owner, name) != 0 && !(Canon(idx[it].owner, name) < 0)))
        invariant !end && 0 <= it <= |idx|
        invariant !wrapped ==> LowerBound(idx, name, 0) > 0 || Canon(idx[0].owner, name) == 0
        invariant wrapped ==> it == |idx| - 1 && LowerBound(idx, name, 0) == 0 && Canon(idx[0].owner, name) != 0
        invariant !wrapped ==> it == LowerBound(idx, name, 0) || (it == LowerBound(idx, name, 0) - 1 && !(it + 1 < |idx| && Canon(idx[it + 1].owner, name) == 0))
        decreases it
      {
        // the lower bound is never the first entry here
        if it == 0 { end := true; break; }
        it := it - 1;
      }
      assert !end;
      if end { return; }
      PredecessorAt(entries, name, it);
      found, entry := Meet(z, Place(entries, idx[it]), now);
    }

    /** What both lookups do with the entry they come to: one that has expired becomes the oldest of its
        zone, any other is found and becomes the youngest. */
    method Meet(z: nat, i: nat, now: int) returns (found: bool, entry: CacheEntry)
      requires Valid() && z < |zones| && i < |zones[z].entries|
      modifies this`zones
      ensures Valid() && entriesCount == old(entriesCount)
      ensures entry == old(zones[z].entries[i]) && (found <==> entry.ttd > now)
      ensures zones == old(zones)[z := Touched(old(zones)[z], i, now)]
      ensures found ==> MadeYoungest(old(zones[z].entries), zones[z].entries, entry)
      ensures !found ==> MadeOldest(old(zones[z].entries), zones[z].entries, entry)
    {
      assert zones[z] in zones;
      var zone := Touched(zones[z], i, now);
      MovedUnique(zones[z].entries, i);
      MovedSame(zones[z].entries, i);
      TouchedTurn(zones[z], i, now);
      ZoneUpdate(zones, z, zone);
      entry := zones[z].entries[i];
      found := entry.ttd > now;
      zones := zones[z := zone];
    }

    /** getNSEC3: the entry with just this owner. */
    method GetNSEC3(now: int, z: nat, name: Labels) returns (found: bool, entry: CacheEntry)
      requires Valid() && z < |zones|
      modifies this`zones
      ensures Valid() && entriesCount == old(entriesCount)
      ensures var entries := old(zones[z].entries);
              var i := Position(entries, name, 0);
              if i == |entries| then !found && zones == old(zones)
              else
                && (found <==> entries[i].ttd > now) && (found ==> entry == entries[i])
                && zones == old(zones)[z := Touched(old(zones)[z], i, now)]
      ensures found ==> MadeYoungest(old(zones[z].entries), zones[z].entries, entry)
    {
      found, entry := false, CacheEntry([], [], 0, 0);
      var entries := zones[z].entries;
      var i := Position(entries, name, 0);
      if i == |entries| { return; }
      found, entry := Meet(z, i, now);
    }
  }

  /** The labels a visitor reads, from the last one back. */
  method ReadAll(visitor: RawLabelsVisitor) returns (labels: Labels)
    requires visitor.Valid()
    modifies visitor`count
    ensures labels == old(visitor.Rest())
  {
    labels := [];
    ghost var all := visitor.Rest();
    while visitor.count > 0
      invariant visitor.Valid() && visitor.count <= |all| && visitor.Rest() == all[..visitor.count]
      invariant labels == all[visitor.count..]
      decreases visitor.count
    {
      var last := visitor.Back();
      assert all[visitor.count - 1..] == [all[visitor.count - 1]] + all[visitor.count..];
      labels := [last] + labels;
      var popped := visitor.PopBack();
    }
  }

  /** In a tree without children there is at most the root zone, and only the root has its name. */
  lemma {:induction false} BareZones(zones: seq<Zone>, storage: Bytes, name: Labels)
    requires Holds(storage, name) && forall zone | zone in zones :: zone.name == []
    ensures name == [] ==> ReadRight(storage, name)
    ensures name != [] ==> ZonePosition(zones, name, 0) == |zones|
    ensures forall z | 0 <= z < |zones| :: Canon(zones[z].name, name) == 0 <==> name == []
  {
    forall z | 0 <= z < |zones| ensures Canon(zones[z].name, name) == 0 <==> name == [] {
      assert zones[z] in zones;
      CanonEqual(zones[z].name, name);
    }
  }

  /** The zones once getZone has seen to it that this one is there. */
  ghost function Known(zones: seq<Zone>, storage: Bytes, name: Labels, at: nat): seq<Zone>
    requires at <= |zones| && ValidLabels(name)
  {
    var z, bare := ZonePosition(zones, name, 0), Zone(name, false, 0, 0, []);
    if z == |zones| then zones[..at] + [bare] + zones[at..]
    else if ReadRight(storage, name) then zones else zones[z := bare]
  }

  /** How many entries that loses without taking them off the count: those of the zone when its name is
      not read right. */
  ghost function LostOf(zones: seq<Zone>, storage: Bytes, name: Labels): nat
    requires ValidLabels(name)
  {
    var z := ZonePosition(zones, name, 0);
    if z < |zones| && !ReadRight(storage, name) then |zones[z].entries| else 0
  }

  lemma {:induction false} Keeps(zones: seq<Zone>, storage: Bytes, name: Labels, at: nat)
    requires at <= |zones| && ValidLabels(name) && ReadRight(storage, name) && ZonePosition(zones, name, 0) < |zones|
    ensures Known(zones, storage, name, at) == zones && LostOf(zones, storage, name) == 0
  {}

  /** The checks of a record, in their order. */
  method Refuses(name: Labels, owner: Labels, content: Content, limits: Limits) returns (refused: bool)
    ensures refused <==> Refused(name, owner, content, limits)
  {
    match content
    case NSEC(next) =>
      if Canon(next, owner) < 0 && Canon(next, name) != 0 { return true; }
      refused := IsMinimallyCovering(owner, next);
    case NSEC3(optOut, iterations, salt, nextHash, next) =>
      if optOut { return true; }
      if limits.iterations != 0 && iterations > limits.iterations { return true; }
      if owner == [] { return true; }  // the source throws: there is no label with a hash
      refused := HashPrefix.IsSmallCoveringNSEC3(owner[0], nextHash, limits.commonPrefix);
  }

  /** The loop of the first pass over the entries of one zone. */
  method EraseExpired(entries: Entries, now: int) returns (left: Entries, erased: nat)
    ensures left == Fresh(entries, Tenth(|entries|), now) && erased == |entries| - |left|
  {
    left, erased := entries, 0;
    var toLookAt, lookedAt, it := Tenth(|entries|), 0, 0;
    assert left[..0] + left[0..] == left;
    while it != |left| && lookedAt < toLookAt
      invariant 0 <= it <= |left| && 0 <= lookedAt <= toLookAt && erased == |entries| - |left|
      invariant left[..it] + Fresh(left[it..], toLookAt - lookedAt, now) == Fresh(entries, toLookAt, now)
      decreases toLookAt - lookedAt
    {
      FreshStep(left, it, toLookAt - lookedAt, now);
      if left[it].ttd <= now {
        left := left[..it] + left[it + 1..];
        erased := erased + 1;
      } else {
        it := it + 1;
      }
      lookedAt := lookedAt + 1;
    }
    assert left[..it] + left[it..] == left;
  }

  /** One step of a look that stands at i. */
  lemma {:induction false} FreshStep(entries: Entries, i: nat, n: nat, now: int)
    requires i < |entries| && n > 0
    ensures var left := entries[..i] + entries[i + 1..];
            entries[..i] + Fresh(entries[i..], n, now)
            == if entries[i].ttd <= now then left[..i] + Fresh(left[i..], n - 1, now)
               else entries[..i + 1] + Fresh(entries[i + 1..], n - 1, now)
  {
    var left, rest := entries[..i] + entries[i + 1..], entries[i..];
    assert rest[0] == entries[i] && rest[1..] == entries[i + 1..] == left[i..] && left[..i] == entries[..i];
    assert entries[..i + 1] == entries[..i] + [entries[i]];
  }

  /** The loop of the second pass over the entries of one zone: the oldest go, each one counted. */
  method EraseOldest(entries: Entries, share: nat, toErase: nat) returns (left: Entries, toErase': nat, erased: nat)
    requires share <= |entries| && share <= toErase
    ensures left == entries[share..] && toErase' == toErase - share && erased == share
  {
    left, toErase', erased := entries, toErase, 0;
    while left != [] && erased < share
      invariant erased <= share && left == entries[erased..] && toErase' == toErase - erased
    {
      assert entries[erased..][1..] == entries[erased + 1..];
      left := left[1..];
      erased := erased + 1;
      toErase' := toErase' - 1;
      if toErase' == 0 { break; }
    }
  }

  /** Whether a record is not worth keeping. */
  ghost predicate Refused(name: Labels, owner: Labels, content: Content, limits: Limits) {
    match content
    case NSEC(next) => (Canon(next, owner) < 0 && Canon(next, name) != 0) || IsMinimallyCovering(owner, next)
    case NSEC3(optOut, iterations, salt, nextHash, next) =>
      optOut || (limits.iterations != 0 && iterations > limits.iterations)
      || owner == [] || HashPrefix.SmallCovering(owner[0], nextHash, limits.commonPrefix)
  }

  /** The zone after a record was offered: its first NSEC3 record and a change of parameters drop what
      it held, even when the record that brings the first is then refused. */
  ghost function ZoneAfter(zone: Zone, name: Labels, owner: Labels, content: Content, limits: Limits, e: CacheEntry): Zone {
    var z := if content.NSEC3? && !zone.nsec3 then zone.(entries := [], nsec3 := true) else zone;
    if Refused(name, owner, content, limits) then z
    else
      var y := if content.NSEC3? && (z.iterations != content.iterations || z.salt != content.salt)
               then z.(iterations := content.iterations, salt := content.salt, entries := []) else z;
      y.(entries := Put(y.entries, e))
  }

  function FreshZone(zone: Zone, now: int): Zone {
    zone.(entries := Fresh(zone.entries, Tenth(|zone.entries|), now))
  }

  function TrimmedZone(zone: Zone, n: nat): Zone
    requires n <= |zone.entries|
  {
    zone.(entries := zone.entries[n..])
  }

  ghost predicate AllFresh(left: seq<Zone>, zones: seq<Zone>, now: int) {
    |left| == |zones| && forall i | 0 <= i < |zones| :: left[i] == FreshZone(zones[i], now)
  }

  /** Every zone lost its share, the least recently used entries first. */
  ghost predicate AllTrimmed(left: seq<Zone>, zones: seq<Zone>, trim: nat)
    requires trim <= EntriesIn(zones)
  {
    && |left| == |zones|
    && forall i {:trigger left[i]} | 0 <= i < |zones| :: left[i] == TrimmedZone(zones[i], Share(ZoneSizes(zones), trim, i))
  }

  /** Nothing more, when no more than the maximum was left; or every zone lost its share of the rest. */
  ghost predicate TrimmedTo(left: seq<Zone>, zones: seq<Zone>, maximum: nat) {
    if EntriesIn(zones) <= maximum then left == zones else AllTrimmed(left, zones, EntriesIn(zones) - maximum)
  }

  lemma TrimmedBy(left: seq<Zone>, zones: seq<Zone>, maximum: nat, trim: nat)
    requires 0 < trim == EntriesIn(zones) - maximum && AllTrimmed(left, zones, trim)
    ensures TrimmedTo(left, zones, maximum) == true
  {}

  /** The first z zones have lost their shares. */
  ghost predicate SomeTrimmed(left: seq<Zone>, zones: seq<Zone>, trim: nat, z: nat)
    requires trim <= EntriesIn(zones)
  {
    && |left| == |zones|
    && (forall i {:trigger left[i]} | 0 <= i < z && i < |zones| :: left[i] == TrimmedZone(zones[i], Share(ZoneSizes(zones), trim, i)))
    && forall i {:trigger left[i]} | z <= i < |zones| :: left[i] == zones[i]
  }

  lemma NextTrimmed(left: seq<Zone>, zones: seq<Zone>, trim: nat, z: nat)
    requires trim <= EntriesIn(zones) && SomeTrimmed(left, zones, trim, z) && z < |zones|
    ensures left[z] == zones[z] && ZoneSizes(zones)[z] == |left[z].entries|
    ensures Sum(ZoneSizes(zones), z + 1) == Sum(ZoneSizes(zones), z) - |zones[z].entries|
    ensures ToTrim(ZoneSizes(zones), trim, z + 1) == ToTrim(ZoneSizes(zones), trim, z) - Share(ZoneSizes(zones), trim, z)
    ensures SomeTrimmed(left[z := TrimmedZone(zones[z], Share(ZoneSizes(zones), trim, z))], zones, trim, z + 1) == true
  {}

  lemma {:induction false} LastTrimmed(left: seq<Zone>, zones: seq<Zone>, trim: nat)
    requires trim <= EntriesIn(zones) && SomeTrimmed(left, zones, trim, |zones|)
    ensures AllTrimmed(left, zones, trim) == true && ToTrim(ZoneSizes(zones), trim, |zones|) == 0
  {}

  /** The first z zones have been looked at. */
  ghost predicate SomeFresh(left: seq<Zone>, zones: seq<Zone>, now: int, z: nat) {
    && |left| == |zones|
    && (forall i {:trigger left[i]} | 0 <= i < z && i < |zones| :: left[i] == FreshZone(zones[i], now))
    && forall i {:trigger left[i]} | z <= i < |zones| :: left[i] == zones[i]
  }

  lemma NextFresh(left: seq<Zone>, zones: seq<Zone>, now: int, z: nat)
    requires SomeFresh(left, zones, now, z) && z < |zones|
    ensures left[z] == zones[z] && SomeFresh(left[z := FreshZone(zones[z], now)], zones, now, z + 1) == true
  {}

  lemma RoundNothing(size: nat, total: nat)
    requires total > 0
    ensures Round(0, size, total) == 0
  {
    assert 2 * 0 * size + total == total;
    DivAtMost(total, 2 * total, 0);
  }

  /** The zone after entry i was found. */
  function Touched(zone: Zone, i: nat, now: int): Zone
    requires i < |zone.entries|
  {
    zone.(entries := if zone.entries[i].ttd <= now then MovedToFront(zone.entries, i) else MovedToBack(zone.entries, i))
  }

  /** The projection of an iterator of the ordered index. */
  function Place(entries: Entries, e: CacheEntry): (i: nat)
    requires e in entries
    ensures i < |entries| && entries[i] == e
  {
    if entries[0] == e then 0 else 1 + Place(entries[1..], e)
  }

  // ---------------------------------------------------------------- what follows

  /** An expired entry that a lookup met does not outlive the next pruning at that time or later. */
  lemma ExpiredIsPruned(zone: Zone, i: nat, now: int, later: int)
    requires Unique(zone.entries) && i < |zone.entries| && zone.entries[i].ttd <= now <= later
    ensures zone.entries[i] !in FreshZone(Touched(zone, i, now), later).entries
  {
    FrontIsErased(zone.entries, i, later);
  }

  /** The entry is used last, and the others keep their order. */
  ghost predicate MadeYoungest(before: Entries, after: Entries, e: CacheEntry) {
    exists i | 0 <= i < |before| :: before[i] == e && after == before[..i] + before[i + 1..] + [e]
  }

  /** The entry is the next to go, and the others keep their order. */
  ghost predicate MadeOldest(before: Entries, after: Entries, e: CacheEntry) {
    exists i | 0 <= i < |before| :: before[i] == e && after == [e] + before[..i] + before[i + 1..]
  }

  /** What a lookup does to the turn of the entry it met. */
  lemma TouchedTurn(zone: Zone, i: nat, now: int)
    requires i < |zone.entries|
    ensures var e, after := zone.entries[i], Touched(zone, i, now);
            && after.(entries := zone.entries) == zone
            && if e.ttd > now then MadeYoungest(zone.entries, after.entries, e) else MadeOldest(zone.entries, after.entries, e)
  {
    var entries, e := zone.entries, zone.entries[i];
    assert [e] + (entries[..i] + entries[i + 1..]) == [e] + entries[..i] + entries[i + 1..];
  }

  // ---------------------------------------------------------------- a live entry that was used

  /** The entry is the youngest of these. */
  ghost predicate Last(entries: Entries, e: CacheEntry) { entries != [] && entries[|entries| - 1] == e }

  lemma {:induction false} LastFresh(entries: Entries, n: nat, now: int, e: CacheEntry)
    requires Last(entries, e) && e.ttd > now
    ensures Last(Fresh(entries, n, now), e)
  {
    if n > 0 && |entries| > 1 { LastFresh(entries[1..], n - 1, now, e); }
  }

  /** As long as the zone at z keeps any entry, it keeps this one, and as its youngest. */
  ghost predicate KeepsLast(zones: seq<Zone>, z: nat, e: CacheEntry) {
    z < |zones| && (zones[z].entries == [] || Last(zones[z].entries, e))
  }

  lemma KeptBySweep(swept: seq<Zone>, zones: seq<Zone>, z: nat, now: int, e: CacheEntry)
    requires AllFresh(swept, zones, now) && z < |zones| && Last(zones[z].entries, e) && e.ttd > now
    ensures KeepsLast(swept, z, e) && swept[z].name == zones[z].name
  {
    LastFresh(zones[z].entries, Tenth(|zones[z].entries|), now, e);
  }

  lemma KeptByTrim(left: seq<Zone>, swept: seq<Zone>, maximum: nat, z: nat, e: CacheEntry)
    requires TrimmedTo(left, swept, maximum) && KeepsLast(swept, z, e)
    ensures KeepsLast(left, z, e) && left[z].name == swept[z].name
  {
    if EntriesIn(swept) > maximum {
      assert left[z] == TrimmedZone(swept[z], Share(ZoneSizes(swept), EntriesIn(swept) - maximum, z));
    }
  }

  /** The zones have different names. */
  ghost predicate NamesDiffer(zones: seq<Zone>) {
    forall i, j | 0 <= i < |zones| && 0 <= j < |zones| && i != j :: Canon(zones[i].name, zones[j].name) != 0
  }

  lemma SameNames(left: seq<Zone>, zones: seq<Zone>)
    requires |left| == |zones| && NamesDiffer(zones) && forall i | 0 <= i < |zones| :: left[i].name == zones[i].name
    ensures NamesDiffer(left)
  {}

  lemma NamesPruned(zones: seq<Zone>, swept: seq<Zone>, left: seq<Zone>, maximum: nat, now: int)
    requires AllFresh(swept, zones, now) && TrimmedTo(left, swept, maximum)
    ensures |left| == |zones| && forall i | 0 <= i < |zones| :: left[i].name == zones[i].name
  {
    forall i | 0 <= i < |zones| ensures |left| == |zones| && left[i].name == zones[i].name {
      if EntriesIn(swept) > maximum {
        assert left[i] == TrimmedZone(swept[i], Share(ZoneSizes(swept), EntriesIn(swept) - maximum, i));
      }
    }
  }

  lemma NameDecides(zones: seq<Zone>, left: seq<Zone>, z: nat, i: nat)
    requires |left| == |zones| && NamesDiffer(zones) && z < |zones| && i < |left| && left[i].name == zones[i].name
    requires Canon(left[i].name, zones[z].name) == 0
    ensures i == z
  {}

  /** Of the zones that are left, the one of this name still has the entry. */
  lemma {:induction false} StillThere(zones: seq<Zone>, swept: seq<Zone>, left: seq<Zone>, maximum: nat, now: int, z: nat, e: CacheEntry)
    requires AllFresh(swept, zones, now) && TrimmedTo(left, swept, maximum)
    requires NamesDiffer(zones) && z < |zones| && Last(zones[z].entries, e) && e.ttd > now
    ensures forall zone | zone in NonEmpty(left) && Canon(zone.name, zones[z].name) == 0 :: Last(zone.entries, e)
  {
    KeptBySweep(swept, zones, z, now, e);
    KeptByTrim(left, swept, maximum, z, e);
    NamesPruned(zones, swept, left, maximum, now);
    forall zone | zone in NonEmpty(left) && Canon(zone.name, zones[z].name) == 0 ensures Last(zone.entries, e) {
      var i :| 0 <= i < |left| && left[i] == zone;
      NameDecides(zones, left, z, i);
    }
  }

  /** A lookup and a pruning while the entry that it found has not expired: as long as its zone has any
      entry, it has this one. */
  method LookAndKeep(cache: AggressiveNSECCache, now: int, z: nat, name: Labels, later: int) returns (found: bool, e: CacheEntry)
    requires cache.Valid() && z < |cache.zones| && NamesDiffer(cache.zones)
    modifies cache`zones, cache`entriesCount
    ensures cache.Valid()
    ensures found && later < e.ttd ==>
      forall zone | zone in cache.zones && Canon(zone.name, old(cache.zones[z].name)) == 0 :: Last(zone.entries, e)
  {
    ghost var was := cache.zones;
    found, e := cache.GetNSECBefore(now, z, name);
    ghost var touched := cache.zones;
    ghost var maximum := cache.maxEntries;
    ghost var swept, left := cache.Prune(later);
    if found && later < e.ttd {
      SameNames(touched, was);
      StillThere(touched, swept, left, maximum, later, z, e);
    }
  }

  /** A lookup that meets an expired entry leaves it where the next pruning looks. */
  method Look(cache: AggressiveNSECCache, now: int, z: nat, name: Labels, later: int) returns (found: bool, ghost e: CacheEntry)
    requires cache.Valid() && z < |cache.zones| && cache.zones[z].entries != [] && now <= later
    modifies cache`zones
    ensures cache.Valid() && IsBefore(old(cache.zones[z].entries), name, e) && (found <==> e.ttd > now)
    ensures !found && OnlyIn(old(cache.zones), z, e) ==> Outlived(cache.zones, e, later) == true
  {
    ghost var was := cache.zones;
    var entry;
    found, entry := cache.GetNSECBefore(now, z, name);
    ghost var i :| 0 <= i < |was[z].entries| && IsBefore(was[z].entries, name, was[z].entries[i])
                   && (found <==> was[z].entries[i].ttd > now) && cache.zones == was[z := Touched(was[z], i, now)];
    e := was[z].entries[i];
    if !found && OnlyIn(was, z, e) {
      assert was[z] in was;
      NotTouched(was, z, i, now, later);
    }
  }

  /** A lookup and a pruning at that time or later: if the entry before the name had expired, no zone
      has it any more, unless another zone had it as well. */
  method LookAndPrune(cache: AggressiveNSECCache, now: int, z: nat, name: Labels, later: int) returns (found: bool, ghost e: CacheEntry)
    requires cache.Valid() && z < |cache.zones| && cache.zones[z].entries != [] && now <= later
    modifies cache`zones, cache`entriesCount
    ensures cache.Valid() && IsBefore(old(cache.zones[z].entries), name, e) && (found <==> e.ttd > now)
    ensures !found && OnlyIn(old(cache.zones), z, e) ==> NoneHas(cache.zones, e)
  {
    found, e := Look(cache, now, z, name, later);
    PruneOutlived(cache, later, e);
  }

  method PruneOutlived(cache: AggressiveNSECCache, now: int, ghost e: CacheEntry)
    requires cache.Valid()
    modifies cache`zones, cache`entriesCount
    ensures cache.Valid()
    ensures Outlived(old(cache.zones), e, now) ==> NoneHas(cache.zones, e) == true
  {
    ghost var was := cache.zones;
    ghost var maximum := cache.maxEntries;
    ghost var swept, left := cache.Prune(now);
    if Outlived(was, e, now) { Pruned(was, swept, left, maximum, now, e); }
  }

  lemma {:induction false} Pruned(zones: seq<Zone>, swept: seq<Zone>, left: seq<Zone>, maximum: nat, now: int, e: CacheEntry)
    requires AllFresh(swept, zones, now) && Outlived(zones, e, now) && AllUnique(zones)
    requires TrimmedTo(left, swept, maximum)
    ensures NoneHas(NonEmpty(left), e) == true
  {
    NotSwept(swept, zones, now, e);
    NotTrimmed(left, swept, maximum, e);
  }

  /** No other zone has the entry. */
  ghost predicate OnlyIn(zones: seq<Zone>, z: nat, e: CacheEntry) {
    forall i | 0 <= i < |zones| && i != z :: e !in zones[i].entries
  }

  lemma NotTouched(zones: seq<Zone>, z: nat, i: nat, now: int, later: int)
    requires z < |zones| && i < |zones[z].entries| && Unique(zones[z].entries) && zones[z].entries[i].ttd <= now <= later
    requires OnlyIn(zones, z, zones[z].entries[i])
    ensures Outlived(zones[z := Touched(zones[z], i, now)], zones[z].entries[i], later) == true
  {
    ExpiredIsPruned(zones[z], i, now, later);
  }

  /** Where the entry is, the next look at the zone erases it. */
  ghost predicate Outlived(zones: seq<Zone>, e: CacheEntry, now: int) {
    forall i | 0 <= i < |zones| :: e !in zones[i].entries || e !in FreshZone(zones[i], now).entries
  }

  ghost predicate NoneHas(zones: seq<Zone>, e: CacheEntry) {
    forall zone | zone in zones :: e !in zone.entries
  }

  lemma NotSwept(swept: seq<Zone>, zones: seq<Zone>, now: int, e: CacheEntry)
    requires AllFresh(swept, zones, now) && AllUnique(zones)
    requires Outlived(zones, e, now)
    ensures NoneHas(swept, e) == true
  {
    forall i | 0 <= i < |zones| ensures e !in swept[i].entries {
      assert zones[i] in zones;
      FreshUnique(zones[i].entries, Tenth(|zones[i].entries|), now);
    }
  }

  lemma NotTrimmed(left: seq<Zone>, swept: seq<Zone>, maximum: nat, e: CacheEntry)
    requires TrimmedTo(left, swept, maximum)
    requires NoneHas(swept, e)
    ensures NoneHas(left, e) == true
  {
    forall i | 0 <= i < |left| ensures e !in left[i].entries {
      assert swept[i] in swept;
      if EntriesIn(swept) > maximum {
        var n := Share(ZoneSizes(swept), EntriesIn(swept) - maximum, i);
        assert left[i] == TrimmedZone(swept[i], n);
        if e in swept[i].entries[n..] { assert false; }
      }
    }
  }

  /** Trimming leaves exactly the maximum, and of every zone its most recently used entries. */
  lemma TrimmedToMaximum(left: seq<Zone>, zones: seq<Zone>, maximum: nat)
    requires EntriesIn(zones) >= maximum && AllTrimmed(left, zones, EntriesIn(zones) - maximum)
    ensures EntriesIn(left) == maximum
    ensures forall i | 0 <= i < |zones| ::
      |left[i].entries| <= |zones[i].entries| && left[i].entries == zones[i].entries[|zones[i].entries| - |left[i].entries|..]
  {
    var sizes, now, trim := ZoneSizes(zones), ZoneSizes(left), EntriesIn(zones) - maximum;
    forall i | 0 <= i < |sizes| ensures now[i] == sizes[i] - Share(sizes, trim, i) {
      assert left[i] == TrimmedZone(zones[i], Share(sizes, trim, i));
    }
    SharesExactly(now, sizes, trim, 0);
  }
}
