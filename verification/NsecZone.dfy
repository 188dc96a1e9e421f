/** The entries of one zone of the aggressive NSEC cache: one container with an index in canonical
    order of the owners (a view here) and one in least-recently-used order (what is stored).  NsecOrder
    says when the order that the container keeps is the canonical one. */
module NsecZone {
  import opened DnsName
  import opened CanonicalOrder

  /** An NSEC or NSEC3 record with the time it dies; `record` stands for everything else. */
  datatype CacheEntry = CacheEntry(owner: Labels, next: Labels, ttd: int, record: int)

  type Entries = seq<CacheEntry>

  /** The ordered index is unique. */
  ghost predicate Unique(entries: Entries) {
    forall i, j | 0 <= i < j < |entries| :: Canon(entries[i].owner, entries[j].owner) != 0
  }

  // ---------------------------------------------------------------- the ordered index

  /** lower_bound: the first entry that is not before the name. */
  function LowerBound(ordered: Entries, name: Labels, i: nat): (r: nat)
    requires i <= |ordered|
    ensures i <= r <= |ordered| && (forall k | i <= k < r :: Canon(ordered[k].owner, name) < 0)
    ensures r < |ordered| ==> Canon(ordered[r].owner, name) >= 0
    decreases |ordered| - i
  {
    if i == |ordered| || Canon(ordered[i].owner, name) >= 0 then i else LowerBound(ordered, name, i + 1)
  }

  ghost predicate Ascending(ordered: Entries) {
    forall i, j | 0 <= i < j < |ordered| :: Canon(ordered[i].owner, ordered[j].owner) < 0
  }

  /** The entries in canonical order of their owners. */
  function Ordered(entries: Entries): (r: Entries)
    ensures |r| == |entries|
  {
    if entries == [] then []
    else
      var rest := Ordered(entries[1..]);
      var at := LowerBound(rest, entries[0].owner, 0);
      Inserted(rest, entries[0], at)
  }

  lemma {:induction false} OrderedSame(entries: Entries)
    ensures multiset(Ordered(entries)) == multiset(entries)
  {
    if entries != [] {
      OrderedSame(entries[1..]);
      var rest := Ordered(entries[1..]);
      var at := LowerBound(rest, entries[0].owner, 0);
      InsertedSame(rest, entries[0], at);
      assert entries == [entries[0]] + entries[1..];
    }
  }

  lemma SameMembers(a: Entries, b: Entries, e: CacheEntry)
    requires multiset(a) == multiset(b)
    ensures e in a <==> e in b
  {
    assert e in multiset(a) <==> e in multiset(b);
  }

  lemma CanonLess(a: Labels, b: Labels, c: Labels)
    requires Canon(a, b) <= 0 && Canon(b, c) <= 0
    ensures Canon(a, c) <= 0
    ensures Canon(a, b) < 0 || Canon(b, c) < 0 ==> Canon(a, c) < 0
  {
    CanonTransitive(a, b, c, 0);
  }

  lemma {:induction false} OrderedAscending(entries: Entries)
    requires Unique(entries)
    ensures Ascending(Ordered(entries))
  {
    if entries != [] {
      var e, tail := entries[0], entries[1..];
      assert forall i, j | 0 <= i < j < |tail| :: tail[i] == entries[i + 1] && tail[j] == entries[j + 1];
      OrderedAscending(tail);
      OrderedSame(tail);
      var rest := Ordered(tail);
      var at := LowerBound(rest, e.owner, 0);
      forall k | 0 <= k < |rest| ensures Canon(rest[k].owner, e.owner) != 0 {
        SameMembers(rest, tail, rest[k]);
        var m :| 0 <= m < |tail| && tail[m] == rest[k];
        assert Canon(entries[0].owner, entries[m + 1].owner) != 0;
        CanonFlips(e.owner, rest[k].owner, 0);
      }
      InsertAscending(rest, e, at);
    }
  }

  lemma {:induction false} InsertAscending(rest: Entries, e: CacheEntry, at: nat)
    requires Ascending(rest) && at == LowerBound(rest, e.owner, 0)
    requires forall k | 0 <= k < |rest| :: Canon(rest[k].owner, e.owner) != 0
    ensures Ascending(Inserted(rest, e, at))
  {
    forall k | at <= k < |rest| ensures Canon(e.owner, rest[k].owner) < 0 { AfterIt(rest, e, at, k); }
    var r := Inserted(rest, e, at);
    forall i, j | 0 <= i < j < |r| ensures Canon(r[i].owner, r[j].owner) < 0 { InsertedPair(rest, e, at, i, j); }
  }

  lemma AfterIt(rest: Entries, e: CacheEntry, at: nat, k: nat)
    requires Ascending(rest) && at <= k < |rest| && Canon(rest[at].owner, e.owner) > 0
    ensures Canon(e.owner, rest[k].owner) < 0
  {
    CanonFlips(e.owner, rest[at].owner, 0);
    if at < k { CanonLess(e.owner, rest[at].owner, rest[k].owner); }
  }

  lemma InsertedPair(rest: Entries, e: CacheEntry, at: nat, i: nat, j: nat)
    requires Ascending(rest) && at <= |rest| && i < j <= |rest|
    requires forall k | 0 <= k < at :: Canon(rest[k].owner, e.owner) < 0
    requires forall k | at <= k < |rest| :: Canon(e.owner, rest[k].owner) < 0
    ensures Canon(Inserted(rest, e, at)[i].owner, Inserted(rest, e, at)[j].owner) < 0
  {
    InsertedAt(rest, e, at, i);
    InsertedAt(rest, e, at, j);
    var x, y := if i > at then i - 1 else i, if j > at then j - 1 else j;
    if i != at && j != at { assert Canon(rest[x].owner, rest[y].owner) < 0; }
  }

  function Inserted(rest: Entries, e: CacheEntry, at: nat): (r: Entries)
    requires at <= |rest|
    ensures |r| == |rest| + 1
  {
    rest[..at] + [e] + rest[at..]
  }

  lemma InsertedAt(rest: Entries, e: CacheEntry, at: nat, i: nat)
    requires at <= |rest| && i <= |rest|
    ensures Inserted(rest, e, at)[i] == if i < at then rest[i] else if i == at then e else rest[i - 1]
  {}

  lemma InsertedSame(rest: Entries, e: CacheEntry, at: nat)
    requires at <= |rest|
    ensures multiset(Inserted(rest, e, at)) == multiset([e]) + multiset(rest)
  {
    assert rest == rest[..at] + rest[at..];
  }

  // ---------------------------------------------------------------- the entry before a name

  /** e is the greatest at or before the name, or the greatest of all when none is. */
  ghost predicate IsBefore(entries: Entries, name: Labels, e: CacheEntry) {
    && e in entries
    && if exists f :: f in entries && Canon(f.owner, name) <= 0
       then Canon(e.owner, name) <= 0 && forall f | f in entries && Canon(f.owner, name) <= 0 :: Canon(f.owner, e.owner) <= 0
       else forall f | f in entries :: Canon(f.owner, e.owner) <= 0
  }

  lemma UniqueOwners(entries: Entries, e: CacheEntry, f: CacheEntry)
    requires Unique(entries) && e in entries && f in entries && e != f
    ensures Canon(e.owner, f.owner) != 0
  {
    var i :| 0 <= i < |entries| && entries[i] == e;
    var j :| 0 <= j < |entries| && entries[j] == f;
    CanonFlips(e.owner, f.owner, 0);
    var x, y := if i < j then i else j, if i < j then j else i;
    assert Canon(entries[x].owner, entries[y].owner) != 0;
  }

  /** There is just one such entry. */
  lemma BeforeUnique(entries: Entries, name: Labels, e: CacheEntry, f: CacheEntry)
    requires Unique(entries) && IsBefore(entries, name, e) && IsBefore(entries, name, f)
    ensures e == f
  {
    CanonFlips(e.owner, f.owner, 0);
    if e != f { UniqueOwners(entries, e, f); }
  }

  lemma IndexOf(entries: Entries, e: CacheEntry) returns (m: nat)
    requires e in entries
    ensures m < |entries| && entries[m] == e
  {
    m :| 0 <= m < |entries| && entries[m] == e;
  }

  /** Where the iterator of getNSECBefore ends up in the ordered index. */
  lemma {:induction false} PredecessorAt(entries: Entries, name: Labels, k: nat)
    requires Unique(entries) && k < |entries|
    requires var o := Ordered(entries);
             var lb := LowerBound(o, name, 0);
             k == if lb < |o| && Canon(o[lb].owner, name) == 0 then lb else if lb == 0 then |o| - 1 else lb - 1
    ensures IsBefore(entries, name, Ordered(entries)[k])
  {
    var o := Ordered(entries);
    var lb := LowerBound(o, name, 0);
    OrderedAscending(entries);
    OrderedSame(entries);
    forall f ensures f in entries <==> f in o { SameMembers(o, entries, f); }
    var e := o[k];
    assert e in o;
    forall f | f in entries && Canon(f.owner, name) <= 0
      ensures Canon(e.owner, name) <= 0 && Canon(f.owner, e.owner) <= 0
    {
      var m := IndexOf(o, f);
      if m >= lb { NotBefore(o, name, lb, m); }
      UpTo(o, m, k);
    }
    forall f | f in entries && lb == 0 ensures Canon(f.owner, e.owner) <= 0 || Canon(e.owner, name) == 0 {
      var m := IndexOf(o, f);
      if k == |o| - 1 { UpTo(o, m, k); }
    }
  }

  /** From its lower bound on, the index is past the name, but for an entry with just this owner. */
  lemma {:induction false} NotBefore(o: Entries, name: Labels, lb: nat, m: nat)
    requires Ascending(o) && lb == LowerBound(o, name, 0) && lb <= m < |o|
    ensures Canon(o[m].owner, name) <= 0 ==> m == lb && Canon(o[lb].owner, name) == 0
  {
    if lb < m && Canon(o[m].owner, name) <= 0 { CanonLess(o[lb].owner, o[m].owner, name); }
  }

  lemma UpTo(o: Entries, m: nat, k: nat)
    requires Ascending(o) && m <= k < |o|
    ensures Canon(o[m].owner, o[k].owner) <= 0
  {
    if m == k { CanonEqual(o[k].owner, o[k].owner); }
  }
}
