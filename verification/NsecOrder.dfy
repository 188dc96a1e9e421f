/** The order that the container of a zone's entries keeps: owners are compared over position arrays.  For
    owners that are read right, or have 64 labels or more, it is the canonical order; for owners of fewer
    labels it is that of the labels that are read.  What it is when a name that is not read right meets one
    of 64 labels or more, for which the comparison falls back on the labels themselves, is left open. */
module NsecOrder {
  import opened DnsName
  import opened CanonicalOrder
  import opened PositionArrays
  import opened NsecZone

  ghost function OwnerOrder(a: Labels, b: Labels): int
    requires ValidLabels(a) && ValidLabels(b)
  {
    FastCanon(Wire(a), a, Wire(b), b)
  }

  ghost predicate ValidOwners(entries: Entries) { forall i | 0 <= i < |entries| :: ValidLabels(entries[i].owner) }

  /** lower_bound in the order of the container. */
  ghost function ContainerBound(ordered: Entries, name: Labels, i: nat): (r: nat)
    requires ValidOwners(ordered) && ValidLabels(name) && i <= |ordered|
    ensures i <= r <= |ordered|
    decreases |ordered| - i
  {
    if i == |ordered| || OwnerOrder(ordered[i].owner, name) >= 0 then i else ContainerBound(ordered, name, i + 1)
  }

  /** The entries in the order of the container. */
  ghost function Container(entries: Entries): (r: Entries)
    requires ValidOwners(entries)
    ensures |r| == |entries| && ValidOwners(r)
  {
    if entries == [] then []
    else
      var rest := Container(entries[1..]);
      InsertedValid(rest, entries[0], ContainerBound(rest, entries[0].owner, 0));
      Inserted(rest, entries[0], ContainerBound(rest, entries[0].owner, 0))
  }

  lemma InsertedValid(rest: Entries, e: CacheEntry, at: nat)
    requires ValidOwners(rest) && ValidLabels(e.owner) && at <= |rest|
    ensures ValidOwners(Inserted(rest, e, at))
  {
    forall i | 0 <= i < |rest| + 1 ensures ValidLabels(Inserted(rest, e, at)[i].owner) { InsertedAt(rest, e, at, i); }
  }

  /** Where the iterator of getNSECBefore ends, whatever the index and its order: `lb` is the lower bound,
      and `exact` says that it has just the name. */
  function Back(size: nat, lb: nat, exact: bool): int {
    if exact then lb else if lb == 0 then size - 1 else lb - 1
  }

  ghost predicate Exact(ordered: Entries, name: Labels, lb: nat)
    requires ValidOwners(ordered) && ValidLabels(name)
  {
    lb < |ordered| && OwnerOrder(ordered[lb].owner, name) == 0
  }

  // ---------------------------------------------------------------- owners that are read right

  ghost predicate ReadFairly(a: Labels) { ValidLabels(a) && (|a| >= MAX_POSITIONS || ReadRight(Wire(a), a)) }

  ghost predicate Fair(entries: Entries) { forall i | 0 <= i < |entries| :: ReadFairly(entries[i].owner) }

  lemma FairOrder(a: Labels, b: Labels)
    requires ReadFairly(a) && ReadFairly(b)
    ensures OwnerOrder(a, b) == Canon(a, b)
  {
    FastIsSlow(Wire(a), a, Wire(b), b);
  }

  lemma {:induction false} FairBound(ordered: Entries, name: Labels, i: nat)
    requires Fair(ordered) && ReadFairly(name) && i <= |ordered|
    ensures ValidOwners(ordered) && ContainerBound(ordered, name, i) == LowerBound(ordered, name, i)
    decreases |ordered| - i
  {
    if i < |ordered| {
      FairOrder(ordered[i].owner, name);
      FairBound(ordered, name, i + 1);
    }
  }

  lemma {:induction false} FairContainer(entries: Entries)
    requires Fair(entries)
    ensures ValidOwners(entries) && Container(entries) == Ordered(entries) && Fair(Ordered(entries))
  {
    if entries != [] {
      var e, tail := entries[0], entries[1..];
      assert forall i | 0 <= i < |tail| :: tail[i] == entries[i + 1];
      FairContainer(tail);
      var rest := Ordered(tail);
      FairBound(rest, e.owner, 0);
      var at := LowerBound(rest, e.owner, 0);
      forall i | 0 <= i < |rest| + 1 ensures ReadFairly(Inserted(rest, e, at)[i].owner) { InsertedAt(rest, e, at, i); }
    }
  }

  /** In the container's own order the search ends at the canonical predecessor, when the name and all
      owners are read right or have 64 labels or more. */
  lemma {:induction false} FairPredecessor(entries: Entries, name: Labels)
    requires Unique(entries) && entries != [] && Fair(entries) && ReadFairly(name)
    ensures ValidOwners(entries)
    ensures var o := Container(entries);
            var lb := ContainerBound(o, name, 0);
            var k := Back(|o|, lb, Exact(o, name, lb));
            0 <= k < |o| && IsBefore(entries, name, o[k])
  {
    FairContainer(entries);
    var o := Ordered(entries);
    FairBound(o, name, 0);
    var lb := LowerBound(o, name, 0);
    if lb < |o| { FairOrder(o[lb].owner, name); }
    PredecessorAt(entries, name, Back(|o|, lb, Exact(o, name, lb)));
  }

  // ---------------------------------------------------------------- owners of few labels

  /** The labels that are read of an owner. */
  ghost function SeenOwner(a: Labels): Labels
    requires ValidLabels(a)
  {
    Seen(Wire(a), a)
  }

  /** The entries under the owners that are read. */
  ghost function AsSeen(entries: Entries): (r: Entries)
    requires ValidOwners(entries)
    ensures |r| == |entries|
  {
    seq(|entries|, i requires 0 <= i < |entries| => entries[i].(owner := SeenOwner(entries[i].owner)))
  }

  ghost predicate Few(entries: Entries) { forall i | 0 <= i < |entries| :: ValidLabels(entries[i].owner) && |entries[i].owner| < MAX_POSITIONS }

  lemma SeenOrder(a: Labels, b: Labels)
    requires ValidLabels(a) && ValidLabels(b) && |a| < MAX_POSITIONS && |b| < MAX_POSITIONS
    ensures OwnerOrder(a, b) == Canon(SeenOwner(a), SeenOwner(b))
  {
    FastIsCanonOfSeen(Wire(a), a, Wire(b), b);
  }

  lemma {:induction false} SeenBound(ordered: Entries, name: Labels, i: nat)
    requires Few(ordered) && ValidLabels(name) && |name| < MAX_POSITIONS && i <= |ordered|
    ensures ContainerBound(ordered, name, i) == LowerBound(AsSeen(ordered), SeenOwner(name), i)
    decreases |ordered| - i
  {
    if i < |ordered| {
      SeenOrder(ordered[i].owner, name);
      SeenBound(ordered, name, i + 1);
    }
  }

  lemma SeenInserted(rest: Entries, e: CacheEntry, at: nat)
    requires ValidOwners(rest) && ValidLabels(e.owner) && at <= |rest|
    ensures ValidOwners(Inserted(rest, e, at))
    ensures AsSeen(Inserted(rest, e, at)) == Inserted(AsSeen(rest), e.(owner := SeenOwner(e.owner)), at)
  {
    InsertedValid(rest, e, at);
    forall i | 0 <= i < |rest| + 1
      ensures AsSeen(Inserted(rest, e, at))[i] == Inserted(AsSeen(rest), e.(owner := SeenOwner(e.owner)), at)[i]
    {
      InsertedAt(rest, e, at, i);
      InsertedAt(AsSeen(rest), e.(owner := SeenOwner(e.owner)), at, i);
    }
  }

  lemma {:induction false} SeenContainer(entries: Entries)
    requires Few(entries)
    ensures Few(Container(entries)) && AsSeen(Container(entries)) == Ordered(AsSeen(entries))
  {
    if entries != [] {
      var e, tail := entries[0], entries[1..];
      assert forall i | 0 <= i < |tail| :: tail[i] == entries[i + 1];
      SeenContainer(tail);
      var rest := Container(tail);
      SeenBound(rest, e.owner, 0);
      var at := ContainerBound(rest, e.owner, 0);
      SeenInserted(rest, e, at);
      assert AsSeen(entries)[0] == e.(owner := SeenOwner(e.owner)) && AsSeen(entries)[1..] == AsSeen(tail);
      forall i | 0 <= i < |rest| + 1
        ensures ValidLabels(Inserted(rest, e, at)[i].owner) && |Inserted(rest, e, at)[i].owner| < MAX_POSITIONS
      {
        InsertedAt(rest, e, at, i);
      }
    } else {
      assert AsSeen(entries) == [];
    }
  }

  /** For owners of fewer than 64 labels, read right or not, the search ends at the predecessor in the
      canonical order of the labels that are read. */
  lemma {:induction false} SeenPredecessor(entries: Entries, name: Labels)
    requires Few(entries) && entries != [] && ValidLabels(name) && |name| < MAX_POSITIONS && Unique(AsSeen(entries))
    ensures var o := Container(entries);
            var lb := ContainerBound(o, name, 0);
            var k := Back(|o|, lb, Exact(o, name, lb));
            0 <= k < |o| && IsBefore(AsSeen(entries), SeenOwner(name), AsSeen(o)[k])
  {
    SeenContainer(entries);
    var o := Container(entries);
    SeenBound(o, name, 0);
    var lb := ContainerBound(o, name, 0);
    if lb < |o| { SeenOrder(o[lb].owner, name); }
    PredecessorAt(AsSeen(entries), SeenOwner(name), Back(|o|, lb, Exact(o, name, lb)));
  }
}
