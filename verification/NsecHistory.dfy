/** What a zone of the aggressive cache can hold after any history: only records that were worth
    keeping, and NSEC3 records only under the parameters the zone has now. */
module NsecHistory {
  import opened DnsName
  import opened NsecZone
  import opened NsecCache
  import HashPrefix

  /** A record that was offered. */
  datatype Record = Record(owner: Labels, realOwner: Labels, content: Content, ttd: int, id: int)
  {
    function Entry(): CacheEntry { CacheEntry(realOwner, content.next, ttd, id) }
  }

  /** What happens to a zone: a record is offered to it, or its entries are moved or erased. */
  datatype Event = Offered(record: Record) | Kept

  /** What a kept record is not: an opt-out NSEC3 record, one of too many iterations, one whose hash
      range is too small, or an NSEC record that covers nothing but its owner's first child. */
  ghost predicate WorthKeeping(r: Record, limits: Limits) {
    match r.content
    case NSEC(next) => next != [[0]] + r.owner
    case NSEC3(optOut, iterations, salt, nextHash, next) =>
      && !optOut && (limits.iterations == 0 || iterations <= limits.iterations)
      && r.owner != [] && !HashPrefix.SmallCovering(r.owner[0], nextHash, limits.commonPrefix)
  }

  /** An NSEC3 record's parameters are those of the zone. */
  predicate SameParameters(zone: Zone, content: Content) {
    content.NSEC3? ==> zone.nsec3 && zone.iterations == content.iterations && zone.salt == content.salt
  }

  /** The entry is that of a record which was offered, was worth keeping and fits the zone. */
  ghost predicate Origin(x: CacheEntry, r: Record, zone: Zone, limits: Limits) {
    x == r.Entry() && WorthKeeping(r, limits) && SameParameters(zone, r.content)
  }

  ghost predicate HasOrigin(x: CacheEntry, zone: Zone, limits: Limits, records: seq<Record>) {
    exists i | 0 <= i < |records| :: Origin(x, records[i], zone, limits)
  }

  ghost predicate Justified(zone: Zone, limits: Limits, records: seq<Record>) {
    forall x {:trigger HasOrigin(x, zone, limits, records)} | x in zone.entries :: HasOrigin(x, zone, limits, records)
  }

  /** The same zone with no entry it did not have. */
  ghost predicate NothingNew(before: Zone, after: Zone) {
    && after.nsec3 == before.nsec3 && after.iterations == before.iterations && after.salt == before.salt
    && forall x | x in after.entries :: x in before.entries
  }

  lemma StillJustified(before: Zone, after: Zone, limits: Limits, records: seq<Record>)
    requires Justified(before, limits, records) && NothingNew(before, after)
    ensures Justified(after, limits, records)
  {
    forall x | x in after.entries ensures HasOrigin(x, after, limits, records) {
      assert HasOrigin(x, before, limits, records);
      var i :| 0 <= i < |records| && Origin(x, records[i], before, limits);
      assert Origin(x, records[i], after, limits);
    }
  }

  lemma MoreRecords(zone: Zone, limits: Limits, records: seq<Record>, r: Record)
    requires Justified(zone, limits, records)
    ensures Justified(zone, limits, records + [r])
  {
    forall x | x in zone.entries ensures HasOrigin(x, zone, limits, records + [r]) {
      assert HasOrigin(x, zone, limits, records);
      var i :| 0 <= i < |records| && Origin(x, records[i], zone, limits);
      assert (records + [r])[i] == records[i];
    }
  }

  lemma PutFrom(entries: Entries, e: CacheEntry)
    ensures forall x | x in Put(entries, e) :: x == e || x in entries
  {}

  /** A record that is accepted fits the zone it enters, and so does every entry that stays. */
  lemma OfferJustified(zone: Zone, name: Labels, limits: Limits, records: seq<Record>, r: Record)
    requires Justified(zone, limits, records)
    ensures Justified(ZoneAfter(zone, name, r.owner, r.content, limits, r.Entry()), limits, records + [r])
  {
    var after := ZoneAfter(zone, name, r.owner, r.content, limits, r.Entry());
    var all := records + [r];
    MoreRecords(zone, limits, records, r);
    PutFrom(zone.entries, r.Entry());
    PutFrom([], r.Entry());
    forall x | x in after.entries ensures HasOrigin(x, after, limits, all) {
      if x == r.Entry() && !Refused(name, r.owner, r.content, limits) {
        assert Origin(x, all[|records|], after, limits);
      } else {
        assert HasOrigin(x, zone, limits, all);
        var i :| 0 <= i < |all| && Origin(x, all[i], zone, limits);
        assert Origin(x, all[i], after, limits);
      }
    }
  }

  /** One event. */
  ghost predicate Follows(before: Zone, after: Zone, name: Labels, limits: Limits, event: Event) {
    match event
    case Offered(r) => after == ZoneAfter(before, name, r.owner, r.content, limits, r.Entry())
    case Kept => NothingNew(before, after)
  }

  ghost function RecordsOf(events: seq<Event>): (records: seq<Record>) {
    if events == [] then []
    else
      var last := |events| - 1;
      RecordsOf(events[..last]) + if events[last].Offered? then [events[last].record] else []
  }

  ghost predicate History(zones: seq<Zone>, name: Labels, limits: Limits, events: seq<Event>) {
    && |zones| == |events| + 1 && zones[0].entries == []
    && forall i | 0 <= i < |events| :: Follows(zones[i], zones[i + 1], name, limits, events[i])
  }

  /** After any history of a zone, every entry is that of a record which was worth keeping, and no
      NSEC3 record in it has other parameters than the zone. */
  lemma {:induction false} HistoryJustifies(zones: seq<Zone>, name: Labels, limits: Limits, events: seq<Event>)
    requires History(zones, name, limits, events)
    ensures Justified(zones[|events|], limits, RecordsOf(events))
    decreases |events|
  {
    if events != [] {
      var last := |events| - 1;
      var before, after := zones[last], zones[|events|];
      var records := RecordsOf(events[..last]);
      HistoryJustifies(zones[..|events|], name, limits, events[..last]);
      assert Follows(before, after, name, limits, events[last]);
      if events[last].Offered? {
        OfferJustified(before, name, limits, records, events[last].record);
      } else {
        StillJustified(before, after, limits, records);
        assert records + [] == records;
      }
    }
  }

  /** What lookups and pruning do to a zone brings nothing new into it. */
  lemma {:induction false} OthersBringNothing(zone: Zone, i: nat, n: nat, now: int)
    requires n <= |zone.entries|
    ensures NothingNew(zone, FreshZone(zone, now)) && NothingNew(zone, TrimmedZone(zone, n))
    ensures i < |zone.entries| ==> NothingNew(zone, Touched(zone, i, now))
  {
    FreshFrom(zone.entries, Tenth(|zone.entries|), now);
  }

  lemma {:induction false} FreshFrom(entries: Entries, n: nat, now: int)
    ensures forall x | x in Fresh(entries, n, now) :: x in entries
  {
    if n > 0 && entries != [] {
      assert entries == [entries[0]] + entries[1..];
      FreshFrom(entries[1..], n - 1, now);
    }
  }
}
