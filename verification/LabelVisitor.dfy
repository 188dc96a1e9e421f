/** DNSName::RawLabelsVisitor: the labels of a name from the last one back, without copying them.  Their
    positions are kept in eight bits, and there is room for 128. */
module LabelVisitor {
  import opened DnsName
  import opened CanonicalOrder
  import opened PositionArrays

  const MAX_VISITED := 128

  class RawLabelsVisitor {
    const storage: Bytes
    const positions: array<Byte>
    var count: nat

    ghost predicate Valid()
      reads this
    {
      count <= positions.Length == MAX_VISITED
    }

    /** The labels that are still to be visited, as the visitor reads them. */
    ghost function Rest(): (r: Labels)
      requires Valid()
      reads this, positions
      ensures |r| == count
    {
      Views(storage, positions[..count])
    }

    constructor (storage: Bytes)
      ensures Valid() && count == 0 && this.storage == storage && fresh(positions)
    {
      this.storage, positions, count := storage, new Byte[MAX_VISITED](_ => 0), 0;
    }

    /** The rest of the source's constructor; it throws when there is no room for a position. */
    method Fill(ghost labels: Labels) returns (ok: bool)
      requires Valid() && count == 0 && Holds(storage, labels)
      modifies this, positions
      ensures Valid() && (ok <==> |labels| <= MAX_VISITED)
      ensures ok ==> Rest() == Seen(storage, labels)
    {
      var position := 0;
      WalkStart(storage, labels);
      while position < |storage| && storage[position] != 0
        invariant Valid() && WalkAt(storage, labels, position, count)
        invariant Recorded(positions[..count], labels)
        decreases |storage| - position
      {
        WalkOn(storage, labels, position, count);
        if count == MAX_VISITED { return false; }
        RecordNext(positions[..count], storage, labels, position);
        positions[count] := position % 256;
        assert positions[..count + 1] == positions[..count] + [positions[count]];
        count, position := count + 1, position + storage[position] + 1;
      }
      WalkEnd(storage, labels, position, count);
      RecordedSeen(storage, labels, positions[..count]);
      ok := true;
    }

    method Back() returns (last: Label)
      requires Valid() && count > 0
      ensures last == Rest()[count - 1]
    {
      last := View(storage, positions[count - 1]);
    }

    method PopBack() returns (popped: bool)
      requires Valid()
      modifies this`count
      ensures Valid() && (popped <==> old(count) > 0)
      ensures Rest() == if popped then old(Rest()[..count - 1]) else old(Rest())
    {
      popped := count > 0;
      if popped { count := count - 1; }
    }
  }

  /** The positions of the first labels, cut to eight bits. */
  ghost predicate Recorded(positions: seq<Byte>, labels: Labels)
    requires ValidLabels(labels)
  {
    |positions| <= |labels| && forall i | 0 <= i < |positions| :: positions[i] == Off(labels, i) % 256
  }

  lemma RecordNext(positions: seq<Byte>, storage: Bytes, labels: Labels, p: nat)
    requires Holds(storage, labels) && Recorded(positions, labels) && |positions| < |labels|
    requires storage != [] && WalkAt(storage, labels, p, |positions|)
    ensures var low: Byte := p % 256;
            Recorded(positions + [low], labels) == true
  {}

  lemma RecordedSeen(storage: Bytes, labels: Labels, positions: seq<Byte>)
    requires ValidLabels(labels) && Recorded(positions, labels) && |positions| == |labels|
    ensures Views(storage, positions) == Seen(storage, labels)
  {}
}
