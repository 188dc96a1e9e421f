/** DNSPacketMangler: a cursor over a packet that is changed in place.  An operation that returns
    false stands for the std::out_of_range exception. */
module PacketMangler {
  import opened DnsName
  import opened PacketFrame
  import opened PacketWriter
  import opened PacketWalk
  import opened PacketAging

  class DNSPacketMangler {
    const packet: array<Byte>
    var offset: nat

    constructor (packet: array<Byte>)
      ensures this.packet == packet && offset == HEADER_SIZE
    {
      this.packet := packet;
      offset := HEADER_SIZE;
    }

    /** moveOffset, skipBytes. */
    method MoveOffset(n: nat) returns (ok: bool)
      modifies this`offset
      ensures offset == old(offset) + n && (ok <==> offset <= packet.Length)
    {
      offset := offset + n;
      ok := offset <= packet.Length;
    }

    method Get8BitInt() returns (ok: bool, v: Byte)
      modifies this`offset
      ensures offset == old(offset) + 1 && (ok <==> offset <= packet.Length)
      ensures ok ==> v == packet[offset - 1]
    {
      ok := MoveOffset(1);
      v := if ok then packet[offset - 1] else 0;
    }

    method Get16BitInt() returns (ok: bool, v: nat)
      modifies this`offset
      ensures offset == old(offset) + 2 && (ok <==> offset <= packet.Length)
      ensures ok ==> v == U16(packet[..], offset - 2)
    {
      ok := MoveOffset(2);
      v := if ok then U16(packet[..], offset - 2) else 0;
    }

    method Get32BitInt() returns (ok: bool, v: nat)
      modifies this`offset
      ensures offset == old(offset) + 4 && (ok <==> offset <= packet.Length)
      ensures ok ==> v == U32(packet[..], offset - 4)
    {
      ok := MoveOffset(4);
      v := if ok then U32(packet[..], offset - 4) else 0;
    }

    /** skipDomainName: pointers are not followed. */
    method SkipDomainName() returns (ok: bool)
      modifies this`offset
      ensures ok <==> SkipName(packet[..], old(offset)).At?
      ensures ok ==> offset == SkipName(packet[..], old(offset)).pos
    {
      var more := true;
      while more
        invariant more ==> SkipName(packet[..], old(offset)) == SkipName(packet[..], offset)
        invariant !more ==> SkipName(packet[..], old(offset)) == At(offset)
        decreases more, packet.Length + 1 - offset
      {
        var len;
        ok, len := Get8BitInt();
        if !ok { return; }
        if len == 0 {
          more := false;
        } else if len >= 192 {
          ok := MoveOffset(1);
          if !ok { return; }
          more := false;
        } else {
          ok := MoveOffset(len);
          if !ok { return; }
        }
      }
      ok := true;
    }

    method SkipRData() returns (ok: bool)
      modifies this`offset
      ensures ok <==> SkipData(packet[..], old(offset)).At?
      ensures ok ==> offset == SkipData(packet[..], old(offset)).pos
    {
      var toSkip;
      ok, toSkip := Get16BitInt();
      if ok { ok := MoveOffset(toSkip); }
    }

    /** decreaseAndSkip32BitInt. */
    method DecreaseAndSkip32BitInt(decrease: nat) returns (ok: bool)
      modifies this`offset, packet
      ensures offset == old(offset) + 4 && (ok <==> offset <= packet.Length)
      ensures packet[..] == if ok then Put32(old(packet[..]), offset - 4, Left(U32(old(packet[..]), offset - 4), decrease))
                            else old(packet[..])
    {
      ghost var c := packet[..];
      ok := MoveOffset(4);
      if !ok { return; }
      var p := offset - 4;
      var ttl := U32(packet[..], p);
      ttl := if ttl > decrease then ttl - decrease else 0;
      var octets := Bytes32(ttl);
      packet[p], packet[p + 1] := octets[0], octets[1];
      packet[p + 2], packet[p + 3] := octets[2], octets[3];
      assert packet[..] == Put32(c, p, ttl);
    }

    /** The header's questions. */
    method SkipAllQuestions(n: nat) returns (ok: bool)
      requires offset <= packet.Length
      modifies this`offset
      ensures ok <==> SkipQuestions(packet[..], old(offset), n).At?
      ensures ok ==> offset == SkipQuestions(packet[..], old(offset), n).pos && offset <= packet.Length
    {
      ok := true;
      for i := 0 to n
        invariant offset <= packet.Length
        invariant SkipQuestions(packet[..], old(offset), n) == SkipQuestions(packet[..], offset, n - i)
      {
        ok := SkipDomainName();
        if !ok { return; }
        ok := MoveOffset(4);
        if !ok { return; }
      }
      ok := true;
    }

    /** The records, for getDNSPacketLength. */
    method SkipAllRecords(n: nat) returns (ok: bool)
      requires offset <= packet.Length
      modifies this`offset
      ensures ok <==> SkipRecords(packet[..], old(offset), n).At?
      ensures ok ==> offset == SkipRecords(packet[..], old(offset), n).pos
    {
      ok := true;
      for i := 0 to n
        invariant offset <= packet.Length
        invariant SkipRecords(packet[..], old(offset), n) == SkipRecords(packet[..], offset, n - i)
      {
        ok := SkipDomainName();
        if !ok { return; }
        ok := MoveOffset(8);
        if !ok { return; }
        ok := SkipRData();
        if !ok { return; }
      }
      ok := true;
    }

    /** One record of ageDNSPacket: everything but the TTL of an OPT record is skipped or aged. */
    method AgeRecord(seconds: nat) returns (ok: bool)
      requires offset <= packet.Length
      modifies this`offset, packet
      ensures var c := old(packet[..]);
              var v := VisitRecord(c, old(offset));
              && packet[..] == (if v.ttl.At? then Put32(c, v.ttl.pos, Left(U32(c, v.ttl.pos), seconds)) else c)
              && (ok <==> v.next.At?) && (ok ==> offset == v.next.pos)
    {
      ghost var c := packet[..];
      ghost var v := VisitRecord(c, offset);
      var dnsType;
      ok := SkipDomainName();
      if !ok { return; }
      ok, dnsType := Get16BitInt();
      if !ok { return; }
      ok := MoveOffset(2);
      if !ok { return; }
      if dnsType != OPT {
        ok := DecreaseAndSkip32BitInt(seconds);
      } else {
        ok := MoveOffset(4);
      }
      if !ok { return; }
      assert offset + 2 <= packet.Length ==> U16(packet[..], offset) == U16(c, offset);
      ok := SkipRData();
    }

    method AgeRecords(n: nat, seconds: nat)
      requires offset <= packet.Length
      modifies this`offset, packet
      ensures packet[..] == AgeFrom(old(packet[..]), old(offset), n, seconds)
    {
      for i := 0 to n
        invariant offset <= packet.Length
        invariant AgeFrom(old(packet[..]), old(offset), n, seconds) == AgeFrom(packet[..], offset, n - i, seconds)
      {
        var ok := AgeRecord(seconds);
        if !ok { return; }
      }
    }

    /** One record of getDNSPacketMinTTL; an OPT record has no TTL to read. */
    method ReadTtl() returns (found: bool, ttl: nat, ok: bool)
      requires offset <= packet.Length
      modifies this`offset
      ensures var v := VisitRecord(packet[..], old(offset));
              && (found <==> v.ttl.At?) && (found ==> ttl == U32(packet[..], v.ttl.pos))
              && (ok <==> found && v.next.At?) && (ok ==> offset == v.next.pos)
    {
      found, ttl := false, 0;
      var dnsType, dnsClass;
      ok := SkipDomainName();
      if !ok { return; }
      ok, dnsType := Get16BitInt();
      if !ok { return; }
      ok, dnsClass := Get16BitInt();
      if !ok { return; }
      if dnsType == OPT { ok := false; return; }
      ok, ttl := Get32BitInt();
      if !ok { return; }
      found := true;
      ok := SkipRData();
    }

    /** The records of getDNSPacketMinTTL, up to an OPT record or the end of what makes sense. */
    method MinOfRecords(n: nat) returns (result: nat)
      requires offset <= packet.Length
      modifies this`offset
      ensures result == Least(MAX_TTL, TtlValues(packet[..], old(offset), n))
    {
      result := MAX_TTL;
      ghost var least := LeastFrom(packet[..], offset, n);
      for i := 0 to n
        invariant offset <= packet.Length
        invariant result <= MAX_TTL
        invariant least == Lesser(result, LeastFrom(packet[..], offset, n - i))
      {
        LeastOfRecord(packet[..], offset, n - i);
        var found, ttl, ok := ReadTtl();
        if !found { return; }
        result := Lesser(ttl, result);
        if !ok { return; }
      }
    }
  }

  /** std::min. */
  function Lesser(a: nat, b: nat): nat {
    if a < b then a else b
  }

  ghost function LeastFrom(c: Bytes, p: nat, n: nat): (r: nat)
    ensures r <= MAX_TTL
  {
    Least(MAX_TTL, TtlValues(c, p, n))
  }

  lemma LeastOfRecord(c: Bytes, p: nat, n: nat)
    requires n > 0
    ensures var v := VisitRecord(c, p);
            LeastFrom(c, p, n) == if v.ttl.Lost? then MAX_TTL
                                  else Lesser(U32(c, v.ttl.pos), if v.next.At? then LeastFrom(c, v.next.pos, n - 1) else MAX_TTL)
  {
    var v := VisitRecord(c, p);
    if v.ttl.At? {
      var rest := if v.next.At? then TtlValues(c, v.next.pos, n - 1) else [];
      assert ([U32(c, v.ttl.pos)] + rest)[1..] == rest;
    }
  }

  /** ageDNSPacket, over any octets. */
  method AgeDNSPacket(packet: array<Byte>, seconds: nat)
    modifies packet
    ensures packet[..] == Age(old(packet[..]), seconds)
  {
    if packet.Length < HEADER_SIZE { return; }
    var questions, records := U16(packet[..], 4), RecordCount(packet[..]);
    var dpm := new DNSPacketMangler(packet);
    var ok := dpm.SkipAllQuestions(questions);
    if ok { dpm.AgeRecords(records, seconds); }
  }

  /** getDNSPacketMinTTL. */
  method GetDNSPacketMinTTL(packet: array<Byte>) returns (result: nat)
    ensures result == MinTtl(packet[..])
  {
    result := MAX_TTL;
    if packet.Length < HEADER_SIZE { return; }
    var dpm := new DNSPacketMangler(packet);
    var ok := dpm.SkipAllQuestions(U16(packet[..], 4));
    if ok { result := dpm.MinOfRecords(RecordCount(packet[..])); }
  }

  /** getDNSPacketLength. */
  method GetDNSPacketLength(packet: array<Byte>) returns (result: nat)
    ensures result == PacketLength(packet[..])
  {
    result := packet.Length;
    if packet.Length < HEADER_SIZE { return; }
    var dpm := new DNSPacketMangler(packet);
    var ok := dpm.SkipAllQuestions(U16(packet[..], 4));
    if !ok { return; }
    ok := dpm.SkipAllRecords(RecordCount(packet[..]));
    if ok { result := dpm.offset; }
  }
}
