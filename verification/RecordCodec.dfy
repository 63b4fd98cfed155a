/** `DnsRecord::read` and `DnsRecord::write` on the packet buffer. */
module RecordCodec {
  import opened Bytes
  import opened Cursor
  import opened Names
  import opened PacketBuffer
  import opened Question
  import opened Record

  // ---- Reading ----

  method TakeRest(buffer: BytePacketBuffer, start: nat, len: nat) returns (r: Option<seq<byte>>)
    requires buffer.Valid()
    modifies buffer`pos
    ensures buffer.DidRead(GetRest(buffer.buf[..], old(buffer.pos), start, len), r)
  {
    var end := start + len;
    if end < buffer.pos { return None; }
    r := buffer.Take(end - buffer.pos);
  }

  method ReadKeyLike(buffer: BytePacketBuffer, len: nat) returns (r: Option<(u16, byte, byte, seq<byte>)>)
    requires buffer.Valid()
    modifies buffer`pos
    ensures buffer.DidRead(ParseKeyLike(buffer.buf[..], old(buffer.pos), len), r)
  {
    hide GetU8, GetU16, GetRest;
    var start := buffer.pos;
    var w := buffer.ReadU16();
    if w.None? { return None; }
    var x := buffer.Read();
    if x.None? { return None; }
    var y := buffer.Read();
    if y.None? { return None; }
    var rest := TakeRest(buffer, start, len);
    if rest.None? { return None; }
    r := Some((w.value, x.value, y.value, rest.value));
  }

  method ReadAaaa(buffer: BytePacketBuffer) returns (r: Option<Ipv6>)
    requires buffer.Valid()
    modifies buffer`pos
    ensures buffer.DidRead(ParseAaaa(buffer.buf[..], old(buffer.pos)), r)
  {
    hide GetU32;
    var a1 := buffer.ReadU32();
    if a1.None? { return None; }
    var a2 := buffer.ReadU32();
    if a2.None? { return None; }
    var a3 := buffer.ReadU32();
    if a3.None? { return None; }
    var a4 := buffer.ReadU32();
    if a4.None? { return None; }
    var addr: Ipv6 := [a1.value / 0x1_0000, a1.value % 0x1_0000, a2.value / 0x1_0000, a2.value % 0x1_0000,
                       a3.value / 0x1_0000, a3.value % 0x1_0000, a4.value / 0x1_0000, a4.value % 0x1_0000];
    r := Some(addr);
  }

  method ReadSoa(buffer: BytePacketBuffer, domain: Text, ttl: u32) returns (r: Option<DnsRecord>)
    requires buffer.Valid()
    modifies buffer`pos
    ensures buffer.DidRead(ParseSoa(buffer.buf[..], old(buffer.pos), domain, ttl), r)
  {
    hide GetU32, ReadName;
    var mname := buffer.ReadQname();
    if mname.None? { return None; }
    var rname := buffer.ReadQname();
    if rname.None? { return None; }
    var serial := buffer.ReadU32();
    if serial.None? { return None; }
    var refresh := buffer.ReadU32();
    if refresh.None? { return None; }
    var retry := buffer.ReadU32();
    if retry.None? { return None; }
    var expire := buffer.ReadU32();
    if expire.None? { return None; }
    var minimum := buffer.ReadU32();
    if minimum.None? { return None; }
    r := Some(DnsRecord.SOA(domain, mname.value, rname.value, serial.value, refresh.value, retry.value, expire.value, minimum.value, ttl));
  }

  method ReadRrsig(buffer: BytePacketBuffer, len: nat, domain: Text, ttl: u32) returns (r: Option<DnsRecord>)
    requires buffer.Valid()
    modifies buffer`pos
    ensures buffer.DidRead(ParseRrsig(buffer.buf[..], old(buffer.pos), len, domain, ttl), r)
  {
    hide GetU8, GetU16, GetU32, ReadName, GetRest;
    var start := buffer.pos;
    var typeCovered := buffer.ReadU16();
    if typeCovered.None? { return None; }
    var algorithm := buffer.Read();
    if algorithm.None? { return None; }
    var labels := buffer.Read();
    if labels.None? { return None; }
    var originalTtl := buffer.ReadU32();
    if originalTtl.None? { return None; }
    var expiration := buffer.ReadU32();
    if expiration.None? { return None; }
    var inception := buffer.ReadU32();
    if inception.None? { return None; }
    var keyTag := buffer.ReadU16();
    if keyTag.None? { return None; }
    var signerName := buffer.ReadQname();
    if signerName.None? { return None; }
    var signature := TakeRest(buffer, start, len);
    if signature.None? { return None; }
    r := Some(DnsRecord.RRSIG(domain, typeCovered.value, algorithm.value, labels.value, originalTtl.value, expiration.value,
                              inception.value, keyTag.value, signerName.value, signature.value, ttl));
  }

  method ReadNsec3(buffer: BytePacketBuffer, len: nat, domain: Text, ttl: u32) returns (r: Option<DnsRecord>)
    requires buffer.Valid()
    modifies buffer`pos
    ensures buffer.DidRead(ParseNsec3(buffer.buf[..], old(buffer.pos), len, domain, ttl), r)
  {
    hide GetU8, GetU16, GetBytes, GetRest;
    var start := buffer.pos;
    var hashAlgorithm := buffer.Read();
    if hashAlgorithm.None? { return None; }
    var flags := buffer.Read();
    if flags.None? { return None; }
    var iterations := buffer.ReadU16();
    if iterations.None? { return None; }
    var saltLength := buffer.Read();
    if saltLength.None? { return None; }
    var salt := buffer.Take(saltLength.value);
    if salt.None? { return None; }
    var hashLength := buffer.Read();
    if hashLength.None? { return None; }
    var nextHashedOwner := buffer.Take(hashLength.value);
    if nextHashedOwner.None? { return None; }
    var typeBitmap := TakeRest(buffer, start, len);
    if typeBitmap.None? { return None; }
    r := Some(DnsRecord.NSEC3(domain, hashAlgorithm.value, flags.value, iterations.value, salt.value,
                              nextHashedOwner.value, typeBitmap.value, ttl));
  }

  /** The `match qtype` of `read`, with the position at the first RDATA byte. */
  method ReadRdata(buffer: BytePacketBuffer, len: nat, domain: Text, num: u16, ttl: u32) returns (r: Option<DnsRecord>)
    requires buffer.Valid()
    modifies buffer`pos
    ensures buffer.DidRead(ParseRdata(buffer.buf[..], old(buffer.pos), len, domain, num, ttl), r)
  {
    hide GetU16, GetU32, ReadName, GetRest, GetBytes, ParseKeyLike, ParseAaaa, ParseSoa, ParseRrsig, ParseNsec3,
         QueryType.FromNum;
    var start := buffer.pos;
    match QueryType.FromNum(num)
    case A =>
      var raw := buffer.ReadU32();
      if raw.None? { return None; }
      r := Some(DnsRecord.A(domain, BE32(raw.value), ttl));
    case AAAA =>
      var addr := ReadAaaa(buffer);
      if addr.None? { return None; }
      r := Some(DnsRecord.AAAA(domain, addr.value, ttl));
    case NS =>
      var host := buffer.ReadQname();
      if host.None? { return None; }
      r := Some(DnsRecord.NS(domain, host.value, ttl));
    case CNAME =>
      var host := buffer.ReadQname();
      if host.None? { return None; }
      r := Some(DnsRecord.CNAME(domain, host.value, ttl));
    case PTR =>
      var host := buffer.ReadQname();
      if host.None? { return None; }
      r := Some(DnsRecord.PTR(domain, host.value, ttl));
    case MX =>
      var priority := buffer.ReadU16();
      if priority.None? { return None; }
      var host := buffer.ReadQname();
      if host.None? { return None; }
      r := Some(DnsRecord.MX(domain, priority.value, host.value, ttl));
    case DNSKEY =>
      var fields := ReadKeyLike(buffer, len);
      if fields.None? { return None; }
      var (flags, protocol, algorithm, publicKey) := fields.value;
      r := Some(DnsRecord.DNSKEY(domain, flags, protocol, algorithm, publicKey, ttl));
    case DS =>
      var fields := ReadKeyLike(buffer, len);
      if fields.None? { return None; }
      var (keyTag, algorithm, digestType, digest) := fields.value;
      r := Some(DnsRecord.DS(domain, keyTag, algorithm, digestType, digest, ttl));
    case RRSIG =>
      r := ReadRrsig(buffer, len, domain, ttl);
    case NSEC =>
      var nextDomain := buffer.ReadQname();
      if nextDomain.None? { return None; }
      var typeBitmap := TakeRest(buffer, start, len);
      if typeBitmap.None? { return None; }
      r := Some(DnsRecord.NSEC(domain, nextDomain.value, typeBitmap.value, ttl));
    case NSEC3 =>
      r := ReadNsec3(buffer, len, domain, ttl);
    case SOA =>
      r := ReadSoa(buffer, domain, ttl);
    case _ =>
      var data := buffer.Take(len);
      if data.None? { return None; }
      r := Some(DnsRecord.UNKNOWN(domain, num, data.value, ttl));
  }

  method ReadRecord(buffer: BytePacketBuffer) returns (r: Option<DnsRecord>)
    requires buffer.Valid()
    modifies buffer`pos
    ensures buffer.DidRead(ParseRecord(buffer.buf[..], old(buffer.pos)), r)
  {
    hide GetU16, GetU32, ReadName, ParseRdata;
    var domain := buffer.ReadQname();
    if domain.None? { return None; }
    var num := buffer.ReadU16();
    if num.None? { return None; }
    var class_ := buffer.ReadU16();
    if class_.None? { return None; }
    var ttl := buffer.ReadU32();
    if ttl.None? { return None; }
    var len := buffer.ReadU16();
    if len.None? { return None; }
    r := ReadRdata(buffer, len.value, domain.value, num.value, ttl.value);
  }

  // ---- Writing ----

  /** `write_header`. */
  method WriteHead(r: DnsRecord, buffer: BytePacketBuffer) returns (ok: bool)
    requires buffer.Valid()
    modifies buffer, buffer.buf
    ensures ok <==> HeadWire(r).Some? && old(buffer.pos) + |HeadWire(r).value| <= BUF_SIZE
    ensures !ok && HeadWire(r).Some? ==> buffer.overflow
    ensures ok ==> buffer.Wrote(old(buffer.pos), old(buffer.Filled()), HeadWire(r).value) && buffer.overflow == old(buffer.overflow)
  {
    hide NameWire;
    ghost var start, before := buffer.pos, buffer.Filled();
    ok := buffer.WriteQname(r.domain);
    if !ok { return; }
    ghost var done := NameWire(r.domain).value;
    ok := buffer.ThenU16(start, before, done, r.QType().ToNum());
    if !ok { return; }
    done := done + BE16(r.QType().ToNum());
    ok := buffer.ThenU16(start, before, done, 1);
    if !ok { return; }
    done := done + BE16(1);
    ok := buffer.ThenU32(start, before, done, r.ttl);
  }

  ghost predicate WroteRdata(r: DnsRecord, ok: bool, buffer: BytePacketBuffer, start: nat, before: seq<byte>,
                             overflow: bool)
    requires buffer.Valid()
    reads buffer, buffer.buf
  {
    && (ok <==> RdataWire(r).Some? && start + |RdataWire(r).value| <= BUF_SIZE)
    && (!ok && RdataWire(r).Some? ==> buffer.overflow)
    && (ok ==> buffer.Wrote(start, before, RdataWire(r).value) && buffer.overflow == overflow)
  }

  method WriteSoa(r: DnsRecord, buffer: BytePacketBuffer) returns (ok: bool)
    requires buffer.Valid() && r.SOA? && buffer.pos <= BUF_SIZE
    modifies buffer, buffer.buf
    ensures WroteRdata(r, ok, buffer, old(buffer.pos), old(buffer.Filled()), old(buffer.overflow))
  {
    hide NameWire, BE16, BE32, buffer.Wrote, buffer.Filled;
    ghost var start, before := buffer.pos, buffer.Filled();
    ok := buffer.WriteQname(r.mname);
    if !ok { return; }
    ghost var done := NameWire(r.mname).value;
    ok := buffer.ThenName(start, before, done, r.rname);
    if !ok { return; }
    done := done + NameWire(r.rname).value;
    ok := buffer.ThenU32(start, before, done, r.serial);
    if !ok { return; }
    done := done + BE32(r.serial);
    ok := buffer.ThenU32(start, before, done, r.refresh);
    if !ok { return; }
    done := done + BE32(r.refresh);
    ok := buffer.ThenU32(start, before, done, r.retry);
    if !ok { return; }
    done := done + BE32(r.retry);
    ok := buffer.ThenU32(start, before, done, r.expire);
    if !ok { return; }
    done := done + BE32(r.expire);
    ok := buffer.ThenU32(start, before, done, r.minimum);
  }

  method WriteRrsig(r: DnsRecord, buffer: BytePacketBuffer) returns (ok: bool)
    requires buffer.Valid() && r.RRSIG? && buffer.pos <= BUF_SIZE
    modifies buffer, buffer.buf
    ensures WroteRdata(r, ok, buffer, old(buffer.pos), old(buffer.Filled()), old(buffer.overflow))
  {
    hide NameWire;
    ghost var start, before := buffer.pos, buffer.Filled();
    ok := buffer.WriteU16(r.typeCovered);
    if !ok { return; }
    ghost var done := BE16(r.typeCovered);
    ok := buffer.ThenU8(start, before, done, r.algorithm);
    if !ok { return; }
    done := done + [r.algorithm];
    ok := buffer.ThenU8(start, before, done, r.labels);
    if !ok { return; }
    done := done + [r.labels];
    ok := buffer.ThenU32(start, before, done, r.originalTtl);
    if !ok { return; }
    done := done + BE32(r.originalTtl);
    ok := buffer.ThenU32(start, before, done, r.expiration);
    if !ok { return; }
    done := done + BE32(r.expiration);
    ok := buffer.ThenU32(start, before, done, r.inception);
    if !ok { return; }
    done := done + BE32(r.inception);
    ok := buffer.ThenU16(start, before, done, r.keyTag);
    if !ok { return; }
    done := done + BE16(r.keyTag);
    ok := buffer.ThenName(start, before, done, r.signerName);
    if !ok { return; }
    done := done + NameWire(r.signerName).value;
    ok := buffer.ThenBytes(start, before, done, r.signature);
  }

  method WriteNsec3(r: DnsRecord, buffer: BytePacketBuffer) returns (ok: bool)
    requires buffer.Valid() && r.NSEC3? && buffer.pos <= BUF_SIZE
    modifies buffer, buffer.buf
    ensures WroteRdata(r, ok, buffer, old(buffer.pos), old(buffer.Filled()), old(buffer.overflow))
  {
    hide BE16, BE32, buffer.Wrote, buffer.Filled;
    ghost var start, before := buffer.pos, buffer.Filled();
    ok := buffer.Write(r.hashAlgorithm);
    if !ok { return; }
    ghost var done := [r.hashAlgorithm];
    ok := buffer.ThenU8(start, before, done, r.flags3);
    if !ok { return; }
    done := done + [r.flags3];
    ok := buffer.ThenU16(start, before, done, r.iterations);
    if !ok { return; }
    done := done + BE16(r.iterations);
    ok := buffer.ThenU8(start, before, done, |r.salt| % 0x100);
    if !ok { return; }
    done := done + [|r.salt| % 0x100];
    ok := buffer.ThenBytes(start, before, done, r.salt);
    if !ok { return; }
    done := done + r.salt;
    ok := buffer.ThenU8(start, before, done, |r.nextHashedOwner| % 0x100);
    if !ok { return; }
    done := done + [|r.nextHashedOwner| % 0x100];
    ok := buffer.ThenBytes(start, before, done, r.nextHashedOwner);
    if !ok { return; }
    done := done + r.nextHashedOwner;
    ok := buffer.ThenBytes(start, before, done, r.typeBitmap);
  }

  method WriteKeyLike(w: u16, x: byte, y: byte, rest: seq<byte>, buffer: BytePacketBuffer) returns (ok: bool)
    requires buffer.Valid()
    modifies buffer, buffer.buf
    ensures ok <==> old(buffer.pos) + 4 + |rest| <= BUF_SIZE
    ensures buffer.overflow <==> old(buffer.overflow) || !ok
    ensures ok ==> buffer.Wrote(old(buffer.pos), old(buffer.Filled()), BE16(w) + [x] + [y] + rest)
  {
    ghost var start, before := buffer.pos, buffer.Filled();
    ok := buffer.WriteU16(w);
    if !ok { return; }
    ghost var done := BE16(w);
    ok := buffer.ThenU8(start, before, done, x);
    if !ok { return; }
    done := done + [x];
    ok := buffer.ThenU8(start, before, done, y);
    if !ok { return; }
    done := done + [y];
    ok := buffer.ThenBytes(start, before, done, rest);
  }

  /** The segments of an AAAA address, one word at a time. */
  method WriteAaaa(addr: Ipv6, buffer: BytePacketBuffer) returns (ok: bool)
    requires buffer.Valid()
    modifies buffer, buffer.buf
    ensures ok <==> old(buffer.pos) + 16 <= BUF_SIZE
    ensures buffer.overflow <==> old(buffer.overflow) || !ok
    ensures ok ==> buffer.Wrote(old(buffer.pos), old(buffer.Filled()), Octets(addr))
  {
    ghost var start, before := buffer.pos, buffer.Filled();
    ok := true;
    for i := 0 to 8
      invariant ok && buffer.overflow == old(buffer.overflow)
      invariant |Segments(addr, i)| == 2 * i && buffer.Wrote(start, before, Segments(addr, i))
    {
      ok := buffer.ThenU16(start, before, Segments(addr, i), addr[i]);
      if !ok { return; }
    }
    SegmentsAll(addr);
  }

  ghost function Segments(addr: Ipv6, n: nat): seq<byte>
    requires n <= 8
  {
    if n == 0 then [] else Segments(addr, n - 1) + BE16(addr[n - 1])
  }

  lemma SegmentsAll(addr: Ipv6)
    ensures Segments(addr, 8) == Octets(addr) && |Octets(addr)| == 16
  {
    hide BE16;
    assert Segments(addr, 1) == BE16(addr[0]);
    assert Segments(addr, 3) == BE16(addr[0]) + BE16(addr[1]) + BE16(addr[2]);
    assert Segments(addr, 5) == BE16(addr[0]) + BE16(addr[1]) + BE16(addr[2]) + BE16(addr[3]) + BE16(addr[4]);
    assert Segments(addr, 7) == Segments(addr, 5) + BE16(addr[5]) + BE16(addr[6]);
  }

  /** The fields after RDLENGTH. */
  method WriteRdata(r: DnsRecord, buffer: BytePacketBuffer) returns (ok: bool)
    requires buffer.Valid() && buffer.pos <= BUF_SIZE
    modifies buffer, buffer.buf
    ensures WroteRdata(r, ok, buffer, old(buffer.pos), old(buffer.Filled()), old(buffer.overflow))
  {
    hide NameWire, Octets;
    ghost var start, before := buffer.pos, buffer.Filled();
    match r
    case A(_, addr, _) => ok := buffer.WriteBytes(addr);
    case AAAA(_, addr, _) => OctetsLength(addr); ok := WriteAaaa(addr, buffer);
    case NS(_, host, _) => ok := buffer.WriteQname(host);
    case CNAME(_, host, _) => ok := buffer.WriteQname(host);
    case PTR(_, host, _) => ok := buffer.WriteQname(host);
    case MX(_, priority, host, _) =>
      ok := buffer.WriteU16(priority);
      if !ok { return; }
      ok := buffer.ThenName(start, before, BE16(priority), host);
    case SOA(_, _, _, _, _, _, _, _, _) => ok := WriteSoa(r, buffer);
    case DNSKEY(_, flags, protocol, algorithm, publicKey, _) => ok := WriteKeyLike(flags, protocol, algorithm, publicKey, buffer);
    case DS(_, keyTag, algorithm, digestType, digest, _) => ok := WriteKeyLike(keyTag, algorithm, digestType, digest, buffer);
    case RRSIG(_, _, _, _, _, _, _, _, _, _, _) => ok := WriteRrsig(r, buffer);
    case NSEC(_, nextDomain, typeBitmap, _) =>
      ok := buffer.WriteQname(nextDomain);
      if !ok { return; }
      ok := buffer.ThenBytes(start, before, NameWire(nextDomain).value, typeBitmap);
    case NSEC3(_, _, _, _, _, _, _, _) => ok := WriteNsec3(r, buffer);
    case UNKNOWN(_, _, data, _) => ok := buffer.WriteBytes(data);
  }

  /** RDLENGTH when the code computes it up front; the other types write zero and patch it later. */
  function LengthAhead(r: DnsRecord): Option<u16> {
    match r
    case A(_, _, _) => Some(4)
    case AAAA(_, _, _) => Some(16)
    case DNSKEY(_, _, _, _, publicKey, _) => Some(AsU16(4 + |publicKey|))
    case DS(_, _, _, _, digest, _) => Some(AsU16(4 + |digest|))
    case NSEC3(_, _, _, _, salt, nextHashedOwner, typeBitmap, _) =>
      Some(AsU16(6 + |salt| + |nextHashedOwner| + |typeBitmap|))
    case UNKNOWN(_, _, data, _) => Some(AsU16(|data|))
    case _ => None
  }

  /** The two ways of finding RDLENGTH agree with the bytes actually written. */
  lemma LengthAheadIsRight(r: DnsRecord)
    requires LengthAhead(r).Some?
    ensures RdataWire(r).Some? && LengthAhead(r).value == AsU16(|RdataWire(r).value|)
  {
    if r.AAAA? { OctetsLength(r.addr6); }
  }

  method WriteRecord(r: DnsRecord, buffer: BytePacketBuffer) returns (ok: bool)
    requires buffer.Valid()
    modifies buffer, buffer.buf
    ensures ok <==> RecordWire(r).Some? && old(buffer.pos) + |RecordWire(r).value| <= BUF_SIZE
    ensures !ok && RecordWire(r).Some? ==> buffer.overflow
    ensures ok ==> buffer.Wrote(old(buffer.pos), old(buffer.Filled()), RecordWire(r).value) && buffer.overflow == old(buffer.overflow)
  {
    hide HeadWire, RdataWire, LengthAhead, buffer.Filled;
    ghost var start, before := buffer.pos, buffer.Filled();
    ok := WriteHead(r, buffer);
    if !ok { return; }
    ghost var head := HeadWire(r).value;
    var ahead := LengthAhead(r);
    var lenPos := buffer.pos;
    var len := if ahead.Some? then ahead.value else 0;
    ok := buffer.ThenU16(start, before, head, len);
    if !ok { return; }
    ghost var mid, between := buffer.pos, buffer.Filled();
    ok := WriteRdata(r, buffer);
    if !ok { return; }
    ghost var rdata := RdataWire(r).value;
    buffer.WroteAfter(start, before, head + BE16(len), mid, between, rdata);
    if ahead.None? {
      var size := buffer.pos - (lenPos + 2);
      buffer.PatchU16(start, before, head, 0, rdata, lenPos, AsU16(size));
    } else {
      LengthAheadIsRight(r);
    }
  }
}
