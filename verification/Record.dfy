/** Resource records and their wire form (sections 3.2 and 4.1.3 of RFC 1035). */
module Record {
  import opened Bytes
  import opened Cursor
  import opened Names
  import opened PacketBuffer
  import opened Question

  type Ipv4 = s: seq<byte> | |s| == 4 witness [0, 0, 0, 0]
  type Ipv6 = s: seq<u16> | |s| == 8 witness [0, 0, 0, 0, 0, 0, 0, 0]

  datatype DnsRecord =
    | UNKNOWN(domain: Text, qtype: u16, data: seq<byte>, ttl: u32)
    | A(domain: Text, addr: Ipv4, ttl: u32)
    | NS(domain: Text, host: Text, ttl: u32)
    | SOA(domain: Text, mname: Text, rname: Text, serial: u32, refresh: u32, retry: u32, expire: u32, minimum: u32, ttl: u32)
    | CNAME(domain: Text, host: Text, ttl: u32)
    | PTR(domain: Text, host: Text, ttl: u32)
    | MX(domain: Text, priority: u16, host: Text, ttl: u32)
    | AAAA(domain: Text, addr6: Ipv6, ttl: u32)
    | DNSKEY(domain: Text, flags: u16, protocol: byte, algorithm: byte, publicKey: seq<byte>, ttl: u32)
    | DS(domain: Text, keyTag: u16, algorithm: byte, digestType: byte, digest: seq<byte>, ttl: u32)
    | RRSIG(domain: Text, typeCovered: u16, algorithm: byte, labels: byte, originalTtl: u32, expiration: u32,
            inception: u32, keyTag: u16, signerName: Text, signature: seq<byte>, ttl: u32)
    | NSEC(domain: Text, nextDomain: Text, typeBitmap: seq<byte>, ttl: u32)
    | NSEC3(domain: Text, hashAlgorithm: byte, flags3: byte, iterations: u16, salt: seq<byte>,
            nextHashedOwner: seq<byte>, typeBitmap: seq<byte>, ttl: u32)
  {
    /** `query_type`: an opaque record's type is always UNKNOWN, whatever its number. */
    function QType(): QueryType {
      match this
      case A(_, _, _) => QueryType.A
      case AAAA(_, _, _) => QueryType.AAAA
      case NS(_, _, _) => QueryType.NS
      case CNAME(_, _, _) => QueryType.CNAME
      case PTR(_, _, _) => QueryType.PTR
      case MX(_, _, _, _) => QueryType.MX
      case SOA(_, _, _, _, _, _, _, _, _) => QueryType.SOA
      case DNSKEY(_, _, _, _, _, _) => QueryType.DNSKEY
      case DS(_, _, _, _, _, _) => QueryType.DS
      case RRSIG(_, _, _, _, _, _, _, _, _, _, _) => QueryType.RRSIG
      case NSEC(_, _, _, _) => QueryType.NSEC
      case NSEC3(_, _, _, _, _, _, _, _) => QueryType.NSEC3
      case UNKNOWN(_, num, _, _) => QueryType.UNKNOWN(num)
    }
  }

  /** Types that `read` parses into fields; every other number becomes an opaque record. */
  predicate Native(t: QueryType) {
    t in {QueryType.A, QueryType.AAAA, QueryType.NS, QueryType.CNAME, QueryType.PTR, QueryType.MX, QueryType.DNSKEY,
          QueryType.DS, QueryType.RRSIG, QueryType.NSEC, QueryType.NSEC3, QueryType.SOA}
  }

  function Octets(addr: Ipv6): seq<byte> {
    BE16(addr[0]) + BE16(addr[1]) + BE16(addr[2]) + BE16(addr[3]) + BE16(addr[4]) + BE16(addr[5]) + BE16(addr[6]) + BE16(addr[7])
  }

  /** RDATA as `write` emits it; None when a name in it is malformed. */
  function RdataWire(r: DnsRecord): Option<seq<byte>> {
    match r
    case A(_, addr, _) => Some(addr)
    case AAAA(_, addr, _) => Some(Octets(addr))
    case NS(_, host, _) => NameWire(host)
    case CNAME(_, host, _) => NameWire(host)
    case PTR(_, host, _) => NameWire(host)
    case MX(_, priority, host, _) =>
      var h :- NameWire(host);
      Some(BE16(priority) + h)
    case SOA(_, mname, rname, serial, refresh, retry, expire, minimum, _) =>
      var m :- NameWire(mname);
      var n :- NameWire(rname);
      Some(m + n + BE32(serial) + BE32(refresh) + BE32(retry) + BE32(expire) + BE32(minimum))
    case DNSKEY(_, flags, protocol, algorithm, publicKey, _) =>
      Some(BE16(flags) + [protocol] + [algorithm] + publicKey)
    case DS(_, keyTag, algorithm, digestType, digest, _) =>
      Some(BE16(keyTag) + [algorithm] + [digestType] + digest)
    case RRSIG(_, typeCovered, algorithm, labels, originalTtl, expiration, inception, keyTag, signerName, signature, _) =>
      var s :- NameWire(signerName);
      Some(BE16(typeCovered) + [algorithm] + [labels] + BE32(originalTtl) + BE32(expiration) + BE32(inception)
           + BE16(keyTag) + s + signature)
    case NSEC(_, nextDomain, typeBitmap, _) =>
      var n :- NameWire(nextDomain);
      Some(n + typeBitmap)
    case NSEC3(_, hashAlgorithm, flags3, iterations, salt, nextHashedOwner, typeBitmap, _) =>
      Some([hashAlgorithm] + [flags3] + BE16(iterations) + [|salt| % 0x100] + salt
           + [|nextHashedOwner| % 0x100] + nextHashedOwner + typeBitmap)
    case UNKNOWN(_, _, data, _) => Some(data)
  }

  /** Owner, type, class IN and TTL. */
  function HeadWire(r: DnsRecord): Option<seq<byte>> {
    var name :- NameWire(r.domain);
    Some(name + BE16(r.QType().ToNum()) + BE16(1) + BE32(r.ttl))
  }

  function RecordWire(r: DnsRecord): Option<seq<byte>> {
    var head :- HeadWire(r);
    var rdata :- RdataWire(r);
    Some(head + BE16(AsU16(|rdata|)) + rdata)
  }

  // ---- Reading ----

  function ParseHost(b: seq<byte>, p: nat, make: Text -> DnsRecord): Option<(DnsRecord, nat)> {
    var (host, p1) :- ReadName(b, p);
    Some((make(host), p1))
  }

  /** The rest of an RDATA of `len` bytes that began at `start`. */
  function GetRest(b: seq<byte>, p: nat, start: nat, len: nat): (r: Option<(seq<byte>, nat)>)
    ensures r.Some? ==> |r.value.0| <= |b|
  {
    if start + len < p then None else GetBytes(b, p, start + len - p)
  }

  function ParseSoa(b: seq<byte>, p: nat, domain: Text, ttl: u32): Option<(DnsRecord, nat)> {
    var (mname, p1) :- ReadName(b, p);
    var (rname, p2) :- ReadName(b, p1);
    var (serial, p3) :- GetU32(b, p2);
    var (refresh, p4) :- GetU32(b, p3);
    var (retry, p5) :- GetU32(b, p4);
    var (expire, p6) :- GetU32(b, p5);
    var (minimum, p7) :- GetU32(b, p6);
    Some((DnsRecord.SOA(domain, mname, rname, serial, refresh, retry, expire, minimum, ttl), p7))
  }

  function ParseRrsig(b: seq<byte>, p: nat, len: nat, domain: Text, ttl: u32): Option<(DnsRecord, nat)> {
    var (typeCovered, p1) :- GetU16(b, p);
    var (algorithm, p2) :- GetU8(b, p1);
    var (labels, p3) :- GetU8(b, p2);
    var (originalTtl, p4) :- GetU32(b, p3);
    var (expiration, p5) :- GetU32(b, p4);
    var (inception, p6) :- GetU32(b, p5);
    var (keyTag, p7) :- GetU16(b, p6);
    var (signerName, p8) :- ReadName(b, p7);
    var (signature, p9) :- GetRest(b, p8, p, len);
    Some((DnsRecord.RRSIG(domain, typeCovered, algorithm, labels, originalTtl, expiration, inception, keyTag, signerName, signature, ttl), p9))
  }

  function ParseNsec3(b: seq<byte>, p: nat, len: nat, domain: Text, ttl: u32): Option<(DnsRecord, nat)> {
    var (hashAlgorithm, p1) :- GetU8(b, p);
    var (flags3, p2) :- GetU8(b, p1);
    var (iterations, p3) :- GetU16(b, p2);
    var (saltLength, p4) :- GetU8(b, p3);
    var (salt, p5) :- GetBytes(b, p4, saltLength);
    var (hashLength, p6) :- GetU8(b, p5);
    var (nextHashedOwner, p7) :- GetBytes(b, p6, hashLength);
    var (typeBitmap, p8) :- GetRest(b, p7, p, len);
    Some((DnsRecord.NSEC3(domain, hashAlgorithm, flags3, iterations, salt, nextHashedOwner, typeBitmap, ttl), p8))
  }

  /** The shared shape of DNSKEY and DS: a word, two bytes, and the rest. */
  function ParseKeyLike(b: seq<byte>, p: nat, len: nat): Option<((u16, byte, byte, seq<byte>), nat)> {
    var (w, p1) :- GetU16(b, p);
    var (x, p2) :- GetU8(b, p1);
    var (y, p3) :- GetU8(b, p2);
    var (rest, p4) :- GetRest(b, p3, p, len);
    Some(((w, x, y, rest), p4))
  }

  function ParseAaaa(b: seq<byte>, p: nat): Option<(Ipv6, nat)> {
    var (a1, p1) :- GetU32(b, p);
    var (a2, p2) :- GetU32(b, p1);
    var (a3, p3) :- GetU32(b, p2);
    var (a4, p4) :- GetU32(b, p3);
    var addr: Ipv6 := [a1 / 0x1_0000, a1 % 0x1_0000, a2 / 0x1_0000, a2 % 0x1_0000,
                       a3 / 0x1_0000, a3 % 0x1_0000, a4 / 0x1_0000, a4 % 0x1_0000];
    Some((addr, p4))
  }

  function ParseRdata(b: seq<byte>, p: nat, len: nat, domain: Text, num: u16, ttl: u32): Option<(DnsRecord, nat)> {
    match QueryType.FromNum(num)
    case A =>
      var (raw, p1) :- GetU32(b, p);
      Some((DnsRecord.A(domain, BE32(raw), ttl), p1))
    case AAAA =>
      var (addr, p1) :- ParseAaaa(b, p);
      Some((DnsRecord.AAAA(domain, addr, ttl), p1))
    case NS => ParseHost(b, p, host => DnsRecord.NS(domain, host, ttl))
    case CNAME => ParseHost(b, p, host => DnsRecord.CNAME(domain, host, ttl))
    case PTR => ParseHost(b, p, host => DnsRecord.PTR(domain, host, ttl))
    case MX =>
      var (priority, p1) :- GetU16(b, p);
      ParseHost(b, p1, host => DnsRecord.MX(domain, priority, host, ttl))
    case DNSKEY =>
      var ((flags, protocol, algorithm, publicKey), p1) :- ParseKeyLike(b, p, len);
      Some((DnsRecord.DNSKEY(domain, flags, protocol, algorithm, publicKey, ttl), p1))
    case DS =>
      var ((keyTag, algorithm, digestType, digest), p1) :- ParseKeyLike(b, p, len);
      Some((DnsRecord.DS(domain, keyTag, algorithm, digestType, digest, ttl), p1))
    case RRSIG => ParseRrsig(b, p, len, domain, ttl)
    case NSEC =>
      var (nextDomain, p1) :- ReadName(b, p);
      var (typeBitmap, p2) :- GetRest(b, p1, p, len);
      Some((DnsRecord.NSEC(domain, nextDomain, typeBitmap, ttl), p2))
    case NSEC3 => ParseNsec3(b, p, len, domain, ttl)
    case SOA => ParseSoa(b, p, domain, ttl)
    case _ =>
      var (data, p1) :- GetBytes(b, p, len);
      Some((DnsRecord.UNKNOWN(domain, num, data, ttl), p1))
  }

  function ParseRecord(b: seq<byte>, p: nat): Option<(DnsRecord, nat)> {
    var (domain, p1) :- ReadName(b, p);
    var (num, p2) :- GetU16(b, p1);
    var (_, p3) :- GetU16(b, p2);
    var (ttl, p4) :- GetU32(b, p3);
    var (len, p5) :- GetU16(b, p4);
    ParseRdata(b, p5, len, domain, num, ttl)
  }

  // ---- Progress ----

  lemma GetRestAdvances(b: seq<byte>, p: nat, start: nat, len: nat)
    ensures GetRest(b, p, start, len).Some? ==> p <= GetRest(b, p, start, len).value.1 <= |b|
  {
  }

  lemma HostAdvances(b: seq<byte>, p: nat, make: Text -> DnsRecord)
    ensures ParseHost(b, p, make).Some? ==> p <= ParseHost(b, p, make).value.1 <= |b|
  {
    if ReadName(b, p).Some? { NameAdvances(b, p); }
    hide ReadName;
  }

  lemma SoaAdvances(b: seq<byte>, p: nat, domain: Text, ttl: u32)
    ensures ParseSoa(b, p, domain, ttl).Some? ==> p <= ParseSoa(b, p, domain, ttl).value.1 <= |b|
  {
    hide ReadName;
    if ParseSoa(b, p, domain, ttl).Some? {
      NameAdvances(b, p);
      NameAdvances(b, ReadName(b, p).value.1);
    }
  }

  lemma RrsigAdvances(b: seq<byte>, p: nat, len: nat, domain: Text, ttl: u32)
    ensures ParseRrsig(b, p, len, domain, ttl).Some? ==> p <= ParseRrsig(b, p, len, domain, ttl).value.1 <= |b|
  {
    hide ReadName, GetRest, U16, U32, NormalForm;
    if ParseRrsig(b, p, len, domain, ttl).Some? {
      NameAdvances(b, p + 18);
      GetRestAdvances(b, ReadName(b, p + 18).value.1, p, len);
    }
  }

  lemma Nsec3Advances(b: seq<byte>, p: nat, len: nat, domain: Text, ttl: u32)
    ensures ParseNsec3(b, p, len, domain, ttl).Some? ==> p <= ParseNsec3(b, p, len, domain, ttl).value.1 <= |b|
  {
  }

  lemma RdataAdvances(b: seq<byte>, p: nat, len: nat, domain: Text, num: u16, ttl: u32)
    ensures ParseRdata(b, p, len, domain, num, ttl).Some? ==> p <= ParseRdata(b, p, len, domain, num, ttl).value.1 <= |b|
  {
    hide ReadName, GetRest, ParseHost, ParseSoa, ParseRrsig, ParseNsec3;
    if ParseRdata(b, p, len, domain, num, ttl).None? { return; }
    match QueryType.FromNum(num)
    case NS => HostAdvances(b, p, host => DnsRecord.NS(domain, host, ttl));
    case CNAME => HostAdvances(b, p, host => DnsRecord.CNAME(domain, host, ttl));
    case PTR => HostAdvances(b, p, host => DnsRecord.PTR(domain, host, ttl));
    case MX =>
      var priority := GetU16(b, p).value.0;
      HostAdvances(b, p + 2, host => DnsRecord.MX(domain, priority, host, ttl));
    case DNSKEY => GetRestAdvances(b, p + 4, p, len);
    case DS => GetRestAdvances(b, p + 4, p, len);
    case RRSIG => RrsigAdvances(b, p, len, domain, ttl);
    case NSEC =>
      NameAdvances(b, p);
      GetRestAdvances(b, ReadName(b, p).value.1, p, len);
    case NSEC3 => Nsec3Advances(b, p, len, domain, ttl);
    case SOA => SoaAdvances(b, p, domain, ttl);
    case _ =>
  }

  /** Every record read takes at least eleven bytes of the buffer. */
  lemma RecordAdvances(b: seq<byte>, p: nat)
    ensures ParseRecord(b, p).Some? ==> p + 11 <= ParseRecord(b, p).value.1 <= |b|
  {
    hide ReadName, ParseRdata;
    if ParseRecord(b, p).None? { return; }
    NameAdvances(b, p);
    var (domain, p1) := ReadName(b, p).value;
    RdataAdvances(b, p1 + 10, GetU16(b, p1 + 8).value.0, domain, GetU16(b, p1).value.0, GetU32(b, p1 + 4).value.0);
  }

  // ---- Round trip ----

  predicate NormalNames(r: DnsRecord) {
    NormalForm(r.domain) &&
    match r
    case NS(_, host, _) => NormalForm(host)
    case CNAME(_, host, _) => NormalForm(host)
    case PTR(_, host, _) => NormalForm(host)
    case MX(_, _, host, _) => NormalForm(host)
    case SOA(_, mname, rname, _, _, _, _, _, _) => NormalForm(mname) && NormalForm(rname)
    case RRSIG(_, _, _, _, _, _, _, _, signerName, _, _) => NormalForm(signerName)
    case NSEC(_, nextDomain, _, _) => NormalForm(nextDomain)
    case _ => true
  }

  /** Records that the wire can carry: what `read` can return. */
  predicate WellFormedRecord(r: DnsRecord) {
    && NormalNames(r)
    && (r.UNKNOWN? ==> !Native(QueryType.FromNum(r.qtype)))
    && (r.NSEC3? ==> |r.salt| < 0x100 && |r.nextHashedOwner| < 0x100)
  }

  lemma GetWrittenBytes(b: seq<byte>, p: nat, s: seq<byte>)
    requires At(b, p, s)
    ensures GetBytes(b, p, |s|) == Some((s, p + |s|))
  {
  }

  lemma GetWrittenRest(b: seq<byte>, p: nat, x: seq<byte>, s: seq<byte>)
    requires At(b, p, x + s)
    ensures At(b, p, x) && GetRest(b, p + |x|, p, |x + s|) == Some((s, p + |x| + |s|))
  {
    AtConcat(b, p, x, s);
    GetWrittenBytes(b, p + |x|, s);
  }

  lemma ParseWrittenKeyLike(b: seq<byte>, p: nat, w: u16, x: byte, y: byte, rest: seq<byte>)
    requires At(b, p, BE16(w) + [x] + [y] + rest)
    ensures ParseKeyLike(b, p, 4 + |rest|) == Some(((w, x, y, rest), p + 4 + |rest|))
  {
    hide At, GetU8, GetU16, GetRest;
    GetWrittenRest(b, p, BE16(w) + [x] + [y], rest);
    AtConcat(b, p, BE16(w) + [x], [y]);
    AtConcat(b, p, BE16(w), [x]);
    GetWritten16(b, p, w);
    GetWritten8(b, p + 2, x);
    GetWritten8(b, p + 3, y);
  }

  function Word(hi: u16, lo: u16): (w: u32)
    ensures w / 0x1_0000 == hi && w % 0x1_0000 == lo
  {
    hi as int * 0x1_0000 + lo
  }

  lemma ParseWrittenAaaa(b: seq<byte>, p: nat, addr: Ipv6)
    requires At(b, p, Octets(addr))
    ensures ParseAaaa(b, p) == Some((addr, p + 16))
  {
    hide At, GetU32, BE16;
    var w1, w2, w3, w4 := Word(addr[0], addr[1]), Word(addr[2], addr[3]), Word(addr[4], addr[5]), Word(addr[6], addr[7]);
    assert Octets(addr) == BE32(w1) + BE32(w2) + BE32(w3) + BE32(w4);
    AtConcat(b, p, BE32(w1) + BE32(w2) + BE32(w3), BE32(w4));
    AtConcat(b, p, BE32(w1) + BE32(w2), BE32(w3));
    AtConcat(b, p, BE32(w1), BE32(w2));
    GetWritten32(b, p, w1);
    GetWritten32(b, p + 4, w2);
    GetWritten32(b, p + 8, w3);
    GetWritten32(b, p + 12, w4);
    assert addr == [addr[0], addr[1], addr[2], addr[3], addr[4], addr[5], addr[6], addr[7]];
  }

  lemma ParseWrittenSoa(b: seq<byte>, p: nat, r: DnsRecord)
    requires r.SOA? && NormalNames(r) && RdataWire(r).Some? && At(b, p, RdataWire(r).value)
    ensures ParseSoa(b, p, r.domain, r.ttl) == Some((r, p + |RdataWire(r).value|))
  {
    hide At, NameWire, ReadName, NormalForm, GetU32, BE32;
    var m, n := NameWire(r.mname).value, NameWire(r.rname).value;
    var x := m + n;
    var y1, y2, y3, y4, y5 := BE32(r.serial), BE32(r.refresh), BE32(r.retry), BE32(r.expire), BE32(r.minimum);
    AtConcat(b, p, x + y1 + y2 + y3 + y4, y5);
    AtConcat(b, p, x + y1 + y2 + y3, y4);
    AtConcat(b, p, x + y1 + y2, y3);
    AtConcat(b, p, x + y1, y2);
    AtConcat(b, p, x, y1);
    AtConcat(b, p, m, n);
    ReadWritten(b, p, r.mname);
    ReadWritten(b, p + |m|, r.rname);
    var q := p + |x|;
    GetWritten32(b, q, r.serial);
    GetWritten32(b, q + 4, r.refresh);
    GetWritten32(b, q + 8, r.retry);
    GetWritten32(b, q + 12, r.expire);
    GetWritten32(b, q + 16, r.minimum);
  }

  lemma ParseWrittenRrsig(b: seq<byte>, p: nat, r: DnsRecord)
    requires r.RRSIG? && NormalNames(r) && RdataWire(r).Some? && At(b, p, RdataWire(r).value)
    ensures ParseRrsig(b, p, |RdataWire(r).value|, r.domain, r.ttl) == Some((r, p + |RdataWire(r).value|))
  {
    hide At, NameWire, ReadName, NormalForm, GetU8, GetU16, GetU32, GetRest, BE16, BE32;
    var s := NameWire(r.signerName).value;
    var x1 := BE16(r.typeCovered);
    var x2 := x1 + [r.algorithm];
    var x3 := x2 + [r.labels];
    var x4 := x3 + BE32(r.originalTtl);
    var x5 := x4 + BE32(r.expiration);
    var x6 := x5 + BE32(r.inception);
    var x7 := x6 + BE16(r.keyTag);
    GetWrittenRest(b, p, x7 + s, r.signature);
    AtConcat(b, p, x7, s);
    AtConcat(b, p, x6, BE16(r.keyTag));
    AtConcat(b, p, x5, BE32(r.inception));
    AtConcat(b, p, x4, BE32(r.expiration));
    AtConcat(b, p, x3, BE32(r.originalTtl));
    AtConcat(b, p, x2, [r.labels]);
    AtConcat(b, p, x1, [r.algorithm]);
    GetWritten16(b, p, r.typeCovered);
    GetWritten8(b, p + 2, r.algorithm);
    GetWritten8(b, p + 3, r.labels);
    GetWritten32(b, p + 4, r.originalTtl);
    GetWritten32(b, p + 8, r.expiration);
    GetWritten32(b, p + 12, r.inception);
    GetWritten16(b, p + 16, r.keyTag);
    ReadWritten(b, p + 18, r.signerName);
  }

  lemma ParseWrittenNsec3(b: seq<byte>, p: nat, r: DnsRecord)
    requires r.NSEC3? && |r.salt| < 0x100 && |r.nextHashedOwner| < 0x100 && At(b, p, RdataWire(r).value)
    ensures ParseNsec3(b, p, |RdataWire(r).value|, r.domain, r.ttl) == Some((r, p + |RdataWire(r).value|))
  {
    hide At, GetU8, GetU16, GetRest, GetBytes, BE16;
    var x1 := [r.hashAlgorithm];
    var x2 := x1 + [r.flags3];
    var x3 := x2 + BE16(r.iterations);
    var x4 := x3 + [|r.salt| as byte];
    var x5 := x4 + r.salt;
    var x6 := x5 + [|r.nextHashedOwner| as byte];
    GetWrittenRest(b, p, x6 + r.nextHashedOwner, r.typeBitmap);
    AtConcat(b, p, x6, r.nextHashedOwner);
    AtConcat(b, p, x5, [|r.nextHashedOwner| as byte]);
    AtConcat(b, p, x4, r.salt);
    AtConcat(b, p, x3, [|r.salt| as byte]);
    AtConcat(b, p, x2, BE16(r.iterations));
    AtConcat(b, p, x1, [r.flags3]);
    GetWritten8(b, p, r.hashAlgorithm);
    GetWritten8(b, p + 1, r.flags3);
    GetWritten16(b, p + 2, r.iterations);
    GetWritten8(b, p + 4, |r.salt|);
    GetWrittenBytes(b, p + 5, r.salt);
    GetWritten8(b, p + |x5|, |r.nextHashedOwner|);
    GetWrittenBytes(b, p + |x6|, r.nextHashedOwner);
  }

  lemma ParseWrittenRdata(b: seq<byte>, p: nat, r: DnsRecord)
    requires WellFormedRecord(r) && RdataWire(r).Some? && At(b, p, RdataWire(r).value)
    ensures ParseRdata(b, p, |RdataWire(r).value|, r.domain, r.QType().ToNum(), r.ttl)
         == Some((r, p + |RdataWire(r).value|))
  {
    hide NameWire, ReadName, NormalForm, ParseKeyLike, ParseSoa, ParseRrsig, ParseNsec3, ParseAaaa, GetRest, GetU32,
         BE32, BE16, Octets, At, GetBytes, GetU16;
    match r
    case A(_, addr, _) =>
      var raw := U32(addr[0], addr[1], addr[2], addr[3]);
      BE32OfU32(addr);
      GetWritten32(b, p, raw);
    case AAAA(_, addr, _) => OctetsLength(addr); ParseWrittenAaaa(b, p, addr);
    case NS(_, host, _) => ReadWritten(b, p, host);
    case CNAME(_, host, _) => ReadWritten(b, p, host);
    case PTR(_, host, _) => ReadWritten(b, p, host);
    case MX(_, priority, host, _) =>
      AtConcat(b, p, BE16(priority), NameWire(host).value);
      GetWritten16(b, p, priority);
      ReadWritten(b, p + 2, host);
    case SOA(_, _, _, _, _, _, _, _, _) => ParseWrittenSoa(b, p, r);
    case DNSKEY(_, flags, protocol, algorithm, publicKey, _) => ParseWrittenKeyLike(b, p, flags, protocol, algorithm, publicKey);
    case DS(_, keyTag, algorithm, digestType, digest, _) => ParseWrittenKeyLike(b, p, keyTag, algorithm, digestType, digest);
    case RRSIG(_, _, _, _, _, _, _, _, _, _, _) => ParseWrittenRrsig(b, p, r);
    case NSEC(_, nextDomain, typeBitmap, _) =>
      GetWrittenRest(b, p, NameWire(nextDomain).value, typeBitmap);
      ReadWritten(b, p, nextDomain);
    case NSEC3(_, _, _, _, _, _, _, _) => ParseWrittenNsec3(b, p, r);
    case UNKNOWN(_, num, data, _) => GetWrittenBytes(b, p, data);
  }

  lemma BE32OfU32(addr: Ipv4)
    ensures BE32(U32(addr[0], addr[1], addr[2], addr[3])) == addr
  {
    hide Shifted;
    U32Words(addr[0], addr[1], addr[2], addr[3]);
    assert U32(addr[0], addr[1], addr[2], addr[3]) == Word(U16(addr[0], addr[1]), U16(addr[2], addr[3]));
    hide U32, Word;
    BE16OfU16(addr[0], addr[1]);
    BE16OfU16(addr[2], addr[3]);
  }

  lemma BE16OfU16(hi: byte, lo: byte)
    ensures BE16(U16(hi, lo)) == [hi, lo]
  {
  }

  lemma OctetsLength(addr: Ipv6)
    ensures |Octets(addr)| == 16
  {
  }

  /** Reading what `write` wrote gives the record back, and stops where it ended. */
  lemma ParseWrittenRecord(b: seq<byte>, p: nat, r: DnsRecord)
    requires WellFormedRecord(r) && RecordWire(r).Some? && At(b, p, RecordWire(r).value)
    requires |RdataWire(r).value| < 0x1_0000
    ensures ParseRecord(b, p) == Some((r, p + |RecordWire(r).value|))
  {
    hide At, NameWire, ReadName, NormalForm, GetU16, GetU32, BE16, BE32, RdataWire, ParseRdata;
    var name, rdata := NameWire(r.domain).value, RdataWire(r).value;
    var x1 := name + BE16(r.QType().ToNum());
    var x2 := x1 + BE16(1);
    var x3 := x2 + BE32(r.ttl);
    AtConcat(b, p, x3 + BE16(|rdata|), rdata);
    AtConcat(b, p, x3, BE16(|rdata|));
    AtConcat(b, p, x2, BE32(r.ttl));
    AtConcat(b, p, x1, BE16(1));
    AtConcat(b, p, name, BE16(r.QType().ToNum()));
    ReadWritten(b, p, r.domain);
    GetWritten16(b, p + |name|, r.QType().ToNum());
    GetWritten16(b, p + |x1|, 1);
    GetWritten32(b, p + |x2|, r.ttl);
    GetWritten16(b, p + |x3|, |rdata|);
    ParseWrittenRdata(b, p + |x3| + 2, r);
  }

  /** The reader returns only well-formed records, whatever the bytes. */
  lemma ParsedRecordIsWellFormed(b: seq<byte>, p: nat)
    ensures ParseRecord(b, p).Some? ==> WellFormedRecord(ParseRecord(b, p).value.0)
  {
    hide ReadName, GetU8, GetU16, GetU32, NormalForm, GetRest, GetBytes;
    if ParseRecord(b, p).None? { return; }
    var (domain, p1) := ReadName(b, p).value;
    var (num, p2) := GetU16(b, p1).value;
    var (_, p3) := GetU16(b, p2).value;
    var (ttl, p4) := GetU32(b, p3).value;
    var (len, p5) := GetU16(b, p4).value;
    ParsedRdataIsWellFormed(b, p5, len, domain, num, ttl);
  }

  /** Well-formed names can be written, so a record can. */
  lemma RecordIsWritable(r: DnsRecord)
    requires WellFormedRecord(r)
    ensures RecordWire(r).Some? && RdataWire(r).Some? && |RdataWire(r).value| <= |RecordWire(r).value|
  {
    NormalFormWrites(r.domain);
    hide BE16, BE32, Octets, WireOf;
    match r
    case NS(_, host, _) => NormalFormWrites(host);
    case CNAME(_, host, _) => NormalFormWrites(host);
    case PTR(_, host, _) => NormalFormWrites(host);
    case MX(_, _, host, _) => NormalFormWrites(host);
    case SOA(_, mname, rname, _, _, _, _, _, _) =>
      NormalFormWrites(mname);
      NormalFormWrites(rname);
    case RRSIG(_, _, _, _, _, _, _, _, signerName, _, _) => NormalFormWrites(signerName);
    case NSEC(_, nextDomain, _, _) => NormalFormWrites(nextDomain);
    case _ =>
  }

  /** However its names are compressed, the RDATA of a record read from the buffer has a length that fits 16 bits. */
  lemma ParsedRecordIsShort(b: seq<byte>, p: nat)
    requires |b| == BUF_SIZE
    ensures ParseRecord(b, p).Some? ==>
              var r := ParseRecord(b, p).value.0;
              RdataWire(r).Some? && |RdataWire(r).value| <= 12 * BUF_SIZE + 22
  {
    hide ReadName, GetU8, GetU16, GetU32, NormalForm, GetRest, GetBytes;
    if ParseRecord(b, p).None? { return; }
    var (domain, p1) := ReadName(b, p).value;
    var (num, p2) := GetU16(b, p1).value;
    var (_, p3) := GetU16(b, p2).value;
    var (ttl, p4) := GetU32(b, p3).value;
    var (len, p5) := GetU16(b, p4).value;
    ParsedRdataIsShort(b, p5, len, domain, num, ttl);
  }

  lemma ParsedRdataIsShort(b: seq<byte>, p: nat, len: nat, domain: Text, num: u16, ttl: u32)
    requires |b| == BUF_SIZE
    ensures ParseRdata(b, p, len, domain, num, ttl).Some? ==>
              var r := ParseRdata(b, p, len, domain, num, ttl).value.0;
              RdataWire(r).Some? && |RdataWire(r).value| <= 12 * BUF_SIZE + 22
  {
    hide ReadName, NameWire, GetU8, GetU32, NormalForm, GetRest, BE16, BE32, Octets, ParseSoa, ParseRrsig, ParseNsec3;
    hide GetU16;
    if ParseRdata(b, p, len, domain, num, ttl).None? { return; }
    match QueryType.FromNum(num)
    case AAAA => OctetsLength(ParseAaaa(b, p).value.0);
    case NS => ReadNameSize(b, p);
    case CNAME => ReadNameSize(b, p);
    case PTR => ReadNameSize(b, p);
    case MX => ReadNameSize(b, GetU16(b, p).value.1);
    case RRSIG => ParsedRrsigIsShort(b, p, len, domain, ttl);
    case NSEC => ReadNameSize(b, p);
    case NSEC3 => ParsedNsec3IsShort(b, p, len, domain, ttl);
    case SOA => ParsedSoaIsShort(b, p, domain, ttl);
    case _ =>
  }

  lemma ParsedSoaIsShort(b: seq<byte>, p: nat, domain: Text, ttl: u32)
    requires |b| == BUF_SIZE
    ensures ParseSoa(b, p, domain, ttl).Some? ==>
              var r := ParseSoa(b, p, domain, ttl).value.0;
              RdataWire(r).Some? && |RdataWire(r).value| <= 12 * BUF_SIZE + 22
  {
    hide ReadName, NameWire, GetU32, BE32;
    if ParseSoa(b, p, domain, ttl).None? { return; }
    ReadNameSize(b, p);
    ReadNameSize(b, ReadName(b, p).value.1);
  }

  lemma ParsedRrsigIsShort(b: seq<byte>, p: nat, len: nat, domain: Text, ttl: u32)
    requires |b| == BUF_SIZE
    ensures ParseRrsig(b, p, len, domain, ttl).Some? ==>
              var r := ParseRrsig(b, p, len, domain, ttl).value.0;
              RdataWire(r).Some? && |RdataWire(r).value| <= 12 * BUF_SIZE + 22
  {
    hide ReadName, NameWire, ParseRrsig, RdataWire;
    if ParseRrsig(b, p, len, domain, ttl).None? { return; }
    RrsigParts(b, p, len, domain, ttl);
    ReadNameSize(b, p + 18);
    RrsigSize(ParseRrsig(b, p, len, domain, ttl).value.0);
  }

  lemma RrsigParts(b: seq<byte>, p: nat, len: nat, domain: Text, ttl: u32)
    ensures ParseRrsig(b, p, len, domain, ttl).Some? ==>
              var r := ParseRrsig(b, p, len, domain, ttl).value.0;
              r.RRSIG? && ReadName(b, p + 18).Some? && r.signerName == ReadName(b, p + 18).value.0 && |r.signature| <= |b|
  {
    hide ReadName, GetRest, U16, U32, NormalForm;
    if ParseRrsig(b, p, len, domain, ttl).None? { return; }
  }

  lemma RrsigSize(r: DnsRecord)
    requires r.RRSIG? && NameWire(r.signerName).Some?
    ensures RdataWire(r).Some? && |RdataWire(r).value| == 18 + |NameWire(r.signerName).value| + |r.signature|
  {
    hide NameWire, BE16, BE32;
  }

  lemma ParsedNsec3IsShort(b: seq<byte>, p: nat, len: nat, domain: Text, ttl: u32)
    requires |b| == BUF_SIZE
    ensures ParseNsec3(b, p, len, domain, ttl).Some? ==>
              var r := ParseNsec3(b, p, len, domain, ttl).value.0;
              RdataWire(r).Some? && |RdataWire(r).value| <= 12 * BUF_SIZE + 22
  {
    hide GetU16, GetRest, BE16, U16;
    if ParseNsec3(b, p, len, domain, ttl).None? { return; }
  }

  /** So a record the reader returns comes back from wherever it is written. */
  lemma ParsedRecordRoundTrip(b: seq<byte>, p: nat, c: seq<byte>, q: nat)
    requires |b| == BUF_SIZE
    ensures ParseRecord(b, p).Some? ==>
              var r := ParseRecord(b, p).value.0;
              RecordWire(r).Some? && (At(c, q, RecordWire(r).value) ==> ParseRecord(c, q) == Some((r, q + |RecordWire(r).value|)))
  {
    hide ParseRecord, RecordWire, RdataWire, WellFormedRecord, At;
    if ParseRecord(b, p).None? { return; }
    var r := ParseRecord(b, p).value.0;
    ParsedRecordIsWellFormed(b, p);
    ParsedRecordIsShort(b, p);
    RecordIsWritable(r);
    if At(c, q, RecordWire(r).value) { ParseWrittenRecord(c, q, r); }
  }

  lemma ParsedRdataIsWellFormed(b: seq<byte>, p: nat, len: nat, domain: Text, num: u16, ttl: u32)
    requires NormalForm(domain)
    ensures ParseRdata(b, p, len, domain, num, ttl).Some? ==> WellFormedRecord(ParseRdata(b, p, len, domain, num, ttl).value.0)
  {
    hide ReadName, GetU8, GetU16, GetU32, NormalForm, GetRest, ParseNsec3;
    if ParseRdata(b, p, len, domain, num, ttl).None? { return; }
    match QueryType.FromNum(num)
    case NSEC3 => ParsedNsec3Lengths(b, p, len, domain, ttl);
    case _ =>
  }

  lemma ParsedNsec3Lengths(b: seq<byte>, p: nat, len: nat, domain: Text, ttl: u32)
    ensures ParseNsec3(b, p, len, domain, ttl).Some? ==>
              var r := ParseNsec3(b, p, len, domain, ttl).value.0;
              r.NSEC3? && r.domain == domain && |r.salt| < 0x100 && |r.nextHashedOwner| < 0x100
  {
    hide GetU16, GetRest;
    if ParseNsec3(b, p, len, domain, ttl).None? { return; }
  }

  /** After its owner a record holds its type number, the class IN, its TTL and the length of its RDATA (section 3.2.1 of RFC 1035). */
  lemma RecordLayout(r: DnsRecord)
    requires RecordWire(r).Some? && |RdataWire(r).value| < 0x1_0000
    ensures var w, n := RecordWire(r).value, |NameWire(r.domain).value|;
            && |w| == n + 10 + |RdataWire(r).value|
            && w[..n] == NameWire(r.domain).value && w[n + 10..] == RdataWire(r).value
            && U16(w[n], w[n + 1]) == r.QType().ToNum() && w[n + 2] == 0 && w[n + 3] == 1
            && U32(w[n + 4], w[n + 5], w[n + 6], w[n + 7]) == r.ttl && U16(w[n + 8], w[n + 9]) == |RdataWire(r).value|
  {
    hide NameWire, RdataWire, DnsRecord.QType, QueryType.ToNum, BE32, U32, BE16, U16;
    var w, name, rdata := RecordWire(r).value, NameWire(r.domain).value, RdataWire(r).value;
    var n := |name|;
    var num, class_, ttl, len := BE16(r.QType().ToNum()), BE16(1), BE32(r.ttl), BE16(|rdata|);
    assert w == name + num + class_ + ttl + len + rdata;
    assert At(w, n, num) && At(w, n + 2, class_) && At(w, n + 4, ttl) && At(w, n + 8, len);
    hide At;
    AtBE16(w, n, r.QType().ToNum());
    AtBE16(w, n + 2, 1);
    AtBE32(w, n + 4, r.ttl);
    AtBE16(w, n + 8, |rdata|);
    ClassIn(w[n + 2], w[n + 3]);
  }

  // ---- The fields of the RDATA, by position ----

  predicate Field16(w: seq<byte>, p: nat, x: u16) { p + 2 <= |w| && U16(w[p], w[p + 1]) == x }

  predicate Field32(w: seq<byte>, p: nat, x: u32) { p + 4 <= |w| && U32(w[p], w[p + 1], w[p + 2], w[p + 3]) == x }

  /** Sections 3.3 and 3.4 of RFC 1035, 2.1, 3.1, 4.1 and 5.1 of RFC 4034, 3.2 of RFC 5155 and 2.2 of RFC 3596. */
  ghost predicate RdataIs(r: DnsRecord, w: seq<byte>) {
    match r
    case A(_, addr, _) => w == addr
    case AAAA(_, addr, _) => |w| == 16 && forall i :: 0 <= i < 8 ==> U16(w[2 * i], w[2 * i + 1]) == addr[i]
    case NS(_, host, _) => NameWire(host) == Some(w)
    case CNAME(_, host, _) => NameWire(host) == Some(w)
    case PTR(_, host, _) => NameWire(host) == Some(w)
    case MX(_, priority, host, _) => Field16(w, 0, priority) && NameWire(host) == Some(w[2..])
    case SOA(_, mname, rname, serial, refresh, retry, expire, minimum, _) =>
      var n := |w| - 20;
      && n >= 0 && NameWire(mname).Some? && NameWire(rname).Some? && w[..n] == NameWire(mname).value + NameWire(rname).value
      && Field32(w, n, serial) && Field32(w, n + 4, refresh) && Field32(w, n + 8, retry)
      && Field32(w, n + 12, expire) && Field32(w, n + 16, minimum)
    case DNSKEY(_, flags, protocol, algorithm, publicKey, _) =>
      |w| >= 4 && Field16(w, 0, flags) && w[2] == protocol && w[3] == algorithm && w[4..] == publicKey
    case DS(_, keyTag, algorithm, digestType, digest, _) =>
      |w| >= 4 && Field16(w, 0, keyTag) && w[2] == algorithm && w[3] == digestType && w[4..] == digest
    case RRSIG(_, typeCovered, algorithm, labels, originalTtl, expiration, inception, keyTag, signerName, signature, _) =>
      && |w| >= 18 && Field16(w, 0, typeCovered) && w[2] == algorithm && w[3] == labels && Field32(w, 4, originalTtl)
      && Field32(w, 8, expiration) && Field32(w, 12, inception) && Field16(w, 16, keyTag)
      && NameWire(signerName).Some? && w[18..] == NameWire(signerName).value + signature
    case NSEC(_, nextDomain, typeBitmap, _) => NameWire(nextDomain).Some? && w == NameWire(nextDomain).value + typeBitmap
    case NSEC3(_, hashAlgorithm, flags3, iterations, salt, nextHashedOwner, typeBitmap, _) =>
      && |w| >= 6 + |salt| && w[0] == hashAlgorithm && w[1] == flags3 && Field16(w, 2, iterations)
      && (|salt| < 0x100 ==> w[4] == |salt|) && w[5..5 + |salt|] == salt
      && (|nextHashedOwner| < 0x100 ==> w[5 + |salt|] == |nextHashedOwner|)
      && w[6 + |salt|..] == nextHashedOwner + typeBitmap
    case UNKNOWN(_, _, data, _) => w == data
  }

  lemma Field16At(w: seq<byte>, p: nat, x: u16)
    requires At(w, p, BE16(x))
    ensures Field16(w, p, x)
  {
    AtBE16(w, p, x);
  }

  lemma Field32At(w: seq<byte>, p: nat, x: u32)
    requires At(w, p, BE32(x))
    ensures Field32(w, p, x)
  {
    AtBE32(w, p, x);
  }

  lemma RdataLayout(r: DnsRecord)
    requires RdataWire(r).Some?
    ensures RdataIs(r, RdataWire(r).value)
  {
    hide NameWire, BE16, BE32, U16, U32, At, Field16, Field32;
    match r
    case MX(_, _, _, _) => MxLayout(r);
    case SOA(_, _, _, _, _, _, _, _, _) => SoaLayout(r);
    case DNSKEY(_, _, _, _, _, _) => KeyLayout(r);
    case DS(_, _, _, _, _, _) => KeyLayout(r);
    case RRSIG(_, _, _, _, _, _, _, _, _, _, _) => RrsigLayout(r);
    case NSEC3(_, _, _, _, _, _, _, _) => Nsec3Layout(r);
    case AAAA(_, addr, _) => OctetsAre(addr);
    case _ =>
  }

  lemma OctetsAre(addr: Ipv6)
    ensures |Octets(addr)| == 16 && forall i :: 0 <= i < 8 ==> U16(Octets(addr)[2 * i], Octets(addr)[2 * i + 1]) == addr[i]
  {
  }

  lemma MxLayout(r: DnsRecord)
    requires r.MX? && RdataWire(r).Some?
    ensures RdataIs(r, RdataWire(r).value)
  {
    hide NameWire, BE16, U16, Field16;
    var w := RdataWire(r).value;
    assert At(w, 0, BE16(r.priority));
    Field16At(w, 0, r.priority);
  }

  lemma SoaLayout(r: DnsRecord)
    requires r.SOA? && RdataWire(r).Some?
    ensures RdataIs(r, RdataWire(r).value)
  {
    hide NameWire, BE32, U32, Field32;
    var w := RdataWire(r).value;
    var names := NameWire(r.mname).value + NameWire(r.rname).value;
    var n := |names|;
    var a, b, c, d, e := BE32(r.serial), BE32(r.refresh), BE32(r.retry), BE32(r.expire), BE32(r.minimum);
    assert w == names + a + b + c + d + e && |w| == n + 20;
    hide At;
    FiveParts(names, a, b, c, d, e);
    Field32At(w, n, r.serial);
    Field32At(w, n + 4, r.refresh);
    Field32At(w, n + 8, r.retry);
    Field32At(w, n + 12, r.expire);
    Field32At(w, n + 16, r.minimum);
  }

  lemma FiveParts(s: seq<byte>, a: seq<byte>, b: seq<byte>, c: seq<byte>, d: seq<byte>, e: seq<byte>)
    requires |a| == 4 && |b| == 4 && |c| == 4 && |d| == 4 && |e| == 4
    ensures var w, n := s + a + b + c + d + e, |s|;
            At(w, n, a) && At(w, n + 4, b) && At(w, n + 8, c) && At(w, n + 12, d) && At(w, n + 16, e)
  {
  }

  lemma KeyLayout(r: DnsRecord)
    requires (r.DNSKEY? || r.DS?) && RdataWire(r).Some?
    ensures RdataIs(r, RdataWire(r).value)
  {
    hide BE16, U16, Field16;
    var w := RdataWire(r).value;
    var first := if r.DNSKEY? then r.flags else r.keyTag;
    assert At(w, 0, BE16(first));
    Field16At(w, 0, first);
  }

  lemma RrsigLayout(r: DnsRecord)
    requires r.RRSIG? && RdataWire(r).Some?
    ensures RdataIs(r, RdataWire(r).value)
  {
    hide NameWire, BE16, BE32, U16, U32, Field16, Field32;
    var w := RdataWire(r).value;
    assert At(w, 0, BE16(r.typeCovered)) && At(w, 4, BE32(r.originalTtl)) && At(w, 8, BE32(r.expiration));
    assert At(w, 12, BE32(r.inception)) && At(w, 16, BE16(r.keyTag));
    assert w[18..] == NameWire(r.signerName).value + r.signature;
    hide At;
    Field16At(w, 0, r.typeCovered);
    Field32At(w, 4, r.originalTtl);
    Field32At(w, 8, r.expiration);
    Field32At(w, 12, r.inception);
    Field16At(w, 16, r.keyTag);
  }

  lemma Nsec3Layout(r: DnsRecord)
    requires r.NSEC3? && RdataWire(r).Some?
    ensures RdataIs(r, RdataWire(r).value)
  {
    hide BE16, U16, Field16;
    var w := RdataWire(r).value;
    assert At(w, 2, BE16(r.iterations));
    assert w[5..5 + |r.salt|] == r.salt && w[6 + |r.salt|..] == r.nextHashedOwner + r.typeBitmap;
    hide At;
    Field16At(w, 2, r.iterations);
  }

  lemma ClassIn(hi: byte, lo: byte)
    ensures U16(hi, lo) == 1 ==> hi == 0 && lo == 1
  {
  }

  /** Every written record takes at least eleven bytes. */
  lemma RecordWireSize(r: DnsRecord)
    requires RecordWire(r).Some?
    ensures |RecordWire(r).value| >= 11
  {
    hide NameWire, RdataWire;
  }
}
