/** `validate_denial`: the NSEC and NSEC3 verdicts on signed authority records. */
module DenialValidation {
  import opened Bytes
  import opened Question
  import opened Record
  import opened Canonical
  import opened TypeBitmap
  import opened Nsec3
  import opened Rings
  import opened NameOrder
  import opened Pieces
  import opened Dnssec
  import opened Grouping
  import opened Denial

  /** The first signature over the RRset: only that one is tried. */
  function FirstMatching(sigs: seq<DnsRecord>, name: Text, qtype: QueryType): (r: Option<DnsRecord>)
    ensures r.Some? ==> r.value in sigs && Matches(r.value, name, qtype)
    ensures r.None? <==> forall s <- sigs :: !Matches(s, name, qtype)
  {
    if sigs == [] then None
    else if Matches(sigs[0], name, qtype) then Some(sigs[0])
    else FirstMatching(sigs[1..], name, qtype)
  }

  lemma {:induction false} FirstIsFirst(sigs: seq<DnsRecord>, name: Text, qtype: QueryType) returns (i: nat)
    requires FirstMatching(sigs, name, qtype).Some?
    ensures i < |sigs| && FirstMatching(sigs, name, qtype) == Some(sigs[i]) && forall j :: 0 <= j < i ==> !Matches(sigs[j], name, qtype)
  {
    hide Matches;
    i := 0;
    if !Matches(sigs[0], name, qtype) {
      var k := FirstIsFirst(sigs[1..], name, qtype);
      i := k + 1;
    }
  }

  /** A cached key of the signer made the signature; no chain is walked. */
  predicate CachedKeySigned(w: World, sig: DnsRecord, rrset: seq<DnsRecord>)
    requires sig.RRSIG?
  {
    w.cachedDnskeys(sig.signerName).Some? && exists key <- w.cachedDnskeys(sig.signerName).value :: VerifiedBy(w, sig, key, rrset)
  }

  predicate GroupSigned(w: World, sigs: seq<DnsRecord>, name: Text, qtype: QueryType, rrset: seq<DnsRecord>) {
    var sig := FirstMatching(sigs, name, qtype);
    sig.Some? && CachedKeySigned(w, sig.value, rrset)
  }

  /** There are records of the type, and every one is in an RRset signed by a cached key. */
  predicate AuthoritySigned(w: World, authorities: seq<DnsRecord>, sigs: seq<DnsRecord>, t: QueryType) {
    var denial := RrsetOf(authorities, t);
    denial != [] && forall r <- denial :: GroupSigned(w, sigs, LowerText(r.domain), t, RecordsOf(denial, LowerText(r.domain), t))
  }

  /** All records of this one's owner, in any letter case, and type verify under a signature over them by a cached key. */
  ghost predicate DenialSigned(w: World, authorities: seq<DnsRecord>, sigs: seq<DnsRecord>, r: DnsRecord) {
    exists sig, keys, key, rrset ::
      && sig in sigs && sig.RRSIG? && LowerText(sig.domain) == LowerText(r.domain) && QueryType.FromNum(sig.typeCovered) == r.QType()
      && w.cachedDnskeys(sig.signerName) == Some(keys) && key in keys && VerifiedBy(w, sig, key, rrset)
      && forall x :: x in rrset <==> x in authorities && LowerText(x.domain) == LowerText(r.domain) && x.QType() == r.QType()
  }

  /** What a denial's signatures amount to: there are denial records, and each is in a signed RRset. */
  lemma AuthorityMeans(w: World, authorities: seq<DnsRecord>, sigs: seq<DnsRecord>, t: QueryType)
    requires AuthoritySigned(w, authorities, sigs, t) && t != QueryType.RRSIG
    ensures exists r :: r in authorities && r.QType() == t
    ensures forall r :: r in authorities && r.QType() == t ==> DenialSigned(w, authorities, sigs, r)
  {
    hide VerifiedBy, RecordsOf, LowerText, DnsRecord.QType, DenialSigned, Matches;
    var denial := RrsetOf(authorities, t);
    assert denial[0] in denial;
    forall r | r in authorities && r.QType() == t ensures DenialSigned(w, authorities, sigs, r) {
      assert r in denial;
      SignedMember(w, authorities, sigs, r, FirstMatching(sigs, LowerText(r.domain), t).value);
    }
  }

  lemma AllSigned(w: World, authorities: seq<DnsRecord>, sigs: seq<DnsRecord>, t: QueryType)
    requires t == QueryType.NSEC || t == QueryType.NSEC3
    ensures AuthoritySigned(w, authorities, sigs, t) ==>
              forall r :: r in authorities && (if t == QueryType.NSEC then r.NSEC? else r.NSEC3?) ==>
                DenialSigned(w, authorities, sigs, r)
  {
    hide AuthoritySigned, DenialSigned, DnsRecord.QType;
    if AuthoritySigned(w, authorities, sigs, t) {
      AuthorityMeans(w, authorities, sigs, t);
      forall r | r in authorities && (if t == QueryType.NSEC then r.NSEC? else r.NSEC3?)
        ensures DenialSigned(w, authorities, sigs, r)
      {
        IsRrsig(r);
      }
    }
  }

  lemma SignedMember(w: World, authorities: seq<DnsRecord>, sigs: seq<DnsRecord>, r: DnsRecord, sig: DnsRecord)
    requires r in authorities && r.QType() != QueryType.RRSIG && sig in sigs && Matches(sig, LowerText(r.domain), r.QType())
    requires CachedKeySigned(w, sig, RecordsOf(RrsetOf(authorities, r.QType()), LowerText(r.domain), r.QType()))
    ensures DenialSigned(w, authorities, sigs, r)
  {
    hide VerifiedBy, RecordsOf, DnsRecord.QType;
    var denial := RrsetOf(authorities, r.QType());
    var rrset := RecordsOf(denial, LowerText(r.domain), r.QType());
    RecordsOfMember(denial, LowerText(r.domain), r.QType());
    forall x ensures x in rrset <==> x in authorities && LowerText(x.domain) == LowerText(r.domain) && x.QType() == r.QType() {
      IsRrsig(x);
      if x in denial && !x.RRSIG? { RecordsOfAll(denial, x); }
    }
    LowerTextIdempotent(r.domain);
    hide LowerText;
    var key :| key in w.cachedDnskeys(sig.signerName).value && VerifiedBy(w, sig, key, rrset);
  }

  method VerifyAuthorityRrsigs(w: World, authorities: seq<DnsRecord>, sigs: seq<DnsRecord>,
                               t: QueryType) returns (r: bool)
    requires t != QueryType.RRSIG
    ensures r <==> AuthoritySigned(w, authorities, sigs, t)
  {
    hide GroupSigned, RecordsOf, LowerText, DnsRecord.QType;
    var denial := RrsetOf(authorities, t);
    var groups := GroupRrsets(denial);
    GroupsOfOneType(denial, groups, t);
    for i := 0 to |groups|
      invariant forall j :: 0 <= j < i ==> GroupSigned(w, sigs, groups[j].name, t, groups[j].rrset)
    {
      var g := groups[i];
      if !GroupSigned(w, sigs, g.name, g.qtype, g.rrset) {
        assert g in groups;
        return false;
      }
    }
    r := groups != [];
  }

  lemma IsRrsig(r: DnsRecord)
    ensures r.RRSIG? <==> r.QType() == QueryType.RRSIG
    ensures r.NSEC? <==> r.QType() == QueryType.NSEC
    ensures r.NSEC3? <==> r.QType() == QueryType.NSEC3
  {
  }

  /** The groups are the RRsets of the records, all of the one type. */
  lemma GroupsOfOneType(denial: seq<DnsRecord>, groups: seq<Group>, t: QueryType)
    requires Partitions(denial, groups) && (forall r <- denial :: r.QType() == t) && t != QueryType.RRSIG
    ensures forall g <- groups :: g.qtype == t && exists r :: r in denial && g.name == LowerText(r.domain)
                                                              && g.rrset == RecordsOf(denial, LowerText(r.domain), t)
    ensures forall r <- denial :: exists j :: 0 <= j < |groups| && groups[j].name == LowerText(r.domain)
                                              && groups[j].rrset == RecordsOf(denial, LowerText(r.domain), t)
    ensures denial == [] <==> groups == []
  {
    hide RecordsOf, LowerText, DnsRecord.QType;
    forall g | g in groups
      ensures g.qtype == t && exists r :: r in denial && g.name == LowerText(r.domain)
                                          && g.rrset == RecordsOf(denial, LowerText(r.domain), t)
    {
      RecordsOfMember(denial, g.name, g.qtype);
      assert g.rrset[0] in g.rrset;
    }
    forall r | r in denial
      ensures exists j :: 0 <= j < |groups| && groups[j].name == LowerText(r.domain)
                          && groups[j].rrset == RecordsOf(denial, LowerText(r.domain), t)
    {
      IsRrsig(r);
      var g :| g in groups && InGroup(r, g);
      var j :| 0 <= j < |groups| && groups[j] == g;
    }
    if denial != [] { assert denial[0] in denial; }
    if groups != [] { assert groups[0] in groups; }
  }

  /** The NSEC3 records whose first label decodes; the others are skipped. */
  function HashLinks(nsec3s: seq<DnsRecord>): seq<HashLink>
    requires forall r <- nsec3s :: r.NSEC3?
  {
    if nsec3s == [] then []
    else
      var last := nsec3s[|nsec3s| - 1];
      var owner := Base32Decode(UpToDot(last.domain));
      HashLinks(nsec3s[..|nsec3s| - 1])
      + (if owner.Some? then [HashLink(owner.value, last.nextHashedOwner, last.typeBitmap)] else [])
  }

  /** A link is an NSEC3 record whose first piece decodes to its owner, with that record's next hash and bitmap. */
  predicate LinkOf(r: DnsRecord, l: HashLink) {
    && r.NSEC3? && l.next == r.nextHashedOwner && l.bitmap == r.typeBitmap
    && var first := UpToDot(r.domain);
       Base32Decode(first) == Some(l.owner) && DOT !in first && first <= r.domain
       && (|first| < |r.domain| ==> r.domain[|first|] == DOT)
  }

  /** Every record whose owner decodes has its link, and there are no others. */
  lemma {:induction false} LinksAre(nsec3s: seq<DnsRecord>, l: HashLink)
    requires forall r <- nsec3s :: r.NSEC3?
    ensures l in HashLinks(nsec3s) <==> exists r :: r in nsec3s && LinkOf(r, l)
  {
    hide Base32Decode;
    if nsec3s != [] {
      var front, last := nsec3s[..|nsec3s| - 1], nsec3s[|nsec3s| - 1];
      assert nsec3s == front + [last];
      LinksAre(front, l);
      OneLink(last, l);
      hide LinkOf;
      assert forall r :: r in nsec3s <==> r in front || r == last;
    }
  }

  lemma OneLink(r: DnsRecord, l: HashLink)
    requires r.NSEC3?
    ensures HashLinks([r]) == if Base32Decode(UpToDot(r.domain)).Some?
                              then [HashLink(Base32Decode(UpToDot(r.domain)).value, r.nextHashedOwner, r.typeBitmap)] else []
    ensures LinkOf(r, l) <==> l in HashLinks([r])
  {
    hide Base32Decode;
    assert [r][..0] == [];
  }

  function NsecsOf(authorities: seq<DnsRecord>): (r: seq<DnsRecord>)
    ensures forall x :: x in r <==> x in authorities && x.NSEC?
  {
    Filter((x: DnsRecord) => x.NSEC?, authorities)
  }

  function Nsec3sOf(authorities: seq<DnsRecord>): (r: seq<DnsRecord>)
    ensures forall x :: x in r <==> x in authorities && x.NSEC3?
  {
    Filter((x: DnsRecord) => x.NSEC3?, authorities)
  }

  function DenialVerdict(w: World, authorities: seq<DnsRecord>, sigs: seq<DnsRecord>, qname: Text, qtype: u16,
                         isNxdomain: bool): DnssecStatus {
    var nsecs := NsecsOf(authorities);
    var nsec3s := Nsec3sOf(authorities);
    if nsecs != [] then
      if !AuthoritySigned(w, authorities, sigs, QueryType.NSEC) then Indeterminate else NsecVerdict(nsecs, qname, qtype, isNxdomain)
    else if nsec3s != [] then
      if !AuthoritySigned(w, authorities, sigs, QueryType.NSEC3) then Indeterminate
      else HashVerdict(ZoneHash(w, nsec3s[0]), HashLinks(nsec3s), qname, qtype, isNxdomain)
    else Indeterminate
  }

  /** The zone's hash, with the parameters of one NSEC3 record. */
  function ZoneHash(w: World, r: DnsRecord): Text -> Option<seq<byte>>
    requires r.NSEC3?
  {
    HashBy(w.sha1, r)
  }

  function HashBy(sha1: seq<byte> -> seq<byte>, r: DnsRecord): Text -> Option<seq<byte>>
    requires r.NSEC3?
  {
    name => Nsec3Hash(sha1, name, r.hashAlgorithm, r.iterations, r.salt)
  }

  method DecodeLinks(nsec3s: seq<DnsRecord>) returns (links: seq<HashLink>)
    requires forall r <- nsec3s :: r.NSEC3?
    ensures links == HashLinks(nsec3s)
  {
    hide Base32Decode, UpToDot;
    links := [];
    assert nsec3s[..|nsec3s|] == nsec3s;
    for i := 0 to |nsec3s|
      invariant links == HashLinks(nsec3s[..i])
    {
      var r := nsec3s[i];
      assert nsec3s[..i + 1][..i] == nsec3s[..i];
      var owner := Base32HexDecode(UpToDot(r.domain));
      if owner.Some? {
        links := links + [HashLink(owner.value, r.nextHashedOwner, r.typeBitmap)];
      }
    }
  }

  /** The NXDOMAIN loop: all ancestors are hashed first, then each is tried as closest encloser. */
  method ProveNxdomain(w: World, params: DnsRecord, links: seq<HashLink>, labels: seq<Text>) returns (proven: bool)
    requires params.NSEC3?
    ensures proven <==> exists i :: 1 <= i < |labels| && HashEncloserProof(ZoneHash(w, params), links, labels, i)
  {
    hide Nsec3Hash, AnyHashCovers, Join, Wildcard;
    ghost var hash := ZoneHash(w, params);
    var ancestors: seq<Option<seq<byte>>> := [];
    for i := 0 to |labels|
      invariant |ancestors| == i && forall j :: 0 <= j < i ==> ancestors[j] == hash(Join(labels[j..]))
    {
      var h := ComputeNsec3Hash(w.sha1, Join(labels[i..]), params.hashAlgorithm, params.iterations, params.salt);
      ancestors := ancestors + [h];
    }
    proven := false;
    var i := 1;
    while i < |labels|
      invariant 1 <= i && (forall j :: 1 <= j < i && j < |labels| ==> !HashEncloserProof(hash, links, labels, j))
    {
      var ce, nc := ancestors[i], ancestors[i - 1];
      if ce.Some? && (exists l <- links :: l.owner == ce.value) && nc.Some? && AnyHashCovers(links, nc.value) {
        var wc := ComputeNsec3Hash(w.sha1, Wildcard(Join(labels[i..])), params.hashAlgorithm, params.iterations, params.salt);
        if wc.Some? && AnyHashCovers(links, wc.value) {
          assert HashEncloserProof(hash, links, labels, i);
          return true;
        }
      }
      i := i + 1;
    }
  }

  method ValidateDenial(w: World, authorities: seq<DnsRecord>, sigs: seq<DnsRecord>, qname: Text, qtype: u16,
                        isNxdomain: bool)
    returns (status: DnssecStatus)
    ensures status == DenialVerdict(w, authorities, sigs, qname, qtype, isNxdomain)
  {
    hide NsecVerdict, Nsec3Hash, HashLinks, BitmapContains, HashEncloserProof, AuthoritySigned, Labels;
    var nsecs := NsecsOf(authorities);
    if nsecs != [] {
      var signed := VerifyAuthorityRrsigs(w, authorities, sigs, QueryType.NSEC);
      return if signed then NsecVerdict(nsecs, qname, qtype, isNxdomain) else Indeterminate;
    }
    var nsec3s := Nsec3sOf(authorities);
    if nsec3s == [] { return Indeterminate; }
    var signed := VerifyAuthorityRrsigs(w, authorities, sigs, QueryType.NSEC3);
    if !signed { return Indeterminate; }
    var params := nsec3s[0];
    var qhash := ComputeNsec3Hash(w.sha1, qname, params.hashAlgorithm, params.iterations, params.salt);
    if qhash.None? { return Indeterminate; }
    var links := DecodeLinks(nsec3s);
    if isNxdomain {
      var proven := ProveNxdomain(w, params, links, Labels(qname));
      status := if proven then Secure else Bogus;
    } else {
      status := if exists l <- links :: l.owner == qhash.value
                     && !BitmapContains(l.bitmap, qtype) && !BitmapContains(l.bitmap, QueryType.CNAME.ToNum()) then Secure else Bogus;
    }
  }

  // ---- What a Secure denial means ----

  /** All NSECs of a message that come from one zone: a Secure denial is true of that zone, and signed. */
  lemma SecureNsecDenial(w: World, authorities: seq<DnsRecord>, sigs: seq<DnsRecord>, qname: Text, qtype: u16,
                         isNxdomain: bool, ring: NsecRing)
    requires DenialVerdict(w, authorities, sigs, qname, qtype, isNxdomain) == Secure
    requires NsecsOf(authorities) != []
    requires ValidRing(ring) && FromRing(ring, NsecsOf(authorities))
    ensures AuthoritySigned(w, authorities, sigs, QueryType.NSEC)
    ensures forall r :: r in authorities && r.NSEC? ==> DenialSigned(w, authorities, sigs, r)
    ensures if isNxdomain then !Owns(ring, qname) else exists i: nat :: LacksAt(ring, i, qname, qtype)
  {
    hide NsecVerdict, ValidRing, FromRing, AuthoritySigned, HashVerdict, NsecsOf, Owns, LacksAt, DenialSigned, DnsRecord.QType;
    AllSigned(w, authorities, sigs, QueryType.NSEC);
    var nsecs := NsecsOf(authorities);
    if isNxdomain {
      NsecNxdomainIsAbsent(ring, nsecs, qname, qtype);
    } else {
      NsecNodataIsPresent(ring, nsecs, qname, qtype);
    }
  }

  /** The same for NSEC3, in terms of hashes. */
  lemma SecureHashDenial(w: World, authorities: seq<DnsRecord>, sigs: seq<DnsRecord>, qname: Text, qtype: u16,
                         isNxdomain: bool, ring: HashRing)
    requires DenialVerdict(w, authorities, sigs, qname, qtype, isNxdomain) == Secure
    requires NsecsOf(authorities) == []
    requires ValidHashRing(ring) && FromHashRing(ring, HashLinks(Nsec3sOf(authorities)))
    ensures AuthoritySigned(w, authorities, sigs, QueryType.NSEC3)
    ensures forall r :: r in authorities && r.NSEC3? ==> DenialSigned(w, authorities, sigs, r)
    ensures var hash := ZoneHash(w, Nsec3sOf(authorities)[0]);
            if isNxdomain then exists i :: 1 <= i < |Labels(qname)| && HashAbsent(ring, hash, Labels(qname), i)
            else exists i: nat :: HashLacksAt(ring, i, hash(qname), qtype)
  {
    hide HashVerdict, ValidHashRing, FromHashRing, AuthoritySigned, Nsec3sOf, NsecsOf, ZoneHash, HashLinks,
         NsecVerdict, HashAbsent, HashLacksAt, Labels, Nsec3Hash, DenialSigned, DnsRecord.QType;
    AllSigned(w, authorities, sigs, QueryType.NSEC3);
    var nsec3s := Nsec3sOf(authorities);
    var hash := ZoneHash(w, nsec3s[0]);
    if isNxdomain {
      HashNxdomainIsAbsent(ring, hash, HashLinks(nsec3s), qname, qtype);
    } else {
      HashNodataIsPresent(ring, hash, HashLinks(nsec3s), qname, qtype);
    }
  }
}
