/** What a Secure denial rests on: cached key sets, and nothing else. */
module DenialTrust {
  import opened Bytes
  import opened Names
  import opened PacketBuffer
  import opened Question
  import opened Record
  import opened ByteOrder
  import opened Canonical
  import opened NameOrder
  import opened Dnssec
  import opened Grouping
  import opened Denial
  import opened WildcardDenial
  import opened DenialNames
  import opened DenialValidation

  /** The same world with other fetches. */
  function Refetched(w: World, dnskeys: Text -> seq<DnsRecord>, ds: Text -> seq<DnsRecord>): World {
    World(w.now, w.verifyRsa, w.verifyEcdsa, w.verifyEd25519, w.sha1, w.sha256, w.sha384, dnskeys, ds, w.cachedDnskeys)
  }

  /**
   * For a given cache a denial verdict takes no anchors and does not change with any fetch: no chain is walked for it.
   * Fetches come in only before, when the signers' key sets are put into the cache.
   */
  lemma DenialIgnoresChains(w: World, dnskeys: Text -> seq<DnsRecord>, ds: Text -> seq<DnsRecord>, authorities: seq<DnsRecord>,
                            sigs: seq<DnsRecord>, qname: Text, qtype: u16, isNxdomain: bool)
    ensures DenialVerdict(Refetched(w, dnskeys, ds), authorities, sigs, qname, qtype, isNxdomain)
         == DenialVerdict(w, authorities, sigs, qname, qtype, isNxdomain)
  {
    hide NsecVerdict, HashVerdict, HashLinks, HashBy, AuthoritySigned;
    SignedAlike(w, dnskeys, ds, authorities, sigs, QueryType.NSEC);
    SignedAlike(w, dnskeys, ds, authorities, sigs, QueryType.NSEC3);
  }

  lemma SignedAlike(w: World, dnskeys: Text -> seq<DnsRecord>, ds: Text -> seq<DnsRecord>, authorities: seq<DnsRecord>,
                    sigs: seq<DnsRecord>, t: QueryType)
    ensures AuthoritySigned(Refetched(w, dnskeys, ds), authorities, sigs, t) == AuthoritySigned(w, authorities, sigs, t)
  {
    hide SignedData, KeyTag, TimeValid, LowerText, RecordsOf, FirstMatching, RrsetOf;
    forall name, rrset
      ensures GroupSigned(Refetched(w, dnskeys, ds), sigs, name, t, rrset) == GroupSigned(w, sigs, name, t, rrset)
    {
      assert forall sig, key :: VerifiedBy(Refetched(w, dnskeys, ds), sig, key, rrset) == VerifiedBy(w, sig, key, rrset);
      hide VerifiedBy;
    }
    hide GroupSigned;
  }

  // ---- When it is as good as a chain ----

  /** The cached key set of a signature's signer heads a chain of trust. */
  ghost predicate HeadsChain(w: World, anchors: seq<DnsRecord>, sig: DnsRecord)
    requires sig.RRSIG?
  {
    && w.cachedDnskeys(sig.signerName).Some?
    && exists chain :: StartsAt(chain, Link(sig.signerName, w.cachedDnskeys(sig.signerName).value), 0)
                       && ChainOfTrust(w, anchors, chain)
  }

  /** That is so exactly when the walk, had it been made from the cached keys, had found them Secure. */
  lemma HeadsChainIff(w: World, anchors: seq<DnsRecord>, sig: DnsRecord)
    requires sig.RRSIG?
    ensures HeadsChain(w, anchors, sig)
       <==> w.cachedDnskeys(sig.signerName).Some?
            && ValidateChain(w, anchors, sig.signerName, w.cachedDnskeys(sig.signerName).value, 0) == Secure
  {
    hide ValidateChain, StartsAt, ChainOfTrust;
    if w.cachedDnskeys(sig.signerName).Some? {
      SecureIffChain(w, anchors, sig.signerName, w.cachedDnskeys(sig.signerName).value, 0);
    }
  }

  /** Under that condition every denial RRset is signed by a key of a set that leads to an anchor. */
  lemma DenialIsAuthentic(w: World, anchors: seq<DnsRecord>, authorities: seq<DnsRecord>, sigs: seq<DnsRecord>, t: QueryType,
                          r: DnsRecord) returns (sig: DnsRecord)
    requires AuthoritySigned(w, authorities, sigs, t) && r in RrsetOf(authorities, t)
    requires forall s <- sigs :: s.RRSIG? && w.cachedDnskeys(s.signerName).Some? ==>
               ValidateChain(w, anchors, s.signerName, w.cachedDnskeys(s.signerName).value, 0) == Secure
    ensures sig in sigs && Matches(sig, LowerText(r.domain), t) && HeadsChain(w, anchors, sig)
    ensures CachedKeySigned(w, sig, RecordsOf(RrsetOf(authorities, t), LowerText(r.domain), t))
  {
    hide ValidateChain, HeadsChain, VerifiedBy, LowerText, RecordsOf, RrsetOf;
    sig := FirstMatching(sigs, LowerText(r.domain), t).value;
    HeadsChainIff(w, anchors, sig);
  }

  // ---- An instance ----

  /** No zone has a DS record; one key is fetched for every zone and in the cache, and it made every signature. */
  function Unanchored(key: DnsRecord): World {
    World(0, (_, _, _) => true, (_, _, _) => true, (_, _, _) => true, x => x, x => x, x => x, _ => [key], _ => [],
          _ => Option.Some([key]))
  }

  /** An Ed25519 key, and a signature of the zone `e` with a key of that tag. */
  function Key(owner: Text, publicKey: seq<byte>): DnsRecord { DnsRecord.DNSKEY(owner, 0, 3, 15, publicKey, 0) }

  function Signature(owner: Text, covered: u16, tag: u16, signature: seq<byte>): DnsRecord {
    DnsRecord.RRSIG(owner, covered, 15, 1, 0, 0, 0, tag, ZONE, signature, 0)
  }

  lemma ShortNames()
    ensures CanonicalName(ZONE).Some? && CanonicalName(Below(97, ZONE)).Some?
  {
    hide ParseName, LabelsWire;
    OneByteName(101);
    PrefixedName(97, ZONE);
    CanonicalIff(ZONE);
    CanonicalIff(Below(97, ZONE));
  }

  /** Such a signature over any one record verifies where every Ed25519 signature does. */
  lemma SignedOne(w: World, sig: DnsRecord, key: DnsRecord, r: DnsRecord)
    requires w.now == 0 && (forall k, d, s :: w.verifyEd25519(k, d, s)) && CanonicalWire(r, 0).Some?
    requires key.DNSKEY? && |key.publicKey| == 32 && sig.RRSIG? && |sig.signature| == 64
    requires key == Key(key.domain, key.publicKey)
    requires sig == Signature(sig.domain, sig.typeCovered, KeyTag(0, 3, 15, key.publicKey), sig.signature)
    ensures VerifiedBy(w, sig, key, [r])
  {
    ShortNames();
    hide CanonicalName, CanonicalWire, KeyTag, Sort, Flatten, BE16, BE32, ZONE;
    assert SignaturePrefix(sig).Some?;
    assert [r][1..] == [] && CanonicalWires([r][1..], 0) == Some([]);
    assert CanonicalWires([r], 0).Some?;
  }

  lemma FilterOne<T(!new)>(x: T)
    ensures forall p: T -> bool :: p(x) ==> Filter(p, [x]) == [x]
  {
    assert [x][1..] == [] && [x] + [] == [x];
  }

  lemma OneRecord(r: DnsRecord)
    requires r.NSEC?
    ensures RrsetOf([r], QueryType.NSEC) == [r] && NsecsOf([r]) == [r]
    ensures RecordsOf([r], LowerText(r.domain), QueryType.NSEC) == [r]
  {
    hide Filter, LowerText, RecordsOf;
    FilterOne(r);
    OneOfItsOwn(r);
  }

  lemma OneOfItsOwn(r: DnsRecord)
    requires !r.RRSIG?
    ensures RecordsOf([r], LowerText(r.domain), r.QType()) == [r]
  {
    hide LowerText, DnsRecord.QType;
    assert [r][..0] == [] && [] + [r] == [r];
    assert RecordsOf([], LowerText(r.domain), r.QType()) == [];
  }

  /** One record, with one signature over its name made by a cached key. */
  lemma OneSigned(w: World, r: DnsRecord, sig: DnsRecord, key: DnsRecord)
    requires r.NSEC? && sig.RRSIG? && Matches(sig, LowerText(r.domain), QueryType.NSEC)
    requires w.cachedDnskeys(sig.signerName) == Some([key]) && VerifiedBy(w, sig, key, [r])
    ensures AuthoritySigned(w, [r], [sig], QueryType.NSEC)
  {
    OneRecord(r);
    hide VerifiedBy, RecordsOf, RrsetOf, LowerText, Matches;
    assert FirstMatching([sig], LowerText(r.domain), QueryType.NSEC) == Some(sig);
    assert key in [key] && CachedKeySigned(w, sig, [r]);
  }

  lemma NothingToClimb(w: World, anchors: seq<DnsRecord>, zone: Text, records: seq<DnsRecord>)
    requires !HasAnchor(anchors, records) && !IsRoot(zone) && w.fetchDs(zone) == []
    ensures ValidateChain(w, anchors, zone, records, 0) == Insecure
  {
    hide HasAnchor, RrsetSigned, EndorsedKeys;
  }

  lemma VerdictOfOne(w: World, nsec: DnsRecord, sigs: seq<DnsRecord>, qname: Text, qtype: u16)
    requires nsec.NSEC? && AuthoritySigned(w, [nsec], sigs, QueryType.NSEC) && NsecVerdict([nsec], qname, qtype, true) == Secure
    ensures DenialVerdict(w, [nsec], sigs, qname, qtype, true) == Secure
  {
    OneRecord(nsec);
    hide AuthoritySigned, NsecVerdict, NsecsOf, RrsetOf, RecordsOf, LowerText;
  }

  lemma SignatureMatches(sig: DnsRecord, r: DnsRecord)
    requires sig.RRSIG? && sig.domain == r.domain && sig.typeCovered == 47
    ensures Matches(sig, LowerText(r.domain), QueryType.NSEC)
  {
    LowerTextIdempotent(r.domain);
  }

  lemma NsecWire(r: DnsRecord)
    requires r == Nsec(Below(97, ZONE), ZONE, [])
    ensures CanonicalWire(r, 0).Some?
  {
    ShortNames();
    hide CanonicalName, Below, ZONE, BE16, BE32;
  }

  lemma UnanchoredKeys(anchors: seq<DnsRecord>, key: DnsRecord, sig: DnsRecord)
    requires !HasAnchor(anchors, [key]) && sig.RRSIG? && !IsRoot(sig.signerName)
    ensures !HeadsChain(Unanchored(key), anchors, sig)
  {
    hide HeadsChain, HasAnchor, ValidateChain, IsRoot;
    HeadsChainIff(Unanchored(key), anchors, sig);
    NothingToClimb(Unanchored(key), anchors, sig.signerName, [key]);
  }

  /** Secure, although the signer's key set leads to no anchor, there being no DS to climb by. */
  lemma SecureDenialWithoutChain(anchors: seq<DnsRecord>, key: DnsRecord, signature: seq<byte>)
    requires key.DNSKEY? && key == Key(ZONE, key.publicKey) && |key.publicKey| == 32 && |signature| == 64
    requires !HasAnchor(anchors, [key])
    ensures var w, nsec := Unanchored(key), Nsec(Below(97, ZONE), ZONE, []);
            var sig := Signature(nsec.domain, 47, KeyTag(0, 3, 15, key.publicKey), signature);
            && DenialVerdict(w, [nsec], [sig], Below(122, ZONE), 1, true) == Secure
            && !HeadsChain(w, anchors, sig)
  {
    hide *;
    var w, nsec := Unanchored(key), Nsec(Below(97, ZONE), ZONE, []);
    var sig := Signature(nsec.domain, 47, KeyTag(0, 3, 15, key.publicKey), signature);
    InstanceShape(key, signature);
    NsecWire(nsec);
    SignedOne(w, sig, key, nsec);
    SignatureMatches(sig, nsec);
    OneSigned(w, nsec, sig, key);
    var without, having := SecureLeavesWildcardOpen();
    VerdictOfOne(w, nsec, [sig], Below(122, ZONE), 1);
    UnanchoredKeys(anchors, key, sig);
  }

  lemma InstanceShape(key: DnsRecord, signature: seq<byte>)
    requires key.DNSKEY? && key == Key(ZONE, key.publicKey)
    ensures var w, nsec := Unanchored(key), Nsec(Below(97, ZONE), ZONE, []);
            var sig := Signature(nsec.domain, 47, KeyTag(0, 3, 15, key.publicKey), signature);
            && nsec.NSEC? && nsec.domain == Below(97, ZONE) && key.domain == ZONE
            && sig.RRSIG? && sig.domain == nsec.domain && sig.typeCovered == 47 && sig.signature == signature
            && sig.signerName == ZONE && !IsRoot(ZONE) && w.cachedDnskeys(ZONE) == Some([key])
            && w.now == 0 && forall k, d, s :: w.verifyEd25519(k, d, s)
  {
    hide KeyTag;
  }
}
