/** Signatures and delegations that count although their owners do not fit: what the chain of trust does not compare. */
module LooseTrust {
  import opened Bytes
  import opened Question
  import opened Record
  import opened Canonical
  import opened Dnssec
  import opened Grouping
  import opened WildcardDenial
  import opened DenialNames
  import opened DenialTrust
  import opened RrsetValidation

  /** A world at time 0 that accepts every Ed25519 signature and digests everything to nothing. */
  function Trusting(dnskeys: Text -> seq<DnsRecord>, ds: Text -> seq<DnsRecord>): World {
    World(0, (_, _, _) => false, (_, _, _) => false, (_, _, _) => true, _ => [], _ => [], _ => [], dnskeys, ds, _ => Option.None)
  }

  ghost predicate Accepts(w: World) { w.now == 0 && forall k, d, s :: w.verifyEd25519(k, d, s) }

  /** The bytes of a key pair's work: a public key and one signature. */
  datatype Pair = Pair(publicKey: seq<byte>, signature: seq<byte>)

  predicate Sized(pair: Pair) { |pair.publicKey| == 32 && |pair.signature| == 64 }

  function KeyOf(owner: Text, pair: Pair): DnsRecord { Key(owner, pair.publicKey) }

  /** A signature by the zone `e`. */
  function SigOf(owner: Text, covered: u16, pair: Pair): DnsRecord {
    Signature(owner, covered, KeyTag(0, 3, 15, pair.publicKey), pair.signature)
  }

  /** What the records of a pair look like. */
  lemma Shapes(owner: Text, covered: u16, pair: Pair)
    ensures KeyOf(owner, pair).DNSKEY? && KeyOf(owner, pair).QType() == QueryType.DNSKEY && KeyOf(owner, pair).domain == owner
    ensures var sig := SigOf(owner, covered, pair);
            sig.RRSIG? && sig.domain == owner && sig.signerName == ZONE
            && forall t :: Dnssec.Covers(sig, t) <==> QueryType.FromNum(covered) == t
  {
    hide KeyTag;
  }

  lemma SignedByPair(w: World, owner: Text, covered: u16, pair: Pair, keyOwner: Text, r: DnsRecord)
    requires Accepts(w) && Sized(pair) && CanonicalWire(r, 0).Some?
    ensures VerifiedBy(w, SigOf(owner, covered, pair), KeyOf(keyOwner, pair), [r])
  {
    hide KeyTag, CanonicalWire, VerifiedBy;
    SignedOne(w, SigOf(owner, covered, pair), KeyOf(keyOwner, pair), r);
  }

  /** A set of one record and one signature over its type, by a key. */
  lemma OneSignedRecord(w: World, r: DnsRecord, sig: DnsRecord, key: DnsRecord, keys: seq<DnsRecord>)
    requires !r.RRSIG? && Dnssec.Covers(sig, r.QType()) && VerifiedBy(w, sig, key, [r]) && key in keys
    ensures RrsetSigned(w, [r, sig], r.QType(), keys)
  {
    assert sig.QType() == QueryType.RRSIG && r.QType() != QueryType.RRSIG;
    hide VerifiedBy, Dnssec.Covers, DnsRecord.QType;
    assert [r, sig][1..] == [sig] && [sig][1..] == [] && [r] + [] == [r];
    var p := (x: DnsRecord) => x.QType() == r.QType();
    assert Filter(p, [sig]) == [] + Filter(p, []) == [];
    assert Filter(p, [r, sig]) == [r];
    assert RrsetOf([r, sig], r.QType()) == [r];
    assert sig in [r, sig];
  }

  lemma KeyWire(owner: Text, pair: Pair)
    requires CanonicalName(owner).Some?
    ensures CanonicalWire(KeyOf(owner, pair), 0).Some?
  {
    hide CanonicalName, BE16, BE32;
  }

  /** A key set of one key, signed by itself. */
  function Keys(owner: Text, pair: Pair): seq<DnsRecord> { [KeyOf(owner, pair), SigOf(owner, 48, pair)] }

  lemma SelfSigned(w: World, owner: Text, pair: Pair, keys: seq<DnsRecord>)
    requires Accepts(w) && Sized(pair) && CanonicalName(owner).Some? && KeyOf(owner, pair) in keys
    ensures RrsetSigned(w, Keys(owner, pair), QueryType.DNSKEY, keys)
  {
    hide CanonicalName, CanonicalWire, VerifiedBy, RrsetSigned, KeyOf, SigOf, Dnssec.Covers, Accepts;
    Shapes(owner, 48, pair);
    KeyWire(owner, pair);
    SignedByPair(w, owner, 48, pair, owner, KeyOf(owner, pair));
    OneSignedRecord(w, KeyOf(owner, pair), SigOf(owner, 48, pair), KeyOf(owner, pair), keys);
  }

  /** The key set of the zone `e` is trusted where its key is the anchor. */
  lemma AnchorIsSecure(w: World, pair: Pair, depth: nat)
    requires Accepts(w) && Sized(pair) && depth <= MAX_CHAIN_DEPTH
    ensures HasAnchor([KeyOf(ZONE, pair)], Keys(ZONE, pair))
    ensures ValidateChain(w, [KeyOf(ZONE, pair)], ZONE, Keys(ZONE, pair), depth) == Secure
  {
    var key := KeyOf(ZONE, pair);
    assert key in Keys(ZONE, pair) && key in [key] && SameDnskey(key, key);
    ShortNames();
    SelfSigned(w, ZONE, pair, [key]);
    hide RrsetSigned;
  }

  // ---- The signer and the owner ----

  lemma AnchoredByWalk(w: World, anchors: seq<DnsRecord>, zone: Text, records: seq<DnsRecord>)
    requires HasAnchor(anchors, records) && ValidateChain(w, anchors, zone, records, 0) == Secure
    ensures Anchored(w, anchors, Link(zone, records))
  {
    hide HasAnchor, RrsetSigned, EndorsedKeys, Anchored;
    AnchoredIff(w, anchors, Link(zone, records));
  }

  /** Every zone has the anchored key set of `e`. */
  function OneZone(pair: Pair): World { Trusting(_ => Keys(ZONE, pair), _ => []) }

  lemma AddressOf(owner: Text, addr: Ipv4, pair: Pair)
    requires CanonicalName(owner).Some?
    ensures CanonicalWire(DnsRecord.A(owner, addr, 0), 0).Some?
    ensures Matches(SigOf(owner, 1, pair), LowerText(owner), QueryType.A)
  {
    LowerTextIdempotent(owner);
    hide CanonicalName, KeyTag, LowerText, BE16, BE32;
  }

  /** The zone `e`, itself anchored, signs the address record of any name whatever. */
  lemma AnyZoneCanSign(owner: Text, addr: Ipv4, pair: Pair)
    requires CanonicalName(owner).Some? && Sized(pair)
    ensures var w, anchors, sig := OneZone(pair), [KeyOf(ZONE, pair)], SigOf(owner, 1, pair);
            && sig.RRSIG? && sig.signerName == ZONE && Matches(sig, LowerText(owner), QueryType.A)
            && Anchored(w, anchors, Link(ZONE, w.fetchDnskeys(ZONE)))
            && SigOutcome(w, anchors, sig, [DnsRecord.A(owner, addr, 0)]) == Verified
  {
    hide CanonicalName, VerifiedBy, RrsetSigned, LowerText, Anchored, KeyOf, SigOf, Matches, CanonicalWire, ValidateChain;
    var w, anchors, sig, r := OneZone(pair), [KeyOf(ZONE, pair)], SigOf(owner, 1, pair), DnsRecord.A(owner, addr, 0);
    Shapes(owner, 1, pair);
    AddressOf(owner, addr, pair);
    SignedByPair(w, owner, 1, pair, ZONE, r);
    AnchorIsSecure(w, pair, 0);
    assert KeyOf(ZONE, pair) in Keys(ZONE, pair);
    assert KeyFound(w, sig, [r]);
    hide HasAnchor;
    AnchoredByWalk(w, anchors, ZONE, Keys(ZONE, pair));
  }

  // ---- The delegation and its owner ----

  const CHILD: Text := Below(97, ZONE)

  function ForeignDs(owner: Text, pair: Pair): DnsRecord {
    DnsRecord.DS(owner, KeyTag(0, 3, 15, pair.publicKey), 15, 2, [], 0)
  }

  /** The zone `e` has its own keys; those of `a.e` and its DS set are owned by another name. */
  function TwoZones(owner: Text, parent: Pair, child: Pair): World {
    Trusting(zone => if zone == ZONE then Keys(ZONE, parent) else Keys(owner, child),
             _ => [ForeignDs(owner, child), SigOf(owner, 43, parent)])
  }

  lemma ChildIsBelow()
    ensures ParentZone(CHILD) == ZONE && CHILD != ZONE && !IsRoot(CHILD)
  {
    assert CHILD[1..] == [DOT] + ZONE && CHILD[1..][1..] == ZONE;
    assert AfterFirstDot(CHILD[1..]) == ZONE;
  }

  lemma DsShape(owner: Text, pair: Pair)
    requires CanonicalName(owner).Some?
    ensures var ds := ForeignDs(owner, pair);
            ds.DS? && ds.domain == owner && ds.QType() == QueryType.DS && CanonicalWire(ds, 0).Some?
  {
    hide CanonicalName, BE16, BE32, KeyTag;
  }

  lemma ForeignDsSigned(w: World, owner: Text, parent: Pair, child: Pair)
    requires Accepts(w) && Sized(parent) && CanonicalName(owner).Some?
    ensures RrsetSigned(w, [ForeignDs(owner, child), SigOf(owner, 43, parent)], QueryType.DS, Keys(ZONE, parent))
  {
    hide CanonicalName, CanonicalWire, VerifiedBy, RrsetSigned, KeyOf, SigOf, ForeignDs, Dnssec.Covers, Accepts;
    Shapes(owner, 43, parent);
    DsShape(owner, child);
    SignedByPair(w, owner, 43, parent, ZONE, ForeignDs(owner, child));
    assert KeyOf(ZONE, parent) in Keys(ZONE, parent);
    OneSignedRecord(w, ForeignDs(owner, child), SigOf(owner, 43, parent), KeyOf(ZONE, parent), Keys(ZONE, parent));
  }

  lemma ForeignDsEndorses(owner: Text, parent: Pair, child: Pair)
    ensures KeyOf(owner, child) in EndorsedKeys(TwoZones(owner, parent, child), CHILD, Keys(owner, child))
  {
    ShortNames();
    hide CanonicalName, KeyTag, DnskeyRdata;
    var w := TwoZones(owner, parent, child);
    assert ForeignDs(owner, child) in w.fetchDs(CHILD);
    assert VerifyDs(w, ForeignDs(owner, child), KeyOf(owner, child), CHILD);
    hide VerifyDs;
    EndorsedMember(w, CHILD, Keys(owner, child), KeyOf(owner, child));
  }

  lemma ChildHasNoAnchor(owner: Text, parent: Pair, child: Pair)
    requires parent.publicKey != child.publicKey
    ensures !HasAnchor([KeyOf(ZONE, parent)], Keys(owner, child))
  {
    hide KeyTag;
  }

  /** A level of the walk that passes every test. */
  lemma OneStep(w: World, anchors: seq<DnsRecord>, zone: Text, records: seq<DnsRecord>)
    requires !HasAnchor(anchors, records) && !IsRoot(zone) && exists r <- w.fetchDs(zone) :: r.DS?
    requires EndorsedKeys(w, zone, records) != []
    requires RrsetSigned(w, records, QueryType.DNSKEY, EndorsedKeys(w, zone, records))
    requires var parent := w.fetchDnskeys(ParentZone(zone));
             && parent != [] && ValidateChain(w, anchors, ParentZone(zone), parent, 1) == Secure
             && RrsetSigned(w, w.fetchDs(zone), QueryType.DS, parent)
    ensures ValidateChain(w, anchors, zone, records, 0) == Secure
  {
    hide HasAnchor, IsRoot, EndorsedKeys, RrsetSigned, ParentZone;
  }

  /** The chain of `a.e` is Secure although its DS and DNSKEY sets are owned by any other name whatever. */
  lemma ForeignDsIsSecure(owner: Text, parent: Pair, child: Pair)
    requires CanonicalName(owner).Some? && Sized(parent) && Sized(child) && parent.publicKey != child.publicKey
    ensures var w := TwoZones(owner, parent, child);
            && (forall r <- w.fetchDs(CHILD) + w.fetchDnskeys(CHILD) :: r.domain == owner)
            && ValidateChain(w, [KeyOf(ZONE, parent)], CHILD, w.fetchDnskeys(CHILD), 0) == Secure
  {
    hide CanonicalName, VerifiedBy, RrsetSigned, HasAnchor, EndorsedKeys, ParentZone, IsRoot, KeyOf, SigOf, ForeignDs;
    var w, anchors := TwoZones(owner, parent, child), [KeyOf(ZONE, parent)];
    Shapes(owner, 43, parent);
    Shapes(owner, 48, child);
    DsShape(owner, child);
    ChildIsBelow();
    ChildHasNoAnchor(owner, parent, child);
    ForeignDsEndorses(owner, parent, child);
    SelfSigned(w, owner, child, EndorsedKeys(w, CHILD, Keys(owner, child)));
    ForeignDsSigned(w, owner, parent, child);
    AnchorIsSecure(w, parent, 1);
    assert ForeignDs(owner, child) in w.fetchDs(CHILD);
    OneStep(w, anchors, CHILD, w.fetchDnskeys(CHILD));
  }
}
