/** Validation of whole responses: `validate_response` (section 5.3 of RFC 4035). */
module RrsetValidation {
  import opened Bytes
  import opened Question
  import opened Header
  import opened Record
  import opened Packet
  import opened ByteOrder
  import opened Canonical
  import opened Dnssec
  import opened Grouping
  import Denial
  import opened DenialValidation

  datatype Outcome = Verified | ChainBogus | NoMatch

  /** `try_verify_with_key`; Skip and NoMatchingKey are both NoMatch. */
  function TryKey(w: World, anchors: seq<DnsRecord>, key: DnsRecord, sig: DnsRecord, rrset: seq<DnsRecord>): Outcome
    requires sig.RRSIG?
  {
    if !VerifiedBy(w, sig, key, rrset) then NoMatch
    else
      match ValidateChain(w, anchors, sig.signerName, w.fetchDnskeys(sig.signerName), 0)
      case Secure => Verified
      case Bogus => ChainBogus
      case _ => NoMatch
  }

  method TryVerifyRrsig(w: World, anchors: seq<DnsRecord>, sig: DnsRecord, rrset: seq<DnsRecord>) returns (r: Outcome)
    ensures r == SigOutcome(w, anchors, sig, rrset)
  {
    hide ValidateChain, VerifiedBy;
    if !sig.RRSIG? { return NoMatch; }
    var dnskeys := Filter((r: DnsRecord) => r.DNSKEY?, w.fetchDnskeys(sig.signerName));
    for i := 0 to |dnskeys|
      invariant forall j :: 0 <= j < i ==> TryKey(w, anchors, dnskeys[j], sig, rrset) == NoMatch
    {
      var outcome := TryKey(w, anchors, dnskeys[i], sig, rrset);
      if outcome != NoMatch {
        assert dnskeys[i] in dnskeys;
        return outcome;
      }
    }
    KeysOnly(w, sig, rrset, dnskeys);
    r := NoMatch;
  }

  lemma KeysOnly(w: World, sig: DnsRecord, rrset: seq<DnsRecord>, dnskeys: seq<DnsRecord>)
    requires sig.RRSIG? && forall k :: k in dnskeys <==> k in w.fetchDnskeys(sig.signerName) && k.DNSKEY?
    ensures KeyFound(w, sig, rrset) ==> exists i :: 0 <= i < |dnskeys| && VerifiedBy(w, sig, dnskeys[i], rrset)
  {
    if KeyFound(w, sig, rrset) {
      var key :| key in w.fetchDnskeys(sig.signerName) && VerifiedBy(w, sig, key, rrset);
      hide VerifiedBy;
      assert key.DNSKEY? by { NeedsKey(w, sig, key, rrset); }
      assert key in dnskeys;
      var i :| 0 <= i < |dnskeys| && dnskeys[i] == key;
    }
  }

  lemma NeedsKey(w: World, sig: DnsRecord, key: DnsRecord, rrset: seq<DnsRecord>)
    ensures VerifiedBy(w, sig, key, rrset) ==> sig.RRSIG? && key.DNSKEY?
  {
  }

  /** One of the signer's fetched keys made the signature. */
  predicate KeyFound(w: World, sig: DnsRecord, rrset: seq<DnsRecord>)
    requires sig.RRSIG?
  {
    exists key <- w.fetchDnskeys(sig.signerName) :: VerifiedBy(w, sig, key, rrset)
  }

  /** What one signature is worth: all its keys share one chain, so their order does not matter. */
  function SigOutcome(w: World, anchors: seq<DnsRecord>, sig: DnsRecord, rrset: seq<DnsRecord>): Outcome {
    if !(sig.RRSIG? && KeyFound(w, sig, rrset)) then NoMatch
    else
      match ValidateChain(w, anchors, sig.signerName, w.fetchDnskeys(sig.signerName), 0)
      case Secure => Verified
      case Bogus => ChainBogus
      case _ => NoMatch
  }

  /** `verify_rrset`: a verified signature with no signature of a bogus chain before it. */
  ghost predicate RrsetVerified(w: World, anchors: seq<DnsRecord>, rrset: seq<DnsRecord>, sigs: seq<DnsRecord>) {
    exists i :: 0 <= i < |sigs| && SigOutcome(w, anchors, sigs[i], rrset) == Verified
      && forall j :: 0 <= j < i ==> SigOutcome(w, anchors, sigs[j], rrset) != ChainBogus
  }

  method VerifyRrset(w: World, anchors: seq<DnsRecord>, rrset: seq<DnsRecord>,
                     sigs: seq<DnsRecord>) returns (verified: bool)
    ensures verified <==> RrsetVerified(w, anchors, rrset, sigs)
  {
    hide SigOutcome;
    for i := 0 to |sigs|
      invariant forall j :: 0 <= j < i ==> SigOutcome(w, anchors, sigs[j], rrset) == NoMatch
    {
      var outcome := TryVerifyRrsig(w, anchors, sigs[i], rrset);
      match outcome
      case Verified => return true;
      case ChainBogus => return false;
      case NoMatch =>
    }
    verified := false;
  }

  function MatchingRrsigs(sigs: seq<DnsRecord>, name: Text, qtype: QueryType): (r: seq<DnsRecord>)
    ensures forall s :: s in r <==> s in sigs && Matches(s, name, qtype)
  {
    Filter((s: DnsRecord) => Matches(s, name, qtype), sigs)
  }

  function AllRrsigs(p: DnsPacket): (r: seq<DnsRecord>)
    ensures forall s :: s in r <==> (s in p.answers || s in p.authorities || s in p.resources) && s.RRSIG?
  {
    Filter((r: DnsRecord) => r.RRSIG?, p.answers + p.authorities + p.resources)
  }

  /** The RRset of one answer is unsigned, or verified by one of its signatures. */
  ghost predicate RrsetGood(w: World, anchors: seq<DnsRecord>, p: DnsPacket, name: Text, qtype: QueryType) {
    var sigs := MatchingRrsigs(AllRrsigs(p), name, qtype);
    sigs != [] ==> RrsetVerified(w, anchors, RecordsOf(p.answers, name, qtype), sigs)
  }

  ghost predicate AnswersGood(w: World, anchors: seq<DnsRecord>, p: DnsPacket) {
    forall r <- p.answers :: !r.RRSIG? ==> RrsetGood(w, anchors, p, LowerText(r.domain), r.QType())
  }

  predicate NoAnswers(p: DnsPacket) { forall r <- p.answers :: r.RRSIG? }

  /** The denial verdict on the first question; without one, on the root name and type 0. */
  function DenialOf(w: World, p: DnsPacket): DnssecStatus {
    var (qname, qtype) := if p.questions == [] then ([], 0) else (p.questions[0].name, p.questions[0].qtype.ToNum());
    DenialVerdict(w, p.authorities, AllRrsigs(p), qname, qtype, p.header.rescode == NXDOMAIN)
  }

  /** The status of a whole response. */
  ghost function ResponseStatus(w: World, anchors: seq<DnsRecord>, p: DnsPacket): DnssecStatus {
    if AllRrsigs(p) == [] then Insecure
    else if NoAnswers(p) then DenialOf(w, p)
    else if AnswersGood(w, anchors, p) then Secure
    else Bogus
  }

  /** Some RRSIG anywhere in the packet covers the RRset of the answer `r`. */
  ghost predicate HasMatch(p: DnsPacket, r: DnsRecord) {
    exists sig :: (sig in p.answers || sig in p.authorities || sig in p.resources)
                  && Matches(sig, LowerText(r.domain), r.QType())
  }

  /** And one of them was made by a key of its signer whose key set leads to an anchor. */
  ghost predicate HasAuthentic(w: World, anchors: seq<DnsRecord>, p: DnsPacket, r: DnsRecord) {
    exists sig :: (sig in p.answers || sig in p.authorities || sig in p.resources)
                  && Matches(sig, LowerText(r.domain), r.QType())
                  && Authentic(w, anchors, sig, RecordsOf(p.answers, LowerText(r.domain), r.QType()))
  }

  /** And one of them is good but for a bogus chain of its signer. */
  ghost predicate HasBogusChain(w: World, anchors: seq<DnsRecord>, p: DnsPacket, r: DnsRecord) {
    exists sig :: (sig in p.answers || sig in p.authorities || sig in p.resources)
                  && Matches(sig, LowerText(r.domain), r.QType())
                  && KeyFound(w, sig, RecordsOf(p.answers, LowerText(r.domain), r.QType()))
                  && ValidateChain(w, anchors, sig.signerName, w.fetchDnskeys(sig.signerName), 0) == Bogus
  }

  /**
   * What a status says of a response: nothing is signed and it is Insecure; or, if there is an answer, it is Secure only if
   * every RRset with a matching RRSIG has an authentic one, Bogus as soon as one has not, and Bogus otherwise only because of
   * a bogus chain.
   */
  ghost predicate StatusMeans(w: World, anchors: seq<DnsRecord>, p: DnsPacket, status: DnssecStatus) {
    && ((forall r :: r in p.answers || r in p.authorities || r in p.resources ==> !r.RRSIG?) ==> status == Insecure)
    && ((exists r <- p.answers :: !r.RRSIG?) && status == Secure ==>
          forall r <- p.answers :: !r.RRSIG? && HasMatch(p, r) ==> HasAuthentic(w, anchors, p, r))
    && ((exists r <- p.answers :: !r.RRSIG? && HasMatch(p, r) && !HasAuthentic(w, anchors, p, r)) ==> status == Bogus)
    && ((exists r <- p.answers :: !r.RRSIG?) && status == Bogus ==>
          exists r :: r in p.answers && !r.RRSIG? && HasMatch(p, r)
                      && (!HasAuthentic(w, anchors, p, r) || HasBogusChain(w, anchors, p, r)))
    && ((exists r <- p.answers :: !r.RRSIG? && HasMatch(p, r)) ==> status == Secure || status == Bogus)
  }

  /** A response without answers is as its authority records say of the first question, if there is an RRSIG at all. */
  lemma NoAnswersAreDenied(w: World, anchors: seq<DnsRecord>, p: DnsPacket) returns (sigs: seq<DnsRecord>)
    requires forall r :: r in p.answers ==> r.RRSIG?
    requires exists s :: (s in p.answers || s in p.authorities || s in p.resources) && s.RRSIG?
    ensures forall s :: s in sigs <==> (s in p.answers || s in p.authorities || s in p.resources) && s.RRSIG?
    ensures p.questions != [] ==>
              ResponseStatus(w, anchors, p) == DenialVerdict(w, p.authorities, sigs, p.questions[0].name,
                                                             p.questions[0].qtype.ToNum(), p.header.rescode == NXDOMAIN)
    ensures p.questions == [] ==>
              ResponseStatus(w, anchors, p) == DenialVerdict(w, p.authorities, sigs, [], 0, p.header.rescode == NXDOMAIN)
  {
    hide AnswersGood, DenialVerdict, Filter;
    sigs := AllRrsigs(p);
    hide AllRrsigs;
  }

  /**
   * A Secure response without answers is true of the zone its NSEC records come from: of an NXDOMAIN the zone does not own the
   * name, of NODATA it owns the name and has nothing of the type there.
   */
  lemma SecureResponseDenies(w: World, anchors: seq<DnsRecord>, p: DnsPacket, ring: Denial.NsecRing)
    requires (forall r :: r in p.answers ==> r.RRSIG?) && p.questions != [] && ResponseStatus(w, anchors, p) == Secure
    requires NsecsOf(p.authorities) != [] && Denial.ValidRing(ring) && Denial.FromRing(ring, NsecsOf(p.authorities))
    ensures var (name, num) := (p.questions[0].name, p.questions[0].qtype.ToNum());
            if p.header.rescode == NXDOMAIN then !Denial.Owns(ring, name) else exists i: nat :: Denial.LacksAt(ring, i, name, num)
  {
    hide DenialVerdict, Denial.ValidRing, Denial.FromRing, NsecsOf, Denial.Owns, Denial.LacksAt, Filter;
    assert AllRrsigs(p) != [];
    assert AllRrsigs(p)[0] in AllRrsigs(p);
    hide AllRrsigs, ResponseStatus;
    var sigs := NoAnswersAreDenied(w, anchors, p);
    SecureNsecDenial(w, p.authorities, sigs, p.questions[0].name, p.questions[0].qtype.ToNum(),
                     p.header.rescode == NXDOMAIN, ring);
  }

  /** `validate_response`. */
  method ValidateResponse(w: World, anchors: seq<DnsRecord>, p: DnsPacket) returns (status: DnssecStatus)
    ensures status == ResponseStatus(w, anchors, p)
    ensures StatusMeans(w, anchors, p, status)
  {
    hide MatchingRrsigs, AllRrsigs, RrsetVerified, RecordsOf, LowerText, DnsRecord.QType, StatusMeans;
    ResponseMeans(w, anchors, p);
    var allRrsigs := AllRrsigs(p);
    if allRrsigs == [] { return Insecure; }
    var rrsets := GroupRrsets(p.answers);
    GroupsAreAnswers(p.answers, rrsets);
    var i := 0;
    while i < |rrsets|
      invariant i <= |rrsets|
      invariant forall j :: 0 <= j < i ==> RrsetGood(w, anchors, p, rrsets[j].name, rrsets[j].qtype)
    {
      var g := rrsets[i];
      var matching := MatchingRrsigs(allRrsigs, g.name, g.qtype);
      if matching != [] {
        var verified := VerifyRrset(w, anchors, g.rrset, matching);
        if !verified {
          BadGroup(w, anchors, p, rrsets, g);
          return Bogus;
        }
      }
      i := i + 1;
    }
    GoodGroups(w, anchors, p, rrsets);
    if rrsets == [] {
      var (qname, qtype) := if p.questions == [] then ([], 0) else (p.questions[0].name, p.questions[0].qtype.ToNum());
      status := ValidateDenial(w, p.authorities, allRrsigs, qname, qtype, p.header.rescode == NXDOMAIN);
      return;
    }
    status := Secure;
  }

  /** Each group is the RRset of some answer, and there is a group unless there is no answer. */
  lemma GroupsAreAnswers(answers: seq<DnsRecord>, groups: seq<Group>)
    requires Partitions(answers, groups)
    ensures forall g <- groups :: g.rrset == RecordsOf(answers, g.name, g.qtype)
    ensures forall g <- groups :: exists r :: r in answers && !r.RRSIG? && InGroup(r, g)
    ensures groups == [] <==> forall r <- answers :: r.RRSIG?
  {
    hide RecordsOf, LowerText, DnsRecord.QType;
    forall g | g in groups
      ensures exists r :: r in answers && !r.RRSIG? && InGroup(r, g)
    {
      RecordsOfMember(answers, g.name, g.qtype);
      assert g.rrset[0] in g.rrset;
    }
    if groups != [] { assert groups[0] in groups; }
  }

  lemma BadGroup(w: World, anchors: seq<DnsRecord>, p: DnsPacket, groups: seq<Group>, g: Group)
    requires Partitions(p.answers, groups) && g in groups && !RrsetGood(w, anchors, p, g.name, g.qtype)
    ensures !NoAnswers(p) && !AnswersGood(w, anchors, p)
  {
    hide RrsetGood, RecordsOf, LowerText, DnsRecord.QType;
    GroupsAreAnswers(p.answers, groups);
    var r :| r in p.answers && !r.RRSIG? && InGroup(r, g);
    assert !RrsetGood(w, anchors, p, LowerText(r.domain), r.QType());
  }

  lemma GoodGroups(w: World, anchors: seq<DnsRecord>, p: DnsPacket, groups: seq<Group>)
    requires Partitions(p.answers, groups)
    requires forall j :: 0 <= j < |groups| ==> RrsetGood(w, anchors, p, groups[j].name, groups[j].qtype)
    ensures AnswersGood(w, anchors, p)
  {
    hide RrsetGood, RecordsOf, LowerText, DnsRecord.QType;
    forall r | r in p.answers && !r.RRSIG?
      ensures RrsetGood(w, anchors, p, LowerText(r.domain), r.QType())
    {
      var g :| g in groups && InGroup(r, g);
      var j :| 0 <= j < |groups| && groups[j] == g;
    }
  }

  // ---- What Secure means for an answer ----

  /** A key of the signer's fetched set signed the RRset, and a chain of trust leads from that set to an anchor. */
  ghost predicate Authentic(w: World, anchors: seq<DnsRecord>, sig: DnsRecord, rrset: seq<DnsRecord>) {
    sig.RRSIG? && KeyFound(w, sig, rrset)
    && exists chain :: StartsAt(chain, Link(sig.signerName, w.fetchDnskeys(sig.signerName)), 0) && ChainOfTrust(w, anchors, chain)
  }

  lemma VerifiedIffAuthentic(w: World, anchors: seq<DnsRecord>, sig: DnsRecord, rrset: seq<DnsRecord>)
    ensures SigOutcome(w, anchors, sig, rrset) == Verified <==> Authentic(w, anchors, sig, rrset)
  {
    hide ValidateChain, KeyFound, StartsAt, ChainOfTrust;
    if sig.RRSIG? {
      SecureIffChain(w, anchors, sig.signerName, w.fetchDnskeys(sig.signerName), 0);
    }
  }

  /** In a Secure answer an RRset has an authentic signature exactly when it has a matching one at all. */
  lemma SecureAnswersAreAuthentic(w: World, anchors: seq<DnsRecord>, p: DnsPacket, r: DnsRecord)
    requires ResponseStatus(w, anchors, p) == Secure && r in p.answers && !r.RRSIG?
    ensures var sigs := MatchingRrsigs(AllRrsigs(p), LowerText(r.domain), r.QType());
            sigs != [] <==> exists sig :: sig in sigs && Authentic(w, anchors, sig, RecordsOf(p.answers, LowerText(r.domain), r.QType()))
  {
    hide MatchingRrsigs, AllRrsigs, SigOutcome, Authentic, RecordsOf, LowerText, DnsRecord.QType;
    var sigs, rrset := MatchingRrsigs(AllRrsigs(p), LowerText(r.domain), r.QType()), RecordsOf(p.answers, LowerText(r.domain), r.QType());
    assert RrsetGood(w, anchors, p, LowerText(r.domain), r.QType());
    if sigs != [] {
      var i :| 0 <= i < |sigs| && SigOutcome(w, anchors, sigs[i], rrset) == Verified;
      VerifiedIffAuthentic(w, anchors, sigs[i], rrset);
      assert sigs[i] in sigs;
    }
  }

  /** One answer's RRset, in terms of the signatures in the packet. */
  lemma GoodMeans(w: World, anchors: seq<DnsRecord>, p: DnsPacket, r: DnsRecord)
    ensures HasMatch(p, r) ==> AllRrsigs(p) != []
    ensures RrsetGood(w, anchors, p, LowerText(r.domain), r.QType()) && HasMatch(p, r) ==> HasAuthentic(w, anchors, p, r)
    ensures !RrsetGood(w, anchors, p, LowerText(r.domain), r.QType()) ==>
              HasMatch(p, r) && (!HasAuthentic(w, anchors, p, r) || HasBogusChain(w, anchors, p, r))
  {
    hide AllRrsigs, MatchingRrsigs, Matches, Authentic, RecordsOf, LowerText, DnsRecord.QType, KeyFound, ValidateChain,
         SigOutcome;
    var name, t := LowerText(r.domain), r.QType();
    var sigs, rrset := MatchingRrsigs(AllRrsigs(p), name, t), RecordsOf(p.answers, name, t);
    assert sigs != [] ==> sigs[0] in sigs;
    forall s ensures SigOutcome(w, anchors, s, rrset) == Verified <==> Authentic(w, anchors, s, rrset) {
      VerifiedIffAuthentic(w, anchors, s, rrset);
    }
    forall s | Matches(s, name, t) ensures s.RRSIG? { MatchesRrsig(s, name, t); }
    if !RrsetGood(w, anchors, p, name, t) && !HasBogusChain(w, anchors, p, r) {
      forall s | s in sigs ensures SigOutcome(w, anchors, s, rrset) != ChainBogus { BogusOutcome(w, anchors, s, rrset); }
      GoodIffAuthentic(w, anchors, p, name, t);
    }
  }

  lemma BogusOutcome(w: World, anchors: seq<DnsRecord>, sig: DnsRecord, rrset: seq<DnsRecord>)
    ensures SigOutcome(w, anchors, sig, rrset) == ChainBogus ==>
              sig.RRSIG? && KeyFound(w, sig, rrset)
              && ValidateChain(w, anchors, sig.signerName, w.fetchDnskeys(sig.signerName), 0) == Bogus
  {
    hide ValidateChain, KeyFound;
  }

  lemma MatchesRrsig(sig: DnsRecord, name: Text, t: QueryType)
    ensures Matches(sig, name, t) ==> sig.RRSIG?
  {
  }

  lemma ResponseMeans(w: World, anchors: seq<DnsRecord>, p: DnsPacket)
    ensures StatusMeans(w, anchors, p, ResponseStatus(w, anchors, p))
  {
    hide AllRrsigs, HasMatch, HasAuthentic, HasBogusChain, RrsetGood, LowerText, DnsRecord.QType, DenialOf;
    forall r | r in p.answers && !r.RRSIG?
      ensures HasMatch(p, r) ==> AllRrsigs(p) != []
      ensures RrsetGood(w, anchors, p, LowerText(r.domain), r.QType()) && HasMatch(p, r) ==> HasAuthentic(w, anchors, p, r)
      ensures !RrsetGood(w, anchors, p, LowerText(r.domain), r.QType()) ==>
                HasMatch(p, r) && (!HasAuthentic(w, anchors, p, r) || HasBogusChain(w, anchors, p, r))
    {
      GoodMeans(w, anchors, p, r);
    }
    assert AllRrsigs(p) != [] ==> AllRrsigs(p)[0] in AllRrsigs(p);
  }

  /** If no signature matches any answer, one stray signature makes the response Secure, in every world. */
  lemma UnmatchedAnswersAreSecure(w: World, anchors: seq<DnsRecord>, p: DnsPacket)
    requires AllRrsigs(p) != [] && !NoAnswers(p)
    requires forall r <- p.answers :: !r.RRSIG? ==> MatchingRrsigs(AllRrsigs(p), LowerText(r.domain), r.QType()) == []
    ensures ResponseStatus(w, anchors, p) == Secure
  {
    hide MatchingRrsigs, AllRrsigs, RrsetVerified, LowerText, DnsRecord.QType;
  }

  /** Any one record, with any RRSIG of another owner beside it: Secure, though nothing signs the record. */
  lemma StraySignatureIsEnough(w: World, anchors: seq<DnsRecord>, r: DnsRecord, stray: DnsRecord, p: DnsPacket)
    requires !r.RRSIG? && stray.RRSIG? && !EqIgnoreCase(stray.domain, r.domain)
    requires p.answers == [r] && p.authorities == [stray] && p.resources == []
    ensures ResponseStatus(w, anchors, p) == Secure
  {
    hide MatchingRrsigs, AllRrsigs, RrsetVerified, DnsRecord.QType, LowerText, Matches;
    assert r in p.answers && stray in p.authorities && stray in AllRrsigs(p);
    var sigs := MatchingRrsigs(AllRrsigs(p), LowerText(r.domain), r.QType());
    if sigs != [] {
      assert sigs[0] in sigs;
      StrayDoesNotMatch(stray, r);
    }
    UnmatchedAnswersAreSecure(w, anchors, p);
  }

  lemma StrayDoesNotMatch(stray: DnsRecord, r: DnsRecord)
    requires stray.RRSIG? && !EqIgnoreCase(stray.domain, r.domain)
    ensures !Matches(stray, LowerText(r.domain), r.QType())
  {
    LowerTextIdempotent(r.domain);
  }

  /** Without a bogus signer chain among them, an RRset is good exactly when unsigned or authentic. */
  lemma GoodIffAuthentic(w: World, anchors: seq<DnsRecord>, p: DnsPacket, name: Text, qtype: QueryType)
    requires forall s <- MatchingRrsigs(AllRrsigs(p), name, qtype) :: SigOutcome(w, anchors, s, RecordsOf(p.answers, name, qtype)) != ChainBogus
    ensures var sigs := MatchingRrsigs(AllRrsigs(p), name, qtype);
            RrsetGood(w, anchors, p, name, qtype) <==>
              sigs == [] || exists sig :: sig in sigs && Authentic(w, anchors, sig, RecordsOf(p.answers, name, qtype))
  {
    hide MatchingRrsigs, AllRrsigs, SigOutcome, Authentic, RecordsOf;
    var sigs, rrset := MatchingRrsigs(AllRrsigs(p), name, qtype), RecordsOf(p.answers, name, qtype);
    forall s ensures SigOutcome(w, anchors, s, rrset) == Verified <==> Authentic(w, anchors, s, rrset) {
      VerifiedIffAuthentic(w, anchors, s, rrset);
    }
    if sig :| sig in sigs && Authentic(w, anchors, sig, rrset) {
      var i :| 0 <= i < |sigs| && sigs[i] == sig;
      assert SigOutcome(w, anchors, sigs[i], rrset) == Verified;
      assert RrsetVerified(w, anchors, rrset, sigs);
    }
  }

  /** Over the same owner, an RRSIG matches a type exactly by number if the type is canonical, and never if it is not. */
  lemma MatchesIff(sig: DnsRecord, name: Text, t: QueryType)
    requires sig.RRSIG? && EqIgnoreCase(sig.domain, name)
    ensures Matches(sig, name, t) <==> Question.Canonical(t) && sig.typeCovered == t.ToNum()
  {
    TypeNumbers(sig.typeCovered, t);
  }

  /**
   * An RRSIG can only match an RRset whose type `query_type` reports as `from_num` does. An opaque record of
   * a named type (TXT, HTTPS, SRV) never has a matching RRSIG, so its RRset counts as unsigned.
   */
  lemma OpaqueNamedTypesAreNeverChecked(w: World, anchors: seq<DnsRecord>, p: DnsPacket, r: DnsRecord)
    requires r.UNKNOWN? && !QueryType.FromNum(r.qtype).UNKNOWN?
    ensures MatchingRrsigs(AllRrsigs(p), LowerText(r.domain), r.QType()) == []
    ensures RrsetGood(w, anchors, p, LowerText(r.domain), r.QType())
  {
    var sigs := MatchingRrsigs(AllRrsigs(p), LowerText(r.domain), r.QType());
    hide MatchingRrsigs, AllRrsigs, LowerText;
    if sigs != [] {
      assert sigs[0] in sigs;
      NeverMatches(sigs[0], r);
    }
  }

  lemma NeverMatches(sig: DnsRecord, r: DnsRecord)
    requires r.UNKNOWN? && !QueryType.FromNum(r.qtype).UNKNOWN?
    ensures !Matches(sig, LowerText(r.domain), r.QType())
  {
    if sig.RRSIG? { TypeNumbers(sig.typeCovered, QueryType.FromNum(sig.typeCovered)); }
  }

  /** `sig` filed under another owner. */
  function Moved(sig: DnsRecord, owner: Text): DnsRecord
    requires sig.RRSIG?
  {
    DnsRecord.RRSIG(owner, sig.typeCovered, sig.algorithm, sig.labels, sig.originalTtl, sig.expiration, sig.inception,
                    sig.keyTag, sig.signerName, sig.signature, sig.ttl)
  }

  /**
   * Beyond matching, the owner of a signature is never looked at. Section 5.3.1 of RFC 4035 asks that the signer be
   * the zone that holds the RRset, so at least that the signer's labels end the owner's; the code compares the two
   * nowhere (`LooseTrust.AnyZoneCanSign` has the instance).
   */
  lemma OwnerIsNotCompared(w: World, anchors: seq<DnsRecord>, sig: DnsRecord, owner: Text, rrset: seq<DnsRecord>)
    requires sig.RRSIG?
    ensures SigOutcome(w, anchors, Moved(sig, owner), rrset) == SigOutcome(w, anchors, sig, rrset)
  {
    hide ValidateChain, CanonicalWires, KeyTag, TimeValid, VerifySignature, Sort, Flatten, CanonicalName;
    var moved := Moved(sig, owner);
    assert SignedData(moved, rrset) == SignedData(sig, rrset);
    hide SignedData;
    assert forall key :: VerifiedBy(w, moved, key, rrset) <==> VerifiedBy(w, sig, key, rrset);
    hide VerifiedBy;
  }
}
