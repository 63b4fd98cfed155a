/** The CNAME chase of `resolve_with_cname_chase` (section 3.6.2 of RFC 1034), against any resolver. */
module CnameChase {
  import opened Bytes
  import Names
  import opened PacketBuffer
  import opened Question
  import opened Header
  import opened Record
  import opened Packet
  import opened Messages
  import LongNames

  const MAX_CNAME_DEPTH := 8

  /** `extract_cname_target`: the first CNAME owned by the name. */
  function CnameTarget(answers: seq<DnsRecord>, qname: Text): Option<Text> {
    if answers == [] then None
    else if answers[0].CNAME? && EqIgnoreCase(answers[0].domain, qname) then Some(answers[0].host)
    else CnameTarget(answers[1..], qname)
  }

  lemma {:induction false} CnameTargetOwned(answers: seq<DnsRecord>, qname: Text)
    ensures CnameTarget(answers, qname).Some? ==>
              exists r :: r in answers && r.CNAME? && EqIgnoreCase(r.domain, qname) && r.host == CnameTarget(answers, qname).value
    ensures CnameTarget(answers, qname).None? ==> forall r <- answers :: r.CNAME? ==> !EqIgnoreCase(r.domain, qname)
  {
    if answers != [] && !(answers[0].CNAME? && EqIgnoreCase(answers[0].domain, qname)) {
      CnameTargetOwned(answers[1..], qname);
    }
  }

  /** The chase is over: the type is among the answers as `query_type` reports it, or the code is not NOERROR. */
  predicate Settled(resp: DnsPacket, qtype: QueryType) {
    (exists r <- resp.answers :: r.QType() == qtype) || resp.header.rescode != NOERROR
  }

  /** One hop: the sub-response's answers go to the end, its code replaces the old one. */
  function Extended(resp: DnsPacket, sub: DnsPacket): DnsPacket {
    resp.(answers := resp.answers + sub.answers, header := resp.header.(rescode := sub.header.rescode))
  }

  /** The response after the hops in `names`, the first name being the question's own. */
  function Accumulated(resolve: Text -> DnsPacket, names: seq<Text>): DnsPacket
    requires names != []
  {
    if |names| == 1 then resolve(names[0])
    else Extended(Accumulated(resolve, names[..|names| - 1]), resolve(names[|names| - 1]))
  }

  /** The sub-query for the target can be written into a buffer. */
  predicate Serializes(id: u16, target: Text, qtype: QueryType) {
    var wire := PacketWire(Query(id, target, qtype));
    wire.Some? && |wire.value| <= BUF_SIZE
  }

  /** Each name but the first is the target of a CNAME owned by the one before it, in what had been gathered so far. */
  ghost predicate Follows(resolve: Text -> DnsPacket, id: u16, qtype: QueryType, names: seq<Text>) {
    forall i :: 1 <= i < |names| ==> IsHop(resolve, id, qtype, names, i)
  }

  ghost predicate IsHop(resolve: Text -> DnsPacket, id: u16, qtype: QueryType, names: seq<Text>, i: nat)
    requires 1 <= i < |names|
  {
    var sofar := Accumulated(resolve, names[..i]);
    !Settled(sofar, qtype) && CnameTarget(sofar.answers, names[i - 1]) == Some(names[i]) && Serializes(id, names[i], qtype)
  }

  ghost predicate DistinctNames(names: seq<Text>) {
    forall i, j :: 0 <= i < j < |names| ==> !EqIgnoreCase(names[i], names[j])
  }

  /** The name was asked already, in whatever letter case; `folded` is in lower case. */
  ghost predicate Asked(names: seq<Text>, folded: Text) {
    exists i :: 0 <= i < |names| && LowerText(names[i]) == folded
  }

  /** The lower-cased names asked so far. */
  ghost predicate Visited(visited: set<Text>, names: seq<Text>) {
    |visited| == |names| && forall t :: t in visited <==> Asked(names, t)
  }

  datatype Ending = Stopped | LoopOrTooDeep | Panicked

  /** How a chase along `names` may end. */
  ghost predicate Ends(resolve: Text -> DnsPacket, query: DnsPacket, qtype: QueryType, names: seq<Text>,
                       ending: Ending, r: DnsPacket)
    requires names != []
  {
    var sofar := Accumulated(resolve, names);
    var target := CnameTarget(sofar.answers, names[|names| - 1]);
    match ending
    case Stopped => r == sofar && (Settled(sofar, qtype) || target.None?)
    case LoopOrTooDeep =>
      && r == ResponseFrom(query, SERVFAIL) && !Settled(sofar, qtype) && target.Some?
      && (|names| == MAX_CNAME_DEPTH + 1 || Asked(names, LowerText(target.value)))
    case Panicked =>
      && !Settled(sofar, qtype) && target.Some? && |names| <= MAX_CNAME_DEPTH
      && !Asked(names, LowerText(target.value)) && !Serializes(query.header.id, target.value, qtype)
  }

  /**
   * The loop. `resolve` stands for the local-or-remote pipeline. The sub-query is written into a fresh buffer before
   * it is sent; a target that is malformed or does not fit panics.
   */
  method ResolveWithCnameChase(resolve: Text -> DnsPacket, query: DnsPacket, qname: Text, qtype: QueryType)
    returns (r: DnsPacket, ending: Ending, names: seq<Text>)
    ensures 1 <= |names| <= MAX_CNAME_DEPTH + 1 && names[0] == qname
    ensures DistinctNames(names) && Follows(resolve, query.header.id, qtype, names)
    ensures Ends(resolve, query, qtype, names, ending, r)
  {
    hide Accumulated, Settled, CnameTarget, LowerText, PacketWire;
    var visited := {LowerText(qname)};
    var resp := resolve(qname);
    names := [qname];
    FirstName(resolve, qname);
    while true
      invariant 1 <= |names| <= MAX_CNAME_DEPTH + 1 && names[0] == qname
      invariant DistinctNames(names) && Follows(resolve, query.header.id, qtype, names) && Visited(visited, names)
      invariant resp == Accumulated(resolve, names)
      decreases MAX_CNAME_DEPTH + 1 - |names|
    {
      var current := names[|names| - 1];
      if Settled(resp, qtype) { return resp, Stopped, names; }
      var target := CnameTarget(resp.answers, current);
      if target.None? { return resp, Stopped, names; }
      var key := LowerText(target.value);
      if |visited| > MAX_CNAME_DEPTH || key in visited {
        return ResponseFrom(query, SERVFAIL), LoopOrTooDeep, names;
      }
      assert visited + {key} - {key} == visited;
      visited := visited + {key};
      var buffer := new BytePacketBuffer();
      var written := WritePacket(Query(query.header.id, target.value, qtype), buffer);
      if !written { return resp, Panicked, names; }
      NextHop(resolve, query.header.id, qtype, names, target.value);
      NextVisited(visited - {key}, names, target.value);
      assert visited - {key} + {key} == visited;
      resp := Extended(resp, resolve(target.value));
      names := names + [target.value];
    }
  }

  lemma FirstName(resolve: Text -> DnsPacket, qname: Text)
    ensures Visited({LowerText(qname)}, [qname]) && Accumulated(resolve, [qname]) == resolve(qname)
  {
    hide LowerText;
    assert Asked([qname], LowerText(qname)) by { assert [qname][0] == qname; }
  }

  lemma NextHop(resolve: Text -> DnsPacket, id: u16, qtype: QueryType, names: seq<Text>, target: Text)
    requires names != [] && Follows(resolve, id, qtype, names)
    requires !Settled(Accumulated(resolve, names), qtype)
    requires CnameTarget(Accumulated(resolve, names).answers, names[|names| - 1]) == Some(target)
    requires Serializes(id, target, qtype)
    ensures Follows(resolve, id, qtype, names + [target])
    ensures Accumulated(resolve, names + [target]) == Extended(Accumulated(resolve, names), resolve(target))
  {
    hide Accumulated, Settled, CnameTarget, Extended, IsHop, Serializes;
    AccumulatedSnoc(resolve, names, target);
    var longer := names + [target];
    forall i | 1 <= i < |longer| ensures IsHop(resolve, id, qtype, longer, i) {
      if i < |names| { SameHop(resolve, id, qtype, names, target, i); } else { LastHop(resolve, id, qtype, names, target); }
    }
  }

  lemma SameHop(resolve: Text -> DnsPacket, id: u16, qtype: QueryType, names: seq<Text>, target: Text, i: nat)
    requires 1 <= i < |names| && IsHop(resolve, id, qtype, names, i)
    ensures IsHop(resolve, id, qtype, names + [target], i)
  {
    hide Accumulated, Settled, CnameTarget, Serializes;
    assert (names + [target])[..i] == names[..i];
  }

  lemma LastHop(resolve: Text -> DnsPacket, id: u16, qtype: QueryType, names: seq<Text>, target: Text)
    requires names != [] && !Settled(Accumulated(resolve, names), qtype)
    requires CnameTarget(Accumulated(resolve, names).answers, names[|names| - 1]) == Some(target)
    requires Serializes(id, target, qtype)
    ensures IsHop(resolve, id, qtype, names + [target], |names|)
  {
    hide Accumulated, Settled, CnameTarget, Serializes;
    assert (names + [target])[..|names|] == names;
  }

  lemma AccumulatedSnoc(resolve: Text -> DnsPacket, names: seq<Text>, target: Text)
    requires names != []
    ensures Accumulated(resolve, names + [target]) == Extended(Accumulated(resolve, names), resolve(target))
  {
    hide Extended;
    assert (names + [target])[..|names|] == names;
  }

  lemma NextVisited(visited: set<Text>, names: seq<Text>, target: Text)
    requires DistinctNames(names) && Visited(visited, names) && LowerText(target) !in visited
    ensures DistinctNames(names + [target]) && Visited(visited + {LowerText(target)}, names + [target])
  {
    var longer := names + [target];
    hide LowerText;
    forall t ensures Asked(longer, t) <==> Asked(names, t) || t == LowerText(target) {
      if t == LowerText(target) { assert LowerText(longer[|names|]) == t; }
      if Asked(names, t) {
        var i :| 0 <= i < |names| && LowerText(names[i]) == t;
        assert LowerText(longer[i]) == t;
      }
    }
    forall i | 0 <= i < |names| ensures !EqIgnoreCase(names[i], target) {
      assert Asked(names, LowerText(names[i]));
    }
  }

  // ---- Consequences ----

  /** What a response that is not the fresh SERVFAIL contains: every hop's answers in order, and the last hop's code. */
  lemma {:induction false} AccumulatedIs(resolve: Text -> DnsPacket, names: seq<Text>)
    requires names != []
    ensures var r := Accumulated(resolve, names);
            && r.answers == AllAnswers(resolve, names)
            && r.header.rescode == resolve(names[|names| - 1]).header.rescode
            && r == resolve(names[0]).(answers := r.answers, header := resolve(names[0]).header.(rescode := r.header.rescode))
    decreases |names|
  {
    if |names| > 1 {
      AccumulatedIs(resolve, names[..|names| - 1]);
    } else {
      assert AllAnswers(resolve, names[..0]) == [];
    }
  }

  function AllAnswers(resolve: Text -> DnsPacket, names: seq<Text>): seq<DnsRecord> {
    if names == [] then [] else AllAnswers(resolve, names[..|names| - 1]) + resolve(names[|names| - 1]).answers
  }

  /**
   * Opaque records report UNKNOWN, so no answer ever satisfies a question for a named type that the reader does not
   * parse: for TXT, HTTPS or SRV the chase is never settled by an answer, only by a code or a missing CNAME.
   */
  lemma OpaqueTypesNeverSettle(resp: DnsPacket, qtype: QueryType)
    requires !Native(qtype) && !qtype.UNKNOWN?
    ensures Settled(resp, qtype) <==> resp.header.rescode != NOERROR
  {
    forall r | r in resp.answers ensures r.QType() != qtype { QTypeIsNative(r); }
  }

  /** Types for which comparing what `query_type` reports is comparing type numbers. */
  predicate Comparable(t: QueryType) {
    if t.UNKNOWN? then !Native(QueryType.FromNum(t.num)) else Native(t)
  }

  predicate SameNumber(r: DnsRecord, t: QueryType) { r.QType().ToNum() == t.ToNum() }

  /** A well-formed record of each native type, and of each other number. */
  function Sample(num: u16): (r: DnsRecord)
    ensures r.QType().ToNum() == num && NormalNames(r) && (r.UNKNOWN? <==> !Native(QueryType.FromNum(num)))
  {
    match QueryType.FromNum(num)
    case A => DnsRecord.A([], [0, 0, 0, 0], 0)
    case AAAA => DnsRecord.AAAA([], [0, 0, 0, 0, 0, 0, 0, 0], 0)
    case NS => DnsRecord.NS([], [], 0)
    case CNAME => DnsRecord.CNAME([], [], 0)
    case PTR => DnsRecord.PTR([], [], 0)
    case MX => DnsRecord.MX([], 0, [], 0)
    case SOA => DnsRecord.SOA([], [], [], 0, 0, 0, 0, 0, 0)
    case DNSKEY => DnsRecord.DNSKEY([], 0, 0, 0, [], 0)
    case DS => DnsRecord.DS([], 0, 0, 0, [], 0)
    case RRSIG => DnsRecord.RRSIG([], 0, 0, 0, 0, 0, 0, 0, [], [], 0)
    case NSEC => DnsRecord.NSEC([], [], [], 0)
    case NSEC3 => DnsRecord.NSEC3([], 0, 0, 0, [], [], [], 0)
    case _ => DnsRecord.UNKNOWN([], num, [], 0)
  }

  /**
   * On what the reader can return, the comparison agrees with the type numbers exactly for comparable types; of the
   * types a question can carry these are the natively parsed and the unnamed ones.
   */
  lemma ComparableIff(t: QueryType)
    ensures Comparable(t) <==> forall r :: WellFormedRecord(r) ==> (r.QType() == t <==> SameNumber(r, t))
    ensures Canonical(t) ==> (Comparable(t) <==> Native(t) || t.UNKNOWN?)
  {
    if Comparable(t) {
      forall r | WellFormedRecord(r) ensures r.QType() == t <==> SameNumber(r, t) { NumbersCompare(r, t); }
    } else {
      var r := Sample(t.ToNum());
      SampleIsOther(t);
      assert WellFormedRecord(r) && SameNumber(r, t) && r.QType() != t;
    }
  }

  lemma NumbersCompare(r: DnsRecord, t: QueryType)
    requires WellFormedRecord(r) && Comparable(t)
    ensures r.QType() == t <==> SameNumber(r, t)
  {
    hide NormalNames;
    TypeNumbers(t.ToNum(), t);
  }

  lemma SampleIsOther(t: QueryType)
    requires !Comparable(t)
    ensures WellFormedRecord(Sample(t.ToNum())) && Sample(t.ToNum()).QType() != t
  {
    hide NormalNames;
    TypeNumbers(t.ToNum(), t);
  }

  /** So for those the chase is settled exactly by an answer of the type's number, or by a code. */
  lemma ComparableSettles(resp: DnsPacket, t: QueryType)
    requires Comparable(t) && forall r <- resp.answers :: WellFormedRecord(r)
    ensures Settled(resp, t) <==> (exists r <- resp.answers :: SameNumber(r, t)) || resp.header.rescode != NOERROR
  {
    hide Comparable, WellFormedRecord, SameNumber, DnsRecord.QType;
    forall r | r in resp.answers ensures r.QType() == t <==> SameNumber(r, t) { NumbersCompare(r, t); }
  }

  lemma QTypeIsNative(r: DnsRecord)
    ensures r.QType().UNKNOWN? || Native(r.QType())
  {
  }

  // ---- When the sub-query cannot be written ----

  /** The targets the reader can produce serialize exactly up to 4080 bytes of wire form, header and type leaving no more. */
  lemma SerializesIff(id: u16, target: Text, qtype: QueryType)
    requires Names.NormalForm(target)
    ensures Names.NameWire(target).Some? && (Serializes(id, target, qtype) <==> |Names.NameWire(target).value| <= 4080)
  {
    Names.NormalFormWrites(target);
    hide PacketWire, Names.NameWire, Names.NormalForm;
    OneQuestionWire(Query(id, target, qtype));
  }

  /** Some are longer: a name of 7796 bytes that a single buffer spells with one pointer. */
  lemma ParsedNameThatPanics(id: u16, qtype: QueryType) returns (name: Text)
    ensures |LongNames.Looped()| == BUF_SIZE && Names.ReadName(LongNames.Looped(), 12) == Some((name, 4033))
    ensures !Serializes(id, name, qtype)
  {
    hide *;
    name := LongNames.LoopedName();
    SerializesIff(id, name, qtype);
  }

  /** Every chase whose first response points at such a name ends in the panic, whatever else is resolved. */
  lemma UnwritableTargetPanics(resolve: Text -> DnsPacket, query: DnsPacket, qname: Text, qtype: QueryType,
                               r: DnsPacket, ending: Ending, names: seq<Text>, target: Text)
    requires names != [] && names[0] == qname && Follows(resolve, query.header.id, qtype, names)
    requires Ends(resolve, query, qtype, names, ending, r)
    requires !Settled(resolve(qname), qtype) && CnameTarget(resolve(qname).answers, qname) == Some(target)
    requires !EqIgnoreCase(qname, target) && !Serializes(query.header.id, target, qtype)
    ensures ending == Panicked && names == [qname]
  {
    hide Settled, CnameTarget, Serializes, LowerText, Accumulated, Follows;
    FirstName(resolve, qname);
    FirstHop(resolve, query.header.id, qtype, names);
    assert |names| == 1 ==> names == [qname];
  }

  lemma FirstHop(resolve: Text -> DnsPacket, id: u16, qtype: QueryType, names: seq<Text>)
    requires Follows(resolve, id, qtype, names) && |names| > 0
    ensures |names| > 1 ==> CnameTarget(resolve(names[0]).answers, names[0]) == Some(names[1]) && Serializes(id, names[1], qtype)
  {
    hide Settled, CnameTarget, Serializes;
    FirstName(resolve, names[0]);
    if |names| > 1 {
      assert names[..1] == [names[0]];
      assert IsHop(resolve, id, qtype, names, 1);
    }
  }
}
