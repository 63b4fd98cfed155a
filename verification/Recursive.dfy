/** Iterative resolution: `resolve_iterative` and its helpers, against any servers and any cache. */
module Recursive {
  import opened Bytes
  import opened Question
  import opened Header
  import opened Record
  import opened Packet
  import PacketBuffer
  import opened Hedging
  import opened CnameChase

  const MAX_REFERRAL_DEPTH := 10
  const TYPE_NS := QueryType.NS

  datatype Addr = V4(ip4: Ipv4) | V6(ip6: Ipv6)

  datatype Failure = MaxReferralDepth | NoNameserver | MaxCnameDepth | Unresolvable | Exhausted | Network(code: nat)

  type Reply = Result<DnsPacket, Failure>

  /**
   * Everything outside: cached packets, the outcome of a hedged query, and the order of servers by measured delay.
   * The first argument counts the calls made so far, so nothing has to be answered the same way twice.
   */
  datatype Env = Env(
    lookup: (nat, Text, QueryType) -> Option<DnsPacket>,
    ask: (nat, Text, QueryType, seq<Addr>) -> Reply,
    sort: (nat, seq<Addr>) -> seq<Addr>)

  /** One hedged query: on whose behalf, from which zone, what was asked, of which servers, and what came back. */
  datatype Query = Query(qname: Text, qtype: QueryType, zone: Text, askedName: Text, askedType: QueryType, servers: seq<Addr>,
                         reply: Reply)

  // ---- Pure helpers ----

  function RecordToAddr(r: DnsRecord): Option<Addr> {
    match r
    case A(_, addr, _) => Some(V4(addr))
    case AAAA(_, addr6, _) => Some(V6(addr6))
    case _ => None
  }

  function Addrs(records: seq<DnsRecord>): seq<Addr> {
    if records == [] then []
    else
      var a := RecordToAddr(records[0]);
      (if a.Some? then [a.value] else []) + Addrs(records[1..])
  }

  function NsHosts(records: seq<DnsRecord>): (r: seq<Text>)
    ensures |r| <= |records|
  {
    if records == [] then []
    else (if records[0].NS? then [records[0].host] else []) + NsHosts(records[1..])
  }

  /** `referral_zone`: the owner of the first NS record in the authority section. */
  function ReferralZone(records: seq<DnsRecord>): Option<Text> {
    if records == [] then None
    else if records[0].NS? then Some(records[0].domain)
    else ReferralZone(records[1..])
  }

  function GlueFor(records: seq<DnsRecord>, name: Text): seq<Addr> {
    if records == [] then []
    else
      (if (records[0].A? || records[0].AAAA?) && EqIgnoreCase(records[0].domain, name) then Addrs([records[0]]) else [])
      + GlueFor(records[1..], name)
  }

  function GlueForAll(records: seq<DnsRecord>, names: seq<Text>): seq<Addr> {
    if names == [] then [] else GlueFor(records, names[0]) + GlueForAll(records, names[1..])
  }

  /** `rfind('.')`. */
  function LastDot(t: Text): (r: Option<nat>)
    ensures r.Some? ==> r.value < |t| && t[r.value] == DOT && forall i :: r.value < i < |t| ==> t[i] != DOT
    ensures r.None? ==> DOT !in t
  {
    if t == [] then None
    else if t[|t| - 1] == DOT then Some(|t| - 1)
    else LastDot(t[..|t| - 1])
  }

  /** `minimize_query`: at the root only the NS of the text after the last dot are asked for. */
  function Minimized(qname: Text, qtype: QueryType, zone: Text): (Text, QueryType) {
    if zone != [DOT] then (qname, qtype)
    else
      match LastDot(qname)
      case Some(dot) => if dot > 0 then (qname[dot + 1..], TYPE_NS) else (qname, qtype)
      case None => (qname, qtype)
  }

  /** At the root a name gives away the text after its last dot, escaped or not, and nothing else, not even the type. */
  lemma RootLearnsOnlyTheTld(qname: Text, qtype: QueryType)
    requires LastDot(qname).Some? && LastDot(qname).value > 0
    ensures var (name, t) := Minimized(qname, qtype, [DOT]);
            t == TYPE_NS && DOT !in name && exists prefix :: qname == prefix + [DOT] + name
  {
    var dot := LastDot(qname).value;
    assert qname == qname[..dot] + [DOT] + qname[dot + 1..];
  }

  /** Below the root, and for a name without a dot after its first byte, the very question is asked. */
  lemma OtherwiseTheQuestion(qname: Text, qtype: QueryType, zone: Text)
    requires zone != [DOT] || qname == [] || DOT !in qname[1..]
    ensures Minimized(qname, qtype, zone) == (qname, qtype)
  {
    var dot := LastDot(qname);
    if dot.Some? && dot.value > 0 { assert qname[dot.value] == qname[1..][dot.value - 1]; }
  }

  // ---- The query budget ----

  /** Hedged queries one resolution may send when no response names more than `k` name servers. */
  function Budget(k: nat, cnameDepth: nat, referralDepth: nat): nat
    decreases if cnameDepth < MAX_CNAME_DEPTH then MAX_CNAME_DEPTH - cnameDepth else 0,
              if referralDepth <= MAX_REFERRAL_DEPTH then MAX_REFERRAL_DEPTH + 1 - referralDepth else 0, 1
  {
    if referralDepth > MAX_REFERRAL_DEPTH then 0
    else Times(10, Round(k, GluelessBudget(k, cnameDepth, referralDepth))) + CnameBudget(k, cnameDepth)
  }

  /** One round: its own query, and two per name server for the ones that came without addresses. */
  function Round(k: nat, each: nat): nat { 1 + Times(k, 2 * each) }

  function GluelessBudget(k: nat, cnameDepth: nat, referralDepth: nat): nat
    decreases if cnameDepth < MAX_CNAME_DEPTH then MAX_CNAME_DEPTH - cnameDepth else 0,
              if referralDepth <= MAX_REFERRAL_DEPTH then MAX_REFERRAL_DEPTH + 1 - referralDepth else 0, 0
  {
    if referralDepth < MAX_REFERRAL_DEPTH then Budget(k, cnameDepth, referralDepth + 1) else 0
  }

  function CnameBudget(k: nat, cnameDepth: nat): nat
    decreases if cnameDepth < MAX_CNAME_DEPTH then MAX_CNAME_DEPTH - cnameDepth else 0, 0, 0
  {
    if cnameDepth < MAX_CNAME_DEPTH then Budget(k, cnameDepth + 1, 0) else 0
  }

  /** The budget in one line: Q(c, r) = 10 + 20 k Q(c, r + 1) + Q(c + 1, 0), and nothing beyond the two depths. */
  lemma BudgetEquation(k: nat, c: nat, r: nat)
    requires r <= 10
    ensures Budget(k, c, r) == 10 + 20 * k * Budget(k, c, r + 1) + if c < 8 then Budget(k, c + 1, 0) else 0
    ensures Budget(k, c, 11) == 0
  {
    BudgetParts(k, c, r);
    TenRounds(k, Budget(k, c, r + 1));
    hide *;
  }

  lemma BudgetParts(k: nat, c: nat, r: nat)
    requires r <= MAX_REFERRAL_DEPTH
    ensures Budget(k, c, r) == 10 * Round(k, Budget(k, c, r + 1)) + if c < MAX_CNAME_DEPTH then Budget(k, c + 1, 0) else 0
    ensures Budget(k, c, MAX_REFERRAL_DEPTH + 1) == 0 && MAX_REFERRAL_DEPTH == 10 && MAX_CNAME_DEPTH == 8
  {
    hide Round;
  }

  lemma TenRounds(k: nat, b: nat)
    ensures 10 * Round(k, b) == 10 + 20 * k * b
  {
    assert k * (2 * b) == 2 * (k * b) && 20 * k * b == 20 * (k * b);
  }

  function Times(n: nat, unit: nat): nat { n * unit }

  lemma TimesNext(n: nat, unit: nat)
    ensures Times(0, unit) == 0 && Times(n + 1, unit) == Times(n, unit) + unit && Times(n, unit) <= Times(n + 1, unit)
  {
  }

  lemma {:induction false} TimesGrows(m: nat, n: nat, unit: nat)
    requires m <= n
    ensures Times(m, unit) <= Times(n, unit)
    decreases n - m
  {
    if m < n {
      TimesNext(m, unit);
      TimesGrows(m + 1, n, unit);
    }
  }

  lemma RoundIs(k: nat, each: nat)
    ensures Round(k, each) == 1 + Times(k, 2 * each)
  {
  }

  lemma GluelessIs(k: nat, cnameDepth: nat, referralDepth: nat)
    requires referralDepth < MAX_REFERRAL_DEPTH
    ensures GluelessBudget(k, cnameDepth, referralDepth) == Budget(k, cnameDepth, referralDepth + 1)
  {
    hide Budget;
  }

  lemma CnameIs(k: nat, cnameDepth: nat)
    requires cnameDepth < MAX_CNAME_DEPTH
    ensures CnameBudget(k, cnameDepth) == Budget(k, cnameDepth + 1, 0)
  {
    hide Budget;
  }

  lemma BudgetIs(k: nat, cnameDepth: nat, referralDepth: nat)
    ensures referralDepth <= MAX_REFERRAL_DEPTH ==>
              Budget(k, cnameDepth, referralDepth)
              == Times(10, Round(k, GluelessBudget(k, cnameDepth, referralDepth))) + CnameBudget(k, cnameDepth)
  {
    hide GluelessBudget, CnameBudget, Times, Round;
  }

  // ---- What a resolution returns ----

  /** A server's answer to the very question, or to its minimized form when that came back empty. */
  ghost predicate Answered(log: seq<Query>, qname: Text, qtype: QueryType, resp: DnsPacket) {
    exists q :: q in log && AnswersTo(q, qname, qtype, resp)
  }

  predicate AnswersTo(q: Query, qname: Text, qtype: QueryType, resp: DnsPacket) {
    && q.qname == qname && q.qtype == qtype && q.reply == Ok(resp)
    && (q.askedName, q.askedType) == Minimized(qname, qtype, q.zone)
    && (resp.answers != [] || resp.authorities != [] ==> Exact(q))
  }

  /** Neither answers nor authorities. */
  predicate Hollow(resp: DnsPacket) { resp.answers == [] && resp.authorities == [] }

  predicate Exact(q: Query) { q.askedType == q.qtype && EqIgnoreCase(q.askedName, q.qname) }

  ghost predicate Cached(env: Env, qname: Text, qtype: QueryType, resp: DnsPacket) {
    exists t :: env.lookup(t, qname, qtype) == Some(resp)
  }

  /** A chain of server responses, each but the last answering only with a CNAME to the next name. */
  ghost predicate Chain(env: Env, log: seq<Query>, qtype: QueryType, names: seq<Text>, parts: seq<DnsPacket>) {
    && names != [] && |parts| == |names|
    && (forall i :: 0 <= i < |names| - 1 ==> Hop(log, qtype, names[i], parts[i], names[i + 1]))
    && var last := |names| - 1; Cached(env, names[last], qtype, parts[last]) || Answered(log, names[last], qtype, parts[last])
  }

  ghost predicate Hop(log: seq<Query>, qtype: QueryType, name: Text, part: DnsPacket, target: Text) {
    && Answered(log, name, qtype, part) && CnameTarget(part.answers, name) == Some(target)
    && qtype != QueryType.CNAME && forall r <- part.answers :: r.QType() != qtype
  }

  /** The responses folded into one: all answers in order, the last code. */
  function Combined(parts: seq<DnsPacket>): DnsPacket
    requires parts != []
  {
    if |parts| == 1 then parts[0] else Extended(parts[0], Combined(parts[1..]))
  }

  lemma OneLink(env: Env, log: seq<Query>, qtype: QueryType, name: Text, part: DnsPacket)
    requires Cached(env, name, qtype, part) || Answered(log, name, qtype, part)
    ensures Chain(env, log, qtype, [name], [part]) && Combined([part]) == part
  {
  }

  /** The last query was for this question, and its response is not a referral from a minimized one. */
  lemma JustAnswered(env: Env, log: seq<Query>, q: Query, resp: DnsPacket)
    requires log != [] && log[|log| - 1] == q && q.reply == Ok(resp)
    requires (q.askedName, q.askedType) == Minimized(q.qname, q.qtype, q.zone)
    requires (q.askedType == q.qtype && EqIgnoreCase(q.askedName, q.qname)) || (resp.authorities == [] && resp.answers == [])
    ensures Answered(log, q.qname, q.qtype, resp)
    ensures Chain(env, log, q.qtype, [q.qname], [resp]) && Combined([resp]) == resp
  {
    hide Minimized, EqIgnoreCase;
    assert q in log && AnswersTo(q, q.qname, q.qtype, resp);
    OneLink(env, log, q.qtype, q.qname, resp);
  }

  lemma IsCnameHop(log: seq<Query>, qtype: QueryType, name: Text, part: DnsPacket, target: Text)
    requires Answered(log, name, qtype, part) && CnameTarget(part.answers, name) == Some(target)
    requires qtype != QueryType.CNAME && !exists r <- part.answers :: r.QType() == qtype
    ensures Hop(log, qtype, name, part, target)
  {
    hide Answered, CnameTarget, DnsRecord.QType;
  }

  lemma StillAnswered(log: seq<Query>, more: seq<Query>, qname: Text, qtype: QueryType, resp: DnsPacket)
    requires Answered(log, qname, qtype, resp) && log <= more
    ensures Answered(more, qname, qtype, resp)
  {
    var q :| q in log && AnswersTo(q, qname, qtype, resp);
    assert q in more;
  }

  lemma OneMoreLink(env: Env, log: seq<Query>, qtype: QueryType, name: Text, part: DnsPacket, names: seq<Text>,
                    parts: seq<DnsPacket>)
    requires Chain(env, log, qtype, names, parts) && Hop(log, qtype, name, part, names[0])
    ensures Chain(env, log, qtype, [name] + names, [part] + parts)
    ensures Combined([part] + parts) == Extended(part, Combined(parts))
  {
    hide Hop, Answered, Cached;
    assert ([part] + parts)[1..] == parts;
    forall i | 0 <= i < |names| ensures Hop(log, qtype, ([name] + names)[i], ([part] + parts)[i], ([name] + names)[i + 1]) {
      if i > 0 { assert Hop(log, qtype, names[i - 1], parts[i - 1], names[i]); }
    }
  }

  // ---- What one reply leads to ----

  /** The owner of the first NS record, or else the zone as it was. */
  ghost predicate MovesTo(records: seq<DnsRecord>, zone: Text, newZone: Text) {
    if exists r <- records :: r.NS? then
      exists i :: 0 <= i < |records| && records[i].NS? && newZone == records[i].domain && forall j :: 0 <= j < i ==> !records[j].NS?
    else newZone == zone
  }

  lemma {:induction false} ReferralMoves(records: seq<DnsRecord>, zone: Text)
    ensures MovesTo(records, zone, ReferralZone(records).GetOr(zone))
  {
    if records != [] && !records[0].NS? {
      ReferralMoves(records[1..], zone);
      if i :| 0 <= i < |records[1..]| && records[1..][i].NS? && ReferralZone(records[1..]).GetOr(zone) == records[1..][i].domain
              && forall j :: 0 <= j < i ==> !records[1..][j].NS? {
        assert records[i + 1].NS?;
        assert forall j :: 0 <= j < i + 1 ==> !records[j].NS? by {
          assert forall j :: 0 < j < i + 1 ==> records[j] == records[1..][j - 1];
        }
      }
      assert records == [records[0]] + records[1..];
    }
  }

  /** The hosts of NS records, and nothing else, are name servers. */
  lemma {:induction false} NsHostsAre(records: seq<DnsRecord>, host: Text)
    ensures host in NsHosts(records) <==> exists r :: r in records && r.NS? && r.host == host
  {
    if records != [] {
      NsHostsAre(records[1..], host);
      assert records == [records[0]] + records[1..];
    }
  }

  predicate IsAddress(r: DnsRecord, a: Addr) { (r.A? && a == V4(r.addr)) || (r.AAAA? && a == V6(r.addr6)) }

  /** `r` gives the address `a` of the name, in any letter case. */
  predicate GivesAddress(r: DnsRecord, name: Text, a: Addr) { EqIgnoreCase(r.domain, name) && IsAddress(r, a) }

  /** Glue is every address record owned by one of the names, and nothing else. */
  lemma {:induction false} GlueIs(records: seq<DnsRecord>, names: seq<Text>, a: Addr)
    ensures a in GlueForAll(records, names) <==> exists r, name :: r in records && name in names && GivesAddress(r, name, a)
  {
    hide GivesAddress, GlueFor;
    if names != [] {
      GlueForIs(records, names[0], a);
      GlueIs(records, names[1..], a);
      assert names == [names[0]] + names[1..] && names[0] in names;
      assert forall name :: name in names <==> name == names[0] || name in names[1..];
    }
  }

  lemma {:induction false} GlueForIs(records: seq<DnsRecord>, name: Text, a: Addr)
    ensures a in GlueFor(records, name) <==> exists r :: r in records && GivesAddress(r, name, a)
  {
    hide GivesAddress, EqIgnoreCase;
    if records != [] {
      GlueForIs(records[1..], name, a);
      FirstGlue(records, name, a);
      hide GlueFor;
      assert records == [records[0]] + records[1..];
      assert forall r :: r in records <==> r == records[0] || r in records[1..];
    }
  }

  lemma FirstGlue(records: seq<DnsRecord>, name: Text, a: Addr)
    requires records != []
    ensures a in GlueFor(records, name) <==> GivesAddress(records[0], name, a) || a in GlueFor(records[1..], name)
  {
    hide EqIgnoreCase;
    assert Addrs([records[0]][1..]) == [];
  }

  /** The name servers a referral names: in the answers of a minimized query, or else in the authorities. */
  function Servers(p: DnsPacket, exact: bool): seq<Text> {
    if !exact && NsHosts(p.answers) != [] then NsHosts(p.answers) else NsHosts(p.authorities)
  }

  /** The response is returned as it is. */
  predicate IsFinal(p: DnsPacket, qname: Text, qtype: QueryType, exact: bool) {
    (exact || Hollow(p))
    && if p.answers != [] then
         (exists r <- p.answers :: r.QType() == qtype) || qtype == QueryType.CNAME || CnameTarget(p.answers, qname).None?
       else p.header.rescode == NXDOMAIN || p.header.rescode == REFUSED || NsHosts(p.authorities) == []
  }

  /** The response leads to other servers. What is neither final nor this is a CNAME to follow. */
  predicate IsReferral(p: DnsPacket, exact: bool) { if exact then p.answers == [] else !Hollow(p) }

  predicate IsExact(qname: Text, qtype: QueryType, zone: Text) {
    var (name, t) := Minimized(qname, qtype, zone);
    t == qtype && EqIgnoreCase(name, qname)
  }

  function Later(servers: seq<Addr>): seq<Addr> { servers[if |servers| < 2 then |servers| else 2..] }

  /** What a round makes of the reply from `addrs[idx..]`. */
  ghost predicate RoundFits(qname: Text, qtype: QueryType, cnameDepth: nat, zone: Text, addrs: seq<Addr>, idx: nat,
                            reply: Reply, step: Next)
    requires idx <= |addrs|
  {
    match reply
    case Err(_) => step == Again(zone, addrs, idx + if |addrs| - idx < 2 then |addrs| - idx else 2)
    case Ok(p) =>
      var exact := IsExact(qname, qtype, zone);
      if IsFinal(p, qname, qtype, exact) then step == Done(reply)
      else if IsReferral(p, exact) then
        var glue := GlueForAll(p.resources, Servers(p, exact));
        if glue != [] then
          step.Again? && MovesTo(p.authorities, zone, step.zone) && multiset(step.addrs) == multiset(glue) && step.idx == 0
        else
          || (step.Again? && MovesTo(p.authorities, zone, step.zone)
              && ((step.addrs != [] && step.idx == 0) || (!exact && step.addrs == addrs && step.idx == idx + 1)))
          || (exact && step == Done(Err(Unresolvable)))
      else
        step.Done? && (cnameDepth >= MAX_CNAME_DEPTH ==> step.reply == Err(MaxCnameDepth))
        && (step.reply.Ok? ==> exists final :: step.reply == Ok(Extended(p, final)))
  }

  lemma FitsErr(qname: Text, qtype: QueryType, c: nat, zone: Text, addrs: seq<Addr>, idx: nat, reply: Reply)
    requires idx < |addrs| && reply.Err?
    ensures RoundFits(qname, qtype, c, zone, addrs, idx, reply,
                      Again(zone, addrs, idx + if |addrs| - idx < 2 then |addrs| - idx else 2))
    ensures !IsCname(reply, qname, qtype, zone)
  {
  }

  lemma FitsFinal(qname: Text, qtype: QueryType, c: nat, zone: Text, addrs: seq<Addr>, idx: nat, p: DnsPacket)
    requires idx < |addrs| && IsFinal(p, qname, qtype, IsExact(qname, qtype, zone))
    ensures RoundFits(qname, qtype, c, zone, addrs, idx, Ok(p), Done(Ok(p))) && !IsCname(Ok(p), qname, qtype, zone)
  {
    hide IsFinal, IsExact;
  }

  /** A referral, with the servers found for it. */
  lemma FitsReferral(qname: Text, qtype: QueryType, c: nat, zone: Text, addrs: seq<Addr>, idx: nat, p: DnsPacket, step: Next)
    requires idx < |addrs|
    requires var exact := IsExact(qname, qtype, zone);
             && IsReferral(p, exact) && !IsFinal(p, qname, qtype, exact)
             && var glue := GlueForAll(p.resources, Servers(p, exact));
                || (glue == [] && exact && step == Done(Err(Unresolvable)))
                || (step.Again? && MovesTo(p.authorities, zone, step.zone)
                    && ((step.addrs != [] && step.idx == 0 && (glue != [] ==> multiset(step.addrs) == multiset(glue)))
                        || (glue == [] && !exact && step.addrs == addrs && step.idx == idx + 1)))
    ensures RoundFits(qname, qtype, c, zone, addrs, idx, Ok(p), step) && !IsCname(Ok(p), qname, qtype, zone)
  {
    hide IsFinal, IsReferral, IsExact, GlueForAll, Servers, MovesTo;
  }

  lemma FitsCname(qname: Text, qtype: QueryType, c: nat, zone: Text, addrs: seq<Addr>, idx: nat, p: DnsPacket, r: Reply)
    requires idx < |addrs| && IsCname(Ok(p), qname, qtype, zone)
    requires (c >= MAX_CNAME_DEPTH ==> r == Err(MaxCnameDepth)) && (r.Ok? ==> exists final :: r == Ok(Extended(p, final)))
    ensures RoundFits(qname, qtype, c, zone, addrs, idx, Ok(p), Done(r))
  {
    hide IsFinal, IsReferral, IsExact, CnameTarget, Extended;
  }

  /** A hollow reply ends the resolution. */
  lemma HollowIsFinal(qname: Text, qtype: QueryType, c: nat, zone: Text, addrs: seq<Addr>, idx: nat, reply: Reply, step: Next)
    requires idx < |addrs| && RoundFits(qname, qtype, c, zone, addrs, idx, reply, step)
    ensures reply.Ok? && Hollow(reply.value) ==> step == Done(reply)
  {
    hide Minimized, GlueForAll, MovesTo, CnameTarget, Extended, IsExact;
    assert NsHosts([]) == [];
  }

  /** Another round is asked of later servers, or of new ones. */
  lemma RoundGoesOn(qname: Text, qtype: QueryType, c: nat, zone: Text, addrs: seq<Addr>, idx: nat, reply: Reply, step: Next)
    requires idx < |addrs| && RoundFits(qname, qtype, c, zone, addrs, idx, reply, step)
    ensures step.Again? ==> (step.addrs == addrs && idx < step.idx <= |addrs|) || (step.idx == 0 && step.addrs != [])
  {
    hide Minimized, GlueForAll, MovesTo, CnameTarget, Extended, IsExact, IsFinal, IsReferral, Servers;
    if step.Again? && reply.Ok? { assert |multiset(step.addrs)| == |step.addrs|; }
  }

  lemma LaterIs(servers: seq<Addr>, idx: nat)
    requires idx < |servers|
    ensures servers[idx + if |servers| - idx < 2 then |servers| - idx else 2..] == Later(servers[idx..])
  {
    if |servers| - idx >= 2 { assert servers[idx..][2..] == servers[idx + 2..]; }
  }

  /** The tests the code makes, case by case. */
  lemma Kinds(p: DnsPacket, qname: Text, qtype: QueryType, zone: Text)
    ensures var (name, t) := Minimized(qname, qtype, zone);
            var exact := IsExact(qname, qtype, zone);
            && (exact <==> t == qtype && EqIgnoreCase(name, qname))
            && (!exact && !Hollow(p) ==>
                  && IsReferral(p, exact) && !IsFinal(p, qname, qtype, exact)
                  && Servers(p, exact) == (if NsHosts(p.answers) != [] then NsHosts(p.answers) else NsHosts(p.authorities)))
            && (exact || Hollow(p) ==>
                  && (p.answers != [] ==>
                        exact && !IsReferral(p, exact)
                        && (IsFinal(p, qname, qtype, exact) <==>
                              (exists r <- p.answers :: r.QType() == qtype) || qtype == QueryType.CNAME
                              || CnameTarget(p.answers, qname).None?))
                  && (p.answers == [] ==>
                        && (IsFinal(p, qname, qtype, exact) <==>
                              p.header.rescode == NXDOMAIN || p.header.rescode == REFUSED || NsHosts(p.authorities) == [])
                        && (p.authorities != [] ==> exact && IsReferral(p, exact) && Servers(p, exact) == NsHosts(p.authorities))
                        && (p.authorities == [] ==> NsHosts(p.authorities) == [])))
    ensures !IsFinal(p, qname, qtype, IsExact(qname, qtype, zone)) && !IsReferral(p, IsExact(qname, qtype, zone)) ==>
              (IsCname(Ok(p), qname, qtype, zone) <==> CnameTarget(p.answers, qname).Some?)
  {
    hide Minimized, EqIgnoreCase, CnameTarget, DnsRecord.QType;
  }

  // ---- Where servers come from ----

  lemma {:induction false} AddrsAre(records: seq<DnsRecord>, a: Addr)
    ensures a in Addrs(records) <==> exists r :: r in records && IsAddress(r, a)
  {
    if records != [] {
      AddrsAre(records[1..], a);
      assert records == [records[0]] + records[1..];
      assert IsAddress(records[0], a) <==> RecordToAddr(records[0]) == Some(a);
    }
  }

  function AnswerAddrs(p: Option<DnsPacket>): seq<Addr> { if p.Some? then Addrs(p.value.answers) else [] }

  /** `addrs_from_cache`: A before AAAA, at one time. */
  function CachedAddrs(env: Env, t: nat, name: Text): seq<Addr> {
    AnswerAddrs(env.lookup(t, name, QueryType.A)) + AnswerAddrs(env.lookup(t, name, QueryType.AAAA))
  }

  /** Those of all the names, all at one time or each at a time of its own. */
  function CachedAll(env: Env, t: nat, names: seq<Text>): seq<Addr> {
    if names == [] then [] else CachedAll(env, t, names[..|names| - 1]) + CachedAddrs(env, t, names[|names| - 1])
  }

  function CachedEach(env: Env, t: nat, names: seq<Text>): seq<Addr> {
    if names == [] then [] else CachedEach(env, t, names[..|names| - 1]) + CachedAddrs(env, t + |names| - 1, names[|names| - 1])
  }

  /** The address is in the cached answer for a name's A or AAAA records. */
  ghost predicate IsCached(env: Env, t: nat, name: Text, a: Addr) {
    exists qtype, p, r :: (qtype == QueryType.A || qtype == QueryType.AAAA) && env.lookup(t, name, qtype) == Some(p)
                          && r in p.answers && IsAddress(r, a)
  }

  lemma CachedIs(env: Env, t: nat, name: Text, a: Addr)
    ensures a in CachedAddrs(env, t, name) <==> IsCached(env, t, name, a)
  {
    hide IsAddress, Addrs;
    forall qtype, p | env.lookup(t, name, qtype) == Some(p) ensures a in Addrs(p.answers) <==> exists r :: r in p.answers && IsAddress(r, a) {
      AddrsAre(p.answers, a);
    }
  }

  lemma {:induction false} CachedAre(env: Env, t: nat, names: seq<Text>, a: Addr)
    ensures a in CachedAll(env, t, names) <==> exists i :: 0 <= i < |names| && IsCached(env, t, names[i], a)
    ensures a in CachedEach(env, t, names) <==> exists i :: 0 <= i < |names| && IsCached(env, t + i, names[i], a)
  {
    hide IsCached, CachedAddrs;
    if names != [] {
      var front, last := names[..|names| - 1], |names| - 1;
      CachedAre(env, t, front, a);
      CachedIs(env, t, names[last], a);
      CachedIs(env, t + last, names[last], a);
      assert forall i :: 0 <= i < last ==> front[i] == names[i];
    }
  }

  /** The cached addresses of a zone's cached name servers. */
  function ZoneServers(env: Env, t: nat, zone: Text): seq<Addr> {
    var cached := env.lookup(t, zone, TYPE_NS);
    if cached.None? then [] else CachedAll(env, t, CachedNs(cached.value))
  }

  function CachedNs(p: DnsPacket): seq<Text> { NsHosts(if exists r <- p.answers :: r.NS? then p.answers else p.authorities) }

  /** A place where a label of the text begins. */
  predicate Boundary(t: Text, at: nat) { at <= |t| && (at == 0 || t[at - 1] == DOT) }

  /** The longest suffix of the name with servers, or else the root with its hints. */
  ghost predicate Closest(env: Env, t: nat, hints: seq<Addr>, name: Text, zone: Text, servers: seq<Addr>) {
    if exists at: nat :: Boundary(name, at) && ZoneServers(env, t, name[at..]) != [] then
      exists at: nat :: Boundary(name, at) && zone == name[at..] && servers == ZoneServers(env, t, zone) && servers != []
                        && forall j: nat :: j < at && Boundary(name, j) ==> ZoneServers(env, t, name[j..]) == []
    else zone == [DOT] && servers == hints
  }

  /** `sort_by_udp_rtt` at call `t`: some permutation of the servers. */
  function SortedAt(env: Env, t: nat, servers: seq<Addr>): (r: seq<Addr>)
    ensures multiset(r) == multiset(servers) && |r| == |servers|
  {
    var sorted := env.sort(t, servers);
    assert multiset(sorted) == multiset(servers) ==> |multiset(sorted)| == |sorted| && |multiset(servers)| == |servers|;
    if multiset(sorted) == multiset(servers) then sorted else servers
  }

  ghost predicate IsSorted(env: Env, servers: seq<Addr>, sorted: seq<Addr>) { exists t :: sorted == SortedAt(env, t, servers) }

  /** The query goes to the servers of the closest zone, sorted. */
  ghost predicate AskedFirst(env: Env, t: nat, hints: seq<Addr>, qname: Text, q: Query) {
    exists found :: Closest(env, t, hints, qname, q.zone, found) && IsSorted(env, found, q.servers)
  }

  lemma IsAskedFirst(env: Env, t: nat, hints: seq<Addr>, qname: Text, q: Query, found: seq<Addr>)
    requires Closest(env, t, hints, qname, q.zone, found) && IsSorted(env, found, q.servers)
    ensures AskedFirst(env, t, hints, qname, q)
  {
    hide Closest, IsSorted;
  }

  /** The servers are the addresses that resolving one of the names gave. */
  ghost predicate Resolved(env: Env, log: seq<Query>, names: seq<Text>, addrs: seq<Addr>) {
    exists name, t, ns, parts :: name in names && (t == QueryType.A || t == QueryType.AAAA)
      && Chain(env, log, t, ns, parts) && ns[0] == name && addrs == Addrs(Combined(parts).answers)
  }

  lemma ResolvedBy(env: Env, log: seq<Query>, names: seq<Text>, t: QueryType, ns: seq<Text>, parts: seq<DnsPacket>)
    requires Chain(env, log, t, ns, parts) && ns[0] in names && (t == QueryType.A || t == QueryType.AAAA)
    ensures Resolved(env, log, names, Addrs(Combined(parts).answers))
  {
    hide Chain, Combined, Addrs;
  }

  /** New servers are the glue; without glue, cached ones; without either, what their names resolve to; and they are sorted. */
  ghost predicate Found(env: Env, log: seq<Query>, records: seq<DnsRecord>, names: seq<Text>, addrs: seq<Addr>) {
    exists found :: IsSorted(env, found, addrs) && Available(env, log, records, names, found)
  }

  ghost predicate Available(env: Env, log: seq<Query>, records: seq<DnsRecord>, names: seq<Text>, found: seq<Addr>) {
    var glue := GlueForAll(records, names);
    if glue != [] then found == glue
    else exists t :: if CachedEach(env, t, names) != [] then found == CachedEach(env, t, names) else Resolved(env, log, names, found)
  }

  lemma FoundIs(env: Env, log: seq<Query>, records: seq<DnsRecord>, names: seq<Text>, t: nat, found: seq<Addr>, addrs: seq<Addr>)
    requires IsSorted(env, found, addrs)
    requires var glue := GlueForAll(records, names);
             if glue != [] then found == glue
             else if CachedEach(env, t, names) != [] then found == CachedEach(env, t, names)
             else Resolved(env, log, names, found)
    ensures Found(env, log, records, names, addrs)
  {
    hide IsSorted, Resolved, GlueForAll, CachedEach;
    assert Available(env, log, records, names, found);
  }

  // ---- When a resolution succeeds ----

  /** What is resolved, and how deep in referrals and CNAMEs. */
  datatype Goal = Goal(env: Env, hints: seq<Addr>, qname: Text, qtype: QueryType, d: nat, c: nat)

  /** At call `now` the answer is not cached, and at the next no zone around the name has servers with cached addresses. */
  ghost predicate Cold(env: Env, now: nat, name: Text, qtype: QueryType) {
    env.lookup(now, name, qtype) == Option.None && Closest(env, now + 1, [], name, [DOT], [])
  }

  /** That is so whenever the name is resolved. */
  ghost predicate EverCold(env: Env, name: Text, qtype: QueryType) { forall now :: Cold(env, now, name, qtype) }

  ghost predicate NeverCached(env: Env, names: seq<Text>) { forall t :: CachedEach(env, t, names) == [] }

  /**
   * Asking these servers of the zone leads to the answer within `n` rounds, whenever it is done and however servers are
   * sorted: unreachable servers are passed over, referrals come with glue or with a server that can be resolved in turn, and a
   * CNAME's target has an answer of its own.
   */
  ghost predicate Leads(g: Goal, zone: Text, servers: seq<Addr>, answer: DnsPacket, n: nat)
    decreases if g.c < MAX_CNAME_DEPTH then MAX_CNAME_DEPTH - g.c else 0,
              if g.d <= MAX_REFERRAL_DEPTH then MAX_REFERRAL_DEPTH + 1 - g.d else 0, n, 1
  {
    && n > 0 && servers != []
    && var (name, t) := Minimized(g.qname, g.qtype, zone);
       forall now :: LeadsOn(g, zone, servers, g.env.ask(now, name, t, servers), answer, n)
  }

  ghost predicate LeadsOn(g: Goal, zone: Text, servers: seq<Addr>, reply: Reply, answer: DnsPacket, n: nat)
    requires n > 0
    decreases if g.c < MAX_CNAME_DEPTH then MAX_CNAME_DEPTH - g.c else 0,
              if g.d <= MAX_REFERRAL_DEPTH then MAX_REFERRAL_DEPTH + 1 - g.d else 0, n, 0
  {
    match reply
    case Err(_) => Leads(g, zone, Later(servers), answer, n - 1)
    case Ok(p) =>
      var exact := IsExact(g.qname, g.qtype, zone);
      if IsFinal(p, g.qname, g.qtype, exact) then p == answer
      else if IsReferral(p, exact) then
        var names := Servers(p, exact);
        var glue := GlueForAll(p.resources, names);
        if glue != [] then
          forall newZone :: MovesTo(p.authorities, zone, newZone) ==> LeadsSorted(g, newZone, glue, answer, n - 1)
        else
          && exact && NeverCached(g.env, names)
          && exists found :: NameLeads(g, names, found)
               && forall newZone :: MovesTo(p.authorities, zone, newZone) ==>
                    LeadsSorted(g, newZone, Addrs(found.answers), answer, n - 1)
      else
        && g.c < MAX_CNAME_DEPTH && CnameTarget(p.answers, g.qname).Some?
        && EverCold(g.env, CnameTarget(p.answers, g.qname).value, g.qtype)
        && exists final :: FromRoot(g.(qname := CnameTarget(p.answers, g.qname).value, d := 0, c := g.c + 1), final)
                           && answer == Extended(p, final)
  }

  /** In whatever order these servers are asked. */
  ghost predicate LeadsSorted(g: Goal, zone: Text, servers: seq<Addr>, answer: DnsPacket, n: nat)
    decreases if g.c < MAX_CNAME_DEPTH then MAX_CNAME_DEPTH - g.c else 0,
              if g.d <= MAX_REFERRAL_DEPTH then MAX_REFERRAL_DEPTH + 1 - g.d else 0, n, 2
  {
    forall sorted :: multiset(sorted) == multiset(servers) ==> Leads(g, zone, sorted, answer, n)
  }

  ghost predicate FromRoot(g: Goal, answer: DnsPacket)
    decreases if g.c < MAX_CNAME_DEPTH then MAX_CNAME_DEPTH - g.c else 0,
              if g.d <= MAX_REFERRAL_DEPTH then MAX_REFERRAL_DEPTH + 1 - g.d else 0, MAX_REFERRAL_DEPTH, 3
  {
    LeadsSorted(g, [DOT], g.hints, answer, MAX_REFERRAL_DEPTH)
  }

  /** Below the deepest referral: the first server's own name leads to an answer with addresses, from the root again. */
  ghost predicate NameLeads(g: Goal, names: seq<Text>, found: DnsPacket)
    decreases if g.c < MAX_CNAME_DEPTH then MAX_CNAME_DEPTH - g.c else 0,
              if g.d <= MAX_REFERRAL_DEPTH then MAX_REFERRAL_DEPTH + 1 - g.d else 0, 0, 0
  {
    && names != [] && g.d < MAX_REFERRAL_DEPTH && EverCold(g.env, names[0], QueryType.A) && Addrs(found.answers) != []
    && FromRoot(g.(qname := names[0], qtype := QueryType.A, d := g.d + 1), found)
  }

  /** The result is the answer that the root leads to, if it leads to one and nothing was known before. */
  ghost predicate Expected(cold: bool, g: Goal, r: Reply) {
    cold ==> forall answer :: FromRoot(g, answer) ==> r == Ok(answer)
  }

  /** Whatever the root leads to, these servers still do. */
  ghost predicate OnTrack(cold: bool, g: Goal, zone: Text, servers: seq<Addr>, n: nat) {
    cold ==> forall answer :: FromRoot(g, answer) ==> Leads(g, zone, servers, answer, n)
  }

  lemma StartsOnTrack(cold: bool, g: Goal, zone: Text, sorted: seq<Addr>)
    requires cold ==> zone == [DOT] && multiset(sorted) == multiset(g.hints)
    ensures OnTrack(cold, g, zone, sorted, MAX_REFERRAL_DEPTH)
  {
    forall answer | cold && FromRoot(g, answer) ensures Leads(g, zone, sorted, answer, MAX_REFERRAL_DEPTH) {
      assert LeadsSorted(g, [DOT], g.hints, answer, MAX_REFERRAL_DEPTH);
      hide Leads;
    }
  }

  lemma TrackEnds(cold: bool, g: Goal, zone: Text, servers: seq<Addr>, n: nat, r: Reply)
    requires OnTrack(cold, g, zone, servers, n) && (servers == [] || n == 0)
    ensures Expected(cold, g, r)
  {
    hide LeadsOn, FromRoot, Minimized;
  }

  lemma Warm(cold: bool, g: Goal, r: Reply)
    requires !cold
    ensures Expected(cold, g, r)
  {
  }

  lemma EverIsCold(env: Env, now: nat, name: Text, qtype: QueryType)
    ensures EverCold(env, name, qtype) ==> Cold(env, now, name, qtype)
  {
    hide Cold;
  }

  /** A CNAME's target, resolved from the root, gives the response's extension. */
  ghost predicate ExpectedCname(g: Goal, target: Text, p: DnsPacket, r: Reply) {
    EverCold(g.env, target, g.qtype) && g.c < MAX_CNAME_DEPTH ==>
      forall final :: FromRoot(g.(qname := target, d := 0, c := g.c + 1), final) ==> r == Ok(Extended(p, final))
  }

  lemma NoNamesLead(g: Goal)
    ensures g.d >= MAX_REFERRAL_DEPTH ==> forall names, found :: !NameLeads(g, names, found)
    ensures forall found :: !NameLeads(g, [], found)
  {
    hide FromRoot, EverCold;
  }

  /** Which name it is for plays no part in how a server's own name is resolved. */
  lemma NameLeadsAlike(g: Goal, names: seq<Text>)
    ensures forall found :: NameLeads(g, names, found) <==> NameLeads(g.(qname := [], qtype := QueryType.A), names, found)
  {
    hide FromRoot, EverCold, Addrs;
    var h := g.(qname := [], qtype := QueryType.A);
    if names != [] {
      assert g.(qname := names[0], qtype := QueryType.A, d := g.d + 1) == h.(qname := names[0], qtype := QueryType.A, d := h.d + 1);
    }
  }

  lemma NamesWithAddresses(env: Env, hints: seq<Addr>, d: nat, c: nat, names: seq<Text>)
    ensures forall found :: NameLeads(Goal(env, hints, [], QueryType.A, d, c), names, found) ==> Addrs(found.answers) != []
  {
    hide FromRoot, EverCold, Addrs;
  }

  lemma NameLeadsIs(g: Goal, names: seq<Text>, found: DnsPacket)
    requires NameLeads(g, names, found)
    ensures names != [] && EverCold(g.env, names[0], QueryType.A) && Addrs(found.answers) != []
    ensures FromRoot(g.(qname := names[0], qtype := QueryType.A, d := g.d + 1), found)
  {
    hide FromRoot, EverCold, Addrs;
  }

  lemma IsExpected(cold: bool, g: Goal, r: Reply, answer: DnsPacket)
    requires Expected(cold, g, r) && cold && FromRoot(g, answer)
    ensures r == Ok(answer)
  {
    hide FromRoot;
  }

  lemma FirstNameLeads(g: Goal, names: seq<Text>, cold: bool, r: Reply)
    requires names != [] && (EverCold(g.env, names[0], QueryType.A) ==> cold)
    requires Expected(cold, g.(qname := names[0], qtype := QueryType.A, d := g.d + 1), r)
    ensures forall found :: NameLeads(g, names, found) ==> r == Ok(found) && Addrs(found.answers) != []
  {
    var h := g.(qname := names[0], qtype := QueryType.A, d := g.d + 1);
    forall found | NameLeads(g, names, found) ensures r == Ok(found) && Addrs(found.answers) != [] {
      NameLeadsIs(g, names, found);
      hide *;
      assert Expected(cold, h, r) && FromRoot(h, found) && cold;
      IsExpected(cold, h, r, found);
    }
  }

  /** A cold start is at the root. */
  lemma ColdStart(env: Env, now: nat, hints: seq<Addr>, name: Text, qtype: QueryType, zone: Text, servers: seq<Addr>)
    requires Closest(env, now + 1, hints, name, zone, servers)
    ensures Cold(env, now, name, qtype) ==> zone == [DOT] && servers == hints
  {
    hide ZoneServers, Boundary;
  }

  lemma NotGlueless(g: Goal, zone: Text, reply: Reply, step: Next)
    requires reply.Ok? && IsExact(g.qname, g.qtype, zone) ==> !IsReferral(reply.value, true) || IsFinal(reply.value, g.qname, g.qtype, true)
    ensures GluelessHandled(g, zone, reply, step)
  {
    hide NameLeads, NeverCached, GlueForAll, Servers, IsReferral, IsFinal, IsExact;
  }

  lemma GluelessRefers(g: Goal, zone: Text, p: DnsPacket, step: Next)
    requires IsExact(g.qname, g.qtype, zone) ==>
               var names := Servers(p, true);
               GlueForAll(p.resources, names) == [] && NeverCached(g.env, names) ==>
                 forall found :: NameLeads(g.(qname := [], qtype := QueryType.A), names, found) ==>
                   step.Again? && step.idx == 0 && multiset(step.addrs) == multiset(Addrs(found.answers))
    ensures GluelessHandled(g, zone, Ok(p), step)
  {
    NameLeadsAlike(g, Servers(p, true));
    hide NameLeads, NeverCached, GlueForAll, Servers, IsReferral, IsFinal, IsExact, Addrs;
  }

  /** A referral without glue and without cached servers goes on with those its first name leads to. */
  ghost predicate GluelessHandled(g: Goal, zone: Text, reply: Reply, step: Next) {
    reply.Ok? && IsExact(g.qname, g.qtype, zone) && IsReferral(reply.value, true) && !IsFinal(reply.value, g.qname, g.qtype, true) ==>
      var names := Servers(reply.value, true);
      GlueForAll(reply.value.resources, names) == [] && NeverCached(g.env, names) ==>
        forall found :: NameLeads(g, names, found) ==>
          step.Again? && step.idx == 0 && multiset(step.addrs) == multiset(Addrs(found.answers))
  }

  lemma RoundLeads(g: Goal, zone: Text, addrs: seq<Addr>, idx: nat, n: nat, now: nat, reply: Reply, step: Next, answer: DnsPacket)
    requires idx < |addrs| && n > 0 && Leads(g, zone, addrs[idx..], answer, n)
    requires var (name, t) := Minimized(g.qname, g.qtype, zone); reply == g.env.ask(now, name, t, addrs[idx..])
    requires RoundFits(g.qname, g.qtype, g.c, zone, addrs, idx, reply, step)
    requires CnameHandled(g, zone, reply, step) && GluelessHandled(g, zone, reply, step)
    ensures step.Again? ==> step.idx <= |step.addrs| && Leads(g, step.zone, step.addrs[step.idx..], answer, n - 1)
    ensures step.Done? ==> step.reply == Ok(answer)
  {
    hide FromRoot, Minimized, IsFinal, IsReferral, IsExact, MovesTo, GlueForAll, Servers, Later, Extended, CnameTarget, NameLeads,
         Addrs, NeverCached, EverCold;
    assert LeadsOn(g, zone, addrs[idx..], reply, answer, n);
    hide Leads;
    LaterIs(addrs, idx);
    if step.Again? && step.idx == 0 { assert step.addrs[0..] == step.addrs; }
  }

  /** The reply is neither final nor a referral: its CNAME is followed. */
  predicate IsCname(reply: Reply, qname: Text, qtype: QueryType, zone: Text) {
    && reply.Ok? && CnameTarget(reply.value.answers, qname).Some?
    && !IsFinal(reply.value, qname, qtype, IsExact(qname, qtype, zone))
    && !IsReferral(reply.value, IsExact(qname, qtype, zone))
  }

  ghost predicate CnameHandled(g: Goal, zone: Text, reply: Reply, step: Next) {
    IsCname(reply, g.qname, g.qtype, zone) ==>
      (step.Done? && ExpectedCname(g, CnameTarget(reply.value.answers, g.qname).value, reply.value, step.reply))
  }

  /** One round stays on track, or ends with the answer. */
  lemma RoundOnTrack(cold: bool, g: Goal, zone: Text, addrs: seq<Addr>, idx: nat, n: nat, now: nat, reply: Reply, step: Next)
    requires idx < |addrs| && OnTrack(cold, g, zone, addrs[idx..], n) && n > 0
    requires var (name, t) := Minimized(g.qname, g.qtype, zone); reply == g.env.ask(now, name, t, addrs[idx..])
    requires RoundFits(g.qname, g.qtype, g.c, zone, addrs, idx, reply, step)
    requires CnameHandled(g, zone, reply, step) && GluelessHandled(g, zone, reply, step)
    ensures step.Again? ==> step.idx <= |step.addrs| && OnTrack(cold, g, step.zone, step.addrs[step.idx..], n - 1)
    ensures step.Done? ==> Expected(cold, g, step.reply)
  {
    hide FromRoot, Minimized, IsFinal, IsReferral, IsExact, MovesTo, GlueForAll, Servers, Later, Extended, CnameTarget,
         Leads, CnameHandled, GluelessHandled;
    RoundGoesOn(g.qname, g.qtype, g.c, zone, addrs, idx, reply, step);
    hide RoundFits;
    if cold {
      forall answer | FromRoot(g, answer)
        ensures step.Again? ==> step.idx <= |step.addrs| && Leads(g, step.zone, step.addrs[step.idx..], answer, n - 1)
        ensures step.Done? ==> step.reply == Ok(answer)
      {
        RoundLeads(g, zone, addrs, idx, n, now, reply, step, answer);
      }
    }
  }

  /** One delegation with glue, and below it servers with an answer of the type: the root leads to that answer. */
  lemma OneDelegation(g: Goal, front: Text, tld: Text, referral: DnsPacket, answer: DnsPacket)
    requires g.qname == front + [DOT] + tld && front != [] && DOT !in tld && g.hints != []
    requires referral.authorities != [] && referral.authorities[0].NS? && referral.authorities[0].domain != [DOT]
    requires forall now, sorted :: multiset(sorted) == multiset(g.hints) ==> g.env.ask(now, tld, TYPE_NS, sorted) == Ok(referral)
    requires var glue := GlueForAll(referral.resources, Servers(referral, false));
             glue != [] && forall now, sorted :: multiset(sorted) == multiset(glue) ==>
                             g.env.ask(now, g.qname, g.qtype, sorted) == Ok(answer)
    requires exists r :: r in answer.answers && r.QType() == g.qtype
    ensures FromRoot(g, answer)
  {
    var glue := GlueForAll(referral.resources, Servers(referral, false));
    AtRoot(front, tld, g.qtype);
    forall zone | MovesTo(referral.authorities, [DOT], zone) ensures LeadsSorted(g, zone, glue, answer, 9) {
      assert referral.authorities[0].NS?;
      BelowRoot(g, zone, glue, answer);
    }
    hide Minimized, IsExact, IsFinal, IsReferral, GlueForAll, Servers, MovesTo, LeadsSorted;
    assert !Hollow(referral);
    RootRefers(referral, g.qname, g.qtype);
    forall sorted | multiset(sorted) == multiset(g.hints) ensures Leads(g, [DOT], sorted, answer, 10) {
      assert |multiset(sorted)| == |sorted|;
      forall now ensures LeadsOn(g, [DOT], sorted, g.env.ask(now, tld, TYPE_NS, sorted), answer, 10) {
        assert g.env.ask(now, tld, TYPE_NS, sorted) == Ok(referral);
      }
    }
    AllLead(g, [DOT], g.hints, answer, 10);
  }

  lemma AllLead(g: Goal, zone: Text, servers: seq<Addr>, answer: DnsPacket, n: nat)
    requires forall sorted :: multiset(sorted) == multiset(servers) ==> Leads(g, zone, sorted, answer, n)
    ensures LeadsSorted(g, zone, servers, answer, n)
  {
    hide Leads;
  }

  /** At the root the name's last label is asked for, and that is not the question itself. */
  lemma AtRoot(front: Text, tld: Text, qtype: QueryType)
    requires front != [] && DOT !in tld
    ensures var qname := front + [DOT] + tld;
            Minimized(qname, qtype, [DOT]) == (tld, TYPE_NS) && !IsExact(qname, qtype, [DOT])
  {
    var qname := front + [DOT] + tld;
    var dot := LastDot(qname);
    assert qname[|front|] == DOT;
    assert forall j :: |front| < j < |qname| ==> qname[j] == tld[j - |front| - 1];
    assert dot == Some(|front|) && qname[|front| + 1..] == tld;
    assert |LowerText(tld)| == |tld| && |LowerText(qname)| == |qname|;
  }

  lemma RootRefers(p: DnsPacket, qname: Text, qtype: QueryType)
    requires !Hollow(p) && !IsExact(qname, qtype, [DOT])
    ensures IsReferral(p, IsExact(qname, qtype, [DOT])) && !IsFinal(p, qname, qtype, IsExact(qname, qtype, [DOT]))
  {
    hide Minimized, EqIgnoreCase;
  }

  /** Below the root the very question is asked. */
  lemma BelowRoot(g: Goal, zone: Text, servers: seq<Addr>, answer: DnsPacket)
    requires zone != [DOT] && servers != []
    requires forall now, sorted :: multiset(sorted) == multiset(servers) ==> g.env.ask(now, g.qname, g.qtype, sorted) == Ok(answer)
    requires exists r :: r in answer.answers && r.QType() == g.qtype
    ensures LeadsSorted(g, zone, servers, answer, 9)
  {
    assert Minimized(g.qname, g.qtype, zone) == (g.qname, g.qtype);
    assert IsFinal(answer, g.qname, g.qtype, IsExact(g.qname, g.qtype, zone)) by { hide CnameTarget, DnsRecord.QType; }
    hide Minimized, IsExact, IsFinal, IsReferral, GlueForAll, Servers, MovesTo;
    forall sorted | multiset(sorted) == multiset(servers) ensures Leads(g, zone, sorted, answer, 9) {
      assert |multiset(sorted)| == |sorted|;
      forall now ensures LeadsOn(g, zone, sorted, g.env.ask(now, g.qname, g.qtype, sorted), answer, 9) {
        assert g.env.ask(now, g.qname, g.qtype, sorted) == Ok(answer);
      }
    }
    AllLead(g, zone, servers, answer, 9);
  }

  // ---- The resolver ----

  /** Responses name at most `k` name servers. */
  ghost predicate NamesAtMost(env: Env, k: nat) {
    forall t, name, qtype, servers :: AtMostNs(env.ask(t, name, qtype, servers), k)
  }

  predicate AtMostNs(r: Reply, k: nat) { r.Ok? ==> |NsHosts(r.value.authorities)| <= k }

  /** A response read from the buffer never names more than 371, so `k` can be that. */
  lemma ParsedResponsesNameAtMost371(b: seq<byte>, p: nat)
    requires |b| == PacketBuffer.BUF_SIZE
    ensures ParsePacket(b, p).Some? ==> AtMostNs(Ok(ParsePacket(b, p).value.0), 371)
  {
    if ParsePacket(b, p).None? { return; }
    ParsedSectionsAreSmall(b, p);
    hide ParsePacket, NsHosts;
  }

  class Resolver {
    const env: Env
    const rootHints: seq<Addr>
    var calls: nat
    ghost var log: seq<Query>

    constructor (env: Env, rootHints: seq<Addr>)
      ensures this.env == env && this.rootHints == rootHints && log == []
    {
      this.env, this.rootHints := env, rootHints;
      calls, log := 0, [];
    }

    method Lookup(name: Text, qtype: QueryType) returns (r: Option<DnsPacket>)
      modifies this`calls
      ensures r == env.lookup(old(calls), name, qtype) && calls == old(calls) + 1
      ensures r.Some? ==> Cached(env, name, qtype, r.value)
    {
      r := env.lookup(calls, name, qtype);
      calls := calls + 1;
    }

    method Sort(addrs: seq<Addr>) returns (r: seq<Addr>)
      modifies this`calls
      ensures IsSorted(env, addrs, r) && multiset(r) == multiset(addrs) && |r| == |addrs| && calls == old(calls) + 1
    {
      r := SortedAt(env, calls, addrs);
      calls := calls + 1;
    }

    /** `addrs_from_cache`, under one lock. */
    method AddrsFromCache(name: Text) returns (addrs: seq<Addr>)
      modifies this`calls
      ensures addrs == CachedAddrs(env, old(calls), name) && calls == old(calls) + 1
    {
      addrs := [];
      var a := env.lookup(calls, name, QueryType.A);
      if a.Some? { addrs := addrs + Addrs(a.value.answers); }
      var aaaa := env.lookup(calls, name, QueryType.AAAA);
      if aaaa.Some? { addrs := addrs + Addrs(aaaa.value.answers); }
      calls := calls + 1;
    }

    /** The addresses cached for a zone's servers, under the lock of `find_closest_ns`. */
    method AddrsOfZone(zone: Text) returns (addrs: seq<Addr>)
      ensures addrs == ZoneServers(env, calls, zone)
    {
      hide NsHosts;
      addrs := [];
      var cached := env.lookup(calls, zone, TYPE_NS);
      if cached.Some? {
        var names := CachedNs(cached.value);
        assert names[..|names|] == names;
        for i := 0 to |names|
          invariant addrs == CachedAll(env, calls, names[..i])
        {
          assert names[..i + 1][..i] == names[..i];
          var a := env.lookup(calls, names[i], QueryType.A);
          var aaaa := env.lookup(calls, names[i], QueryType.AAAA);
          addrs := addrs + (AnswerAddrs(a) + AnswerAddrs(aaaa));
        }
      }
    }

    /** `find_closest_ns`, which holds the lock throughout. */
    method FindClosestNs(qname: Text) returns (zone: Text, addrs: seq<Addr>)
      modifies this`calls
      ensures Closest(env, old(calls), rootHints, qname, zone, addrs) && calls == old(calls) + 1
    {
      hide ZoneServers;
      var pos: nat := 0;
      while true
        invariant Boundary(qname, pos) && calls == old(calls)
        invariant forall j: nat :: j < pos && Boundary(qname, j) ==> ZoneServers(env, calls, qname[j..]) == []
        decreases |qname| - pos
      {
        zone := qname[pos..];
        addrs := AddrsOfZone(zone);
        if addrs != [] { break; }
        var dot := FindDot(qname, pos);
        if dot == |qname| {
          zone, addrs := [DOT], rootHints;
          break;
        }
        pos := dot + 1;
      }
      calls := calls + 1;
    }

    /** `resolve_ns_addrs_from_glue`: glue first, then the cache, one lock per name. */
    method NsAddrs(response: DnsPacket, names: seq<Text>) returns (addrs: seq<Addr>)
      modifies this`calls
      ensures var glue := GlueForAll(response.resources, names);
              addrs == if glue != [] then glue else CachedEach(env, old(calls), names)
    {
      hide GlueForAll, CachedAddrs;
      addrs := GlueForAll(response.resources, names);
      if addrs == [] {
        assert names[..|names|] == names;
        for i := 0 to |names|
          invariant addrs == CachedEach(env, old(calls), names[..i]) && calls == old(calls) + i
        {
          assert names[..i + 1][..i] == names[..i];
          var more := AddrsFromCache(names[i]);
          addrs := addrs + more;
        }
      }
    }

    /** The servers are those found for the referral. */
    ghost predicate ServersFrom(reply: Reply, qname: Text, qtype: QueryType, zone: Text, addrs: seq<Addr>)
      reads this
    {
      reply.Ok? && Found(env, log, reply.value.resources, Servers(reply.value, IsExact(qname, qtype, zone)), addrs)
    }

    method Ask(qname: Text, qtype: QueryType, zone: Text, servers: seq<Addr>) returns (r: Reply)
      modifies this
      ensures var (name, t) := Minimized(qname, qtype, zone);
              r == env.ask(old(calls), name, t, servers) && calls == old(calls) + 1
              && log == old(log) + [Query(qname, qtype, zone, name, t, servers, r)]
      ensures forall k :: NamesAtMost(env, k) ==> AtMostNs(r, k)
    {
      var (name, t) := Minimized(qname, qtype, zone);
      r := env.ask(calls, name, t, servers);
      calls := calls + 1;
      log := log + [Query(qname, qtype, zone, name, t, servers, r)];
    }

    ghost predicate Faithful()
      reads this
    {
      forall q <- log :: (q.askedName, q.askedType) == Minimized(q.qname, q.qtype, q.zone)
    }

    /** The servers that came without addresses, one after the other, A before AAAA, until one of them yields some. */
    method ResolveNsNames(names: seq<Text>, referralDepth: byte, cnameDepth: byte,
                          ghost k: nat) returns (addrs: seq<Addr>)
      requires Faithful()
      modifies this
      ensures old(log) <= log && Faithful()
      ensures addrs != [] ==> Resolved(env, log, names, addrs)
      ensures forall found :: NameLeads(Goal(env, rootHints, [], QueryType.A, referralDepth, cnameDepth), names, found) ==>
                addrs == Addrs(found.answers)
      ensures NamesAtMost(env, k) ==> |log| <= |old(log)| + Times(|names|, 2 * GluelessBudget(k, cnameDepth, referralDepth))
      decreases if cnameDepth < MAX_CNAME_DEPTH then MAX_CNAME_DEPTH - cnameDepth else 0,
                if referralDepth <= MAX_REFERRAL_DEPTH then MAX_REFERRAL_DEPTH + 1 - referralDepth else 0, 0
    {
      hide Budget, GluelessBudget, CnameBudget, Times, NamesAtMost, Minimized, Chain, Combined, Addrs, Resolved, FromRoot, EverCold,
           Expected, NameLeads, Cold, AskedFirst;
      ghost var g := Goal(env, rootHints, [], QueryType.A, referralDepth, cnameDepth);
      NoNamesLead(g);
      addrs := [];
      ghost var each := GluelessBudget(k, cnameDepth, referralDepth);
      TimesNext(0, 2 * each);
      for i := 0 to |names|
        invariant old(log) <= log && Faithful()
        invariant addrs == [] && (i > 0 ==> forall found :: !NameLeads(g, names, found))
        invariant NamesAtMost(env, k) ==> |log| <= |old(log)| + Times(i, 2 * each)
      {
        TimesNext(i, 2 * each);
        TimesGrows(i + 1, |names|, 2 * each);
        if referralDepth < MAX_REFERRAL_DEPTH {
          GluelessIs(k, cnameDepth, referralDepth);
          ghost var cold := Cold(env, calls, names[i], QueryType.A);
          EverIsCold(env, calls, names[i], QueryType.A);
          var a, ns, parts := ResolveIterative(names[i], QueryType.A, referralDepth + 1, cnameDepth, k);
          if i == 0 { FirstNameLeads(g, names, cold, a); }
          if a.Ok? {
            addrs := addrs + Addrs(a.value.answers);
            assert addrs == Addrs(a.value.answers);
            ResolvedBy(env, log, names, QueryType.A, ns, parts);
          }
          if addrs == [] {
            var aaaa, ns6, parts6 := ResolveIterative(names[i], QueryType.AAAA, referralDepth + 1, cnameDepth, k);
            if aaaa.Ok? {
              addrs := addrs + Addrs(aaaa.value.answers);
              assert addrs == Addrs(aaaa.value.answers);
              ResolvedBy(env, log, names, QueryType.AAAA, ns6, parts6);
            }
          }
        }
        if addrs != [] { return; }
      }
    }

    /** The CNAME branch: the target is resolved from referral depth 0 again. */
    method FollowCname(qname: Text, qtype: QueryType, response: DnsPacket, target: Text, ghost referralDepth: byte,
                       cnameDepth: byte, ghost k: nat)
      returns (r: Reply, ghost names: seq<Text>, ghost parts: seq<DnsPacket>)
      requires Faithful() && Hop(log, qtype, qname, response, target)
      modifies this
      ensures old(log) <= log && Faithful()
      ensures r.Ok? ==> Chain(env, log, qtype, names, parts) && names[0] == qname && r.value == Combined(parts)
      ensures r.Ok? ==> |names| <= 1 + if cnameDepth < MAX_CNAME_DEPTH then MAX_CNAME_DEPTH - cnameDepth else 0
      ensures NamesAtMost(env, k) ==> |log| <= |old(log)| + CnameBudget(k, cnameDepth)
      ensures cnameDepth >= MAX_CNAME_DEPTH ==> r == Err(MaxCnameDepth)
      ensures r.Ok? ==> exists final :: r == Ok(Extended(response, final))
      ensures ExpectedCname(Goal(env, rootHints, qname, qtype, referralDepth, cnameDepth), target, response, r)
      decreases if cnameDepth < MAX_CNAME_DEPTH then MAX_CNAME_DEPTH - cnameDepth else 0, 0, 0
    {
      hide Budget, CnameBudget, NamesAtMost, Minimized, Chain, Combined, Answered, CnameTarget, Extended,
           DnsRecord.QType, Cold, FromRoot, EverCold, AskedFirst;
      EverIsCold(env, calls, target, qtype);
      names, parts := [], [];
      if cnameDepth >= MAX_CNAME_DEPTH { return Err(MaxCnameDepth), names, parts; }
      CnameIs(k, cnameDepth);
      ghost var soFar := log;
      var final;
      final, names, parts := ResolveIterative(target, qtype, 0, cnameDepth + 1, k);
      if final.Err? { return final, names, parts; }
      StillAnswered(soFar, log, qname, qtype, response);
      OneMoreLink(env, log, qtype, qname, response, names, parts);
      r, names, parts := Ok(Extended(response, final.value)), [qname] + names, [response] + parts;
    }

    /** The loop body of `resolve_iterative`; another round goes on to later servers, or to new ones. */
    method OneRound(qname: Text, qtype: QueryType, referralDepth: byte, cnameDepth: byte,
                    zone: Text, addrs: seq<Addr>, idx: nat, ghost k: nat)
      returns (step: Next, ghost names: seq<Text>, ghost parts: seq<DnsPacket>)
      requires Faithful() && idx < |addrs| && referralDepth <= MAX_REFERRAL_DEPTH
      modifies this
      ensures old(log) <= log && Faithful()
      ensures |log| > |old(log)|
      ensures var (name, t) := Minimized(qname, qtype, zone);
              log[|old(log)|] == Query(qname, qtype, zone, name, t, addrs[idx..], env.ask(old(calls), name, t, addrs[idx..]))
      ensures log[|old(log)|].reply.Ok? && Hollow(log[|old(log)|].reply.value) ==> step == Done(log[|old(log)|].reply)
      ensures RoundFits(qname, qtype, cnameDepth, zone, addrs, idx, log[|old(log)|].reply, step)
      ensures CnameHandled(Goal(env, rootHints, qname, qtype, referralDepth, cnameDepth), zone, log[|old(log)|].reply, step)
      ensures GluelessHandled(Goal(env, rootHints, qname, qtype, referralDepth, cnameDepth), zone, log[|old(log)|].reply, step)
      ensures step.Again? ==> (step.addrs == addrs && idx < step.idx <= |addrs|) || (step.idx == 0 && step.addrs != [])
      ensures step.Again? && step.idx == 0 ==> ServersFrom(log[|old(log)|].reply, qname, qtype, zone, step.addrs)
      ensures step.Done? && step.reply.Ok? ==>
                Chain(env, log, qtype, names, parts) && names[0] == qname && step.reply.value == Combined(parts)
      ensures step.Done? && step.reply.Ok? ==>
                |names| <= 1 + if cnameDepth < MAX_CNAME_DEPTH then MAX_CNAME_DEPTH - cnameDepth else 0
      ensures NamesAtMost(env, k) ==>
                |log| <= |old(log)| + Round(k, GluelessBudget(k, cnameDepth, referralDepth))
                         + if step.Done? then CnameBudget(k, cnameDepth) else 0
      decreases if cnameDepth < MAX_CNAME_DEPTH then MAX_CNAME_DEPTH - cnameDepth else 0,
                if referralDepth <= MAX_REFERRAL_DEPTH then MAX_REFERRAL_DEPTH + 1 - referralDepth else 0, 1, 2
    {
      hide Budget, GluelessBudget, CnameBudget, Times, Round, NamesAtMost, Minimized, Chain, Combined, RoundFits, CnameHandled,
           IsFinal, IsExact, ServersFrom;
      RoundIs(k, GluelessBudget(k, cnameDepth, referralDepth));
      var reply := Ask(qname, qtype, zone, addrs[idx..]);
      step, names, parts := AfterReply(qname, qtype, referralDepth, cnameDepth, zone, addrs, idx, reply, k);
      assert log[|old(log)|].reply == reply;
      HollowIsFinal(qname, qtype, cnameDepth, zone, addrs, idx, reply, step);
      RoundGoesOn(qname, qtype, cnameDepth, zone, addrs, idx, reply, step);
    }

    /** What the loop body makes of the reply. */
    method AfterReply(qname: Text, qtype: QueryType, referralDepth: byte, cnameDepth: byte,
                      zone: Text, addrs: seq<Addr>, idx: nat, reply: Reply, ghost k: nat)
      returns (step: Next, ghost names: seq<Text>, ghost parts: seq<DnsPacket>)
      requires Faithful() && idx < |addrs| && referralDepth <= MAX_REFERRAL_DEPTH
      requires var (name, t) := Minimized(qname, qtype, zone);
               log != [] && log[|log| - 1] == Query(qname, qtype, zone, name, t, addrs[idx..], reply)
      requires NamesAtMost(env, k) ==> AtMostNs(reply, k)
      modifies this
      ensures old(log) <= log && Faithful()
      ensures RoundFits(qname, qtype, cnameDepth, zone, addrs, idx, reply, step)
      ensures step.Again? && step.idx == 0 ==> ServersFrom(reply, qname, qtype, zone, step.addrs)
      ensures CnameHandled(Goal(env, rootHints, qname, qtype, referralDepth, cnameDepth), zone, reply, step)
      ensures GluelessHandled(Goal(env, rootHints, qname, qtype, referralDepth, cnameDepth), zone, reply, step)
      ensures step.Done? && step.reply.Ok? ==>
                Chain(env, log, qtype, names, parts) && names[0] == qname && step.reply.value == Combined(parts)
      ensures step.Done? && step.reply.Ok? ==>
                |names| <= 1 + if cnameDepth < MAX_CNAME_DEPTH then MAX_CNAME_DEPTH - cnameDepth else 0
      ensures NamesAtMost(env, k) ==>
                |log| <= |old(log)| + Times(k, 2 * GluelessBudget(k, cnameDepth, referralDepth))
                         + if step.Done? then CnameBudget(k, cnameDepth) else 0
      decreases if cnameDepth < MAX_CNAME_DEPTH then MAX_CNAME_DEPTH - cnameDepth else 0,
                if referralDepth <= MAX_REFERRAL_DEPTH then MAX_REFERRAL_DEPTH + 1 - referralDepth else 0, 1, 1
    {
      hide Budget, GluelessBudget, CnameBudget, Times, Round, NamesAtMost, Minimized, Chain, Combined, Cached, Answered,
           CnameTarget, NsHosts, ReferralZone, GlueForAll, Extended, EqIgnoreCase, DnsRecord.QType, Hop, MovesTo, RoundFits,
           IsCname, ExpectedCname, IsFinal, IsReferral, IsExact, Servers, Resolved, Found, NameLeads, NeverCached, GluelessHandled,
           Addrs, CachedEach, FromRoot;
      ghost var g := Goal(env, rootHints, qname, qtype, referralDepth, cnameDepth);
      names, parts := [], [];
      if reply.Err? {
        FitsErr(qname, qtype, cnameDepth, zone, addrs, idx, reply);
        step := Again(zone, addrs, idx + if |addrs| - idx < 2 then |addrs| - idx else 2);
        NotGlueless(g, zone, reply, step);
        return;
      }
      var response := reply.value;
      var newZone := ReferralZone(response.authorities).GetOr(zone);
      ReferralMoves(response.authorities, zone);
      var (askedName, askedType) := Minimized(qname, qtype, zone);
      Kinds(response, qname, qtype, zone);
      if (askedType != qtype || !EqIgnoreCase(askedName, qname)) && (response.authorities != [] || response.answers != []) {
        var allNs := NsHosts(response.answers);
        if allNs == [] { allNs := NsHosts(response.authorities); }
        ghost var now := calls;
        var newAddrs := NsAddrs(response, allNs);
        if newAddrs != [] {
          ghost var found := newAddrs;
          newAddrs := Sort(newAddrs);
          FoundIs(env, log, response.resources, allNs, now, found, newAddrs);
          step := Again(newZone, newAddrs, 0);
        } else {
          step := Again(newZone, addrs, idx + 1);
        }
        FitsReferral(qname, qtype, cnameDepth, zone, addrs, idx, response, step);
        NotGlueless(g, zone, reply, step);
        return;
      }
      JustAnswered(env, log, Query(qname, qtype, zone, askedName, askedType, addrs[idx..], reply), response);
      if response.answers != [] {
        var combined;
        combined, names, parts := Conclude(qname, qtype, response, referralDepth, cnameDepth, k);
        if IsFinal(response, qname, qtype, IsExact(qname, qtype, zone)) {
          FitsFinal(qname, qtype, cnameDepth, zone, addrs, idx, response);
        } else {
          FitsCname(qname, qtype, cnameDepth, zone, addrs, idx, response, combined);
        }
        NotGlueless(g, zone, reply, Done(combined));
        return Done(combined), names, parts;
      }
      var nsNames := NsHosts(response.authorities);
      if response.header.rescode == NXDOMAIN || response.header.rescode == REFUSED || nsNames == [] {
        FitsFinal(qname, qtype, cnameDepth, zone, addrs, idx, response);
        NotGlueless(g, zone, reply, Done(reply));
        return Done(Ok(response)), [qname], [response];
      }
      step := Refer(qname, qtype, referralDepth, cnameDepth, newZone, response, nsNames, k);
      FitsReferral(qname, qtype, cnameDepth, zone, addrs, idx, response, step);
      GluelessRefers(g, zone, response, step);
    }

    /** The branch of a response with answers: one of the type, or a CNAME to follow, or the response as it is. */
    method Conclude(qname: Text, qtype: QueryType, response: DnsPacket, ghost referralDepth: byte, cnameDepth: byte, ghost k: nat)
      returns (r: Reply, ghost names: seq<Text>, ghost parts: seq<DnsPacket>)
      requires Faithful() && Answered(log, qname, qtype, response)
      modifies this
      ensures old(log) <= log && Faithful()
      ensures r.Ok? ==> Chain(env, log, qtype, names, parts) && names[0] == qname && r.value == Combined(parts)
      ensures r.Ok? ==> |names| <= 1 + if cnameDepth < MAX_CNAME_DEPTH then MAX_CNAME_DEPTH - cnameDepth else 0
      ensures NamesAtMost(env, k) ==> |log| <= |old(log)| + CnameBudget(k, cnameDepth)
      ensures var target := CnameTarget(response.answers, qname);
              if (exists x <- response.answers :: x.QType() == qtype) || qtype == QueryType.CNAME || target.None? then
                r == Ok(response)
              else
                && (cnameDepth >= MAX_CNAME_DEPTH ==> r == Err(MaxCnameDepth))
                && (r.Ok? ==> exists final :: r == Ok(Extended(response, final)))
                && ExpectedCname(Goal(env, rootHints, qname, qtype, referralDepth, cnameDepth), target.value, response, r)
      decreases if cnameDepth < MAX_CNAME_DEPTH then MAX_CNAME_DEPTH - cnameDepth else 0, 0, 1
    {
      hide Budget, CnameBudget, NamesAtMost, Minimized, Chain, Combined, Cached, Answered, CnameTarget, Extended,
           DnsRecord.QType, Hop, ExpectedCname;
      names, parts := [qname], [response];
      OneLink(env, log, qtype, qname, response);
      if (exists x <- response.answers :: x.QType() == qtype) || qtype == QueryType.CNAME { return Ok(response), names, parts; }
      var target := CnameTarget(response.answers, qname);
      if target.None? { return Ok(response), names, parts; }
      IsCnameHop(log, qtype, qname, response, target.value);
      r, names, parts := FollowCname(qname, qtype, response, target.value, referralDepth, cnameDepth, k);
    }

    /** The referral branch: glue, else the cache, else resolving the name servers' own names. */
    method Refer(qname: Text, qtype: QueryType, referralDepth: byte, cnameDepth: byte, newZone: Text, response: DnsPacket,
                 nsNames: seq<Text>, ghost k: nat)
      returns (step: Next)
      requires Faithful() && nsNames == NsHosts(response.authorities)
      requires referralDepth <= MAX_REFERRAL_DEPTH
      modifies this
      ensures old(log) <= log && Faithful()
      ensures var glue := GlueForAll(response.resources, nsNames);
              || (glue == [] && step == Done(Err(Unresolvable)))
              || (step.Again? && step.zone == newZone && step.addrs != [] && step.idx == 0
                  && (glue != [] ==> multiset(step.addrs) == multiset(glue))
                  && Found(env, log, response.resources, nsNames, step.addrs))
      ensures GlueForAll(response.resources, nsNames) == [] && NeverCached(env, nsNames) ==>
                forall found :: NameLeads(Goal(env, rootHints, [], QueryType.A, referralDepth, cnameDepth), nsNames, found) ==>
                  step.Again? && multiset(step.addrs) == multiset(Addrs(found.answers))
      ensures NamesAtMost(env, k) && |nsNames| <= k ==>
                |log| <= |old(log)| + Times(k, 2 * GluelessBudget(k, cnameDepth, referralDepth))
      decreases if cnameDepth < MAX_CNAME_DEPTH then MAX_CNAME_DEPTH - cnameDepth else 0,
                if referralDepth <= MAX_REFERRAL_DEPTH then MAX_REFERRAL_DEPTH + 1 - referralDepth else 0, 1, 0
    {
      hide Budget, GluelessBudget, CnameBudget, Times, NamesAtMost, Minimized, NsHosts, GlueForAll, Resolved, Found, NameLeads,
           CachedEach, Addrs;
      ghost var now := calls;
      var newAddrs := NsAddrs(response, nsNames);
      if newAddrs == [] {
        NamesWithAddresses(env, rootHints, referralDepth, cnameDepth, nsNames);
        newAddrs := ResolveNsNames(nsNames, referralDepth, cnameDepth, k);
        if NamesAtMost(env, k) && |nsNames| <= k { TimesGrows(|nsNames|, k, 2 * GluelessBudget(k, cnameDepth, referralDepth)); }
      }
      if newAddrs == [] { return Done(Err(Unresolvable)); }
      ghost var found := newAddrs;
      newAddrs := Sort(newAddrs);
      FoundIs(env, log, response.resources, nsNames, now, found, newAddrs);
      step := Again(newZone, newAddrs, 0);
    }

    /** `resolve_iterative`. */
    method ResolveIterative(qname: Text, qtype: QueryType, referralDepth: byte, cnameDepth: byte, ghost k: nat)
      returns (r: Reply, ghost names: seq<Text>, ghost parts: seq<DnsPacket>)
      requires Faithful()
      modifies this
      ensures old(log) <= log && Faithful()
      ensures r.Ok? ==> Chain(env, log, qtype, names, parts) && names[0] == qname && r.value == Combined(parts)
      ensures r.Ok? ==> |names| <= 1 + if cnameDepth < MAX_CNAME_DEPTH then MAX_CNAME_DEPTH - cnameDepth else 0
      ensures NamesAtMost(env, k) ==> |log| <= |old(log)| + Budget(k, cnameDepth, referralDepth)
      ensures referralDepth > MAX_REFERRAL_DEPTH ==> r == Err(MaxReferralDepth) && log == old(log)
      ensures referralDepth <= MAX_REFERRAL_DEPTH && env.lookup(old(calls), qname, qtype).Some? ==>
                r == Ok(env.lookup(old(calls), qname, qtype).value) && log == old(log)
      ensures |log| > |old(log)| ==> AskedFirst(env, old(calls) + 1, rootHints, qname, log[|old(log)|])
      ensures referralDepth <= MAX_REFERRAL_DEPTH ==>
                Expected(Cold(env, old(calls), qname, qtype), Goal(env, rootHints, qname, qtype, referralDepth, cnameDepth), r)
      decreases if cnameDepth < MAX_CNAME_DEPTH then MAX_CNAME_DEPTH - cnameDepth else 0,
                if referralDepth <= MAX_REFERRAL_DEPTH then MAX_REFERRAL_DEPTH + 1 - referralDepth else 0, 2
    {
      hide Budget, GluelessBudget, CnameBudget, Times, Round, NamesAtMost, Minimized, Chain, Combined, Cached,
           Answered, CnameTarget, FromRoot, OnTrack, Expected, RoundFits, IsCname, ExpectedCname,
           Closest, IsSorted, AskedFirst;
      names, parts := [], [];
      ghost var cold := Cold(env, calls, qname, qtype);
      ghost var g := Goal(env, rootHints, qname, qtype, referralDepth, cnameDepth);
      BudgetIs(k, cnameDepth, referralDepth);
      if referralDepth > MAX_REFERRAL_DEPTH { return Err(MaxReferralDepth), names, parts; }
      var cached := Lookup(qname, qtype);
      if cached.Some? {
        OneLink(env, log, qtype, qname, cached.value);
        Warm(cold, g, Ok(cached.value));
        return Ok(cached.value), [qname], [cached.value];
      }
      var zone, addrs := FindClosestNs(qname);
      ghost var found := addrs;
      addrs := Sort(addrs);
      ghost var start, sorted := zone, addrs;
      var idx: nat := 0;
      ghost var unit := Round(k, GluelessBudget(k, cnameDepth, referralDepth));
      TimesNext(0, unit);
      ColdStart(env, old(calls), rootHints, qname, qtype, zone, found);
      StartsOnTrack(cold, g, zone, addrs);
      assert addrs[0..] == addrs;
      for round := 0 to MAX_REFERRAL_DEPTH
        invariant old(log) <= log && Faithful()
        invariant idx <= |addrs|
        invariant |log| > |old(log)| ==> AskedFirst(env, old(calls) + 1, rootHints, qname, log[|old(log)|])
        invariant round == 0 ==> log == old(log) && zone == start && addrs[idx..] == sorted
        invariant round > 0 ==> |log| > |old(log)|
        invariant OnTrack(cold, g, zone, addrs[idx..], MAX_REFERRAL_DEPTH - round)
        invariant NamesAtMost(env, k) ==> |log| <= |old(log)| + Times(round, unit)
      {
        TimesNext(round, unit);
        TimesGrows(round + 1, 10, unit);
        if idx >= |addrs| {
          TrackEnds(cold, g, zone, addrs[idx..], MAX_REFERRAL_DEPTH - round, Err(NoNameserver));
          return Err(NoNameserver), names, parts;
        }
        ghost var now, before := calls, |log|;
        var step: Next;
        step, names, parts := OneRound(qname, qtype, referralDepth, cnameDepth, zone, addrs, idx, k);
        if round == 0 { IsAskedFirst(env, old(calls) + 1, rootHints, qname, log[before], found); }
        RoundOnTrack(cold, g, zone, addrs, idx, MAX_REFERRAL_DEPTH - round, now,
                     log[before].reply, step);
        match step {
          case Done(reply) => return reply, names, parts;
          case Again(z, a, i) => zone, addrs, idx := z, a, i;
        }
      }
      r := Err(Exhausted);
      TrackEnds(cold, g, zone, addrs[idx..], 0, r);
    }
  }

  /** What a round leads to: a result, or another round with these servers from this one on. */
  datatype Next = Done(reply: Reply) | Again(zone: Text, addrs: seq<Addr>, idx: nat)

  // ---- A hollow reply to a minimized query ----

  /** Nothing is cached, and every server answers everything with NOERROR and empty sections. */
  const HOLLOW_WORLD := Env((_, _, _) => Option.None, (_, _, _, _) => Ok(HOLLOW), (_, addrs) => addrs)

  const HOLLOW := DnsPacket(NEW_HEADER, [], [], [], [], Option.None)

  lemma HollowAsked(qtype: QueryType)
    ensures Minimized([97, DOT, 98], qtype, [DOT]) == ([98], TYPE_NS) && !EqIgnoreCase([98], [97, DOT, 98])
  {
    var qname: Text, last: Text := [97, DOT, 98], [98];
    assert qname[..2][1] == DOT && LastDot(qname[..2]) == Some(1);
    assert LastDot(qname) == Some(1) && qname[2..] == last;
    assert |LowerText(last)| != |LowerText(qname)|;
  }

  /** At the root only `b` NS is asked for, yet the empty reply is returned as the answer to the question for `a.b`. */
  method HollowReferralIsTheAnswer(qtype: QueryType, server: Addr) returns (step: Next, ghost asked: Query)
    ensures step == Done(Ok(HOLLOW))
    ensures asked == Query([97, DOT, 98], qtype, [DOT], [98], TYPE_NS, [server], Ok(HOLLOW)) && !Exact(asked)
  {
    HollowAsked(qtype);
    hide Minimized, EqIgnoreCase, Chain, Combined, Round, GluelessBudget, CnameBudget, NamesAtMost;
    var resolver := new Resolver(HOLLOW_WORLD, [server]);
    assert resolver.Faithful();
    ghost var names, parts;
    step, names, parts := resolver.OneRound([97, DOT, 98], qtype, 0, 0, [DOT], [server], 0, 0);
    asked := resolver.log[0];
  }
}
