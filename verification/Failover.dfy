/** `forward_with_failover_raw`: upstreams tried in one fixed order, the fastest primaries first. */
module Failover {
  import opened Bytes
  import opened Hedging

  type Millis = nat

  const PRIMARY_SKIP_SRTT_MS: Millis := 4000

  datatype Transport = Udp | Tcp | Doh | Dot | Odoh

  datatype Upstream =
    | UdpUpstream(ip: Text, port: u16)
    | TcpUpstream(ip: Text, port: u16)
    | DotUpstream(ip: Text, port: u16)
    | DohUpstream(url: Text)
    | OdohUpstream(relay: Text, target: Text)
  {
    function TransportOf(): Transport {
      match this
      case UdpUpstream(_, _) => Udp
      case TcpUpstream(_, _) => Tcp
      case DotUpstream(_, _) => Dot
      case DohUpstream(_) => Doh
      case OdohUpstream(_, _) => Odoh
    }

    /** `tracked_key`: what response times are kept under; None for upstreams named by URL. */
    function TrackedKey(): Option<(Text, Transport)> {
      if DohUpstream? || OdohUpstream? then None else Some((ip, TransportOf()))
    }
  }

  datatype UpstreamPool = UpstreamPool(primary: seq<Upstream>, fallback: seq<Upstream>)

  /** The smoothed response times, read once before the first attempt. */
  type Srtt = (Text, Transport) -> Millis

  datatype Candidate = Candidate(index: nat, rtt: Millis)

  function Rtt(srtt: Srtt, u: Upstream): Millis {
    if u.TrackedKey().Some? then srtt(u.TrackedKey().value.0, u.TrackedKey().value.1) else 0
  }

  function Candidates(srtt: Srtt, primary: seq<Upstream>): (r: seq<Candidate>)
    ensures |r| == |primary| && forall i :: 0 <= i < |r| ==> r[i] == Candidate(i, Rtt(srtt, primary[i]))
  {
    seq(|primary|, i requires 0 <= i < |primary| => Candidate(i, Rtt(srtt, primary[i])))
  }

  // ---- The stable sort ----

  /** After all elements that are not slower. */
  function Inserted(sorted: seq<Candidate>, c: Candidate): seq<Candidate> {
    if sorted == [] || sorted[|sorted| - 1].rtt <= c.rtt then sorted + [c]
    else Inserted(sorted[..|sorted| - 1], c) + [sorted[|sorted| - 1]]
  }

  function SortedByRtt(cs: seq<Candidate>): seq<Candidate> {
    if cs == [] then [] else Inserted(SortedByRtt(cs[..|cs| - 1]), cs[|cs| - 1])
  }

  /** Faster, or equally fast and earlier in the configuration. */
  predicate Before(a: Candidate, b: Candidate) { a.rtt < b.rtt || (a.rtt == b.rtt && a.index < b.index) }

  ghost predicate InOrder(cs: seq<Candidate>) { forall i, j :: 0 <= i < j < |cs| ==> Before(cs[i], cs[j]) }

  lemma {:induction false} InsertedSame(sorted: seq<Candidate>, c: Candidate)
    ensures multiset(Inserted(sorted, c)) == multiset(sorted) + multiset{c}
    ensures forall x :: x in Inserted(sorted, c) <==> x in sorted || x == c
  {
    if sorted != [] && sorted[|sorted| - 1].rtt > c.rtt {
      var front, last := sorted[..|sorted| - 1], sorted[|sorted| - 1];
      assert sorted == front + [last];
      InsertedSame(front, c);
    }
  }

  lemma {:induction false} InsertedInOrder(sorted: seq<Candidate>, c: Candidate)
    requires InOrder(sorted) && forall x <- sorted :: x.index < c.index
    ensures InOrder(Inserted(sorted, c))
  {
    if sorted != [] && sorted[|sorted| - 1].rtt > c.rtt {
      var front, last := sorted[..|sorted| - 1], sorted[|sorted| - 1];
      InsertedInOrder(front, c);
      InsertedSame(front, c);
      assert forall x <- Inserted(front, c) :: Before(x, last);
    }
  }

  /** The sort is a permutation in strictly ascending (response time, position): the only such list there is. */
  lemma {:induction false} SortedOk(cs: seq<Candidate>)
    requires forall i, j :: 0 <= i < j < |cs| ==> cs[i].index < cs[j].index
    ensures InOrder(SortedByRtt(cs)) && multiset(SortedByRtt(cs)) == multiset(cs)
    ensures forall x :: x in SortedByRtt(cs) <==> x in cs
  {
    if cs != [] {
      var front, last := cs[..|cs| - 1], cs[|cs| - 1];
      assert cs == front + [last];
      SortedOk(front);
      InsertedInOrder(SortedByRtt(front), last);
      InsertedSame(SortedByRtt(front), last);
    }
  }

  lemma {:induction false} InOrderUnique(a: seq<Candidate>, b: seq<Candidate>)
    requires InOrder(a) && InOrder(b) && multiset(a) == multiset(b)
    ensures a == b
    decreases |a|
  {
    if a != [] && b != [] {
      assert a[0] in multiset(b) && b[0] in multiset(a);
      assert a == [a[0]] + a[1..] && b == [b[0]] + b[1..];
      assert a[0] == b[0];
      assert multiset(a[1..]) == multiset(a) - multiset{a[0]};
      InOrderUnique(a[1..], b[1..]);
    } else {
      assert |multiset(a)| == |a| && |multiset(b)| == |b|;
    }
  }

  // ---- The order of attempts ----

  /** A primary slower than the limit is left out, but only if there is a fallback to turn to. */
  predicate Eligible(pool: UpstreamPool, c: Candidate) { pool.fallback == [] || c.rtt < PRIMARY_SKIP_SRTT_MS }

  function EligibleOnes(pool: UpstreamPool, cs: seq<Candidate>): (r: seq<Candidate>)
    ensures forall x :: x in r <==> x in cs && Eligible(pool, x)
  {
    if cs == [] then [] else (if Eligible(pool, cs[0]) then [cs[0]] else []) + EligibleOnes(pool, cs[1..])
  }

  lemma {:induction false} EligibleInOrder(pool: UpstreamPool, cs: seq<Candidate>)
    requires InOrder(cs)
    ensures InOrder(EligibleOnes(pool, cs))
    decreases |cs|
  {
    if cs != [] {
      EligibleInOrder(pool, cs[1..]);
      assert forall x <- cs[1..] :: Before(cs[0], x);
    }
  }

  function Chosen(pool: UpstreamPool, srtt: Srtt): (r: seq<Candidate>)
    ensures forall c <- r :: c.index < |pool.primary|
  {
    var sorted := SortedByRtt(Candidates(srtt, pool.primary));
    SortedOk(Candidates(srtt, pool.primary));
    EligibleOnes(pool, sorted)
  }

  function Attempts(pool: UpstreamPool, srtt: Srtt): seq<Upstream> {
    var chosen := Chosen(pool, srtt);
    seq(|chosen|, i requires 0 <= i < |chosen| => pool.primary[chosen[i].index]) + pool.fallback
  }

  /** An upstream with an address has the time kept under it and its transport; one named by URL counts as 0 ms. */
  lemma RttIs(srtt: Srtt, u: Upstream)
    ensures match u
            case UdpUpstream(ip, _) => Rtt(srtt, u) == srtt(ip, Udp) && u.TrackedKey() == Some((ip, Udp))
            case TcpUpstream(ip, _) => Rtt(srtt, u) == srtt(ip, Tcp) && u.TrackedKey() == Some((ip, Tcp))
            case DotUpstream(ip, _) => Rtt(srtt, u) == srtt(ip, Dot) && u.TrackedKey() == Some((ip, Dot))
            case DohUpstream(_) => Rtt(srtt, u) == 0 && u.TrackedKey() == None
            case OdohUpstream(_, _) => Rtt(srtt, u) == 0 && u.TrackedKey() == None
  {
  }

  /**
   * The attempts are the primaries below 4000 ms, or all of them when there is no fallback, each once, in ascending
   * response time and configuration order, and then all fallbacks; there is always one to make unless the pool is empty.
   */
  lemma AttemptsAre(pool: UpstreamPool, srtt: Srtt)
    ensures var chosen := Chosen(pool, srtt);
            && (forall i, j :: 0 <= i < j < |chosen| ==>
                  chosen[i].rtt < chosen[j].rtt || (chosen[i].rtt == chosen[j].rtt && chosen[i].index < chosen[j].index))
            && (forall c :: c in chosen <==> c.index < |pool.primary| && c.rtt == Rtt(srtt, pool.primary[c.index])
                                             && (pool.fallback == [] || c.rtt < 4000))
            && |Attempts(pool, srtt)| == |chosen| + |pool.fallback|
            && (forall i :: 0 <= i < |chosen| ==> Attempts(pool, srtt)[i] == pool.primary[chosen[i].index])
            && Attempts(pool, srtt)[|chosen|..] == pool.fallback
    ensures Attempts(pool, srtt) == [] <==> pool.primary == [] && pool.fallback == []
  {
    var cs := Candidates(srtt, pool.primary);
    SortedOk(cs);
    EligibleInOrder(pool, SortedByRtt(cs));
    forall c: Candidate
      ensures c in cs <==> c.index < |pool.primary| && c.rtt == Rtt(srtt, pool.primary[c.index])
    {
      if c.index < |pool.primary| && c.rtt == Rtt(srtt, pool.primary[c.index]) { assert c == cs[c.index]; }
    }
    hide SortedByRtt, EligibleOnes, Rtt;
    if pool.primary != [] && pool.fallback == [] {
      assert cs[0] in Chosen(pool, srtt);
    }
  }

  // ---- The attempts ----

  datatype Record = Failed(key: (Text, Transport)) | Succeeded(key: (Text, Transport))

  /** The records of a run of failed attempts: one for each that is tracked. */
  function FailureRecords(us: seq<Upstream>): (r: seq<Record>)
    ensures |r| <= |us|
  {
    if us == [] then []
    else
      var key := us[|us| - 1].TrackedKey();
      FailureRecords(us[..|us| - 1]) + if key.Some? then [Failed(key.value)] else []
  }

  lemma FailureRecordsNext(us: seq<Upstream>, k: nat)
    requires k <= |us|
    ensures FailureRecords(us[..0]) == [] && us[..|us|] == us
    ensures k < |us| ==>
              FailureRecords(us[..k + 1])
              == FailureRecords(us[..k]) + if us[k].TrackedKey().Some? then [Failed(us[k].TrackedKey().value)] else []
  {
    if k < |us| { assert us[..k + 1][..k] == us[..k]; }
  }

  /** Attempt by attempt: a failure is recorded under address and transport, and not at all under a URL. */
  lemma FailureRecordsAre(us: seq<Upstream>, u: Upstream)
    ensures FailureRecords([]) == []
    ensures FailureRecords(us + [u])
            == FailureRecords(us) + (match u
                                     case UdpUpstream(ip, _) => [Failed((ip, Udp))]
                                     case TcpUpstream(ip, _) => [Failed((ip, Tcp))]
                                     case DotUpstream(ip, _) => [Failed((ip, Dot))]
                                     case DohUpstream(_) => []
                                     case OdohUpstream(_, _) => [])
    ensures |SuccessRecord(u)| == |FailureRecords([u])|
            && forall i :: 0 <= i < |SuccessRecord(u)| ==> SuccessRecord(u)[i] == Succeeded(FailureRecords([u])[i].key)
  {
    assert (us + [u])[..|us|] == us && [u][..0] == [];
  }

  function SuccessRecord(u: Upstream): seq<Record> {
    if u.TrackedKey().Some? then [Succeeded(u.TrackedKey().value)] else []
  }

  /**
   * The loop; `ask` is the outcome of each attempt, hedged or not. `tried` counts the attempts and `records` is what is
   * reported to the response time table.
   */
  method ForwardWithFailover<V, E>(pool: UpstreamPool, srtt: Srtt, ask: (nat, Upstream) -> Result<V, E>, noUpstream: E)
    returns (r: Result<V, E>, tried: nat, records: seq<Record>)
    ensures var attempts := Attempts(pool, srtt);
            && tried <= |attempts|
            && (forall i :: 0 <= i < tried - 1 ==> ask(i, attempts[i]).Err?)
            && (tried > 0 ==> r == ask(tried - 1, attempts[tried - 1]))
            && (r.Err? ==> tried == |attempts| && records == FailureRecords(attempts))
            && (r.Ok? ==> tried > 0 && records == FailureRecords(attempts[..tried - 1]) + SuccessRecord(attempts[tried - 1]))
    ensures tried == 0 <==> pool.primary == [] && pool.fallback == []
    ensures tried == 0 ==> r == Err(noUpstream)
  {
    AttemptsAre(pool, srtt);
    var attempts := Attempts(pool, srtt);
    hide Attempts, Chosen, Eligible, FailureRecords, SuccessRecord, Upstream.TrackedKey, Rtt;
    var lastErr: Option<E> := None;
    tried, records := 0, [];
    FailureRecordsNext(attempts, 0);
    while tried < |attempts|
      invariant tried <= |attempts|
      invariant forall i :: 0 <= i < tried ==> ask(i, attempts[i]).Err?
      invariant if tried == 0 then lastErr.None? else lastErr.Some? && Err(lastErr.value) == ask(tried - 1, attempts[tried - 1])
      invariant records == FailureRecords(attempts[..tried])
    {
      var upstream := attempts[tried];
      var result := ask(tried, upstream);
      FailureRecordsNext(attempts, tried);
      tried := tried + 1;
      if result.Ok? {
        records := records + SuccessRecord(upstream);
        return result, tried, records;
      }
      if upstream.TrackedKey().Some? { records := records + [Failed(upstream.TrackedKey().value)]; }
      lastErr := Some(result.error);
    }
    r := Err(lastErr.GetOr(noUpstream));
  }
}
