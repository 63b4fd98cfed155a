/** Locally configured zones: the two-bucket index of `build_zone_map` and its wildcard lookup (RFC 4592). */
module Zones {
  import opened Bytes
  import opened Question
  import opened Record

  /** A parsed `value` of a configured record; the text forms of types and values are not modelled. */
  datatype ZoneValue =
    | AValue(addr: Ipv4)
    | AaaaValue(addr6: Ipv6)
    | CnameValue(host: Text)
    | PtrValue(host: Text)
    | NsValue(host: Text)
    | MxValue(priority: u16, host: Text)
    | Unparsable

  datatype ZoneRecord = ZoneRecord(domain: Text, value: ZoneValue, ttl: u32)

  // ---- One configured record ----

  function TrimDots(t: Text): Text {
    if t != [] && t[|t| - 1] == DOT then TrimDots(t[..|t| - 1]) else t
  }

  function Spelled(z: ZoneRecord): Text { TrimDots(LowerText(z.domain)) }

  predicate IsWildcard(z: ZoneRecord) { |Spelled(z)| >= 2 && Spelled(z)[..2] == [STAR, DOT] }

  /** The name a record is filed under: without the `*.` of a wildcard. */
  function KeyOf(z: ZoneRecord): Text { if IsWildcard(z) then Spelled(z)[2..] else Spelled(z) }

  predicate Acceptable(z: ZoneRecord) { KeyOf(z) != [] && STAR !in KeyOf(z) && !z.value.Unparsable? }

  function RecordOf(z: ZoneRecord): (r: DnsRecord)
    requires Acceptable(z)
    ensures r.domain == KeyOf(z)
  {
    match z.value
    case AValue(addr) => DnsRecord.A(KeyOf(z), addr, z.ttl)
    case AaaaValue(addr6) => DnsRecord.AAAA(KeyOf(z), addr6, z.ttl)
    case CnameValue(host) => DnsRecord.CNAME(KeyOf(z), host, z.ttl)
    case PtrValue(host) => DnsRecord.PTR(KeyOf(z), host, z.ttl)
    case NsValue(host) => DnsRecord.NS(KeyOf(z), host, z.ttl)
    case MxValue(priority, host) => DnsRecord.MX(KeyOf(z), priority, host, z.ttl)
  }

  // ---- The rule ----

  /** Everything configured at a name (or below it, for a wildcard), in the order of the file. */
  function ConfiguredAt(zones: seq<ZoneRecord>, wildcard: bool, key: Text): seq<DnsRecord>
    requires forall z <- zones :: Acceptable(z)
  {
    if zones == [] then []
    else
      var last := zones[|zones| - 1];
      ConfiguredAt(zones[..|zones| - 1], wildcard, key)
      + (if IsWildcard(last) == wildcard && KeyOf(last) == key then [RecordOf(last)] else [])
  }

  function OfType(rs: seq<DnsRecord>, t: QueryType): (r: seq<DnsRecord>)
    ensures forall x <- r :: x in rs && x.QType() == t
  {
    if rs == [] then []
    else OfType(rs[..|rs| - 1], t) + (if rs[|rs| - 1].QType() == t then [rs[|rs| - 1]] else [])
  }

  /** What one node answers: the type's records, else its CNAMEs, else NODATA. */
  function NodeAnswer(rs: seq<DnsRecord>, t: QueryType): seq<DnsRecord> {
    if OfType(rs, t) != [] then OfType(rs, t) else OfType(rs, QueryType.CNAME)
  }

  function Rebound(rs: seq<DnsRecord>, qname: Text): (r: seq<DnsRecord>)
    ensures |r| == |rs| && forall i :: 0 <= i < |rs| ==> r[i] == rs[i].(domain := qname)
  {
    seq(|rs|, i requires 0 <= i < |rs| => rs[i].(domain := qname))
  }

  /** The part after the dot at `i` is a proper parent under which a wildcard is configured. */
  predicate WildcardAbove(zones: seq<ZoneRecord>, qname: Text, i: nat)
    requires forall z <- zones :: Acceptable(z)
  {
    i + 1 < |qname| && qname[i] == DOT && ConfiguredAt(zones, true, qname[i + 1..]) != []
  }

  /** The declarative rule: an exact owner shadows every wildcard, else the longest parent with a wildcard answers. */
  ghost predicate Answers(zones: seq<ZoneRecord>, qname: Text, qtype: QueryType, r: Option<seq<DnsRecord>>)
    requires forall z <- zones :: Acceptable(z)
  {
    if ConfiguredAt(zones, false, qname) != [] then r == Some(NodeAnswer(ConfiguredAt(zones, false, qname), qtype))
    else if exists i: nat :: WildcardAbove(zones, qname, i) then
      exists i: nat ::
        && FirstWildcard(zones, qname, i)
        && r == Some(Rebound(NodeAnswer(ConfiguredAt(zones, true, qname[i + 1..]), qtype), qname))
    else r == None
  }

  /** The longest such parent. */
  ghost predicate FirstWildcard(zones: seq<ZoneRecord>, qname: Text, i: nat)
    requires forall z <- zones :: Acceptable(z)
    ensures FirstWildcard(zones, qname, i) ==> i < |qname|
  {
    WildcardAbove(zones, qname, i) && forall j: nat :: j < i ==> !WildcardAbove(zones, qname, j)
  }

  // ---- The index ----

  type Bucket = map<Text, map<QueryType, seq<DnsRecord>>>

  /** `entry(key).or_default().entry(type).or_default().push(record)`. */
  function Pushed(b: Bucket, key: Text, r: DnsRecord): Bucket {
    var inner := if key in b then b[key] else map[];
    var list := if r.QType() in inner then inner[r.QType()] else [];
    b[key := inner[r.QType() := list + [r]]]
  }

  /** The bucket files exactly the configured records, by name and type, in order. */
  ghost predicate Indexes(b: Bucket, zones: seq<ZoneRecord>, wildcard: bool)
    requires forall z <- zones :: Acceptable(z)
  {
    && (forall key :: key in b <==> ConfiguredAt(zones, wildcard, key) != [])
    && (forall key :: key in b ==> FilesByType(b[key], ConfiguredAt(zones, wildcard, key)))
  }

  ghost predicate FilesByType(inner: map<QueryType, seq<DnsRecord>>, rs: seq<DnsRecord>) {
    && (forall t :: t in inner <==> OfType(rs, t) != [])
    && (forall t :: t in inner ==> inner[t] == OfType(rs, t))
  }

  class ZoneMap {
    var exact: Bucket
    var wildcard: Bucket

    constructor ()
      ensures exact == map[] && wildcard == map[]
    {
      exact, wildcard := map[], map[];
    }

    /** Both buckets are what the configuration says. */
    ghost predicate Valid(zones: seq<ZoneRecord>)
      reads this
    {
      && (forall z <- zones :: Acceptable(z))
      && Indexes(exact, zones, false) && Indexes(wildcard, zones, true)
    }

    method Lookup(qname: Text, qtype: QueryType, ghost zones: seq<ZoneRecord>) returns (r: Option<seq<DnsRecord>>)
      requires Valid(zones)
      ensures Answers(zones, qname, qtype, r)
    {
      hide ConfiguredAt, Acceptable, OfType, Rebound, NodeAnswer;
      if qname in exact {
        var answer := FromNode(exact[qname], qtype, ConfiguredAt(zones, false, qname));
        return Some(answer);
      }
      var from: nat := 0;
      while true
        invariant from <= |qname|
        invariant forall j: nat :: j < from ==> !WildcardAbove(zones, qname, j)
        decreases |qname| - from
      {
        var dot := FindDot(qname, from);
        if dot == |qname| { break; }
        var parent := qname[dot + 1..];
        if parent == [] { break; }
        if parent in wildcard {
          assert WildcardAbove(zones, qname, dot) && FirstWildcard(zones, qname, dot);
          var answer := FromNode(wildcard[parent], qtype, ConfiguredAt(zones, true, parent));
          return Some(Rebound(answer, qname));
        }
        from := dot + 1;
      }
      r := None;
    }
  }

  /** The three-way choice inside one node. */
  method FromNode(inner: map<QueryType, seq<DnsRecord>>, qtype: QueryType,
                  ghost rs: seq<DnsRecord>) returns (r: seq<DnsRecord>)
    requires FilesByType(inner, rs)
    ensures r == NodeAnswer(rs, qtype)
  {
    hide OfType;
    if qtype in inner { return inner[qtype]; }
    if qtype != QueryType.CNAME {
      if QueryType.CNAME in inner { return inner[QueryType.CNAME]; }
    }
    r := [];
  }

  /** `build_zone_map`: None on the first record that is not acceptable. */
  method BuildZoneMap(zones: seq<ZoneRecord>) returns (r: Option<ZoneMap>)
    ensures r.Some? <==> forall z <- zones :: Acceptable(z)
    ensures r.Some? ==> fresh(r.value) && r.value.Valid(zones)
  {
    hide Acceptable, Indexes, ConfiguredAt, RecordOf, IsWildcard, KeyOf;
    var m := new ZoneMap();
    NothingIndexed();
    assert zones[..0] == [];
    for i := 0 to |zones|
      invariant forall z <- zones[..i] :: Acceptable(z)
      invariant m.Valid(zones[..i])
    {
      var z := zones[i];
      assert zones[..i + 1] == zones[..i] + [z];
      if !Acceptable(z) { return None; }
      PushIndexes(m.exact, zones[..i], z, false);
      PushIndexes(m.wildcard, zones[..i], z, true);
      if IsWildcard(z) {
        m.wildcard := Pushed(m.wildcard, KeyOf(z), RecordOf(z));
      } else {
        m.exact := Pushed(m.exact, KeyOf(z), RecordOf(z));
      }
    }
    assert zones[..|zones|] == zones;
    r := Some(m);
  }

  lemma NothingIndexed()
    ensures Indexes(map[], [], false) && Indexes(map[], [], true)
  {
  }

  lemma ConfiguredSnoc(zones: seq<ZoneRecord>, z: ZoneRecord, wildcard: bool, key: Text)
    requires (forall y <- zones :: Acceptable(y)) && Acceptable(z)
    ensures forall y <- zones + [z] :: Acceptable(y)
    ensures ConfiguredAt(zones + [z], wildcard, key) == ConfiguredAt(zones, wildcard, key)
              + (if IsWildcard(z) == wildcard && KeyOf(z) == key then [RecordOf(z)] else [])
  {
    hide Acceptable, IsWildcard, KeyOf, RecordOf;
    assert (zones + [z])[..|zones|] == zones;
  }

  lemma PushIndexes(b: Bucket, zones: seq<ZoneRecord>, z: ZoneRecord, wildcard: bool)
    requires (forall y <- zones :: Acceptable(y)) && Acceptable(z) && Indexes(b, zones, wildcard)
    ensures forall y <- zones + [z] :: Acceptable(y)
    ensures Indexes(if IsWildcard(z) == wildcard then Pushed(b, KeyOf(z), RecordOf(z)) else b, zones + [z], wildcard)
  {
    hide ConfiguredAt, Acceptable, IsWildcard, KeyOf, RecordOf, FilesByType, DnsRecord.QType;
    var n := if IsWildcard(z) == wildcard then Pushed(b, KeyOf(z), RecordOf(z)) else b;
    forall y | y in zones + [z] ensures Acceptable(y) {}
    forall key
      ensures key in n <==> ConfiguredAt(zones + [z], wildcard, key) != []
      ensures key in n ==> FilesByType(n[key], ConfiguredAt(zones + [z], wildcard, key))
    {
      ConfiguredSnoc(zones, z, wildcard, key);
      var rs := ConfiguredAt(zones, wildcard, key);
      if IsWildcard(z) == wildcard && KeyOf(z) == key {
        NoRecordsNoTypes();
        PushFiles(if key in b then b[key] else map[], rs, RecordOf(z));
      } else {
        assert rs + [] == rs;
      }
    }
  }

  lemma NoRecordsNoTypes()
    ensures FilesByType(map[], [])
  {
  }

  lemma OfTypeSnoc(rs: seq<DnsRecord>, r: DnsRecord, t: QueryType)
    ensures OfType(rs + [r], t) == OfType(rs, t) + if r.QType() == t then [r] else []
  {
    hide DnsRecord.QType;
    assert (rs + [r])[..|rs|] == rs;
  }

  lemma PushFiles(inner: map<QueryType, seq<DnsRecord>>, rs: seq<DnsRecord>, r: DnsRecord)
    requires FilesByType(inner, rs)
    ensures var list := if r.QType() in inner then inner[r.QType()] else [];
            FilesByType(inner[r.QType() := list + [r]], rs + [r])
  {
    hide OfType, DnsRecord.QType;
    forall t ensures OfType(rs + [r], t) == OfType(rs, t) + if r.QType() == t then [r] else [] {
      OfTypeSnoc(rs, r, t);
    }
  }

  // ---- Consequences of the rule ----

  lemma {:induction false} ConfiguredOwner(zones: seq<ZoneRecord>, wildcard: bool, key: Text)
    requires forall z <- zones :: Acceptable(z)
    ensures forall r <- ConfiguredAt(zones, wildcard, key) :: r.domain == key
  {
    hide RecordOf;
    if zones != [] { ConfiguredOwner(zones[..|zones| - 1], wildcard, key); }
  }

  /** No configured record is lost: each is found where it is filed. */
  lemma {:induction false} NothingLost(zones: seq<ZoneRecord>, z: ZoneRecord)
    requires (forall y <- zones :: Acceptable(y)) && z in zones
    ensures RecordOf(z) in ConfiguredAt(zones, IsWildcard(z), KeyOf(z))
  {
    hide Acceptable, IsWildcard, KeyOf, RecordOf;
    var front, last := zones[..|zones| - 1], zones[|zones| - 1];
    assert zones == front + [last];
    if z != last { NothingLost(front, z); }
  }

  /** `node` is what the zones hold for the name: at the exact owner, else under the longest parent with a wildcard. */
  ghost predicate IsNode(zones: seq<ZoneRecord>, qname: Text, node: seq<DnsRecord>)
    requires forall z <- zones :: Acceptable(z)
  {
    if ConfiguredAt(zones, false, qname) != [] then node == ConfiguredAt(zones, false, qname)
    else exists i: nat :: FirstWildcard(zones, qname, i) && node == ConfiguredAt(zones, true, qname[i + 1..])
  }

  /**
   * Every returned record is owned by the question's name; all have its type, or all are CNAMEs, and those
   * only if the node has nothing of the type.
   */
  lemma AnswersFit(zones: seq<ZoneRecord>, qname: Text, qtype: QueryType, r: Option<seq<DnsRecord>>)
    returns (node: seq<DnsRecord>)
    requires (forall z <- zones :: Acceptable(z)) && Answers(zones, qname, qtype, r) && r.Some?
    ensures IsNode(zones, qname, node) && |r.value| == |NodeAnswer(node, qtype)|
    ensures Fits(r.value, qname, qtype, node)
  {
    hide Acceptable, NodeAnswer, Rebound, ConfiguredAt, Fits, FirstWildcard, WildcardAbove;
    if ConfiguredAt(zones, false, qname) != [] {
      node := ConfiguredAt(zones, false, qname);
      ConfiguredOwner(zones, false, qname);
      NodeAnswerFits(node, qname, qtype);
    } else {
      var i: nat :| FirstWildcard(zones, qname, i)
                    && r == Some(Rebound(NodeAnswer(ConfiguredAt(zones, true, qname[i + 1..]), qtype), qname));
      node := ConfiguredAt(zones, true, qname[i + 1..]);
      ConfiguredOwner(zones, true, qname[i + 1..]);
      NodeAnswerFits(node, qname[i + 1..], qtype);
      ReboundFits(NodeAnswer(node, qtype), qname[i + 1..], qname, qtype, node);
    }
  }

  ghost predicate Fits(rs: seq<DnsRecord>, owner: Text, t: QueryType, node: seq<DnsRecord>) {
    && (forall x <- rs :: x.domain == owner)
    && ((forall x <- rs :: x.QType() == t)
        || ((forall x <- rs :: x.QType() == QueryType.CNAME) && forall y <- node :: y.QType() != t))
  }

  lemma NodeAnswerFits(rs: seq<DnsRecord>, owner: Text, t: QueryType)
    requires forall x <- rs :: x.domain == owner
    ensures Fits(NodeAnswer(rs, t), owner, t, rs)
  {
    NoneOfType(rs, t);
    hide OfType, DnsRecord.QType;
  }

  lemma {:induction false} NoneOfType(rs: seq<DnsRecord>, t: QueryType)
    ensures OfType(rs, t) == [] <==> forall y <- rs :: y.QType() != t
  {
    hide DnsRecord.QType;
    if rs != [] {
      NoneOfType(rs[..|rs| - 1], t);
      assert rs == rs[..|rs| - 1] + [rs[|rs| - 1]];
    }
  }

  lemma ReboundFits(rs: seq<DnsRecord>, owner: Text, qname: Text, t: QueryType, node: seq<DnsRecord>)
    requires Fits(rs, owner, t, node)
    ensures Fits(Rebound(rs, qname), qname, t, node)
  {
    forall x | x in Rebound(rs, qname) ensures x.domain == qname && exists y :: y in rs && x.QType() == y.QType() {
      var i :| 0 <= i < |rs| && Rebound(rs, qname)[i] == x;
      RebindType(rs[i], qname);
      assert rs[i] in rs;
    }
    hide Rebound, DnsRecord.QType;
  }

  lemma RebindType(r: DnsRecord, qname: Text)
    ensures r.(domain := qname).QType() == r.QType()
  {
  }

  // ---- In the words of the configuration ----

  /** The domain is spelled as this name in any letter case, behind `*.` for a wildcard, with any number of dots after it. */
  ghost predicate Spells(z: ZoneRecord, wildcard: bool, name: Text) {
    && name != [] && name[|name| - 1] != DOT && STAR !in name
    && exists dots: Text :: AllDots(dots) && LowerText(z.domain) == Mark(wildcard) + name + dots
  }

  predicate AllDots(t: Text) { forall i :: 0 <= i < |t| ==> t[i] == DOT }

  /** What tells a wildcard from the name it is for. */
  function Mark(wildcard: bool): Text { if wildcard then [STAR, DOT] else [] }

  /** The record says what is configured: the value, the TTL, and the type that goes with the value. */
  predicate Carries(r: DnsRecord, z: ZoneRecord) {
    match z.value
    case AValue(a) => r.A? && r.addr == a && r.ttl == z.ttl
    case AaaaValue(a) => r.AAAA? && r.addr6 == a && r.ttl == z.ttl
    case CnameValue(h) => r.CNAME? && r.host == h && r.ttl == z.ttl
    case PtrValue(h) => r.PTR? && r.host == h && r.ttl == z.ttl
    case NsValue(h) => r.NS? && r.host == h && r.ttl == z.ttl
    case MxValue(p, h) => r.MX? && r.priority == p && r.host == h && r.ttl == z.ttl
    case Unparsable => false
  }

  /** The trimmed text is what comes before the dots at the end. */
  lemma {:induction false} TrimmedIs(t: Text, name: Text, dots: Text)
    requires t == name + dots && AllDots(dots) && (name != [] ==> name[|name| - 1] != DOT)
    ensures TrimDots(t) == name
    decreases |dots|
  {
    if dots != [] {
      assert t[|t| - 1] == dots[|dots| - 1];
      assert t[..|t| - 1] == name + dots[..|dots| - 1];
      TrimmedIs(t[..|t| - 1], name, dots[..|dots| - 1]);
    } else {
      assert t == name;
    }
  }

  lemma {:induction false} TrimmedDots(t: Text) returns (dots: Text)
    ensures t == TrimDots(t) + dots && AllDots(dots)
    ensures TrimDots(t) != [] ==> TrimDots(t)[|TrimDots(t)| - 1] != DOT
  {
    dots := [];
    if t != [] && t[|t| - 1] == DOT {
      var front := TrimmedDots(t[..|t| - 1]);
      dots := front + [DOT];
    }
  }

  /** A record is accepted exactly if its domain spells a name; it is filed under that name with what is configured. */
  lemma SpelledIff(z: ZoneRecord)
    ensures Acceptable(z) <==> !z.value.Unparsable? && exists wildcard, name :: Spells(z, wildcard, name)
    ensures forall wildcard, name :: Spells(z, wildcard, name) ==> IsWildcard(z) == wildcard && KeyOf(z) == name
    ensures Acceptable(z) ==> Spells(z, IsWildcard(z), KeyOf(z)) && Carries(RecordOf(z), z)
  {
    forall wildcard, name | Spells(z, wildcard, name)
      ensures IsWildcard(z) == wildcard && KeyOf(z) == name && (!z.value.Unparsable? ==> Acceptable(z))
    {
      SpelledKey(z, wildcard, name);
    }
    if Acceptable(z) { AcceptedSpells(z); }
  }

  lemma SpelledKey(z: ZoneRecord, wildcard: bool, name: Text)
    requires Spells(z, wildcard, name)
    ensures IsWildcard(z) == wildcard && KeyOf(z) == name && (!z.value.Unparsable? ==> Acceptable(z))
  {
    var dots: Text :| AllDots(dots) && LowerText(z.domain) == Mark(wildcard) + name + dots;
    TrimmedIs(LowerText(z.domain), Mark(wildcard) + name, dots);
    hide LowerText, TrimDots, AllDots;
    MarkedKey(z, wildcard, name);
  }

  lemma MarkedKey(z: ZoneRecord, wildcard: bool, name: Text)
    requires Spelled(z) == Mark(wildcard) + name && name != [] && STAR !in name
    ensures IsWildcard(z) == wildcard && KeyOf(z) == name
  {
    hide Spelled;
    if wildcard {
      assert Spelled(z)[..2] == [STAR, DOT] && Spelled(z)[2..] == name;
    } else {
      assert Spelled(z) == name;
      assert name[0] in name;
    }
  }

  lemma AcceptedSpells(z: ZoneRecord)
    requires Acceptable(z)
    ensures Spells(z, IsWildcard(z), KeyOf(z)) && Carries(RecordOf(z), z)
  {
    var dots := TrimmedDots(LowerText(z.domain));
    hide LowerText, TrimDots, AllDots;
    assert Spelled(z) == Mark(IsWildcard(z)) + KeyOf(z);
  }

  lemma {:induction false} ConfiguredFrom(zones: seq<ZoneRecord>, wildcard: bool, key: Text)
    requires forall z <- zones :: Acceptable(z)
    ensures ConfiguredAt(zones, wildcard, key) != [] ==> exists z :: z in zones && IsWildcard(z) == wildcard && KeyOf(z) == key
  {
    hide Acceptable, IsWildcard, KeyOf, RecordOf;
    if zones != [] { ConfiguredFrom(zones[..|zones| - 1], wildcard, key); }
  }

  /** The name owns no exact record, and no other wildcard is nearer to it than this one. */
  ghost predicate Nearest(zones: seq<ZoneRecord>, qname: Text, name: Text) {
    && (forall y, m :: y in zones && Spells(y, false, m) ==> m != qname)
    && (forall y, m :: y in zones && Spells(y, true, m) && Below(qname, m) ==> |m| <= |name|)
  }

  predicate Below(qname: Text, name: Text) {
    |name| < |qname| && qname[|qname| - |name|..] == name && qname[|qname| - |name| - 1] == DOT
  }

  /**
   * Each configured record is answered, with its value, type and TTL: an exact one for its own name, a wildcard for every
   * name below it that no exact record and no nearer wildcard takes.
   */
  lemma ConfiguredIsAnswered(zones: seq<ZoneRecord>, z: ZoneRecord, wildcard: bool, name: Text, qname: Text, qtype: QueryType,
                             r: Option<seq<DnsRecord>>)
    requires (forall y <- zones :: Acceptable(y)) && z in zones && Spells(z, wildcard, name)
    requires if wildcard then Nearest(zones, qname, name) && Below(qname, name) else qname == name
    requires Answers(zones, qname, qtype, r) && RecordOf(z).QType() == qtype
    ensures r.Some? && exists x :: x in r.value && x.domain == qname && Carries(x, z)
  {
    SpelledIff(z);
    NothingLost(zones, z);
    hide Acceptable, NodeAnswer, Rebound, ConfiguredAt, Answers, Carries, Spells, IsWildcard, KeyOf, Nearest, RecordOf,
         DnsRecord.QType;
    var node := ConfiguredAt(zones, wildcard, name);
    InAnswer(node, RecordOf(z), qtype);
    if wildcard {
      WildcardAnswers(zones, z, name, qname, qtype, r);
      InRebound(NodeAnswer(node, qtype), z, qname);
    } else {
      ExactAnswers(zones, qname, qtype, r);
    }
  }

  lemma ExactAnswers(zones: seq<ZoneRecord>, qname: Text, qtype: QueryType, r: Option<seq<DnsRecord>>)
    requires (forall y <- zones :: Acceptable(y)) && Answers(zones, qname, qtype, r) && ConfiguredAt(zones, false, qname) != []
    ensures r == Some(NodeAnswer(ConfiguredAt(zones, false, qname), qtype))
  {
    hide Acceptable, NodeAnswer, Rebound, ConfiguredAt, FirstWildcard, WildcardAbove;
  }

  lemma WildcardAnswers(zones: seq<ZoneRecord>, z: ZoneRecord, name: Text, qname: Text, qtype: QueryType,
                        r: Option<seq<DnsRecord>>)
    requires (forall y <- zones :: Acceptable(y)) && z in zones && Spells(z, true, name)
    requires Nearest(zones, qname, name) && Below(qname, name) && Answers(zones, qname, qtype, r)
    ensures r == Some(Rebound(NodeAnswer(ConfiguredAt(zones, true, name), qtype), qname))
  {
    hide Acceptable, NodeAnswer, Rebound, ConfiguredAt, Spells, Nearest;
    NearestIsFirst(zones, z, name, qname);
    assert WildcardAbove(zones, qname, |qname| - |name| - 1);
    hide FirstWildcard, WildcardAbove;
  }

  lemma {:induction false} InOfType(rs: seq<DnsRecord>, x: DnsRecord)
    requires x in rs
    ensures x in OfType(rs, x.QType())
  {
    hide DnsRecord.QType;
    var front, last := rs[..|rs| - 1], rs[|rs| - 1];
    assert rs == front + [last];
    if x in front { InOfType(front, x); }
  }

  lemma InAnswer(node: seq<DnsRecord>, x: DnsRecord, t: QueryType)
    requires x in node && x.QType() == t
    ensures x in NodeAnswer(node, t)
  {
    InOfType(node, x);
    hide OfType, DnsRecord.QType;
  }

  lemma InRebound(rs: seq<DnsRecord>, z: ZoneRecord, qname: Text)
    requires Acceptable(z) && RecordOf(z) in rs
    ensures exists x :: x in Rebound(rs, qname) && x.domain == qname && Carries(x, z)
  {
    var i :| 0 <= i < |rs| && rs[i] == RecordOf(z);
    var x := Rebound(rs, qname)[i];
    assert x in Rebound(rs, qname);
  }

  lemma NearestIsFirst(zones: seq<ZoneRecord>, z: ZoneRecord, name: Text, qname: Text)
    requires (forall y <- zones :: Acceptable(y)) && z in zones && Spells(z, true, name)
    requires Nearest(zones, qname, name) && Below(qname, name)
    ensures ConfiguredAt(zones, false, qname) == [] && FirstWildcard(zones, qname, |qname| - |name| - 1)
    ensures forall i: nat :: FirstWildcard(zones, qname, i) ==> i == |qname| - |name| - 1
  {
    var at: nat := |qname| - |name| - 1;
    assert name != [] && qname[at + 1..] == name;
    SpelledIff(z);
    NothingLost(zones, z);
    hide Acceptable, ConfiguredAt, IsWildcard, KeyOf, RecordOf, Spells, Nearest;
    assert WildcardAbove(zones, qname, at);
    NoneExact(zones, qname, name);
    forall i: nat | WildcardAbove(zones, qname, i) ensures i >= at { NoneNearer(zones, qname, name, i); }
  }

  lemma NoneExact(zones: seq<ZoneRecord>, qname: Text, name: Text)
    requires (forall y <- zones :: Acceptable(y)) && Nearest(zones, qname, name)
    ensures ConfiguredAt(zones, false, qname) == []
  {
    ConfiguredFrom(zones, false, qname);
    hide Acceptable, ConfiguredAt, IsWildcard, KeyOf, Spells, RecordOf;
    if y :| y in zones && !IsWildcard(y) && KeyOf(y) == qname { SpelledIff(y); }
  }

  lemma NoneNearer(zones: seq<ZoneRecord>, qname: Text, name: Text, i: nat)
    requires (forall y <- zones :: Acceptable(y)) && Nearest(zones, qname, name) && WildcardAbove(zones, qname, i)
    ensures |qname| - i - 1 <= |name|
  {
    ConfiguredFrom(zones, true, qname[i + 1..]);
    hide Acceptable, ConfiguredAt, IsWildcard, KeyOf, Spells, RecordOf;
    var y :| y in zones && IsWildcard(y) && KeyOf(y) == qname[i + 1..];
    SpelledIff(y);
    assert Below(qname, qname[i + 1..]);
  }
}
