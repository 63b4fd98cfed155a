/** `group_rrsets`: the non-RRSIG answers by owner and type, in order of first appearance. */
module Grouping {
  import opened Bytes
  import opened Question
  import opened Record

  datatype Group = Group(name: Text, qtype: QueryType, rrset: seq<DnsRecord>)

  predicate InGroup(r: DnsRecord, g: Group) {
    g.name == LowerText(r.domain) && g.qtype == r.QType()
  }

  /** The test of `matching_rrsigs_for`: a signature over the RRset of this owner and type. */
  predicate Matches(sig: DnsRecord, name: Text, qtype: QueryType) {
    sig.RRSIG? && EqIgnoreCase(sig.domain, name) && QueryType.FromNum(sig.typeCovered) == qtype
  }

  /** The groups are pairwise distinct in (owner, type). */
  ghost predicate DistinctKeys(groups: seq<Group>) {
    forall i, j :: 0 <= i < j < |groups| ==> !(groups[i].name == groups[j].name && groups[i].qtype == groups[j].qtype)
  }

  /** The records of one key, in their original order. */
  function RecordsOf(records: seq<DnsRecord>, name: Text, qtype: QueryType): seq<DnsRecord> {
    if records == [] then []
    else
      var last := records[|records| - 1];
      RecordsOf(records[..|records| - 1], name, qtype)
      + (if !last.RRSIG? && LowerText(last.domain) == name && last.QType() == qtype then [last] else [])
  }

  /** Exactly the grouping of `records`: distinct keys, each non-empty with all its records in order, none missing. */
  ghost predicate Partitions(records: seq<DnsRecord>, groups: seq<Group>) {
    && DistinctKeys(groups)
    && (forall g <- groups :: g.rrset != [] && g.rrset == RecordsOf(records, g.name, g.qtype))
    && (forall r <- records :: !r.RRSIG? ==> exists g :: g in groups && InGroup(r, g))
  }

  method GroupRrsets(records: seq<DnsRecord>) returns (groups: seq<Group>)
    ensures Partitions(records, groups)
  {
    groups := [];
    assert records[..|records|] == records;
    for i := 0 to |records|
      invariant Partitions(records[..i], groups)
    {
      var r := records[i];
      ghost var before := records[..i];
      assert records[..i + 1] == before + [r];
      RecordsOfSnoc(before, r);
      if r.RRSIG? {
        continue;
      }
      var domain, qtype := LowerText(r.domain), r.QType();
      var k := FindGroup(groups, domain, qtype);
      if k < |groups| {
        AddToGroup(before, r, groups, k);
        groups := groups[k := groups[k].(rrset := groups[k].rrset + [r])];
      } else {
        AddGroup(before, r, groups);
        groups := groups + [Group(domain, qtype, [r])];
      }
    }
  }

  /** The `iter_mut().find` of the loop; the length of `groups` when there is none. */
  method FindGroup(groups: seq<Group>, name: Text, qtype: QueryType) returns (k: nat)
    ensures k <= |groups|
    ensures k < |groups| ==> groups[k].name == name && groups[k].qtype == qtype
    ensures forall j :: 0 <= j < k ==> !(groups[j].name == name && groups[j].qtype == qtype)
  {
    k := 0;
    while k < |groups| && !(groups[k].name == name && groups[k].qtype == qtype)
      invariant k <= |groups| && forall j :: 0 <= j < k ==> !(groups[j].name == name && groups[j].qtype == qtype)
    {
      k := k + 1;
    }
  }

  lemma RecordsOfSnoc(before: seq<DnsRecord>, r: DnsRecord)
    ensures forall name, qtype :: RecordsOf(before + [r], name, qtype)
              == RecordsOf(before, name, qtype)
                 + (if !r.RRSIG? && LowerText(r.domain) == name && r.QType() == qtype then [r] else [])
  {
    assert (before + [r])[..|before|] == before;
  }

  lemma AddToGroup(before: seq<DnsRecord>, r: DnsRecord, groups: seq<Group>, k: nat)
    requires Partitions(before, groups) && !r.RRSIG? && k < |groups| && InGroup(r, groups[k])
    ensures Partitions(before + [r], groups[k := groups[k].(rrset := groups[k].rrset + [r])])
  {
    hide RecordsOf, LowerText, DnsRecord.QType;
    RecordsOfSnoc(before, r);
    var grown := groups[k := groups[k].(rrset := groups[k].rrset + [r])];
    forall g | g in grown
      ensures g.rrset != [] && g.rrset == RecordsOf(before + [r], g.name, g.qtype)
    {
      var j :| 0 <= j < |grown| && grown[j] == g;
      assert groups[j] in groups;
      if j != k { assert !InGroup(r, groups[j]); }
    }
    forall x | x in before + [r] && !x.RRSIG?
      ensures exists g :: g in grown && InGroup(x, g)
    {
      if x in before {
        var g :| g in groups && InGroup(x, g);
        var j :| 0 <= j < |groups| && groups[j] == g;
        assert InGroup(x, grown[j]);
      } else {
        assert InGroup(x, grown[k]);
      }
    }
  }

  lemma AddGroup(before: seq<DnsRecord>, r: DnsRecord, groups: seq<Group>)
    requires Partitions(before, groups) && !r.RRSIG?
    requires forall j :: 0 <= j < |groups| ==> !InGroup(r, groups[j])
    ensures Partitions(before + [r], groups + [Group(LowerText(r.domain), r.QType(), [r])])
  {
    hide RecordsOf, LowerText, DnsRecord.QType;
    NoneYet(before, r, groups);
    RecordsOfSnoc(before, r);
    var added := Group(LowerText(r.domain), r.QType(), [r]);
    var grown := groups + [added];
    forall x | x in before + [r] && !x.RRSIG?
      ensures exists g :: g in grown && InGroup(x, g)
    {
      if x in before {
        var g :| g in groups && InGroup(x, g);
        assert g in grown;
      } else {
        assert added in grown && InGroup(x, added);
      }
    }
  }

  lemma NoneYet(before: seq<DnsRecord>, r: DnsRecord, groups: seq<Group>)
    requires Partitions(before, groups) && forall j :: 0 <= j < |groups| ==> !InGroup(r, groups[j])
    ensures RecordsOf(before, LowerText(r.domain), r.QType()) == []
  {
    if RecordsOf(before, LowerText(r.domain), r.QType()) != [] {
      HasGroup(before, r, groups);
    }
  }

  lemma HasGroup(before: seq<DnsRecord>, r: DnsRecord, groups: seq<Group>)
    requires Partitions(before, groups) && RecordsOf(before, LowerText(r.domain), r.QType()) != []
    ensures exists j :: 0 <= j < |groups| && InGroup(r, groups[j])
  {
    hide RecordsOf, LowerText, DnsRecord.QType;
    RecordsOfMember(before, LowerText(r.domain), r.QType());
    var x := RecordsOf(before, LowerText(r.domain), r.QType())[0];
    assert x in RecordsOf(before, LowerText(r.domain), r.QType());
    var g :| g in groups && InGroup(x, g);
    var j :| 0 <= j < |groups| && groups[j] == g;
    assert InGroup(r, groups[j]);
  }

  lemma {:induction false} RecordsOfMember(records: seq<DnsRecord>, name: Text, qtype: QueryType)
    ensures forall x <- RecordsOf(records, name, qtype) ::
              x in records && !x.RRSIG? && LowerText(x.domain) == name && x.QType() == qtype
  {
    hide LowerText, DnsRecord.QType;
    if records != [] {
      var front := records[..|records| - 1];
      RecordsOfMember(front, name, qtype);
      assert records == front + [records[|records| - 1]];
    }
  }

  /** An RRset is complete. */
  lemma {:induction false} RecordsOfAll(records: seq<DnsRecord>, x: DnsRecord)
    requires x in records && !x.RRSIG?
    ensures x in RecordsOf(records, LowerText(x.domain), x.QType())
  {
    hide LowerText, DnsRecord.QType;
    var front, last := records[..|records| - 1], records[|records| - 1];
    assert records == front + [last];
    if x in front { RecordsOfAll(front, x); }
  }

  /** Only one list of groups partitions the records up to the order of the groups. */
  lemma PartitionUnique(records: seq<DnsRecord>, g1: seq<Group>, g2: seq<Group>)
    requires Partitions(records, g1) && Partitions(records, g2)
    ensures forall g :: g in g1 <==> g in g2
  {
    PartitionSubset(records, g1, g2);
    PartitionSubset(records, g2, g1);
  }

  lemma PartitionSubset(records: seq<DnsRecord>, g1: seq<Group>, g2: seq<Group>)
    requires Partitions(records, g1) && Partitions(records, g2)
    ensures forall g :: g in g1 ==> g in g2
  {
    forall g | g in g1 ensures g in g2 {
      RecordsOfMember(records, g.name, g.qtype);
      var x := g.rrset[0];
      assert x in g.rrset;
      var h :| h in g2 && InGroup(x, h);
    }
  }
}
