/** Denial of existence by NSEC and NSEC3 (section 5.4 of RFC 4035, section 8 of RFC 5155). */
module Denial {
  import opened Bytes
  import opened Question
  import opened Record
  import opened ByteOrder
  import opened TypeBitmap
  import opened Nsec3
  import opened Rings
  import opened NameOrder
  import opened Pieces
  import opened Dnssec

  // ---- The records of one zone ----

  /** An NSEC chain: owners in ascending canonical order, each with the types it has. */
  datatype NsecRing = NsecRing(owners: seq<Text>, bitmaps: seq<seq<byte>>)

  ghost function Keys(ring: NsecRing): (r: seq<Key>)
    ensures |r| == |ring.owners| && forall i :: 0 <= i < |r| ==> r[i] == KeyOf(ring.owners[i])
  {
    seq(|ring.owners|, i requires 0 <= i < |ring.owners| => KeyOf(ring.owners[i]))
  }

  ghost predicate ValidRing(ring: NsecRing) {
    ring.owners != [] && |ring.bitmaps| == |ring.owners| && Ascending(KeyLess(), Keys(ring))
  }

  /** `r` is link `i` of the ring, in any letter case. */
  ghost predicate IsLink(ring: NsecRing, i: nat, r: DnsRecord)
    requires ValidRing(ring)
  {
    && i < |ring.owners| && r.NSEC?
    && KeyOf(r.domain) == Keys(ring)[i] && KeyOf(r.nextDomain) == Next(Keys(ring), i) && r.typeBitmap == ring.bitmaps[i]
  }

  /** Every presented record is a link of the ring. */
  ghost predicate FromRing(ring: NsecRing, nsecs: seq<DnsRecord>)
    requires ValidRing(ring)
  {
    forall r <- nsecs :: exists i: nat :: IsLink(ring, i, r)
  }

  /** Every link of the ring is presented. */
  ghost predicate WholeRing(ring: NsecRing, nsecs: seq<DnsRecord>)
    requires ValidRing(ring)
  {
    forall i :: 0 <= i < |ring.owners| ==> HasLink(ring, nsecs, i)
  }

  ghost predicate HasLink(ring: NsecRing, nsecs: seq<DnsRecord>, i: nat)
    requires ValidRing(ring)
  {
    exists r :: r in nsecs && IsLink(ring, i, r)
  }

  ghost predicate Owns(ring: NsecRing, name: Text) {
    KeyOf(name) in Keys(ring)
  }

  predicate AnyNsecCovers(nsecs: seq<DnsRecord>, name: Text) {
    exists r <- nsecs :: r.NSEC? && NsecCovers(r.domain, r.nextDomain, name)
  }

  /** No name of the zone is ever covered by the zone's own NSECs. */
  lemma CoveredIsNotOwned(ring: NsecRing, nsecs: seq<DnsRecord>, name: Text)
    requires ValidRing(ring) && FromRing(ring, nsecs) && AnyNsecCovers(nsecs, name)
    ensures !Owns(ring, name)
  {
    hide NsecCovers, KeyOf, KeyLess, Keys, Ascending, InGap, Next;
    var r :| r in nsecs && r.NSEC? && NsecCovers(r.domain, r.nextDomain, name);
    NsecCoversIsGap(r.domain, r.nextDomain, name);
    var i: nat :| IsLink(ring, i, r);
    if Owns(ring, name) {
      var k :| 0 <= k < |Keys(ring)| && Keys(ring)[k] == KeyOf(name);
      OwnersAreUncovered(KeyLess(), Keys(ring), i, k);
      assert false;
    }
  }

  /** Every other name is covered by exactly one link, so the whole ring covers it. */
  lemma NotOwnedIsCovered(ring: NsecRing, nsecs: seq<DnsRecord>, name: Text)
    requires ValidRing(ring) && !Owns(ring, name)
    requires WholeRing(ring, nsecs)
    ensures AnyNsecCovers(nsecs, name)
  {
    hide NsecCovers, KeyOf, KeyLess, Keys, Ascending, InGap, Next;
    var i := GapOf(KeyLess(), Keys(ring), KeyOf(name));
    assert HasLink(ring, nsecs, i);
    var r :| r in nsecs && IsLink(ring, i, r);
    NsecCoversIsGap(r.domain, r.nextDomain, name);
  }

  // ---- The decision ----

  /** `closest_encloser`: the longest ancestor, the name included, that owns one of the NSECs. */
  function ClosestEncloser(labels: seq<Text>, nsecs: seq<DnsRecord>): Option<Text> {
    if labels == [] then None
    else if exists r <- nsecs :: r.NSEC? && EqIgnoreCase(r.domain, Join(labels)) then Some(Join(labels))
    else ClosestEncloser(labels[1..], nsecs)
  }

  function Wildcard(encloser: Text): Text { [STAR, DOT] + encloser }

  predicate ProvesNodata(r: DnsRecord, qname: Text, qtype: u16) {
    r.NSEC? && EqIgnoreCase(r.domain, qname)
    && !BitmapContains(r.typeBitmap, qtype) && !BitmapContains(r.typeBitmap, QueryType.CNAME.ToNum())
  }

  /** The wildcard test of the NXDOMAIN branch: covered, or itself an owner whatever its types. */
  predicate WildcardDenied(nsecs: seq<DnsRecord>, qname: Text) {
    match ClosestEncloser(Labels(qname), nsecs)
    case None => true
    case Some(ce) =>
      exists r <- nsecs :: r.NSEC? && (NsecCovers(r.domain, r.nextDomain, Wildcard(ce)) || EqIgnoreCase(r.domain, Wildcard(ce)))
  }

  function NsecVerdict(nsecs: seq<DnsRecord>, qname: Text, qtype: u16, isNxdomain: bool): DnssecStatus {
    if isNxdomain then
      if AnyNsecCovers(nsecs, qname) && WildcardDenied(nsecs, qname) then Secure else Bogus
    else
      if exists r <- nsecs :: ProvesNodata(r, qname, qtype) then Secure else Bogus
  }

  /** A decoded NSEC3: the hash in its owner name, its successor and its types. */
  datatype HashLink = HashLink(owner: seq<byte>, next: seq<byte>, bitmap: seq<byte>)

  /** `nsec3_hash_in_range`. */
  predicate HashInRange(owner: seq<byte>, next: seq<byte>, target: seq<byte>) {
    if BytesLess(owner, next) then BytesLess(owner, target) && BytesLess(target, next)
    else BytesLess(owner, target) || BytesLess(target, next)
  }

  predicate BytesLess(a: seq<byte>, b: seq<byte>) { Leq(a, b) && a != b }

  predicate AnyHashCovers(links: seq<HashLink>, target: seq<byte>) {
    exists l <- links :: HashInRange(l.owner, l.next, target)
  }

  /** The loop over candidate enclosers: `labels[i..]` encloses, `labels[i - 1..]` and the wildcard are absent. */
  predicate HashEncloserProof(hash: Text -> Option<seq<byte>>, links: seq<HashLink>, labels: seq<Text>, i: nat)
    requires 1 <= i < |labels|
  {
    && hash(Join(labels[i..])).Some? && (exists l <- links :: l.owner == hash(Join(labels[i..])).value)
    && hash(Join(labels[i - 1..])).Some? && AnyHashCovers(links, hash(Join(labels[i - 1..])).value)
    && hash(Wildcard(Join(labels[i..]))).Some? && AnyHashCovers(links, hash(Wildcard(Join(labels[i..]))).value)
  }

  function HashVerdict(hash: Text -> Option<seq<byte>>, links: seq<HashLink>, qname: Text, qtype: u16,
                       isNxdomain: bool): DnssecStatus {
    var qhash := hash(qname);
    if qhash.None? then Indeterminate
    else if isNxdomain then
      var labels := Labels(qname);
      if exists i :: 1 <= i < |labels| && HashEncloserProof(hash, links, labels, i) then Secure else Bogus
    else
      if exists l <- links :: l.owner == qhash.value
           && !BitmapContains(l.bitmap, qtype) && !BitmapContains(l.bitmap, QueryType.CNAME.ToNum()) then Secure else Bogus
  }

  // ---- What Secure means for a zone ----

  /** NSEC and NXDOMAIN: the name is not in the zone; its wildcard is only if a presented record is owned by it. */
  lemma NsecNxdomainIsAbsent(ring: NsecRing, nsecs: seq<DnsRecord>, qname: Text, qtype: u16)
    requires ValidRing(ring) && FromRing(ring, nsecs) && NsecVerdict(nsecs, qname, qtype, true) == Secure
    ensures !Owns(ring, qname)
    ensures var ce := ClosestEncloser(Labels(qname), nsecs);
            ce.Some? ==> (Owns(ring, Wildcard(ce.value)) <==> OwnedBy(nsecs, Wildcard(ce.value)))
  {
    hide NsecCovers, KeyOf, Owns, ClosestEncloser, FromRing, ValidRing, AnyNsecCovers, Labels, Wildcard, BitmapContains;
    assert AnyNsecCovers(nsecs, qname);
    CoveredIsNotOwned(ring, nsecs, qname);
    var ce := ClosestEncloser(Labels(qname), nsecs);
    if ce.Some? {
      var wildcard := Wildcard(ce.value);
      WildcardCases(nsecs, qname);
      if OwnedBy(nsecs, wildcard) {
        OwnedIsOwner(ring, nsecs, wildcard);
      } else {
        CoveredIsNotOwned(ring, nsecs, wildcard);
      }
    }
  }

  /** Some presented NSEC sits at `name`. */
  ghost predicate OwnedBy(nsecs: seq<DnsRecord>, name: Text) {
    exists r :: r in nsecs && r.NSEC? && EqIgnoreCase(r.domain, name)
  }

  lemma WildcardCases(nsecs: seq<DnsRecord>, qname: Text)
    ensures var ce := ClosestEncloser(Labels(qname), nsecs);
            WildcardDenied(nsecs, qname) <==>
              ce.None? || AnyNsecCovers(nsecs, Wildcard(ce.value)) || OwnedBy(nsecs, Wildcard(ce.value))
  {
    hide NsecCovers, ClosestEncloser, Labels, Wildcard, EqIgnoreCase;
  }

  lemma OwnedIsOwner(ring: NsecRing, nsecs: seq<DnsRecord>, name: Text)
    requires ValidRing(ring) && FromRing(ring, nsecs) && OwnedBy(nsecs, name)
    ensures Owns(ring, name)
  {
    hide KeyOf, Ascending, KeyLess;
    var r :| r in nsecs && r.NSEC? && EqIgnoreCase(r.domain, name);
    var i: nat :| IsLink(ring, i, r);
    KeyOfFolds(r.domain, name);
  }

  /** Owner `i` is the name, without the type and without a CNAME. */
  ghost predicate LacksAt(ring: NsecRing, i: nat, qname: Text, qtype: u16)
    requires ValidRing(ring)
  {
    i < |ring.owners| && KeyOf(ring.owners[i]) == KeyOf(qname)
    && !BitmapContains(ring.bitmaps[i], qtype) && !BitmapContains(ring.bitmaps[i], QueryType.CNAME.ToNum())
  }

  /** NSEC and NODATA: the name is in the zone and has neither the type nor a CNAME. */
  lemma NsecNodataIsPresent(ring: NsecRing, nsecs: seq<DnsRecord>, qname: Text, qtype: u16)
    requires ValidRing(ring) && FromRing(ring, nsecs) && NsecVerdict(nsecs, qname, qtype, false) == Secure
    ensures exists i: nat :: LacksAt(ring, i, qname, qtype)
  {
    hide KeyOf, BitmapContains, Ascending, KeyLess, Next;
    var r :| r in nsecs && ProvesNodata(r, qname, qtype);
    var i: nat :| IsLink(ring, i, r);
    KeyOfFolds(r.domain, qname);
    assert LacksAt(ring, i, qname, qtype);
  }

  lemma NsecNodataIsOwned(ring: NsecRing, nsecs: seq<DnsRecord>, qname: Text, qtype: u16)
    requires ValidRing(ring) && FromRing(ring, nsecs) && NsecVerdict(nsecs, qname, qtype, false) == Secure
    ensures Owns(ring, qname)
  {
    NsecNodataIsPresent(ring, nsecs, qname, qtype);
    hide KeyOf, BitmapContains, NsecVerdict;
    var i: nat :| LacksAt(ring, i, qname, qtype);
    assert Keys(ring)[i] == KeyOf(qname);
  }

  /** A zone's own NSECs never both deny and confirm one name. */
  lemma NsecVerdictsExclude(ring: NsecRing, nsecs: seq<DnsRecord>, qname: Text, qtype: u16, other: u16)
    requires ValidRing(ring) && FromRing(ring, nsecs) && NsecVerdict(nsecs, qname, qtype, true) == Secure
    ensures NsecVerdict(nsecs, qname, other, false) == Bogus
  {
    NsecNxdomainIsAbsent(ring, nsecs, qname, qtype);
    if NsecVerdict(nsecs, qname, other, false) == Secure {
      NsecNodataIsOwned(ring, nsecs, qname, other);
    }
  }

  // ---- Exactly when ----

  /** The encloser found is made of pieces of the name, so its wildcard is tidy. */
  lemma {:induction false} EncloserIsJoin(labels: seq<Text>, nsecs: seq<DnsRecord>) returns (i: nat)
    requires ClosestEncloser(labels, nsecs).Some?
    ensures i < |labels| && ClosestEncloser(labels, nsecs) == Some(Join(labels[i..]))
  {
    hide Join, EqIgnoreCase;
    i := 0;
    if ClosestEncloser(labels, nsecs) == Some(Join(labels)) {
      assert labels[0..] == labels;
    } else {
      var k := EncloserIsJoin(labels[1..], nsecs);
      i := k + 1;
      assert labels[1..][k..] == labels[i..];
    }
  }

  lemma WildcardOfJoin(labels: seq<Text>)
    requires ArePieces(labels) && labels != []
    ensures Wildcard(Join(labels)) == Join([[STAR]] + labels) && Tidy(Wildcard(Join(labels)))
  {
    var star: Text := [STAR];
    assert ([star] + labels)[1..] == labels && star + [DOT] == [STAR, DOT];
    assert forall l <- [star] + labels :: l == star || l in labels;
    JoinIsTidy([star] + labels);
    hide Join;
    JoinParts([star] + labels);
    Assoc(star, [DOT], Join(labels));
  }

  lemma WildcardIsTidy(qname: Text, nsecs: seq<DnsRecord>)
    ensures var ce := ClosestEncloser(Labels(qname), nsecs); ce.Some? ==> Tidy(Wildcard(ce.value))
  {
    if ClosestEncloser(Labels(qname), nsecs).Some? {
      var i := EncloserIsJoin(Labels(qname), nsecs);
      var suffix := Labels(qname)[i..];
      assert forall l <- suffix :: l in Labels(qname);
      WildcardOfJoin(suffix);
    }
  }

  /**
   * With the whole ring presented, NXDOMAIN is proved for exactly the names not in the zone, unless the wildcard
   * tried is an owner under a different spelling.
   */
  lemma NsecNxdomainIff(ring: NsecRing, nsecs: seq<DnsRecord>, qname: Text, qtype: u16)
    requires ValidRing(ring) && FromRing(ring, nsecs) && WholeRing(ring, nsecs)
    ensures var ce := ClosestEncloser(Labels(qname), nsecs);
            NsecVerdict(nsecs, qname, qtype, true) == Secure <==>
              !Owns(ring, qname) && (ce.Some? && Owns(ring, Wildcard(ce.value)) ==> OwnedBy(nsecs, Wildcard(ce.value)))
  {
    hide NsecCovers, KeyOf, Owns, ClosestEncloser, FromRing, WholeRing, ValidRing, AnyNsecCovers, Labels, Wildcard,
         WildcardDenied, OwnedBy, BitmapContains;
    WildcardCases(nsecs, qname);
    var ce := ClosestEncloser(Labels(qname), nsecs);
    if !Owns(ring, qname) {
      NotOwnedIsCovered(ring, nsecs, qname);
      if ce.Some? && !Owns(ring, Wildcard(ce.value)) {
        NotOwnedIsCovered(ring, nsecs, Wildcard(ce.value));
      }
    }
    if NsecVerdict(nsecs, qname, qtype, true) == Secure {
      NsecNxdomainIsAbsent(ring, nsecs, qname, qtype);
    }
  }

  /** NODATA is proved exactly for an owner presented under the question's spelling that lacks the type and CNAME. */
  lemma NsecNodataIff(ring: NsecRing, nsecs: seq<DnsRecord>, qname: Text, qtype: u16)
    requires ValidRing(ring) && FromRing(ring, nsecs)
    ensures NsecVerdict(nsecs, qname, qtype, false) == Secure
       <==> OwnedBy(nsecs, qname) && exists i: nat :: LacksAt(ring, i, qname, qtype)
  {
    if NsecVerdict(nsecs, qname, qtype, false) == Secure {
      NsecNodataIsPresent(ring, nsecs, qname, qtype);
      NodataIsOwnedBy(nsecs, qname, qtype);
    }
    hide KeyOf, KeyLess, Next, EqIgnoreCase, BitmapContains, NsecVerdict;
    if OwnedBy(nsecs, qname) && exists i: nat :: LacksAt(ring, i, qname, qtype) {
      var i: nat :| LacksAt(ring, i, qname, qtype);
      var r :| r in nsecs && r.NSEC? && EqIgnoreCase(r.domain, qname);
      var j: nat :| IsLink(ring, j, r);
      KeyOfFolds(r.domain, qname);
      SameOwner(KeyLess(), Keys(ring), i, j);
      ProvenNodata(nsecs, r, qname, qtype);
    }
  }

  lemma SameOwner<T(!new)>(less: (T, T) -> bool, owners: seq<T>, i: nat, j: nat)
    requires StrictTotal(less) && Ascending(less, owners) && i < |owners| && j < |owners| && owners[i] == owners[j]
    ensures i == j
  {
  }

  lemma NodataIsOwnedBy(nsecs: seq<DnsRecord>, qname: Text, qtype: u16)
    requires NsecVerdict(nsecs, qname, qtype, false) == Secure
    ensures OwnedBy(nsecs, qname)
  {
    hide EqIgnoreCase, BitmapContains;
  }

  lemma ProvenNodata(nsecs: seq<DnsRecord>, r: DnsRecord, qname: Text, qtype: u16)
    requires r in nsecs && ProvesNodata(r, qname, qtype)
    ensures NsecVerdict(nsecs, qname, qtype, false) == Secure
  {
    hide ProvesNodata;
  }

  /** All presented owners are spelled without empty pieces: no label of theirs ends in a dot (`Pieces.TidyIff`). */
  ghost predicate TidyOwners(nsecs: seq<DnsRecord>) {
    forall r <- nsecs :: Tidy(r.domain)
  }

  lemma WholeRingOwns(ring: NsecRing, nsecs: seq<DnsRecord>, name: Text)
    requires ValidRing(ring) && WholeRing(ring, nsecs) && TidyOwners(nsecs) && Tidy(name) && Owns(ring, name)
    ensures OwnedBy(nsecs, name)
  {
    hide KeyOf, Ascending, KeyLess, Next, EqIgnoreCase, Tidy;
    var i :| 0 <= i < |Keys(ring)| && Keys(ring)[i] == KeyOf(name);
    assert HasLink(ring, nsecs, i);
    var r :| r in nsecs && IsLink(ring, i, r);
    SameKeySameText(r.domain, name);
  }

  /** With the whole ring presented under tidy names, NXDOMAIN is proved for exactly the names not in the zone. */
  lemma TidyNxdomainIff(ring: NsecRing, nsecs: seq<DnsRecord>, qname: Text, qtype: u16)
    requires ValidRing(ring) && FromRing(ring, nsecs) && WholeRing(ring, nsecs) && TidyOwners(nsecs)
    ensures NsecVerdict(nsecs, qname, qtype, true) == Secure <==> !Owns(ring, qname)
  {
    hide NsecVerdict, Owns, ClosestEncloser, FromRing, WholeRing, ValidRing, Labels, Wildcard, OwnedBy, Tidy, TidyOwners;
    NsecNxdomainIff(ring, nsecs, qname, qtype);
    WildcardIsTidy(qname, nsecs);
    var ce := ClosestEncloser(Labels(qname), nsecs);
    if ce.Some? && Owns(ring, Wildcard(ce.value)) { WholeRingOwns(ring, nsecs, Wildcard(ce.value)); }
  }

  /** And NODATA for exactly the owners lacking the type and CNAME. */
  lemma TidyNodataIff(ring: NsecRing, nsecs: seq<DnsRecord>, qname: Text, qtype: u16)
    requires ValidRing(ring) && FromRing(ring, nsecs) && WholeRing(ring, nsecs) && TidyOwners(nsecs) && Tidy(qname)
    ensures NsecVerdict(nsecs, qname, qtype, false) == Secure <==> exists i: nat :: LacksAt(ring, i, qname, qtype)
  {
    NsecNodataIff(ring, nsecs, qname, qtype);
    if i: nat :| LacksAt(ring, i, qname, qtype) {
      LacksIsOwned(ring, i, qname, qtype);
      WholeRingOwns(ring, nsecs, qname);
    }
  }

  lemma LacksIsOwned(ring: NsecRing, i: nat, qname: Text, qtype: u16)
    requires ValidRing(ring) && LacksAt(ring, i, qname, qtype)
    ensures Owns(ring, qname)
  {
    hide KeyOf, BitmapContains;
    assert Keys(ring)[i] == KeyOf(qname);
  }

  /** An NSEC3 chain of hashes, with the types behind each. */
  datatype HashRing = HashRing(hashes: seq<seq<byte>>, bitmaps: seq<seq<byte>>)

  ghost predicate ValidHashRing(ring: HashRing) {
    ring.hashes != [] && |ring.bitmaps| == |ring.hashes| && Ascending(LabelLess(), ring.hashes)
  }

  ghost predicate IsHashLink(ring: HashRing, i: nat, l: HashLink)
    requires ValidHashRing(ring)
  {
    i < |ring.hashes| && l == HashLink(ring.hashes[i], Next(ring.hashes, i), ring.bitmaps[i])
  }

  ghost predicate FromHashRing(ring: HashRing, links: seq<HashLink>)
    requires ValidHashRing(ring)
  {
    forall l <- links :: exists i: nat :: IsHashLink(ring, i, l)
  }

  ghost predicate WholeHashRing(ring: HashRing, links: seq<HashLink>)
    requires ValidHashRing(ring)
  {
    forall i :: 0 <= i < |ring.hashes| ==> HashLink(ring.hashes[i], Next(ring.hashes, i), ring.bitmaps[i]) in links
  }

  lemma {:induction false} BytesLessIsLabelLess(a: seq<byte>, b: seq<byte>)
    ensures BytesLess(a, b) == LabelLess()(a, b)
    decreases |a|
  {
    assert forall u, v :: LabelLess()(u, v) == LexLess(ByteLess(), u, v);
    if a != [] && b != [] {
      assert a == [a[0]] + a[1..] && b == [b[0]] + b[1..];
      BytesLessIsLabelLess(a[1..], b[1..]);
    }
  }

  lemma HashInRangeIsGap(owner: seq<byte>, next: seq<byte>, target: seq<byte>)
    ensures HashInRange(owner, next, target) <==> InGap(LabelLess(), owner, next, target)
  {
    BytesLessIsLabelLess(owner, next);
    BytesLessIsLabelLess(owner, target);
    BytesLessIsLabelLess(target, next);
    hide BytesLess, LabelLess;
  }

  lemma CoveredHashIsAbsent(ring: HashRing, links: seq<HashLink>, target: seq<byte>)
    requires ValidHashRing(ring) && FromHashRing(ring, links) && AnyHashCovers(links, target)
    ensures target !in ring.hashes
  {
    hide HashInRange, LabelLess, Ascending, InGap, Next;
    var l :| l in links && HashInRange(l.owner, l.next, target);
    HashInRangeIsGap(l.owner, l.next, target);
    var i: nat :| IsHashLink(ring, i, l);
    if target in ring.hashes {
      var k :| 0 <= k < |ring.hashes| && ring.hashes[k] == target;
      OwnersAreUncovered(LabelLess(), ring.hashes, i, k);
      assert false;
    }
  }

  /** The whole ring covers exactly the hashes that are not in the zone. */
  lemma HashCoveredIff(ring: HashRing, links: seq<HashLink>, target: seq<byte>)
    requires ValidHashRing(ring) && FromHashRing(ring, links) && WholeHashRing(ring, links)
    ensures AnyHashCovers(links, target) <==> target !in ring.hashes
  {
    hide HashInRange, LabelLess, Ascending, InGap;
    if target !in ring.hashes {
      var i := GapOf(LabelLess(), ring.hashes, target);
      HashInRangeIsGap(ring.hashes[i], Next(ring.hashes, i), target);
      assert HashLink(ring.hashes[i], Next(ring.hashes, i), ring.bitmaps[i]) in links;
    } else if AnyHashCovers(links, target) {
      CoveredHashIsAbsent(ring, links, target);
    }
  }

  /** `labels[i..]` is hashed in the zone; one more label on it, and the wildcard on it, are not. */
  ghost predicate HashAbsent(ring: HashRing, hash: Text -> Option<seq<byte>>, labels: seq<Text>, i: nat)
    requires 1 <= i < |labels|
  {
    var ce, nc, wc := hash(Join(labels[i..])), hash(Join(labels[i - 1..])), hash(Wildcard(Join(labels[i..])));
    ce.Some? && ce.value in ring.hashes && nc.Some? && nc.value !in ring.hashes && wc.Some? && wc.value !in ring.hashes
  }

  lemma EncloserProofIsAbsence(ring: HashRing, hash: Text -> Option<seq<byte>>, links: seq<HashLink>,
                               labels: seq<Text>, i: nat)
    requires ValidHashRing(ring) && FromHashRing(ring, links) && 1 <= i < |labels| && HashEncloserProof(hash, links, labels, i)
    ensures HashAbsent(ring, hash, labels, i)
  {
    hide AnyHashCovers, Join, Wildcard, Ascending, LabelLess, Next;
    var l :| l in links && l.owner == hash(Join(labels[i..])).value;
    var k: nat :| IsHashLink(ring, k, l);
    CoveredHashIsAbsent(ring, links, hash(Join(labels[i - 1..])).value);
    CoveredHashIsAbsent(ring, links, hash(Wildcard(Join(labels[i..]))).value);
  }

  lemma AbsenceIsEncloserProof(ring: HashRing, hash: Text -> Option<seq<byte>>, links: seq<HashLink>,
                               labels: seq<Text>, i: nat)
    requires ValidHashRing(ring) && FromHashRing(ring, links) && WholeHashRing(ring, links)
    requires 1 <= i < |labels| && HashAbsent(ring, hash, labels, i)
    ensures HashEncloserProof(hash, links, labels, i)
  {
    hide AnyHashCovers, Join, Wildcard, Ascending, LabelLess, Next;
    var ce := hash(Join(labels[i..])).value;
    var k :| 0 <= k < |ring.hashes| && ring.hashes[k] == ce;
    var l := HashLink(ring.hashes[k], Next(ring.hashes, k), ring.bitmaps[k]);
    assert l in links && l.owner == ce;
    HashCoveredIff(ring, links, hash(Join(labels[i - 1..])).value);
    HashCoveredIff(ring, links, hash(Wildcard(Join(labels[i..]))).value);
  }

  /**
   * NSEC3 and NXDOMAIN: some ancestor is hashed in the zone, the name below it and its wildcard are not. The loop starts
   * at the first ancestor, so a name of one label is never denied.
   */
  lemma HashNxdomainIsAbsent(ring: HashRing, hash: Text -> Option<seq<byte>>, links: seq<HashLink>, qname: Text,
                             qtype: u16)
    requires ValidHashRing(ring) && FromHashRing(ring, links) && HashVerdict(hash, links, qname, qtype, true) == Secure
    ensures exists i :: 1 <= i < |Labels(qname)| && HashAbsent(ring, hash, Labels(qname), i)
    ensures |Labels(qname)| > 1
  {
    hide HashEncloserProof, HashAbsent, Labels, BitmapContains, FromHashRing, ValidHashRing;
    var i :| 1 <= i < |Labels(qname)| && HashEncloserProof(hash, links, Labels(qname), i);
    EncloserProofIsAbsence(ring, hash, links, Labels(qname), i);
  }

  ghost predicate InRing(ring: HashRing, hash: Text -> Option<seq<byte>>, labels: seq<Text>) {
    var h := hash(Join(labels));
    h.Some? && h.value in ring.hashes
  }

  /**
   * Whatever lies between a name of the zone and an ancestor of it in the zone is in the zone too, empty non-terminals
   * included (section 7.1 of RFC 5155).
   */
  ghost predicate Closed(ring: HashRing, hash: Text -> Option<seq<byte>>) {
    forall labels: seq<Text>, i: nat, j: nat ::
      j <= i < |labels| && InRing(ring, hash, labels) && InRing(ring, hash, labels[i..]) ==> InRing(ring, hash, labels[j..])
  }

  /** In such a zone the ancestor found is the closest, and the name itself is not there. */
  lemma HashNxdomainIsClosest(ring: HashRing, hash: Text -> Option<seq<byte>>, links: seq<HashLink>, qname: Text, qtype: u16)
    returns (i: nat)
    requires ValidHashRing(ring) && FromHashRing(ring, links) && Closed(ring, hash)
    requires HashVerdict(hash, links, qname, qtype, true) == Secure
    ensures 1 <= i < |Labels(qname)| && HashAbsent(ring, hash, Labels(qname), i)
    ensures forall j :: 0 <= j < i ==> !InRing(ring, hash, Labels(qname)[j..])
    ensures Tidy(qname) ==> hash(qname).Some? && hash(qname).value !in ring.hashes
  {
    hide HashEncloserProof, Labels, BitmapContains, FromHashRing, ValidHashRing, Join, Wildcard, Closed;
    HashNxdomainIsAbsent(ring, hash, links, qname, qtype);
    var labels := Labels(qname);
    i :| 1 <= i < |labels| && HashAbsent(ring, hash, labels, i);
    hide HashVerdict;
    forall j | 0 <= j < i ensures !InRing(ring, hash, labels[j..]) { NotAbove(ring, hash, labels, i, j); }
    assert labels[0..] == labels;
  }

  lemma NotAbove(ring: HashRing, hash: Text -> Option<seq<byte>>, labels: seq<Text>, i: nat, j: nat)
    requires Closed(ring, hash) && j < i < |labels| && HashAbsent(ring, hash, labels, i)
    ensures !InRing(ring, hash, labels[j..])
  {
    hide Join, Wildcard;
    var lower := labels[j..];
    assert lower[i - j..] == labels[i..] && lower[i - 1 - j..] == labels[i - 1..];
    assert InRing(ring, hash, labels[i..]) && !InRing(ring, hash, labels[i - 1..]);
    hide InRing;
  }

  /** With the whole hash ring presented and the name hashable, exactly then. */
  lemma HashNxdomainIff(ring: HashRing, hash: Text -> Option<seq<byte>>, links: seq<HashLink>, qname: Text, qtype: u16)
    requires ValidHashRing(ring) && FromHashRing(ring, links) && WholeHashRing(ring, links) && hash(qname).Some?
    ensures HashVerdict(hash, links, qname, qtype, true) == Secure
       <==> exists i :: 1 <= i < |Labels(qname)| && HashAbsent(ring, hash, Labels(qname), i)
  {
    if HashVerdict(hash, links, qname, qtype, true) == Secure {
      HashNxdomainIsAbsent(ring, hash, links, qname, qtype);
    }
    hide HashEncloserProof, HashAbsent, Labels, BitmapContains, FromHashRing, ValidHashRing, WholeHashRing;
    if i :| 1 <= i < |Labels(qname)| && HashAbsent(ring, hash, Labels(qname), i) {
      AbsenceIsEncloserProof(ring, hash, links, Labels(qname), i);
    }
  }

  /** Link `i` of the ring has the hash but neither the type nor a CNAME. */
  ghost predicate HashLacksAt(ring: HashRing, i: nat, target: Option<seq<byte>>, qtype: u16)
    requires ValidHashRing(ring)
  {
    i < |ring.hashes| && target == Some(ring.hashes[i])
    && !BitmapContains(ring.bitmaps[i], qtype) && !BitmapContains(ring.bitmaps[i], QueryType.CNAME.ToNum())
  }

  /** NSEC3 and NODATA: the name's hash is in the zone, without the type and without a CNAME. */
  lemma HashNodataIsPresent(ring: HashRing, hash: Text -> Option<seq<byte>>, links: seq<HashLink>, qname: Text,
                            qtype: u16)
    requires ValidHashRing(ring) && FromHashRing(ring, links) && HashVerdict(hash, links, qname, qtype, false) == Secure
    ensures exists i: nat :: HashLacksAt(ring, i, hash(qname), qtype)
  {
    hide BitmapContains, Ascending, LabelLess, Next;
    var l :| l in links && Some(l.owner) == hash(qname)
             && !BitmapContains(l.bitmap, qtype) && !BitmapContains(l.bitmap, QueryType.CNAME.ToNum());
    var k: nat :| IsHashLink(ring, k, l);
    assert HashLacksAt(ring, k, hash(qname), qtype);
  }

  /** With the whole hash ring presented, exactly then. */
  lemma HashNodataIff(ring: HashRing, hash: Text -> Option<seq<byte>>, links: seq<HashLink>, qname: Text, qtype: u16)
    requires ValidHashRing(ring) && FromHashRing(ring, links) && WholeHashRing(ring, links)
    ensures HashVerdict(hash, links, qname, qtype, false) == Secure <==> exists i: nat :: HashLacksAt(ring, i, hash(qname), qtype)
  {
    if HashVerdict(hash, links, qname, qtype, false) == Secure {
      HashNodataIsPresent(ring, hash, links, qname, qtype);
    }
    hide BitmapContains, Ascending, LabelLess, Next;
    if i: nat :| HashLacksAt(ring, i, hash(qname), qtype) {
      assert HashLink(ring.hashes[i], Next(ring.hashes, i), ring.bitmaps[i]) in links;
    }
  }
}
