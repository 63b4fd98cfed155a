/** What an NXDOMAIN proof by NSEC says about the wildcard of the closest encloser, and what it leaves open. */
module WildcardDenial {
  import opened Bytes
  import opened Record
  import opened TypeBitmap
  import opened Nsec3
  import opened Rings
  import opened NameOrder
  import opened Pieces
  import opened Dnssec
  import opened Denial

  /** The true closest encloser: the longest ancestor that the zone owns, presented or not. */
  ghost function RingEncloser(ring: NsecRing, labels: seq<Text>): Option<Text> {
    if labels == [] then None
    else if Owns(ring, Join(labels)) then Some(Join(labels))
    else RingEncloser(ring, labels[1..])
  }

  /** If the presented records show the true encloser, a Secure NXDOMAIN settles its wildcard. */
  lemma EncloserSettlesWildcard(ring: NsecRing, nsecs: seq<DnsRecord>, qname: Text, qtype: u16, encloser: Text)
    requires ValidRing(ring) && FromRing(ring, nsecs) && NsecVerdict(nsecs, qname, qtype, true) == Secure
    requires RingEncloser(ring, Labels(qname)) == Some(encloser) == ClosestEncloser(Labels(qname), nsecs)
    ensures Owns(ring, Wildcard(encloser)) <==> OwnedBy(nsecs, Wildcard(encloser))
    ensures Settles(nsecs, Wildcard(encloser))
  {
    hide NsecCovers, KeyOf, Owns, ClosestEncloser, FromRing, ValidRing, AnyNsecCovers, Labels, Wildcard, BitmapContains,
         RingEncloser, OwnedBy, EqIgnoreCase;
    NsecNxdomainIsAbsent(ring, nsecs, qname, qtype);
    WildcardCases(nsecs, qname);
    if OwnedBy(nsecs, Wildcard(encloser)) { OwnedIsMentioned(nsecs, Wildcard(encloser)); }
  }

  lemma OwnedIsMentioned(nsecs: seq<DnsRecord>, name: Text)
    requires OwnedBy(nsecs, name)
    ensures Mentions(nsecs, name)
  {
    hide KeyOf;
    var r :| r in nsecs && r.NSEC? && EqIgnoreCase(r.domain, name);
    KeyOfFolds(r.domain, name);
  }

  // ---- The wildcard's type ----

  /** Owner `i` is the name and has the type. */
  ghost predicate HasAt(ring: NsecRing, i: nat, name: Text, qtype: u16)
    requires ValidRing(ring)
  {
    i < |ring.owners| && KeyOf(ring.owners[i]) == KeyOf(name) && BitmapContains(ring.bitmaps[i], qtype)
  }

  /** A presented NSEC of the name shows the type. */
  ghost predicate Presents(nsecs: seq<DnsRecord>, name: Text, qtype: u16) {
    exists r :: r in nsecs && r.NSEC? && EqIgnoreCase(r.domain, name) && BitmapContains(r.typeBitmap, qtype)
  }

  /**
   * A Secure NXDOMAIN denies a type its own wildcard would answer exactly when a presented NSEC of the wildcard
   * shows that type, which is all the code would have to look at.
   */
  lemma WildcardTypeIff(ring: NsecRing, nsecs: seq<DnsRecord>, qname: Text, qtype: u16, encloser: Text)
    requires ValidRing(ring) && FromRing(ring, nsecs) && NsecVerdict(nsecs, qname, qtype, true) == Secure
    requires ClosestEncloser(Labels(qname), nsecs) == Some(encloser)
    ensures (exists i: nat :: HasAt(ring, i, Wildcard(encloser), qtype)) <==> Presents(nsecs, Wildcard(encloser), qtype)
  {
    hide NsecCovers, KeyOf, ClosestEncloser, Labels, Wildcard, BitmapContains, NsecVerdict, EqIgnoreCase, Ascending,
         KeyLess, Next;
    NsecNxdomainIsAbsent(ring, nsecs, qname, qtype);
    var name := Wildcard(encloser);
    if i: nat :| HasAt(ring, i, name, qtype) {
      assert Keys(ring)[i] == KeyOf(name);
      var r :| r in nsecs && r.NSEC? && EqIgnoreCase(r.domain, name);
      var j: nat :| IsLink(ring, j, r);
      KeyOfFolds(r.domain, name);
      SameOwner(KeyLess(), Keys(ring), i, j);
    }
    if Presents(nsecs, name, qtype) {
      var r :| r in nsecs && r.NSEC? && EqIgnoreCase(r.domain, name) && BitmapContains(r.typeBitmap, qtype);
      var j: nat :| IsLink(ring, j, r);
      KeyOfFolds(r.domain, name);
      assert HasAt(ring, j, name, qtype);
    }
  }

  // ---- What a set of NSECs decides about a name ----

  /** Some record begins or ends at the name. */
  ghost predicate Mentions(nsecs: seq<DnsRecord>, name: Text) {
    exists r :: r in nsecs && r.NSEC? && (KeyOf(r.domain) == KeyOf(name) || KeyOf(r.nextDomain) == KeyOf(name))
  }

  ghost predicate Settles(nsecs: seq<DnsRecord>, name: Text) {
    AnyNsecCovers(nsecs, name) || Mentions(nsecs, name)
  }

  /** The same zone with one more owner. */
  ghost predicate Grown(small: NsecRing, big: NsecRing, pos: nat, name: Text) {
    && |small.bitmaps| == |small.owners| && |big.bitmaps| == |big.owners|
    && Inserted(small.owners, big.owners, pos, name)
    && exists bitmap :: Inserted(small.bitmaps, big.bitmaps, pos, bitmap)
  }

  lemma GrownKeys(small: NsecRing, big: NsecRing, pos: nat, name: Text)
    requires Grown(small, big, pos, name)
    ensures Inserted(Keys(small), Keys(big), pos, KeyOf(name))
  {
    hide KeyOf;
    assert Keys(big) == Keys(small)[..pos] + [KeyOf(name)] + Keys(small)[pos..];
  }

  /** A link that does not cover the new owner is a link of the larger ring. */
  lemma LinkGrows(small: NsecRing, big: NsecRing, pos: nat, name: Text, r: DnsRecord)
    requires ValidRing(small) && ValidRing(big) && Grown(small, big, pos, name)
    requires (exists i: nat :: IsLink(small, i, r)) && !NsecCovers(r.domain, r.nextDomain, name)
    ensures exists j: nat :: IsLink(big, j, r)
  {
    hide KeyOf, KeyLess, InGap, NsecCovers, Keys, Ascending;
    GrownKeys(small, big, pos, name);
    NsecCoversIsGap(r.domain, r.nextDomain, name);
    var i: nat :| IsLink(small, i, r);
    NextInserted(KeyLess(), Keys(small), Keys(big), pos, KeyOf(name), i);
    hide Next;
    var j := if i < pos then i else i + 1;
    var bitmap :| Inserted(small.bitmaps, big.bitmaps, pos, bitmap);
    assert big.bitmaps[j] == small.bitmaps[i];
    assert IsLink(big, j, r);
  }

  /** A link that neither begins nor ends at an owner is still one when that owner is gone. */
  lemma LinkShrinks(small: NsecRing, big: NsecRing, pos: nat, name: Text, r: DnsRecord)
    requires ValidRing(small) && ValidRing(big) && Grown(small, big, pos, name)
    requires exists j: nat :: IsLink(big, j, r)
    requires KeyOf(r.domain) != KeyOf(name) && KeyOf(r.nextDomain) != KeyOf(name)
    ensures exists i: nat :: IsLink(small, i, r)
  {
    hide KeyOf, KeyLess, InGap, Keys, Ascending;
    GrownKeys(small, big, pos, name);
    var j: nat :| IsLink(big, j, r);
    assert j != pos;
    var i := if j < pos then j else j - 1;
    NextInserted(KeyLess(), Keys(small), Keys(big), pos, KeyOf(name), i);
    hide Next;
    var bitmap :| Inserted(small.bitmaps, big.bitmaps, pos, bitmap);
    assert big.bitmaps[j] == small.bitmaps[i];
    assert IsLink(small, i, r);
  }

  /** A name that is neither covered nor mentioned can be added to the zone. */
  lemma Add(ring: NsecRing, nsecs: seq<DnsRecord>, name: Text) returns (other: NsecRing)
    requires ValidRing(ring) && FromRing(ring, nsecs) && !Owns(ring, name) && !Settles(nsecs, name)
    ensures ValidRing(other) && FromRing(other, nsecs) && Owns(other, name)
  {
    var pos := InsertAscending(KeyLess(), Keys(ring), KeyOf(name));
    var none: seq<byte> := [];
    other := NsecRing(ring.owners[..pos] + [name] + ring.owners[pos..], ring.bitmaps[..pos] + [none] + ring.bitmaps[pos..]);
    assert Inserted(ring.bitmaps, other.bitmaps, pos, none);
    GrownKeys(ring, other, pos, name);
    hide KeyOf, KeyLess, Ascending, NsecCovers, IsLink, Keys;
    assert Keys(other)[pos] == KeyOf(name);
    forall r | r in nsecs ensures exists j: nat :: IsLink(other, j, r) {
      FromRingIsNsec(ring, nsecs, r);
      LinkGrows(ring, other, pos, name, r);
    }
  }

  lemma FromRingIsNsec(ring: NsecRing, nsecs: seq<DnsRecord>, r: DnsRecord)
    requires ValidRing(ring) && FromRing(ring, nsecs) && r in nsecs
    ensures r.NSEC? && Owns(ring, r.domain) && Owns(ring, r.nextDomain)
  {
    hide KeyOf, Ascending, KeyLess;
    var i: nat :| IsLink(ring, i, r);
    assert Keys(ring)[i] == KeyOf(r.domain);
    assert Next(Keys(ring), i) in Keys(ring);
  }

  function Without(ring: NsecRing, pos: nat): NsecRing
    requires pos < |ring.owners| == |ring.bitmaps|
  {
    NsecRing(ring.owners[..pos] + ring.owners[pos + 1..], ring.bitmaps[..pos] + ring.bitmaps[pos + 1..])
  }

  lemma WithoutGrows(ring: NsecRing, pos: nat)
    requires pos < |ring.owners| == |ring.bitmaps|
    ensures Grown(Without(ring, pos), ring, pos, ring.owners[pos])
  {
    var other := Without(ring, pos);
    assert Inserted(other.owners, ring.owners, pos, ring.owners[pos]);
    assert Inserted(other.bitmaps, ring.bitmaps, pos, ring.bitmaps[pos]);
  }

  lemma WithoutIsRing(ring: NsecRing, pos: nat)
    requires ValidRing(ring) && pos < |ring.owners| && |ring.owners| > 1
    ensures ValidRing(Without(ring, pos)) && !Owns(Without(ring, pos), ring.owners[pos])
  {
    var other, key := Without(ring, pos), KeyOf(ring.owners[pos]);
    WithoutGrows(ring, pos);
    GrownKeys(other, ring, pos, ring.owners[pos]);
    hide KeyOf, KeyLess, Ascending, Keys, Grown;
    RemoveAscending(KeyLess(), Keys(other), Keys(ring), pos, key);
    GoneForGood(KeyLess(), Keys(other), Keys(ring), pos, key);
  }

  /** An owner that is not mentioned can be taken out. */
  lemma Drop(ring: NsecRing, nsecs: seq<DnsRecord>, name: Text) returns (other: NsecRing)
    requires ValidRing(ring) && FromRing(ring, nsecs) && nsecs != [] && Owns(ring, name) && !Settles(nsecs, name)
    ensures ValidRing(other) && FromRing(other, nsecs) && !Owns(other, name)
  {
    var pos: nat :| pos < |Keys(ring)| && Keys(ring)[pos] == KeyOf(name);
    var owner := ring.owners[pos];
    assert KeyOf(owner) == KeyOf(name);
    other := Without(ring, pos);
    hide KeyOf, KeyLess, Ascending, NsecCovers, IsLink, Grown, Without, ValidRing, AnyNsecCovers;
    assert nsecs[0] in nsecs;
    FromRingIsNsec(ring, nsecs, nsecs[0]);
    TwoOwners(ring, pos, nsecs[0].domain);
    WithoutGrows(ring, pos);
    WithoutIsRing(ring, pos);
    hide Keys;
    forall r | r in nsecs ensures exists j: nat :: IsLink(other, j, r) {
      FromRingIsNsec(ring, nsecs, r);
      LinkShrinks(other, ring, pos, owner, r);
    }
  }

  lemma GoneForGood<T(!new)>(less: (T, T) -> bool, small: seq<T>, big: seq<T>, pos: nat, x: T)
    requires StrictTotal(less) && Ascending(less, big) && Inserted(small, big, pos, x)
    ensures x !in small
  {
    forall i | 0 <= i < |small| ensures small[i] != x {
      if i < pos { assert less(big[i], big[pos]); } else { assert less(big[pos], big[i + 1]); }
    }
  }

  lemma TwoOwners(ring: NsecRing, pos: nat, name: Text)
    requires pos < |ring.owners| && Owns(ring, name) && Keys(ring)[pos] != KeyOf(name)
    ensures |ring.owners| > 1
  {
    hide KeyOf;
    var k :| 0 <= k < |Keys(ring)| && Keys(ring)[k] == KeyOf(name);
  }

  /** Whether the zone owns a name is the same in every zone the records can come from exactly when they settle it. */
  lemma SettledIff(ring: NsecRing, nsecs: seq<DnsRecord>, name: Text)
    requires ValidRing(ring) && FromRing(ring, nsecs) && nsecs != []
    ensures Settles(nsecs, name)
       <==> forall other :: ValidRing(other) && FromRing(other, nsecs) ==> (Owns(other, name) <==> Owns(ring, name))
  {
    hide ValidRing, FromRing, Owns, AnyNsecCovers, Mentions;
    if Settles(nsecs, name) {
      forall other | ValidRing(other) && FromRing(other, nsecs) ensures Owns(other, name) <==> Owns(ring, name) {
        SettledIs(ring, nsecs, name);
        SettledIs(other, nsecs, name);
      }
    } else if Owns(ring, name) {
      var other := Drop(ring, nsecs, name);
    } else {
      var other := Add(ring, nsecs, name);
    }
  }

  lemma SettledIs(ring: NsecRing, nsecs: seq<DnsRecord>, name: Text)
    requires ValidRing(ring) && FromRing(ring, nsecs) && Settles(nsecs, name)
    ensures Owns(ring, name) <==> Mentions(nsecs, name)
  {
    hide ValidRing, FromRing, AnyNsecCovers, KeyOf, Keys;
    if AnyNsecCovers(nsecs, name) { CoveredIsNotOwned(ring, nsecs, name); }
    if Mentions(nsecs, name) {
      var r :| r in nsecs && r.NSEC? && (KeyOf(r.domain) == KeyOf(name) || KeyOf(r.nextDomain) == KeyOf(name));
      FromRingIsNsec(ring, nsecs, r);
    }
  }

  // ---- Instances, in a zone named by one label ----

  const ZONE: Text := [101]

  function Below(c: byte, parent: Text): Text { [c, DOT] + parent }

  lemma BelowKey(c: byte, parent: Text)
    requires c != DOT && Lower(c) == c
    ensures Labels(Below(c, parent)) == [[c]] + Labels(parent)
    ensures KeyOf(Below(c, parent)) == KeyOf(parent) + [[c]]
  {
    var l: Text := [c];
    assert Below(c, parent) == l + ([DOT] + parent);
    OnePiece(l, [DOT] + parent);
    DotThen(parent);
    hide Labels;
    assert LowerText(l) == l;
  }

  lemma ZoneKey()
    ensures Labels(ZONE) == [[101]] && KeyOf(ZONE) == [[101]]
  {
    assert ZONE + [] == ZONE;
    OnePiece(ZONE, []);
    NoPiece();
    hide Labels;
    assert LowerText(ZONE) == ZONE;
  }

  /** A name sorts before the names below it, and those by their first byte. */
  lemma BelowLess(p: Key, c: byte, d: byte)
    ensures KeyLess()(p, p + [[c]]) && (KeyLess()(p + [[c]], p + [[d]]) <==> c < d)
  {
    var x, y, none: Key := [[c]], [[d]], [];
    assert forall u, v :: KeyLess()(u, v) == LexLess(LabelLess(), u, v);
    assert forall u, v :: LabelLess()(u, v) == LexLess(ByteLess(), u, v);
    LexCommon(LabelLess(), p, none, x);
    LexCommon(LabelLess(), p, x, y);
    assert p + none == p;
    assert LexLess(ByteLess(), [c], [d]) <==> c < d;
  }

  /** From the last owner on, everything later is covered; between two owners, what is between. */
  lemma Covers(owner: Text, next: Text, name: Text)
    requires KeyLess()(KeyOf(owner), KeyOf(name))
    requires KeyLess()(KeyOf(next), KeyOf(owner)) || KeyLess()(KeyOf(name), KeyOf(next))
    ensures NsecCovers(owner, next, name)
  {
    NsecCoversIsGap(owner, next, name);
    hide NsecCovers, KeyOf;
    var less, o, n, q := KeyLess(), KeyOf(owner), KeyOf(next), KeyOf(name);
    assert less(n, o) && less(o, n) ==> less(o, o);
    assert less(o, q) && less(q, n) ==> less(o, n);
  }

  lemma EncloserStep(nsecs: seq<DnsRecord>, labels: seq<Text>)
    requires labels != []
    ensures ClosestEncloser(labels, nsecs)
         == if OwnedBy(nsecs, Join(labels)) then Some(Join(labels)) else ClosestEncloser(labels[1..], nsecs)
  {
    hide EqIgnoreCase, Join;
  }

  lemma NotOwnedBy(nsecs: seq<DnsRecord>, name: Text)
    requires forall r <- nsecs :: KeyOf(r.domain) != KeyOf(name)
    ensures !OwnedBy(nsecs, name)
  {
    hide KeyOf, OwnedBy;
    if OwnedBy(nsecs, name) { OwnerHasKey(nsecs, name); }
  }

  lemma OwnerHasKey(nsecs: seq<DnsRecord>, name: Text)
    requires OwnedBy(nsecs, name)
    ensures exists r :: r in nsecs && KeyOf(r.domain) == KeyOf(name)
  {
    hide KeyOf, EqIgnoreCase;
    var r :| r in nsecs && r.NSEC? && EqIgnoreCase(r.domain, name);
    KeyOfFolds(r.domain, name);
  }

  lemma IsOwnedBy(nsecs: seq<DnsRecord>, r: DnsRecord)
    requires r in nsecs && r.NSEC?
    ensures OwnedBy(nsecs, r.domain)
  {
    assert EqIgnoreCase(r.domain, r.domain);
  }

  /** The names used: `*.e`, `a.e`, `y.e`, `z.e`, `*.y.e` and `z.y.e` in a zone `e`. */
  lemma NameKeys()
    ensures var e: Key := [[101]];
            && KeyOf(ZONE) == e && KeyOf(Below(STAR, ZONE)) == e + [[STAR]] && KeyOf(Below(97, ZONE)) == e + [[97]]
            && KeyOf(Below(121, ZONE)) == e + [[121]] && KeyOf(Below(122, ZONE)) == e + [[122]]
            && KeyOf(Below(STAR, Below(121, ZONE))) == e + [[121]] + [[STAR]]
            && KeyOf(Below(122, Below(121, ZONE))) == e + [[121]] + [[122]]
    ensures Labels(Below(122, ZONE)) == [[122]] + [[101]]
    ensures Labels(Below(122, Below(121, ZONE))) == [[122]] + ([[121]] + [[101]])
  {
    hide KeyOf, Labels, Below;
    ZoneKey();
    BelowKey(STAR, ZONE);
    BelowKey(97, ZONE);
    BelowKey(121, ZONE);
    BelowKey(122, ZONE);
    BelowKey(STAR, Below(121, ZONE));
    BelowKey(122, Below(121, ZONE));
  }

  lemma JoinOfTwo(c: byte)
    ensures var ls: seq<Text> := [[c]] + [[101]];
            Join(ls) == Below(c, ZONE) && ls[1..] == [[101]] && Join(ls[1..]) == ZONE && ls[1..][1..] == []
  {
    var ls: seq<Text> := [[c]] + [[101]];
    var rest: seq<Text> := [[101]];
    assert ls[1..] == rest && Join(rest) == ZONE;
    assert [c] + [DOT] + ZONE == Below(c, ZONE);
  }

  lemma JoinOfThree(c: byte, d: byte)
    ensures var ls: seq<Text> := [[c]] + ([[d]] + [[101]]);
            Join(ls) == Below(c, Below(d, ZONE)) && ls[1..] == [[d]] + [[101]]
  {
    var ls: seq<Text> := [[c]] + ([[d]] + [[101]]);
    var rest: seq<Text> := [[d]] + [[101]];
    JoinOfTwo(d);
    assert ls[1..] == rest;
    JoinParts(ls);
    hide Join;
    assert [c] + ([DOT] + Below(d, ZONE)) == Below(c, Below(d, ZONE));
  }

  const A_BITMAP: seq<byte> := [0, 1, 0x40]

  lemma BitmapHasA()
    ensures BitmapContains(A_BITMAP, 1)
  {
    assert Power2(6) == 64 by { assert Power2(4) == 16; }
    hide Power2;
    assert A_BITMAP[2..3] == [0x40];
    assert HasBit([0x40], 1);
    hide HasBit;
  }

  function Nsec(owner: Text, next: Text, bitmap: seq<byte>): DnsRecord { DnsRecord.NSEC(owner, next, bitmap, 0) }

  lemma VerdictSecure(nsecs: seq<DnsRecord>, qname: Text, qtype: u16, r: DnsRecord)
    requires r in nsecs && r.NSEC? && NsecCovers(r.domain, r.nextDomain, qname)
    requires var ce := ClosestEncloser(Labels(qname), nsecs);
             ce.None? || OwnedBy(nsecs, Wildcard(ce.value)) || AnyNsecCovers(nsecs, Wildcard(ce.value))
    ensures NsecVerdict(nsecs, qname, qtype, true) == Secure
  {
    WildcardCases(nsecs, qname);
    hide NsecCovers, ClosestEncloser, Labels, WildcardDenied, BitmapContains, OwnedBy;
  }

  /**
   * The wildcard test accepts an owner whatever its types: `z.e` is denied with NXDOMAIN
   * although `*.e` exists and has the very type asked for.
   */
  lemma WildcardTypeIsNotChecked()
    ensures var nsecs := [Nsec(ZONE, Wildcard(ZONE), []), Nsec(Wildcard(ZONE), ZONE, A_BITMAP)];
            && NsecVerdict(nsecs, Below(122, ZONE), 1, true) == Secure
            && ClosestEncloser(Labels(Below(122, ZONE)), nsecs) == Some(ZONE) && BitmapContains(A_BITMAP, 1)
  {
    hide KeyOf, Labels, NsecCovers, ClosestEncloser, BitmapContains, OwnedBy, Join, AnyNsecCovers, NsecVerdict;
    var apex, wild := Nsec(ZONE, Wildcard(ZONE), []), Nsec(Wildcard(ZONE), ZONE, A_BITMAP);
    var nsecs := [apex, wild];
    assert apex in nsecs && wild in nsecs && Wildcard(ZONE) == Below(STAR, ZONE);
    NameKeys();
    BitmapHasA();
    BelowLess([[101]], STAR, 122);
    Covers(Wildcard(ZONE), ZONE, Below(122, ZONE));
    JoinOfTwo(122);
    EncloserStep(nsecs, [[122]] + [[101]]);
    EncloserStep(nsecs, ([[122]] + [[101]])[1..]);
    NotOwnedBy(nsecs, Below(122, ZONE));
    IsOwnedBy(nsecs, apex);
    IsOwnedBy(nsecs, wild);
    VerdictSecure(nsecs, Below(122, ZONE), 1, wild);
  }

  /** With no encloser among the presented records, no wildcard is tried at all, and again `*.e` has the type. */
  lemma NoEncloserNoWildcard()
    ensures var nsecs := [Nsec(Wildcard(ZONE), ZONE, A_BITMAP)];
            var ring := NsecRing([ZONE, Wildcard(ZONE)], [[], A_BITMAP]);
            && NsecVerdict(nsecs, Below(122, ZONE), 1, true) == Secure
            && ClosestEncloser(Labels(Below(122, ZONE)), nsecs) == None
            && ValidRing(ring) && FromRing(ring, nsecs) && RingEncloser(ring, Labels(Below(122, ZONE))) == Some(ZONE)
            && Owns(ring, Wildcard(ZONE)) && BitmapContains(A_BITMAP, 1)
  {
    hide KeyOf, Labels, NsecCovers, ClosestEncloser, BitmapContains, OwnedBy, Join, AnyNsecCovers, NsecVerdict;
    var wild := Nsec(Wildcard(ZONE), ZONE, A_BITMAP);
    var nsecs, ring := [wild], NsecRing([ZONE, Wildcard(ZONE)], [[], A_BITMAP]);
    assert wild in nsecs && Wildcard(ZONE) == Below(STAR, ZONE);
    NameKeys();
    BitmapHasA();
    BelowLess([[101]], STAR, 122);
    Covers(Wildcard(ZONE), ZONE, Below(122, ZONE));
    JoinOfTwo(122);
    EncloserStep(nsecs, [[122]] + [[101]]);
    EncloserStep(nsecs, ([[122]] + [[101]])[1..]);
    NotOwnedBy(nsecs, Below(122, ZONE));
    NotOwnedBy(nsecs, ZONE);
    assert ClosestEncloser([], nsecs) == None by { NoLabelsNoEncloser(nsecs); }
    VerdictSecure(nsecs, Below(122, ZONE), 1, wild);
    assert Keys(ring)[0] == KeyOf(ZONE) && Keys(ring)[1] == KeyOf(Wildcard(ZONE));
    assert IsLink(ring, 1, wild);
    assert KeyOf(Below(122, ZONE)) !in Keys(ring);
  }

  lemma NoLabelsNoEncloser(nsecs: seq<DnsRecord>)
    ensures ClosestEncloser([], nsecs) == None
  {
  }

  /** With only an encloser above the true one presented, the wrong wildcard is tried, and `*.y.e` has the type. */
  lemma HigherEncloserOtherWildcard()
    ensures var y := Below(121, ZONE);
            var nsecs := [Nsec(ZONE, y, []), Nsec(Wildcard(y), ZONE, A_BITMAP)];
            var ring := NsecRing([ZONE, y, Wildcard(y)], [[], [], A_BITMAP]);
            && NsecVerdict(nsecs, Below(122, y), 1, true) == Secure
            && ClosestEncloser(Labels(Below(122, y)), nsecs) == Some(ZONE)
            && ValidRing(ring) && FromRing(ring, nsecs) && RingEncloser(ring, Labels(Below(122, y))) == Some(y)
            && Owns(ring, Wildcard(y)) && BitmapContains(A_BITMAP, 1)
  {
    hide KeyOf, Labels, NsecCovers, ClosestEncloser, BitmapContains, OwnedBy, Join, NsecVerdict, KeyLess;
    var y := Below(121, ZONE);
    var apex, wild := Nsec(ZONE, y, []), Nsec(Wildcard(y), ZONE, A_BITMAP);
    var nsecs, ring := [apex, wild], NsecRing([ZONE, y, Wildcard(y)], [[], [], A_BITMAP]);
    assert apex in nsecs && wild in nsecs && Wildcard(y) == Below(STAR, y) && Wildcard(ZONE) == Below(STAR, ZONE);
    hide Below, Wildcard;
    NameKeys();
    BitmapHasA();
    HigherKeys();
    Covers(Wildcard(y), ZONE, Below(122, y));
    Covers(ZONE, y, Wildcard(ZONE));
    HigherEncloser(nsecs);
    VerdictSecure(nsecs, Below(122, y), 1, wild);
    assert Keys(ring)[0] == KeyOf(ZONE) && Keys(ring)[1] == KeyOf(y) && Keys(ring)[2] == KeyOf(Wildcard(y));
    assert IsLink(ring, 0, apex) && IsLink(ring, 2, wild);
    HigherRingEncloser(ring);
  }

  lemma KeysDiffer(p: Key, c: byte, d: byte)
    requires c != d
    ensures p + [[c]] != p + [[d]]
  {
    assert (p + [[c]])[|p|] == [c] && (p + [[d]])[|p|] == [d] && [c][0] != [d][0];
  }

  lemma HigherKeys()
    ensures var e: Key := [[101]];
            var less := KeyLess();
            && less(e, e + [[STAR]]) && less(e, e + [[121]]) && less(e + [[STAR]], e + [[121]])
            && less(e + [[121]], e + [[121]] + [[STAR]]) && less(e + [[121]] + [[STAR]], e + [[121]] + [[122]])
            && less(e, e + [[121]] + [[STAR]])
  {
    var e: Key := [[101]];
    BelowLess(e, STAR, 121);
    BelowLess(e, 121, 122);
    BelowLess(e + [[121]], STAR, 122);
    hide KeyLess;
  }

  lemma HigherEncloser(nsecs: seq<DnsRecord>)
    requires var y := Below(121, ZONE); nsecs == [Nsec(ZONE, y, []), Nsec(Below(STAR, y), ZONE, A_BITMAP)]
    ensures ClosestEncloser(Labels(Below(122, Below(121, ZONE))), nsecs) == Some(ZONE)
  {
    hide KeyOf, Labels, ClosestEncloser, OwnedBy, Join, Below;
    var y := Below(121, ZONE);
    var ls: seq<Text>, rest: seq<Text> := [[122]] + ([[121]] + [[101]]), [[121]] + [[101]];
    NameKeys();
    JoinOfThree(122, 121);
    JoinOfTwo(121);
    EncloserStep(nsecs, ls);
    EncloserStep(nsecs, rest);
    EncloserStep(nsecs, rest[1..]);
    KeysDiffer([[101]] + [[121]], STAR, 122);
    NotOwnedBy(nsecs, Below(122, y));
    NotOwnedBy(nsecs, y);
    IsOwnedBy(nsecs, nsecs[0]);
  }

  lemma HigherRingEncloser(ring: NsecRing)
    requires var y := Below(121, ZONE); ring.owners == [ZONE, y, Below(STAR, y)]
    ensures RingEncloser(ring, Labels(Below(122, Below(121, ZONE)))) == Some(Below(121, ZONE))
  {
    hide KeyOf, Labels, Join, Below;
    var y := Below(121, ZONE);
    var ls: seq<Text>, rest: seq<Text> := [[122]] + ([[121]] + [[101]]), [[121]] + [[101]];
    NameKeys();
    JoinOfThree(122, 121);
    JoinOfTwo(121);
    assert Keys(ring)[0] == KeyOf(ZONE) && Keys(ring)[1] == KeyOf(y) && Keys(ring)[2] == KeyOf(Below(STAR, y));
    KeysDiffer([[101]] + [[121]], STAR, 122);
    assert KeyOf(Below(122, y)) !in Keys(ring) && KeyOf(y) in Keys(ring);
  }

  /** Without the encloser a Secure NXDOMAIN leaves its wildcard open: some zone of these records has it, another not. */
  lemma SecureLeavesWildcardOpen() returns (without: NsecRing, having: NsecRing)
    ensures var nsecs := [Nsec(Below(97, ZONE), ZONE, [])];
            && NsecVerdict(nsecs, Below(122, ZONE), 1, true) == Secure
            && ValidRing(without) && FromRing(without, nsecs) && ValidRing(having) && FromRing(having, nsecs)
            && RingEncloser(without, Labels(Below(122, ZONE))) == Some(ZONE)
            && !Owns(without, Wildcard(ZONE)) && Owns(having, Wildcard(ZONE))
  {
    hide KeyOf, Labels, NsecCovers, ClosestEncloser, BitmapContains, OwnedBy, Join, NsecVerdict, KeyLess;
    var link := Nsec(Below(97, ZONE), ZONE, []);
    var nsecs := [link];
    without := NsecRing([ZONE, Below(97, ZONE)], [[], []]);
    assert link in nsecs && Wildcard(ZONE) == Below(STAR, ZONE);
    hide Below, Wildcard;
    NameKeys();
    BelowLess([[101]], 97, 122);
    BelowLess([[101]], STAR, 97);
    Covers(Below(97, ZONE), ZONE, Below(122, ZONE));
    OpenEncloser(nsecs);
    VerdictSecure(nsecs, Below(122, ZONE), 1, link);
    assert Keys(without)[0] == KeyOf(ZONE) && Keys(without)[1] == KeyOf(Below(97, ZONE));
    assert IsLink(without, 1, link);
    assert KeyOf(Below(122, ZONE)) !in Keys(without) && KeyOf(Wildcard(ZONE)) !in Keys(without);
    OpenRingEncloser(without);
    NotCovered(Below(97, ZONE), ZONE, Wildcard(ZONE));
    hide Keys;
    having := Add(without, nsecs, Wildcard(ZONE));
  }

  /** A wrapping link does not cover what lies between its end and its beginning. */
  lemma NotCovered(owner: Text, next: Text, name: Text)
    requires KeyLess()(KeyOf(next), KeyOf(name)) && KeyLess()(KeyOf(name), KeyOf(owner))
    ensures !NsecCovers(owner, next, name)
  {
    NsecCoversIsGap(owner, next, name);
    hide NsecCovers, KeyOf;
    var less, o, n, q := KeyLess(), KeyOf(owner), KeyOf(next), KeyOf(name);
    assert less(o, n) && less(n, q) ==> less(o, q);
    assert less(o, q) && less(q, o) ==> less(o, o);
    assert less(q, n) && less(n, q) ==> less(q, q);
  }

  lemma OpenEncloser(nsecs: seq<DnsRecord>)
    requires nsecs == [Nsec(Below(97, ZONE), ZONE, [])]
    ensures ClosestEncloser(Labels(Below(122, ZONE)), nsecs) == None
  {
    hide KeyOf, Labels, ClosestEncloser, OwnedBy, Join, Below;
    NameKeys();
    JoinOfTwo(122);
    EncloserStep(nsecs, [[122]] + [[101]]);
    EncloserStep(nsecs, ([[122]] + [[101]])[1..]);
    KeysDiffer([[101]], 97, 122);
    NotOwnedBy(nsecs, Below(122, ZONE));
    NotOwnedBy(nsecs, ZONE);
    NoLabelsNoEncloser(nsecs);
  }

  lemma OpenRingEncloser(ring: NsecRing)
    requires |ring.owners| == 2 && Owns(ring, ZONE) && !Owns(ring, Below(122, ZONE))
    ensures RingEncloser(ring, Labels(Below(122, ZONE))) == Some(ZONE)
  {
    hide KeyOf, Labels, Join, Below, Owns;
    NameKeys();
    JoinOfTwo(122);
  }

  // ---- An NSEC3 proof about a name that is there ----

  lemma LabelsOfThree(c: byte, d: byte)
    requires c != DOT && d != DOT
    ensures Labels(Below(c, Below(d, ZONE))) == [[c]] + ([[d]] + [[101]])
  {
    var ls: seq<Text> := [[c]] + ([[d]] + [[101]]);
    JoinOfThree(c, d);
    hide Labels, Join, Below;
    assert forall l <- ls :: l == [c] || l == [d] || l == [101];
    LabelsOfJoin(ls);
  }

  /** A ring without the empty non-terminal `b.e`: all its records deny `c.b.e`, which is hashed in it. */
  lemma HashedNameMayBeDenied()
    ensures var name := Below(99, Below(98, ZONE));
            var ring := HashRing([name, ZONE], [[], []]);
            var links := [HashLink(name, ZONE, []), HashLink(ZONE, name, [])];
            var hash: Text -> Option<seq<byte>> := t => Option.Some(t);
            && ValidHashRing(ring) && FromHashRing(ring, links) && WholeHashRing(ring, links)
            && HashVerdict(hash, links, name, 1, true) == Secure && hash(name).value in ring.hashes
  {
    var name, parent := Below(99, Below(98, ZONE)), Below(98, ZONE);
    var ring := HashRing([name, ZONE], [[], []]);
    var links := [HashLink(name, ZONE, []), HashLink(ZONE, name, [])];
    var hash: Text -> Option<seq<byte>> := t => Option.Some(t);
    var labels: seq<Text> := [[99]] + ([[98]] + [[101]]);
    assert |name| == 5 && |parent| == 3 && |Wildcard(ZONE)| == 3 && |ZONE| == 1 && name[0] == 99;
    LabelsOfThree(99, 98);
    JoinOfThree(99, 98);
    JoinOfTwo(98);
    assert labels[2..] == labels[1..][1..];
    assert LexLess(ByteLess(), name, ZONE);
    hide Join, Labels, Below, Wildcard, HashVerdict, LexLess;
    assert ValidHashRing(ring);
    assert IsHashLink(ring, 0, links[0]) && IsHashLink(ring, 1, links[1]);
    assert HashAbsent(ring, hash, labels, 2);
    HashNxdomainIff(ring, hash, links, name, 1);
  }
}
