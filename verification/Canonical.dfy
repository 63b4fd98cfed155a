/** Lexicographic order on byte strings, and sorting by it (`Vec<Vec<u8>>::sort`). */
module ByteOrder {
  import opened Bytes

  /** `Ord` on byte slices, as "not greater". */
  predicate Leq(a: seq<byte>, b: seq<byte>) {
    if a == [] then true
    else if b == [] then false
    else a[0] < b[0] || (a[0] == b[0] && Leq(a[1..], b[1..]))
  }

  /** A prefix, or smaller where the two first differ. */
  ghost predicate LexLeq(a: seq<byte>, b: seq<byte>) {
    a <= b || exists k :: 0 <= k < |a| && k < |b| && a[..k] == b[..k] && a[k] < b[k]
  }

  lemma {:induction false} LeqIsLex(a: seq<byte>, b: seq<byte>)
    ensures Leq(a, b) <==> LexLeq(a, b)
  {
    if a != [] && b != [] {
      LeqIsLex(a[1..], b[1..]);
      if LexLeq(a, b) { LexHead(a, b); }
      if a[0] < b[0] {
        assert a[..0] == b[..0];
      } else if a[0] == b[0] {
        LexTails(a, b);
        hide LexLeq;
      }
    }
  }

  lemma LexTails(a: seq<byte>, b: seq<byte>)
    requires a != [] && b != [] && a[0] == b[0]
    ensures LexLeq(a, b) <==> LexLeq(a[1..], b[1..])
  {
    assert a == [a[0]] + a[1..] && b == [b[0]] + b[1..];
    if k :| 0 <= k < |a[1..]| && k < |b[1..]| && a[1..][..k] == b[1..][..k] && a[1..][k] < b[1..][k] {
      assert a[..k + 1] == [a[0]] + a[1..][..k] && b[..k + 1] == [b[0]] + b[1..][..k];
    }
    if k :| 0 <= k < |a| && k < |b| && a[..k] == b[..k] && a[k] < b[k] {
      assert k > 0 && a[1..][..k - 1] == a[..k][1..] && b[1..][..k - 1] == b[..k][1..];
    }
  }

  lemma LexHead(a: seq<byte>, b: seq<byte>)
    requires LexLeq(a, b) && a != [] && b != []
    ensures a[0] <= b[0]
  {
    if !(a <= b) {
      var k :| 0 <= k < |a| && k < |b| && a[..k] == b[..k] && a[k] < b[k];
      assert k > 0 ==> a[0] == a[..k][0] == b[..k][0] == b[0];
    }
  }

  lemma LeqTotal(a: seq<byte>, b: seq<byte>)
    ensures Leq(a, b) || Leq(b, a)
  {
  }

  lemma {:induction false} LeqAntisymmetric(a: seq<byte>, b: seq<byte>)
    requires Leq(a, b) && Leq(b, a)
    ensures a == b
  {
    if a != [] {
      LeqAntisymmetric(a[1..], b[1..]);
      assert a == [a[0]] + a[1..] && b == [b[0]] + b[1..];
    }
  }

  lemma LeqTransitive(a: seq<byte>, b: seq<byte>, c: seq<byte>)
    requires Leq(a, b) && Leq(b, c)
    ensures Leq(a, c)
  {
  }

  predicate Sorted(xs: seq<seq<byte>>) {
    forall i, j :: 0 <= i < j < |xs| ==> Leq(xs[i], xs[j])
  }

  function Insert(x: seq<byte>, xs: seq<seq<byte>>): (r: seq<seq<byte>>)
    ensures multiset(r) == multiset(xs) + multiset{x}
  {
    if xs == [] then [x]
    else if Leq(x, xs[0]) then [x] + xs
    else
      assert xs == [xs[0]] + xs[1..];
      [xs[0]] + Insert(x, xs[1..])
  }

  function Sort(xs: seq<seq<byte>>): (r: seq<seq<byte>>)
    ensures multiset(r) == multiset(xs)
  {
    if xs == [] then [] else
    assert xs == [xs[0]] + xs[1..];
    Insert(xs[0], Sort(xs[1..]))
  }

  lemma {:induction false} InsertSorted(x: seq<byte>, xs: seq<seq<byte>>)
    requires Sorted(xs)
    ensures Sorted(Insert(x, xs))
  {
    if xs != [] {
      if Leq(x, xs[0]) {
        forall i | 0 <= i < |xs| ensures Leq(x, xs[i]) {
          if i > 0 { LeqTransitive(x, xs[0], xs[i]); }
        }
      } else {
        LeqTotal(x, xs[0]);
        InsertSorted(x, xs[1..]);
        var rest := Insert(x, xs[1..]);
        forall i | 0 <= i < |rest| ensures Leq(xs[0], rest[i]) {
          assert rest[i] in multiset(rest);
        }
      }
    }
  }

  lemma {:induction false} SortSorted(xs: seq<seq<byte>>)
    ensures Sorted(Sort(xs))
  {
    if xs != [] {
      SortSorted(xs[1..]);
      InsertSorted(xs[0], Sort(xs[1..]));
    }
  }

  /** Only one arrangement of a collection of byte strings is sorted. */
  lemma {:induction false} SortedUnique(xs: seq<seq<byte>>, ys: seq<seq<byte>>)
    requires Sorted(xs) && Sorted(ys) && multiset(xs) == multiset(ys)
    ensures xs == ys
    decreases |xs|
  {
    hide Leq, Sorted;
    assert |xs| == |multiset(xs)| == |multiset(ys)| == |ys|;
    if xs != [] {
      assert xs[0] in multiset(ys) && ys[0] in multiset(xs);
      SortedHead(xs, ys[0]);
      SortedHead(ys, xs[0]);
      LeqAntisymmetric(xs[0], ys[0]);
      SortedTail(xs);
      SortedTail(ys);
      SortedUnique(xs[1..], ys[1..]);
    }
  }

  lemma SortedTail(xs: seq<seq<byte>>)
    requires Sorted(xs) && xs != []
    ensures Sorted(xs[1..]) && xs == [xs[0]] + xs[1..]
    ensures multiset(xs[1..]) == multiset(xs) - multiset{xs[0]}
  {
    assert xs == [xs[0]] + xs[1..];
  }

  lemma LeqReflexive(x: seq<byte>)
    ensures Leq(x, x)
  {
  }

  lemma SortedHead(xs: seq<seq<byte>>, x: seq<byte>)
    requires Sorted(xs) && x in xs
    ensures Leq(xs[0], x)
  {
    LeqReflexive(x);
  }

  lemma SortPermutation(xs: seq<seq<byte>>, ys: seq<seq<byte>>)
    requires multiset(xs) == multiset(ys)
    ensures Sort(xs) == Sort(ys)
  {
    SortSorted(xs);
    SortSorted(ys);
    SortedUnique(Sort(xs), Sort(ys));
  }
}

/** Canonical forms and the bytes an RRSIG covers (section 6 of RFC 4034). */
module Canonical {
  import opened Bytes
  import opened Names
  import opened PacketBuffer
  import opened Question
  import opened Record
  import opened ByteOrder

  /** What `name_to_wire` returns; None where it panics. */
  function CanonicalName(t: Text): Option<seq<byte>> {
    var ls :- ParseName(t);
    if |WireOf(ls)| > BUF_SIZE then None else
    LowerLabelsValid(ls);
    Some(WireOf(LowerLabels(ls)))
  }

  lemma LowerLabelsCons(l: Label, rest: seq<Label>)
    ensures LowerLabels([l] + rest) == [LowerText(l)] + LowerLabels(rest)
  {
  }

  method NameToWire(name: Text) returns (r: Option<seq<byte>>)
    ensures r == CanonicalName(name)
  {
    hide LabelsWire, ParseName, LowerLabels;
    var buffer := new BytePacketBuffer();
    var ok := buffer.WriteQname(name);
    if !ok { return None; }
    var wire: seq<byte> := buffer.buf[..buffer.pos];
    ghost var rest := ParseName(name).value;
    ghost var done: seq<byte> := [];
    assert wire == WireOf(rest);
    LowerLabelsValid(rest);
    ghost var result := WireOf(LowerLabels(rest));
    var i := 0;
    while i < |wire|
      invariant i == |done| <= |wire| && ValidLabels(rest) && ValidLabels(LowerLabels(rest))
      invariant wire == done + WireOf(rest)
      invariant result == done + WireOf(LowerLabels(rest))
    {
      var labelLen := wire[i];
      FirstLength(rest);
      if labelLen == 0 { break; }
      i := i + 1;
      var end := i + labelLen;
      ghost var l, tail := rest[0], rest[1..];
      NextLabel(done, l, tail);
      Slices(done + [labelLen], l, WireOf(tail));
      wire := wire[..i] + LowerText(wire[i..end]) + wire[end..];
      done := done + [labelLen] + LowerText(l);
      rest := tail;
      i := end;
    }
    r := Some(wire);
  }

  lemma FirstLength(ls: seq<Label>)
    requires ValidLabels(ls)
    ensures WireOf(ls)[0] == if ls == [] then 0 else |ls[0]|
    ensures ls == [] ==> LowerLabels(ls) == [] && WireOf(ls) == [0]
    ensures ls != [] ==> ls == [ls[0]] + ls[1..]
  {
  }

  /** The wire around the label that follows `done`, before and after it is lower-cased in place. */
  lemma NextLabel(done: seq<byte>, l: Label, rest: seq<Label>)
    requires 1 <= |l| <= MAX_LABEL && ValidLabels(rest)
    ensures ValidLabels([l] + rest) && ValidLabels(LowerLabels(rest)) && ValidLabels(LowerLabels([l] + rest))
    ensures done + WireOf([l] + rest) == done + [|l| as byte] + l + WireOf(rest)
    ensures done + WireOf(LowerLabels([l] + rest)) == done + [|l| as byte] + LowerText(l) + WireOf(LowerLabels(rest))
  {
    LowerLabelsValid(rest);
    LowerLabelsValid([l] + rest);
    LowerLabelsCons(l, rest);
    WireCons(l, rest);
    WireCons(LowerText(l), LowerLabels(rest));
    hide *;
    Regroup(done, [|l| as byte], l, WireOf(rest));
    Regroup(done, [|l| as byte], LowerText(l), WireOf(LowerLabels(rest)));
  }

  lemma Regroup(a: seq<byte>, b: seq<byte>, c: seq<byte>, d: seq<byte>)
    ensures a + (b + c + d) == a + b + c + d
  {
  }

  /** `record_rdata_canonical`. */
  function CanonicalRdata(r: DnsRecord): Option<seq<byte>> {
    match r
    case A(_, addr, _) => Some(addr)
    case AAAA(_, addr, _) => Some(Octets(addr))
    case NS(_, host, _) => CanonicalName(host)
    case CNAME(_, host, _) => CanonicalName(host)
    case PTR(_, host, _) => CanonicalName(host)
    case MX(_, priority, host, _) =>
      var h :- CanonicalName(host);
      Some(BE16(priority) + h)
    case DNSKEY(_, flags, protocol, algorithm, publicKey, _) =>
      Some(BE16(flags) + [protocol] + [algorithm] + publicKey)
    case DS(_, keyTag, algorithm, digestType, digest, _) =>
      Some(BE16(keyTag) + [algorithm] + [digestType] + digest)
    case NSEC(_, nextDomain, typeBitmap, _) =>
      var n :- CanonicalName(nextDomain);
      Some(n + typeBitmap)
    case NSEC3(_, hashAlgorithm, flags3, iterations, salt, nextHashedOwner, typeBitmap, _) =>
      Some([hashAlgorithm] + [flags3] + BE16(iterations) + [|salt| % 0x100] + salt
           + [|nextHashedOwner| % 0x100] + nextHashedOwner + typeBitmap)
    case SOA(_, mname, rname, serial, refresh, retry, expire, minimum, _) =>
      var m :- CanonicalName(mname);
      var n :- CanonicalName(rname);
      Some(m + n + BE32(serial) + BE32(refresh) + BE32(retry) + BE32(expire) + BE32(minimum))
    case UNKNOWN(_, _, data, _) => Some(data)
    case RRSIG(_, _, _, _, _, _, _, _, _, _, _) => Some([])
  }

  /** `record_to_canonical_wire`. */
  function CanonicalWire(r: DnsRecord, originalTtl: u32): Option<seq<byte>> {
    var owner :- CanonicalName(r.domain);
    var rdata :- CanonicalRdata(r);
    Some(owner + BE16(r.QType().ToNum()) + BE16(1) + BE32(originalTtl) + BE16(AsU16(|rdata|)) + rdata)
  }

  function WithTtl(r: DnsRecord, ttl: u32): DnsRecord { r.(ttl := ttl) }

  lemma CanonicalNameIsWritten(t: Text)
    requires NormalForm(t) && |NameWire(t).value| <= BUF_SIZE
    ensures CanonicalName(t) == NameWire(t)
  {
    NormalFormLabelsLower(t);
  }

  /** The validator's own encoder and the message writer agree byte for byte. */
  lemma EncodersAgree(r: DnsRecord, ttl: u32)
    requires !r.RRSIG? && NormalNames(r)
    requires RecordWire(WithTtl(r, ttl)).Some? && |RecordWire(WithTtl(r, ttl)).value| <= BUF_SIZE
    ensures CanonicalWire(r, ttl) == RecordWire(WithTtl(r, ttl))
  {
    hide CanonicalName, NameWire, NormalForm, Octets, BE32, BE16;
    CanonicalNameIsWritten(r.domain);
    match r
    case NS(_, host, _) => CanonicalNameIsWritten(host);
    case CNAME(_, host, _) => CanonicalNameIsWritten(host);
    case PTR(_, host, _) => CanonicalNameIsWritten(host);
    case MX(_, _, host, _) => CanonicalNameIsWritten(host);
    case SOA(_, mname, rname, _, _, _, _, _, _) =>
      CanonicalNameIsWritten(mname);
      CanonicalNameIsWritten(rname);
    case NSEC(_, nextDomain, _, _) => CanonicalNameIsWritten(nextDomain);
    case _ =>
  }

  /** An RRSIG record is where the two encoders part: the canonical form drops its RDATA. */
  lemma RrsigHasNoCanonicalRdata(r: DnsRecord, ttl: u32)
    requires r.RRSIG? && CanonicalWire(r, ttl).Some? && RecordWire(WithTtl(r, ttl)).Some? && NormalNames(r)
    requires |RecordWire(WithTtl(r, ttl)).value| <= BUF_SIZE
    ensures |RecordWire(WithTtl(r, ttl)).value| >= |CanonicalWire(r, ttl).value| + 19
  {
    CanonicalNameIsWritten(r.domain);
    hide CanonicalName, NameWire, NormalForm;
  }

  // ---- Letter case ----

  /** A text and its lower-case form parse alike, up to the case of the labels. */
  lemma {:induction false} ParseLabelFolds(t: Text, body: Label, body2: Label)
    requires LowerText(body) == LowerText(body2)
    ensures var x, y := ParseLabel(t, body), ParseLabel(LowerText(t), body2);
            && (x.Some? <==> y.Some?)
            && (x.Some? ==> LowerText(x.value.0) == LowerText(y.value.0) && LowerText(x.value.1) == y.value.1)
    decreases |t|
  {
    var u := LowerText(t);
    if t != [] {
      if t[0] == DOT {
        assert u[1..] == LowerText(t[1..]);
      } else {
        UnescapeFolds(t);
        if Unescape(t).Some? {
          var (b, n) := Unescape(t).value;
          var (b2, _) := Unescape(u).value;
          assert u[n..] == LowerText(t[n..]);
          LowerTextConcat(body, [b]);
          LowerTextConcat(body2, [b2]);
          assert |body| == |LowerText(body)| == |body2|;
          ParseLabelFolds(t[n..], body + [b], body2 + [b2]);
        }
      }
    }
  }

  lemma UnescapeFolds(t: Text)
    requires t != [] && t[0] != DOT
    ensures LowerText(t)[0] != DOT
    ensures var x, y := Unescape(t), Unescape(LowerText(t));
            && (x.Some? <==> y.Some?)
            && (x.Some? ==> x.value.1 == y.value.1 && LowerText([x.value.0]) == LowerText([y.value.0]))
  {
    var u := LowerText(t);
    assert forall i :: 0 <= i < |t| ==> u[i] == Lower(t[i]) && (IsDigit(t[i]) <==> IsDigit(u[i])) && (IsDigit(t[i]) ==> u[i] == t[i]);
  }

  lemma {:induction false} ParseNameFolds(t: Text)
    ensures ParseName(t).Some? <==> ParseName(LowerText(t)).Some?
    ensures ParseName(t).Some? ==> LowerLabels(ParseName(t).value) == LowerLabels(ParseName(LowerText(t)).value)
    decreases |t|
  {
    if t != [] {
      ParseLabelFolds(t, [], []);
      if ParseLabel(t, []).Some? {
        var (l, rest) := ParseLabel(t, []).value;
        var (l2, rest2) := ParseLabel(LowerText(t), []).value;
        ParseNameFolds(rest);
        assert |l| == |LowerText(l)| == |l2|;
        if ParseName(rest).Some? && l != [] {
          LowerLabelsCons(l, ParseName(rest).value);
          LowerLabelsCons(l2, ParseName(rest2).value);
        }
      }
    }
  }

  /** Names that differ only in letter case have one canonical wire form. */
  lemma CanonicalNameFolds(t: Text, u: Text)
    requires EqIgnoreCase(t, u)
    ensures CanonicalName(t) == CanonicalName(u)
  {
    ParseNameFolds(t);
    ParseNameFolds(u);
    if ParseName(t).Some? {
      LowerLabelsWire(ParseName(t).value);
      LowerLabelsWire(ParseName(u).value);
    }
  }

  /** A record with its names in lower case and no TTL: what its signature depends on. */
  function Folded(r: DnsRecord): DnsRecord {
    var owner := LowerText(r.domain);
    var plain := r.(domain := owner, ttl := 0);
    match r
    case NS(_, host, _) => DnsRecord.NS(owner, LowerText(host), 0)
    case CNAME(_, host, _) => DnsRecord.CNAME(owner, LowerText(host), 0)
    case PTR(_, host, _) => DnsRecord.PTR(owner, LowerText(host), 0)
    case MX(_, priority, host, _) => DnsRecord.MX(owner, priority, LowerText(host), 0)
    case SOA(_, mname, rname, serial, refresh, retry, expire, minimum, _) =>
      DnsRecord.SOA(owner, LowerText(mname), LowerText(rname), serial, refresh, retry, expire, minimum, 0)
    case NSEC(_, nextDomain, typeBitmap, _) => DnsRecord.NSEC(owner, LowerText(nextDomain), typeBitmap, 0)
    case RRSIG(_, typeCovered, algorithm, labels, originalTtl, expiration, inception, keyTag, signerName, signature, _) =>
      DnsRecord.RRSIG(owner, typeCovered, algorithm, labels, originalTtl, expiration, inception, keyTag,
                      LowerText(signerName), signature, 0)
    case _ => plain
  }

  lemma CanonicalNameOfLower(t: Text)
    ensures CanonicalName(LowerText(t)) == CanonicalName(t)
  {
    LowerTextIdempotent(t);
    CanonicalNameFolds(LowerText(t), t);
  }

  lemma CanonicalWireFolded(r: DnsRecord, ttl: u32)
    ensures CanonicalWire(Folded(r), ttl) == CanonicalWire(r, ttl)
  {
    hide CanonicalName, LowerText;
    CanonicalNameOfLower(r.domain);
    match r
    case NS(_, host, _) => CanonicalNameOfLower(host);
    case CNAME(_, host, _) => CanonicalNameOfLower(host);
    case PTR(_, host, _) => CanonicalNameOfLower(host);
    case MX(_, _, host, _) => CanonicalNameOfLower(host);
    case SOA(_, mname, rname, _, _, _, _, _, _) =>
      CanonicalNameOfLower(mname);
      CanonicalNameOfLower(rname);
    case NSEC(_, nextDomain, _, _) => CanonicalNameOfLower(nextDomain);
    case _ =>
  }

  // ---- Signed data ----

  /** RRSIG RDATA without the signature. */
  function SignaturePrefix(sig: DnsRecord): Option<seq<byte>>
    requires sig.RRSIG?
  {
    var signer :- CanonicalName(sig.signerName);
    Some(BE16(sig.typeCovered) + [sig.algorithm] + [sig.labels] + BE32(sig.originalTtl) + BE32(sig.expiration)
         + BE32(sig.inception) + BE16(sig.keyTag) + signer)
  }

  function CanonicalWires(rrset: seq<DnsRecord>, ttl: u32): (r: Option<seq<seq<byte>>>)
    ensures r.Some? ==> |r.value| == |rrset|
  {
    if rrset == [] then Some([]) else
    var first :- CanonicalWire(rrset[0], ttl);
    var rest :- CanonicalWires(rrset[1..], ttl);
    Some([first] + rest)
  }

  function Flatten(xs: seq<seq<byte>>): seq<byte> {
    if xs == [] then [] else xs[0] + Flatten(xs[1..])
  }

  /** `build_signed_data`; None where a name makes `name_to_wire` panic. */
  function SignedData(sig: DnsRecord, rrset: seq<DnsRecord>): Option<seq<byte>> {
    if !sig.RRSIG? then Some([]) else
    var prefix :- SignaturePrefix(sig);
    var wires :- CanonicalWires(rrset, sig.originalTtl);
    Some(prefix + Flatten(Sort(wires)))
  }

  /** The pieces lie one after the other, from position `p` to the end. */
  ghost predicate Consecutive(data: seq<byte>, p: nat, pieces: seq<seq<byte>>)
    decreases |pieces|
  {
    if pieces == [] then p == |data|
    else p + |pieces[0]| <= |data| && data[p..p + |pieces[0]|] == pieces[0] && Consecutive(data, p + |pieces[0]|, pieces[1..])
  }

  lemma {:induction false} FlattenLies(front: seq<byte>, xs: seq<seq<byte>>)
    ensures Consecutive(front + Flatten(xs), |front|, xs)
    decreases |xs|
  {
    if xs != [] {
      FlattenLies(front + xs[0], xs[1..]);
      assert front + Flatten(xs) == front + xs[0] + Flatten(xs[1..]);
    }
  }

  /**
   * Section 3.1.8.1 of RFC 4034: the RDATA without the signature and then the canonical forms of all records, each with the
   * original TTL, in ascending order.
   */
  lemma SignedDataIs(sig: DnsRecord, rrset: seq<DnsRecord>) returns (forms: seq<seq<byte>>, sorted: seq<seq<byte>>)
    requires sig.RRSIG? && SignedData(sig, rrset).Some?
    ensures |forms| == |rrset| && forall i :: 0 <= i < |forms| ==> CanonicalWire(rrset[i], sig.originalTtl) == Some(forms[i])
    ensures multiset(sorted) == multiset(forms) && forall i, j :: 0 <= i < j < |sorted| ==> LexLeq(sorted[i], sorted[j])
    ensures SignaturePrefix(sig).Some?
            && var data, prefix := SignedData(sig, rrset).value, SignaturePrefix(sig).value;
               prefix <= data && Consecutive(data, |prefix|, sorted)
  {
    hide CanonicalWire, SignaturePrefix, LexLeq;
    forms := CanonicalWires(rrset, sig.originalTtl).value;
    sorted := Sort(forms);
    WiresPointwise(rrset, sig.originalTtl);
    SortSorted(forms);
    forall i, j | 0 <= i < j < |sorted| ensures LexLeq(sorted[i], sorted[j]) { LeqIsLex(sorted[i], sorted[j]); }
    FlattenLies(SignaturePrefix(sig).value, sorted);
  }

  // ---- When encoding panics ----

  /** A name that `name_to_wire` can put in its buffer. */
  predicate Fits(t: Text) { NameWire(t).Some? && |NameWire(t).value| <= BUF_SIZE }

  /** All names the canonical form of a record holds fit. */
  predicate NamesFit(r: DnsRecord) {
    Fits(r.domain) &&
    match r
    case NS(_, host, _) => Fits(host)
    case CNAME(_, host, _) => Fits(host)
    case PTR(_, host, _) => Fits(host)
    case MX(_, _, host, _) => Fits(host)
    case SOA(_, mname, rname, _, _, _, _, _, _) => Fits(mname) && Fits(rname)
    case NSEC(_, nextDomain, _, _) => Fits(nextDomain)
    case _ => true
  }

  lemma CanonicalNameIff(t: Text)
    ensures CanonicalName(t).Some? <==> Fits(t)
  {
    hide LabelsWire, LowerLabels;
  }

  lemma CanonicalWireIff(r: DnsRecord, ttl: u32)
    ensures CanonicalWire(r, ttl).Some? <==> NamesFit(r)
  {
    hide CanonicalName, Fits, BE16, BE32, Octets;
    CanonicalNameIff(r.domain);
    match r
    case NS(_, host, _) => CanonicalNameIff(host);
    case CNAME(_, host, _) => CanonicalNameIff(host);
    case PTR(_, host, _) => CanonicalNameIff(host);
    case MX(_, _, host, _) => CanonicalNameIff(host);
    case SOA(_, mname, rname, _, _, _, _, _, _) =>
      CanonicalNameIff(mname);
      CanonicalNameIff(rname);
    case NSEC(_, nextDomain, _, _) => CanonicalNameIff(nextDomain);
    case _ =>
  }

  lemma {:induction false} CanonicalWiresIff(rrset: seq<DnsRecord>, ttl: u32)
    ensures CanonicalWires(rrset, ttl).Some? <==> forall r <- rrset :: NamesFit(r)
  {
    hide CanonicalWire, NamesFit;
    if rrset != [] {
      assert rrset == [rrset[0]] + rrset[1..];
      CanonicalWireIff(rrset[0], ttl);
      CanonicalWiresIff(rrset[1..], ttl);
    }
  }

  /** Signed data can be built exactly when the signer's name and every name in the RRset fit the buffer. */
  lemma SignedDataIff(sig: DnsRecord, rrset: seq<DnsRecord>)
    requires sig.RRSIG?
    ensures SignedData(sig, rrset).Some? <==> Fits(sig.signerName) && forall r <- rrset :: NamesFit(r)
  {
    hide CanonicalName, Fits, NamesFit, CanonicalWires, Sort, Flatten, BE16, BE32;
    CanonicalNameIff(sig.signerName);
    CanonicalWiresIff(rrset, sig.originalTtl);
  }

  /** The loop of `build_signed_data` over the sorted records. */
  method ConcatSorted(prefix: seq<byte>, wires: seq<seq<byte>>) returns (data: seq<byte>)
    ensures data == prefix + Flatten(Sort(wires))
  {
    hide Sort;
    var sorted := Sort(wires);
    data := prefix;
    assert sorted[0..] == sorted;
    for i := 0 to |sorted|
      invariant prefix + Flatten(sorted) == data + Flatten(sorted[i..])
    {
      assert sorted[i..][1..] == sorted[i + 1..];
      Assoc(data, sorted[i], Flatten(sorted[i + 1..]));
      data := data + sorted[i];
    }
  }

  /** `build_signed_data`. */
  method BuildSignedData(sig: DnsRecord, rrset: seq<DnsRecord>) returns (r: Option<seq<byte>>)
    ensures r == SignedData(sig, rrset)
  {
    hide CanonicalName, CanonicalWires, Sort, Flatten;
    if !sig.RRSIG? { return Some([]); }
    var signer := NameToWire(sig.signerName);
    if signer.None? { return None; }
    var wires := CanonicalWires(rrset, sig.originalTtl);
    if wires.None? { return None; }
    var data := ConcatSorted(SignaturePrefix(sig).value, wires.value);
    r := Some(data);
  }

  /** What is signed begins with the RRSIG's own RDATA as it goes on the wire, less the signature. */
  lemma PrefixIsRdataLessSignature(sig: DnsRecord)
    requires sig.RRSIG? && NormalForm(sig.signerName) && |NameWire(sig.signerName).value| <= BUF_SIZE
    ensures SignaturePrefix(sig).Some? && RdataWire(sig) == Some(SignaturePrefix(sig).value + sig.signature)
  {
    CanonicalNameIsWritten(sig.signerName);
    hide CanonicalName, NameWire, NormalForm;
  }

  lemma {:induction false} WiresOfFolded(xs: seq<DnsRecord>, ys: seq<DnsRecord>, ttl: u32)
    requires |xs| == |ys| && forall i :: 0 <= i < |xs| ==> Folded(xs[i]) == Folded(ys[i])
    ensures CanonicalWires(xs, ttl) == CanonicalWires(ys, ttl)
  {
    hide CanonicalWire, Folded;
    if xs != [] {
      CanonicalWireFolded(xs[0], ttl);
      CanonicalWireFolded(ys[0], ttl);
      assert forall i :: 0 <= i < |xs[1..]| ==> xs[1..][i] == xs[i + 1] && ys[1..][i] == ys[i + 1];
      WiresOfFolded(xs[1..], ys[1..], ttl);
    }
  }

  /** Every record's wire form exists exactly when all of them do, and then in the same place. */
  lemma {:induction false} WiresPointwise(xs: seq<DnsRecord>, ttl: u32)
    ensures CanonicalWires(xs, ttl).Some? <==> forall r <- xs :: CanonicalWire(r, ttl).Some?
    ensures CanonicalWires(xs, ttl).Some? ==>
              forall i :: 0 <= i < |xs| ==> CanonicalWire(xs[i], ttl) == Some(CanonicalWires(xs, ttl).value[i])
  {
    hide CanonicalWire;
    if xs != [] {
      assert xs == [xs[0]] + xs[1..];
      WiresPointwise(xs[1..], ttl);
    }
  }

  lemma {:induction false} WiresRemove(xs: seq<DnsRecord>, k: nat, ttl: u32)
    requires k < |xs| && CanonicalWires(xs, ttl).Some?
    ensures CanonicalWires(xs[..k] + xs[k + 1..], ttl).Some? && CanonicalWire(xs[k], ttl).Some?
    ensures multiset(CanonicalWires(xs, ttl).value)
         == multiset(CanonicalWires(xs[..k] + xs[k + 1..], ttl).value) + multiset{CanonicalWire(xs[k], ttl).value}
    decreases k
  {
    hide CanonicalWire;
    var rest := xs[..k] + xs[k + 1..];
    if k == 0 {
      assert rest == xs[1..];
    } else {
      assert rest[0] == xs[0];
      assert rest[1..] == xs[1..][..k - 1] + xs[1..][k..];
      WiresRemove(xs[1..], k - 1, ttl);
    }
  }

  lemma RemoveOne<T>(xs: seq<T>, k: nat)
    requires k < |xs|
    ensures multiset(xs) == multiset(xs[..k] + xs[k + 1..]) + multiset{xs[k]}
  {
    assert xs == xs[..k] + [xs[k]] + xs[k + 1..];
  }

  lemma WiresExist(xs: seq<DnsRecord>, ys: seq<DnsRecord>, ttl: u32)
    requires multiset(xs) == multiset(ys) && CanonicalWires(xs, ttl).Some?
    ensures CanonicalWires(ys, ttl).Some?
  {
    WiresPointwise(xs, ttl);
    WiresPointwise(ys, ttl);
    hide *;
    forall r | r in ys ensures CanonicalWire(r, ttl).Some? { assert r in multiset(ys); assert r in xs; }
  }

  /** Some record of `ys` is the first of `xs`, and without it the rest is a permutation again. */
  lemma PickFirst(xs: seq<DnsRecord>, ys: seq<DnsRecord>) returns (k: nat)
    requires multiset(xs) == multiset(ys) && xs != []
    ensures k < |ys| && ys[k] == xs[0] && multiset(xs[1..]) == multiset(ys[..k] + ys[k + 1..])
  {
    assert xs[0] in multiset(ys);
    k :| 0 <= k < |ys| && ys[k] == xs[0];
    RemoveOne(xs, 0);
    RemoveOne(ys, k);
    assert xs[..0] + xs[1..] == xs[1..];
    assert multiset(xs[1..]) == multiset(xs) - multiset{xs[0]};
  }

  lemma {:induction false} WiresOfPermutation(xs: seq<DnsRecord>, ys: seq<DnsRecord>, ttl: u32)
    requires multiset(xs) == multiset(ys) && CanonicalWires(xs, ttl).Some?
    ensures CanonicalWires(ys, ttl).Some?
    ensures multiset(CanonicalWires(xs, ttl).value) == multiset(CanonicalWires(ys, ttl).value)
    decreases |xs|
  {
    hide *;
    WiresExist(xs, ys, ttl);
    if xs == [] {
      assert |multiset(ys)| == 0;
      assert ys == [];
    } else {
      var k := PickFirst(xs, ys);
      WiresRemove(xs, 0, ttl);
      WiresRemove(ys, k, ttl);
      assert xs[..0] + xs[0 + 1..] == xs[1..];
      WiresOfPermutation(xs[1..], ys[..k] + ys[k + 1..], ttl);
    }
  }

  /** Reordering the RRset, refreshing TTLs and changing letter case leave the signed bytes alone. */
  lemma SignedDataInvariant(sig: DnsRecord, rrset: seq<DnsRecord>, reordered: seq<DnsRecord>, changed: seq<DnsRecord>)
    requires multiset(rrset) == multiset(reordered)
    requires |changed| == |reordered| && forall i :: 0 <= i < |changed| ==> Folded(changed[i]) == Folded(reordered[i])
    ensures SignedData(sig, changed) == SignedData(sig, rrset)
  {
    hide CanonicalWires, SignaturePrefix, Folded, Sort;
    if sig.RRSIG? {
      var ttl := sig.originalTtl;
      WiresOfFolded(changed, reordered, ttl);
      if CanonicalWires(rrset, ttl).Some? {
        WiresOfPermutation(rrset, reordered, ttl);
        SortPermutation(CanonicalWires(rrset, ttl).value, CanonicalWires(reordered, ttl).value);
      } else if CanonicalWires(reordered, ttl).Some? {
        WiresOfPermutation(reordered, rrset, ttl);
      }
    }
  }

  /** The signer's name in the RRSIG may change case too; its signature and own TTL do not matter. */
  lemma SignedDataOfFoldedSignature(sig: DnsRecord, sig2: DnsRecord, rrset: seq<DnsRecord>)
    requires sig.RRSIG? && sig2.RRSIG? && Folded(sig) == Folded(sig2.(signature := sig.signature))
    ensures SignedData(sig, rrset) == SignedData(sig2, rrset)
  {
    hide CanonicalName, CanonicalWires;
    CanonicalNameFolds(sig.signerName, sig2.signerName);
  }
}
