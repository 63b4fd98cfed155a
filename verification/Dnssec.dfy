/** Signatures over RRsets and the chain of trust (section 5 of RFC 4035). */
module Dnssec {
  import opened Bytes
  import opened Question
  import opened Record
  import opened Canonical
  import opened KeyEncoding
  import Names
  import opened NameOrder

  datatype DnssecStatus = Secure | Insecure | Bogus | Indeterminate

  /** Everything outside the validator: cryptography, the clock, the two kinds of fetch and the cached key sets. */
  datatype World = World(
    now: u32,
    verifyRsa: (seq<byte>, seq<byte>, seq<byte>) -> bool,
    verifyEcdsa: (seq<byte>, seq<byte>, seq<byte>) -> bool,
    verifyEd25519: (seq<byte>, seq<byte>, seq<byte>) -> bool,
    sha1: seq<byte> -> seq<byte>,
    sha256: seq<byte> -> seq<byte>,
    sha384: seq<byte> -> seq<byte>,
    fetchDnskeys: Text -> seq<DnsRecord>,
    fetchDs: Text -> seq<DnsRecord>,
    cachedDnskeys: Text -> Option<seq<DnsRecord>>)

  const MAX_CHAIN_DEPTH := 10

  function Filter<T(!new)>(p: T -> bool, xs: seq<T>): (r: seq<T>)
    ensures forall x :: x in r <==> x in xs && p(x)
  {
    if xs == [] then [] else (if p(xs[0]) then [xs[0]] else []) + Filter(p, xs[1..])
  }

  // ---- Key tags ----

  function DnskeyRdata(flags: u16, protocol: byte, algorithm: byte, publicKey: seq<byte>): seq<byte> {
    BE16(flags) + [protocol] + [algorithm] + publicKey
  }

  /** The sum of the 16-bit words of `s`, an odd last byte counting as a high byte (Appendix B of RFC 4034). */
  function WordSum(s: seq<byte>): nat {
    if s == [] then 0
    else if |s| == 1 then s[0] as nat * 0x100
    else U16(s[0], s[1]) as nat + WordSum(s[2..])
  }

  function KeyTag(flags: u16, protocol: byte, algorithm: byte, publicKey: seq<byte>): u16 {
    var ac := WordSum(DnskeyRdata(flags, protocol, algorithm, publicKey));
    (ac + ac / 0x1_0000 % 0x1_0000) % 0x1_0000
  }

  /** The accumulator of `compute_key_tag` after `n` bytes. */
  ghost function Accumulated(s: seq<byte>, n: nat): nat
    requires n <= |s|
  {
    if n == 0 then 0
    else Accumulated(s, n - 1) + (if (n - 1) % 2 == 0 then s[n - 1] as nat * 0x100 else s[n - 1] as nat)
  }

  lemma AccumulatedNext(s: seq<byte>, i: nat)
    requires i <= |s|
    ensures Accumulated(s, 0) == 0
    ensures i < |s| ==> Accumulated(s, i + 1) == Accumulated(s, i) + if i % 2 == 0 then s[i] as nat * 0x100 else s[i] as nat
  {
  }

  lemma {:induction false} AccumulatedShift(s: seq<byte>, n: nat)
    requires 2 <= n <= |s|
    ensures Accumulated(s, n) == U16(s[0], s[1]) as nat + Accumulated(s[2..], n - 2)
    decreases n
  {
    if n == 2 {
      assert Accumulated(s, 1) == s[0] as nat * 0x100;
    } else {
      AccumulatedShift(s, n - 1);
      assert s[2..][n - 3] == s[n - 1];
    }
  }

  lemma {:induction false} AccumulatedIsWordSum(s: seq<byte>)
    ensures Accumulated(s, |s|) == WordSum(s)
    decreases |s|
  {
    if |s| == 1 {
      assert Accumulated(s, 0) == 0;
    } else if |s| >= 2 {
      AccumulatedShift(s, |s|);
      AccumulatedIsWordSum(s[2..]);
    }
  }

  lemma {:induction false} WordSumBound(s: seq<byte>)
    ensures WordSum(s) <= |s| * 0xFF00
    decreases |s|
  {
    if |s| >= 2 { WordSumBound(s[2..]); }
  }

  lemma SumFits(s: seq<byte>)
    requires |s| < 0x1_0000
    ensures Accumulated(s, |s|) == WordSum(s) < 0x1_0000_0000
  {
    hide WordSum, Accumulated;
    AccumulatedIsWordSum(s);
    WordSumBound(s);
  }

  method ComputeKeyTag(flags: u16, protocol: byte, algorithm: byte, publicKey: seq<byte>) returns (tag: u16)
    requires |publicKey| < 0x1_0000 - 4
    ensures tag == KeyTag(flags, protocol, algorithm, publicKey)
  {
    hide WordSum, Accumulated, BE16;
    var rdata := DnskeyRdata(flags, protocol, algorithm, publicKey);
    SumFits(rdata);
    hide DnskeyRdata;
    var ac: nat := 0;
    AccumulatedNext(rdata, 0);
    for i := 0 to |rdata|
      invariant ac == Accumulated(rdata, i)
    {
      AccumulatedNext(rdata, i);
      if i % 2 == 0 {
        ac := ac + rdata[i] as nat * 0x100;
      } else {
        ac := ac + rdata[i] as nat;
      }
    }
    assert ac < 0x1_0000_0000;  // the 32-bit accumulator never wraps
    ac := ac + ac / 0x1_0000 % 0x1_0000;
    tag := ac % 0x1_0000;
  }

  /** Appendix B of RFC 4034: the words of the RDATA are summed, and the carries are added in once. */
  lemma KeyTagIs(flags: u16, protocol: byte, algorithm: byte, publicKey: seq<byte>)
    requires |publicKey| < 0x1_0000 - 4
    ensures var sum := flags + protocol * 0x100 + algorithm + WordSum(publicKey);
            KeyTag(flags, protocol, algorithm, publicKey) == (sum % 0x1_0000 + sum / 0x1_0000) % 0x1_0000
  {
    TagUnfolded(flags, protocol, algorithm, publicKey);
    RdataSum(flags, protocol, algorithm, publicKey);
    hide *;
    SumFits(DnskeyRdata(flags, protocol, algorithm, publicKey));
    Folds(WordSum(DnskeyRdata(flags, protocol, algorithm, publicKey)));
  }

  lemma TagUnfolded(flags: u16, protocol: byte, algorithm: byte, publicKey: seq<byte>)
    ensures var ac := WordSum(DnskeyRdata(flags, protocol, algorithm, publicKey));
            KeyTag(flags, protocol, algorithm, publicKey) == (ac + ac / 0x1_0000 % 0x1_0000) % 0x1_0000
    ensures |DnskeyRdata(flags, protocol, algorithm, publicKey)| == 4 + |publicKey|
  {
    hide WordSum;
  }

  lemma Folds(sum: nat)
    requires sum < 0x1_0000_0000
    ensures (sum + sum / 0x1_0000 % 0x1_0000) % 0x1_0000 == (sum % 0x1_0000 + sum / 0x1_0000) % 0x1_0000
  {
  }

  lemma RdataSum(flags: u16, protocol: byte, algorithm: byte, publicKey: seq<byte>)
    ensures WordSum(DnskeyRdata(flags, protocol, algorithm, publicKey)) == flags + protocol * 0x100 + algorithm + WordSum(publicKey)
  {
    var rdata := DnskeyRdata(flags, protocol, algorithm, publicKey);
    assert rdata[2..][2..] == publicKey && rdata[0] == flags / 0x100 && rdata[1] == flags % 0x100;
    assert rdata[2..][0] == protocol && rdata[2..][1] == algorithm;
    hide DnskeyRdata, BE16;
    assert WordSum(rdata[2..]) == U16(protocol, algorithm) as nat + WordSum(publicKey);
    assert WordSum(rdata) == U16(rdata[0], rdata[1]) as nat + WordSum(rdata[2..]);
  }

  // ---- Signatures ----

  function Minus(a: u32, b: u32): u32 { (a - b + 0x1_0000_0000) % 0x1_0000_0000 }

  const FUDGE: u32 := 300

  /** The inception half of `is_rrsig_time_valid`: serial arithmetic, or a plain comparison with slack. */
  predicate InceptionOk(now: u32, inception: u32) {
    Minus(now, inception) < 0x8000_0000 || (now + FUDGE) % 0x1_0000_0000 >= inception
  }

  /** `is_rrsig_time_valid`. */
  predicate TimeValid(now: u32, expiration: u32, inception: u32) {
    InceptionOk(now, inception) && Minus(expiration, now) < 0x8000_0000
  }

  /** The same slack in serial arithmetic (section 3.1.5 of RFC 4034): past, or at most 300 seconds ahead. */
  predicate SerialWithSlack(now: u32, inception: u32) {
    Minus(now, inception) < 0x8000_0000 || Minus(inception, now) <= FUDGE
  }

  /** Where the two agree: short of the wrap for any inception not half a cycle back, in its last 300 seconds for none ahead. */
  lemma SlackIsSerialIff(now: u32, inception: u32)
    ensures (InceptionOk(now, inception) <==> SerialWithSlack(now, inception))
       <==> if now + FUDGE < 0x1_0000_0000 then inception > now - 0x8000_0000 else inception <= now
  {
  }

  /** Below 2^31 on all three clocks the test is the signed window, with 300 seconds of slack at its start. */
  lemma TimeIsWindow(now: u32, expiration: u32, inception: u32)
    requires now < 0x8000_0000 && expiration < 0x8000_0000 && inception < 0x8000_0000
    ensures TimeValid(now, expiration, inception) <==> inception <= now + FUDGE && now <= expiration
    ensures FUDGE == 300
  {
  }

  /** A signature is not expired as long as its expiration is less than half a cycle ahead, across the wrap as well. */
  lemma ExpirationIsSerial(now: u32, ahead: u32, inception: u32)
    ensures TimeValid(now, (now + ahead) % 0x1_0000_0000, inception) <==> InceptionOk(now, inception) && ahead < 0x8000_0000
  {
  }

  /** One way they part: an inception that serial arithmetic puts years ahead is accepted. */
  lemma SlackIsNotSerial()
    ensures var now, inception := 0xF000_0000, 0x10;
            TimeValid(now, now, inception) && !SerialWithSlack(now, inception)
            && Minus(inception, now) > 86400 * 365 * 8 && Minus(inception, now) < 0x8000_0000
  {
  }

  /** The other: just before the wrap an inception 50 seconds ahead is refused, the slack being lost. */
  lemma SlackIsLost()
    ensures var now, inception, expiration := 0xFFFF_FF9C, 0xFFFF_FFCE, 0xFFFF_FFFF;
            !TimeValid(now, expiration, inception) && Minus(inception, now) == 50
            && SerialWithSlack(now, inception) && Minus(expiration, now) < 0x8000_0000
  {
  }

  predicate VerifySignature(w: World, algorithm: byte, publicKey: seq<byte>, data: seq<byte>, sig: seq<byte>) {
    match algorithm
    case 8 => RsaToDer(publicKey).Some? && w.verifyRsa(RsaToDer(publicKey).value, data, sig)
    case 13 => |publicKey| == 64 && |sig| == 64 && w.verifyEcdsa([0x04] + publicKey, data, sig)
    case 15 => |publicKey| == 32 && |sig| == 64 && w.verifyEd25519(publicKey, data, sig)
    case _ => false
  }

  /** `rrsig_verified_by`: the one signature gate. A panic while encoding a name verifies nothing. */
  predicate VerifiedBy(w: World, sig: DnsRecord, key: DnsRecord, rrset: seq<DnsRecord>) {
    && sig.RRSIG? && key.DNSKEY?
    && key.algorithm == sig.algorithm
    && KeyTag(key.flags, key.protocol, key.algorithm, key.publicKey) == sig.keyTag
    && TimeValid(w.now, sig.expiration, sig.inception)
    && SignedData(sig, rrset).Some?
    && VerifySignature(w, sig.algorithm, key.publicKey, SignedData(sig, rrset).value, sig.signature)
  }

  /** A signature stays good when its RRset is reordered, its TTLs count down or its names change case. */
  lemma VerifiedByInvariant(w: World, sig: DnsRecord, key: DnsRecord,
                            rrset: seq<DnsRecord>, reordered: seq<DnsRecord>, changed: seq<DnsRecord>)
    requires multiset(rrset) == multiset(reordered)
    requires |changed| == |reordered| && forall i :: 0 <= i < |changed| ==> Folded(changed[i]) == Folded(reordered[i])
    ensures VerifiedBy(w, sig, key, changed) <==> VerifiedBy(w, sig, key, rrset)
  {
    SignedDataInvariant(sig, rrset, reordered, changed);
    hide SignedData, KeyTag, TimeValid, VerifySignature, Folded;
  }

  /**
   * What it takes for a key to count as the maker of a signature: the same algorithm, one of three, the key's tag, the
   * signed window, and a primitive that accepts the signed data and the signature under that very key.
   */
  lemma VerifiedByMeans(w: World, sig: DnsRecord, key: DnsRecord, rrset: seq<DnsRecord>)
    requires VerifiedBy(w, sig, key, rrset)
    ensures sig.RRSIG? && key.DNSKEY? && sig.algorithm == key.algorithm && key.algorithm in {8, 13, 15}
    ensures sig.keyTag == KeyTag(key.flags, key.protocol, key.algorithm, key.publicKey) && SignedData(sig, rrset).Some?
    ensures var data := SignedData(sig, rrset).value;
            if sig.algorithm == 8 then
              RsaToDer(key.publicKey).Some? && w.verifyRsa(RsaToDer(key.publicKey).value, data, sig.signature)
            else if sig.algorithm == 13 then
              |key.publicKey| == 64 && |sig.signature| == 64 && w.verifyEcdsa([0x04] + key.publicKey, data, sig.signature)
            else |key.publicKey| == 32 && |sig.signature| == 64 && w.verifyEd25519(key.publicKey, data, sig.signature)
    ensures TimeValid(w.now, sig.expiration, sig.inception)
  {
    hide KeyTag, SignedData, RsaToDer, TimeValid;
  }

  /** In particular it is within the window, with the slack at its start. */
  lemma VerifiedInTime(w: World, sig: DnsRecord, key: DnsRecord, rrset: seq<DnsRecord>)
    requires VerifiedBy(w, sig, key, rrset) && w.now < 0x8000_0000 && sig.inception < 0x8000_0000 && sig.expiration < 0x8000_0000
    ensures sig.inception <= w.now + 300 && w.now <= sig.expiration
  {
    hide KeyTag, SignedData, VerifySignature;
    TimeIsWindow(w.now, sig.expiration, sig.inception);
  }

  predicate SameDnskey(a: DnsRecord, b: DnsRecord) {
    a.DNSKEY? && b.DNSKEY? && a.algorithm == b.algorithm && a.publicKey == b.publicKey
  }

  /** `verify_ds`. A panic while encoding the zone's name matches nothing. */
  predicate VerifyDs(w: World, ds: DnsRecord, key: DnsRecord, owner: Text) {
    && ds.DS? && key.DNSKEY?
    && KeyTag(key.flags, key.protocol, key.algorithm, key.publicKey) == ds.keyTag
    && key.algorithm == ds.algorithm
    && CanonicalName(owner).Some?
    && var input := CanonicalName(owner).value + DnskeyRdata(key.flags, key.protocol, key.algorithm, key.publicKey);
       match ds.digestType
       case 2 => w.sha256(input) == ds.digest
       case 4 => w.sha384(input) == ds.digest
       case _ => false
  }

  /** A DS record matches a key only by one of the two SHA-2 digests it names, over the zone's name and the key. */
  lemma VerifyDsMeans(w: World, ds: DnsRecord, key: DnsRecord, owner: Text)
    requires VerifyDs(w, ds, key, owner)
    ensures ds.DS? && key.DNSKEY? && ds.algorithm == key.algorithm && CanonicalName(owner).Some?
    ensures ds.keyTag == KeyTag(key.flags, key.protocol, key.algorithm, key.publicKey)
    ensures var input := CanonicalName(owner).value + BE16(key.flags) + [key.protocol, key.algorithm] + key.publicKey;
            (ds.digestType == 2 && ds.digest == w.sha256(input)) || (ds.digestType == 4 && ds.digest == w.sha384(input))
  {
    hide CanonicalName, KeyTag, BE16;
    assert CanonicalName(owner).value + DnskeyRdata(key.flags, key.protocol, key.algorithm, key.publicKey)
        == CanonicalName(owner).value + BE16(key.flags) + [key.protocol, key.algorithm] + key.publicKey;
  }

  function RrsetOf(records: seq<DnsRecord>, t: QueryType): seq<DnsRecord> {
    Filter((r: DnsRecord) => r.QType() == t, records)
  }

  predicate Covers(sig: DnsRecord, t: QueryType) {
    sig.RRSIG? && QueryType.FromNum(sig.typeCovered) == t
  }

  /** `verify_rrset_signed`. */
  predicate RrsetSigned(w: World, records: seq<DnsRecord>, t: QueryType, keys: seq<DnsRecord>) {
    var rrset := RrsetOf(records, t);
    rrset != [] && exists sig <- records :: Covers(sig, t) && exists key <- keys :: VerifiedBy(w, sig, key, rrset)
  }

  // ---- The chain ----

  /** `parent_zone`: the text after the first dot, escaped or not. */
  function ParentZone(zone: Text): Text {
    if IsRoot(zone) then [DOT] else
    var rest := AfterFirstDot(zone);
    if rest == [] then [DOT] else rest
  }

  function AfterFirstDot(t: Text): Text {
    if t == [] then [] else if t[0] == DOT then t[1..] else AfterFirstDot(t[1..])
  }

  lemma {:induction false} FirstDot(t: Text)
    ensures UpToDot(t) == t ==> AfterFirstDot(t) == []
    ensures UpToDot(t) != t ==> t == UpToDot(t) + [DOT] + AfterFirstDot(t)
  {
    if t != [] && t[0] != DOT {
      FirstDot(t[1..]);
      assert t == [t[0]] + t[1..];
      assert UpToDot(t) == [t[0]] + UpToDot(t[1..]);
      if UpToDot(t[1..]) != t[1..] { assert t == [t[0]] + (UpToDot(t[1..]) + [DOT] + AfterFirstDot(t[1..])); }
    }
  }

  /** The parent is the zone less its first piece, the root being its own parent. */
  lemma ParentDropsAPiece(zone: Text)
    requires !IsRoot(zone)
    ensures Labels(ParentZone(zone)) == if zone[0] == DOT then Labels(zone) else Labels(zone)[1..]
  {
    FirstDot(zone);
    var l, rest := UpToDot(zone), AfterFirstDot(zone);
    DotThen([]);
    assert [DOT] + [] == [DOT];
    if zone[0] == DOT {
      assert zone == [DOT] + rest;
      hide Labels, UpToDot;
      DotThen(rest);
    } else {
      hide Labels, UpToDot, AfterFirstDot;
      if l == zone {
        assert zone + [] == zone;
        OnePiece(zone, []);
      } else {
        Assoc(l, [DOT], rest);
        OnePiece(l, [DOT] + rest);
        DotThen(rest);
      }
    }
  }

  lemma {:induction false} NoDotToFind(e: Text, rest: Text)
    requires DOT !in e
    ensures AfterFirstDot(e + rest) == AfterFirstDot(rest)
  {
    if e == [] {
      assert e + rest == rest;
    } else {
      assert (e + rest)[1..] == e[1..] + rest;
      NoDotToFind(e[1..], rest);
    }
  }

  lemma AfterDotOfByte(c: byte, rest: Text)
    requires Lower(c) == c
    ensures AfterFirstDot(Names.Escape(c) + rest) == if c == DOT then rest else AfterFirstDot(rest)
  {
    if c == DOT {
      assert (Names.Escape(c) + rest)[1..][1..] == rest;
    } else {
      NoDotToFind(Names.Escape(c), rest);
    }
  }

  /** The first dot of an escaped label is that of its first dot byte, at `k`. */
  lemma {:induction false} AfterDotOfLabel(l: Names.Label, tail: Text) returns (k: nat)
    ensures k <= |l| && forall j :: 0 <= j < k ==> l[j] != DOT
    ensures k == |l| ==> AfterFirstDot(Names.EscapeLabel(l) + tail) == AfterFirstDot(tail)
    ensures k < |l| ==> l[k] == DOT && AfterFirstDot(Names.EscapeLabel(l) + tail) == Names.EscapeLabel(l[k + 1..]) + tail
  {
    k := 0;
    if l == [] {
      assert Names.EscapeLabel(l) + tail == tail;
    } else {
      var c, rest := Lower(l[0]), Names.EscapeLabel(l[1..]) + tail;
      Assoc(Names.Escape(c), Names.EscapeLabel(l[1..]), tail);
      AfterDotOfByte(c, rest);
      if l[0] != DOT {
        var j := AfterDotOfLabel(l[1..], tail);
        k := j + 1;
        if j < |l| - 1 { assert l[1..][j + 1..] == l[k + 1..]; }
      }
    }
  }

  lemma SkipDot(t: Text)
    ensures Names.ParseName([DOT] + t) == Names.ParseName(t)
  {
    assert ([DOT] + t)[1..] == t;
    assert Names.ParseLabel([DOT] + t, []) == Some(([], t));
  }

  lemma FirstByteOfLabel(l: Names.Label)
    requires l != []
    ensures Names.EscapeLabel(l) != [] && Names.EscapeLabel(l)[0] != DOT
  {
  }

  /** The text of a label's rest before the rest of the name. */
  lemma JoinLabel(l: Names.Label, rest: seq<Names.Label>)
    ensures Names.TextOf([l] + rest) == Names.EscapeLabel(l) + if rest == [] then [] else [DOT] + Names.TextOf(rest)
  {
    Names.TextParts([l] + rest);
    assert ([l] + rest)[1..] == rest;
  }

  /** The parent of a name, seen from where its first label's first dot byte is. */
  lemma ParentOfLabel(l: Names.Label, tail: Text) returns (k: nat)
    requires l != [] && (tail == [] || tail[0] == DOT)
    ensures k <= |l| && (k < |l| ==> l[k] == DOT) && forall j :: 0 <= j < k ==> l[j] != DOT
    ensures var after := if k < |l| then Names.EscapeLabel(l[k + 1..]) + tail else AfterFirstDot(tail);
            ParentZone(Names.EscapeLabel(l) + tail) == if after == [] then [DOT] else after
  {
    hide AfterFirstDot, Names.EscapeLabel;
    FirstByteOfLabel(l);
    var zone := Names.EscapeLabel(l) + tail;
    assert zone[0] == Names.EscapeLabel(l)[0];
    k := AfterDotOfLabel(l, tail);
  }

  /** `parent_zone` drops exactly the first label unless a dot byte stands before that label's last byte. */
  lemma ParentIsLabelsIff(ls: seq<Names.Label>)
    requires Names.ValidLabels(ls) && ls != []
    ensures Names.ParseName(ParentZone(Names.TextOf(ls))) == Some(Names.LowerLabels(ls[1..]))
       <==> DOT !in ls[0][..|ls[0]| - 1]
  {
    hide AfterFirstDot, Names.EscapeLabel, Names.TextOf, Names.ParseName, ParentZone, Names.LowerLabels;
    var l, rest := ls[0], ls[1..];
    var tail := if rest == [] then [] else [DOT] + Names.TextOf(rest);
    assert ls == [l] + rest;
    JoinLabel(l, rest);
    var k := ParentOfLabel(l, tail);
    var front := l[..|l| - 1];
    assert forall j :: 0 <= j < |front| ==> front[j] == l[j];
    if k + 1 < |l| {
      assert front[k] == DOT;
      CutInside(l[k + 1..], rest, tail);
    } else {
      if k < |l| { EmptyLabel(l[k + 1..], tail); }
      RestParses(rest, tail, k < |l|);
    }
  }

  /** Part of a label is left over, and stands before the rest. */
  lemma CutInside(cut: Names.Label, rest: seq<Names.Label>, tail: Text)
    requires 1 <= |cut| <= Names.MAX_LABEL && Names.ValidLabels(rest)
    requires tail == if rest == [] then [] else [DOT] + Names.TextOf(rest)
    ensures Names.EscapeLabel(cut) + tail != []
    ensures Names.ParseName(Names.EscapeLabel(cut) + tail) != Some(Names.LowerLabels(rest))
  {
    hide Names.EscapeLabel, Names.TextOf, Names.ParseName;
    JoinLabel(cut, rest);
    FirstByteOfLabel(cut);
    Names.ParseTextOf([cut] + rest);
  }

  lemma EmptyLabel(l: Names.Label, tail: Text)
    requires l == []
    ensures Names.EscapeLabel(l) + tail == tail
  {
  }

  /** What is left after a label, with its dot or without, parses as the labels left. */
  lemma RestParses(rest: seq<Names.Label>, tail: Text, dotted: bool)
    requires Names.ValidLabels(rest) && tail == if rest == [] then [] else [DOT] + Names.TextOf(rest)
    ensures var after := if dotted then tail else AfterFirstDot(tail);
            Names.ParseName(if after == [] then [DOT] else after) == Some(Names.LowerLabels(rest))
  {
    Names.ParseTextOf(rest);
    SkipDot([]);
    assert [DOT] + [] == [DOT];
    if rest != [] {
      FirstByteOfLabel(rest[0]);
      Names.TextParts(rest);
      SkipDot(Names.TextOf(rest));
      hide Names.TextOf, Names.EscapeLabel, Names.ParseName;
      assert tail[1..] == Names.TextOf(rest);
    }
  }

  lemma EscapedLabelParses(zone: Text, body: Names.Label, rest: Text)
    requires zone == [97, BACKSLASH, DOT, 98, DOT] + rest && body == [97, DOT, 98]
    ensures Names.ParseLabel(zone, []) == Some((body, rest))
  {
    var t1, t3, t4: Text := zone[1..], zone[3..], zone[4..];
    var a, ab: Text := [97], [97, DOT];
    assert t1[2..] == t3 && t3[1..] == t4 && t4[1..] == rest;
    assert [] + [97] == a && a + [DOT] == ab && ab + [98] == body;
    assert Names.Unescape(zone) == Some((97, 1)) && Names.Unescape(t1) == Some((DOT, 2)) && Names.Unescape(t3) == Some((98, 1));
    assert Names.ParseLabel(t4, body) == Some((body, rest));
    assert Names.ParseLabel(t3, ab) == Some((body, rest));
    assert Names.ParseLabel(t1, a) == Some((body, rest));
  }

  lemma SingleLabelParses(t: Text)
    requires t == [99]
    ensures Names.ParseName(t) == Some([t])
  {
    assert Names.Unescape(t) == Some((99, 1)) && t[1..] == [] && [] + t == t;
    assert Names.ParseLabel([], t) == Some((t, []));
    assert Names.ParseLabel(t, []) == Some((t, []));
    hide Names.ParseLabel;
    var none: seq<Names.Label> := [];
    assert Names.ParseName([]) == Some(none) && [t] + none == [t];
  }

  /** A dot inside a label ends it for `parent_zone`: the parent of `a\.b.c` is not `c`. */
  lemma EscapedDotSplitsAZone()
    ensures var zone: Text := [97, BACKSLASH, DOT, 98, DOT, 99];
            Names.ParseName(zone) == Some([[97, DOT, 98], [99]]) && ParentZone(zone) == [98, DOT, 99]
  {
    var zone: Text := [97, BACKSLASH, DOT, 98, DOT, 99];
    var first: Names.Label, last: Text := [97, DOT, 98], [99];
    assert zone == [97, BACKSLASH, DOT, 98, DOT] + last;
    EscapedLabelParses(zone, first, last);
    SingleLabelParses(last);
    hide Names.ParseLabel;
    assert [first] + [last] == [[97, DOT, 98], [99]];
    assert Names.ParseName(zone) == Some([first] + [last]);
    hide Names.ParseName;
    assert zone[1..][1..][1..] == [98, DOT, 99];
    assert AfterFirstDot(zone[1..]) == [98, DOT, 99];
  }

  predicate IsRoot(zone: Text) { zone == [] || zone == [DOT] }

  predicate HasAnchor(anchors: seq<DnsRecord>, records: seq<DnsRecord>) {
    exists key <- records :: exists a <- anchors :: SameDnskey(key, a)
  }

  /** The zone's keys that some DS record of the zone commits to. */
  function EndorsedKeys(w: World, zone: Text, records: seq<DnsRecord>): seq<DnsRecord> {
    Filter((key: DnsRecord) => exists ds <- w.fetchDs(zone) :: VerifyDs(w, ds, key, zone), records)
  }

  function ValidateChain(w: World, anchors: seq<DnsRecord>, zone: Text, records: seq<DnsRecord>,
                         depth: nat): DnssecStatus
    decreases if depth <= MAX_CHAIN_DEPTH then MAX_CHAIN_DEPTH + 1 - depth else 0
  {
    if depth > MAX_CHAIN_DEPTH then Indeterminate
    else if HasAnchor(anchors, records) then
      if RrsetSigned(w, records, QueryType.DNSKEY, anchors) then Secure else Bogus
    else if IsRoot(zone) then Indeterminate
    else
      var ds := w.fetchDs(zone);
      var endorsed := EndorsedKeys(w, zone, records);
      if !(exists r <- ds :: r.DS?) then Insecure
      else if endorsed == [] then Bogus
      else if !RrsetSigned(w, records, QueryType.DNSKEY, endorsed) then Bogus
      else
        var parent := ParentZone(zone);
        var parentRecords := w.fetchDnskeys(parent);
        if parentRecords == [] then Indeterminate
        else
          var parentStatus := ValidateChain(w, anchors, parent, parentRecords, depth + 1);
          if parentStatus != Secure then parentStatus
          else if !RrsetSigned(w, ds, QueryType.DS, parentRecords) then Bogus
          else Secure
  }

  // ---- What a chain of trust is ----

  datatype Link = Link(zone: Text, records: seq<DnsRecord>)

  /** A trust anchor is recognised by its algorithm and public key. */
  lemma AnchorIs(anchors: seq<DnsRecord>, records: seq<DnsRecord>)
    ensures HasAnchor(anchors, records)
       <==> exists key, a :: key in records && a in anchors && key.DNSKEY? && a.DNSKEY?
                             && key.algorithm == a.algorithm && key.publicKey == a.publicKey
  {
  }

  /** `key` made a valid signature in `records` over their RRset of type `t`. */
  ghost predicate Signs(w: World, key: DnsRecord, records: seq<DnsRecord>, t: QueryType) {
    exists sig :: sig in records && Covers(sig, t) && VerifiedBy(w, sig, key, RrsetOf(records, t))
  }

  /** For a type with a number of its own: an RRSIG that covers this number, over exactly the records of the type. */
  lemma SignsMeans(w: World, key: DnsRecord, records: seq<DnsRecord>, t: QueryType)
    requires Signs(w, key, records, t) && Question.Canonical(t)
    ensures exists sig, rrset :: sig in records && sig.RRSIG? && sig.typeCovered == t.ToNum() && VerifiedBy(w, sig, key, rrset)
              && forall r :: r in rrset <==> r in records && r.QType() == t
  {
    hide VerifiedBy, DnsRecord.QType, QueryType.ToNum;
    var sig :| sig in records && Covers(sig, t) && VerifiedBy(w, sig, key, RrsetOf(records, t));
    TypeNumbers(sig.typeCovered, t);
  }

  /** The key set holds a trust anchor's key, and an anchor signs it. */
  ghost predicate Anchored(w: World, anchors: seq<DnsRecord>, link: Link) {
    && (exists key, a :: key in link.records && a in anchors && SameDnskey(key, a))
    && (exists a :: a in anchors && Signs(w, a, link.records, QueryType.DNSKEY))
  }

  /**
   * A key that a DS record commits to signs the zone's key set. As in the code, the records are those fetched for the
   * zone; who owns them is not compared with it, as section 5 of RFC 4035 asks (`LooseTrust.ForeignDsIsSecure`).
   */
  ghost predicate KeysEndorsed(w: World, link: Link) {
    exists key, ds :: key in link.records && ds in w.fetchDs(link.zone) && VerifyDs(w, ds, key, link.zone)
                      && Signs(w, key, link.records, QueryType.DNSKEY)
  }

  /** A key of the parent signs the zone's DS set. */
  ghost predicate DsSigned(w: World, link: Link, parent: Link) {
    exists key :: key in parent.records && Signs(w, key, w.fetchDs(link.zone), QueryType.DS)
  }

  /** One step up: no anchor and no root here, endorsed keys, and the parent's fetched key set. */
  ghost predicate Climbs(w: World, anchors: seq<DnsRecord>, link: Link, parent: Link) {
    && !HasAnchor(anchors, link.records) && !IsRoot(link.zone)
    && KeysEndorsed(w, link)
    && parent == Link(ParentZone(link.zone), w.fetchDnskeys(ParentZone(link.zone))) && parent.records != []
  }

  ghost predicate ChainOfTrust(w: World, anchors: seq<DnsRecord>, chain: seq<Link>) {
    && chain != []
    && (forall i :: 0 <= i < |chain| - 1 ==> Climbs(w, anchors, chain[i], chain[i + 1]) && DsSigned(w, chain[i], chain[i + 1]))
    && Anchored(w, anchors, chain[|chain| - 1])
  }

  /** A climb of endorsed key sets that stops below an unsigned delegation. */
  ghost predicate UnsignedDelegation(w: World, anchors: seq<DnsRecord>, chain: seq<Link>) {
    && chain != []
    && (forall i :: 0 <= i < |chain| - 1 ==> Climbs(w, anchors, chain[i], chain[i + 1]))
    && var last := chain[|chain| - 1];
       !HasAnchor(anchors, last.records) && !IsRoot(last.zone) && !exists ds :: ds in w.fetchDs(last.zone) && ds.DS?
  }

  /** `chain` starts at `link` and is short enough for a walk that has used up `depth` levels. */
  ghost predicate StartsAt(chain: seq<Link>, link: Link, depth: nat) {
    chain != [] && chain[0] == link && |chain| + depth <= 11
  }

  lemma EndorsedMember(w: World, zone: Text, records: seq<DnsRecord>, key: DnsRecord)
    ensures key in EndorsedKeys(w, zone, records)
       <==> key in records && exists ds :: ds in w.fetchDs(zone) && VerifyDs(w, ds, key, zone)
  {
    hide VerifyDs;
  }

  lemma RrsetMember(records: seq<DnsRecord>, t: QueryType, r: DnsRecord)
    ensures r in RrsetOf(records, t) <==> r in records && r.QType() == t
  {
  }

  lemma VerifyDsTypes(w: World, ds: DnsRecord, key: DnsRecord, owner: Text)
    requires VerifyDs(w, ds, key, owner)
    ensures ds.DS? && key.DNSKEY?
  {
  }

  lemma SignedIffSomeKeySigns(w: World, records: seq<DnsRecord>, t: QueryType, keys: seq<DnsRecord>)
    ensures RrsetSigned(w, records, t, keys)
       <==> RrsetOf(records, t) != [] && exists key :: key in keys && Signs(w, key, records, t)
  {
    hide VerifiedBy, Covers, RrsetOf;
    if RrsetSigned(w, records, t, keys) {
      var sig :| sig in records && Covers(sig, t) && exists key <- keys :: VerifiedBy(w, sig, key, RrsetOf(records, t));
      var key :| key in keys && VerifiedBy(w, sig, key, RrsetOf(records, t));
      assert Signs(w, key, records, t);
    }
  }

  lemma KeysEndorsedIff(w: World, link: Link)
    ensures KeysEndorsed(w, link)
       <==> (exists r <- w.fetchDs(link.zone) :: r.DS?) && EndorsedKeys(w, link.zone, link.records) != []
            && RrsetSigned(w, link.records, QueryType.DNSKEY, EndorsedKeys(w, link.zone, link.records))
  {
    hide RrsetSigned, Signs, VerifyDs, EndorsedKeys, RrsetOf;
    var endorsed := EndorsedKeys(w, link.zone, link.records);
    SignedIffSomeKeySigns(w, link.records, QueryType.DNSKEY, endorsed);
    if KeysEndorsed(w, link) {
      var key, ds :| key in link.records && ds in w.fetchDs(link.zone) && VerifyDs(w, ds, key, link.zone)
                     && Signs(w, key, link.records, QueryType.DNSKEY);
      EndorsedMember(w, link.zone, link.records, key);
      VerifyDsTypes(w, ds, key, link.zone);
      RrsetMember(link.records, QueryType.DNSKEY, key);
    } else if endorsed != [] && RrsetSigned(w, link.records, QueryType.DNSKEY, endorsed) {
      var key :| key in endorsed && Signs(w, key, link.records, QueryType.DNSKEY);
      EndorsedMember(w, link.zone, link.records, key);
    }
  }

  lemma AnchoredIff(w: World, anchors: seq<DnsRecord>, link: Link)
    ensures Anchored(w, anchors, link)
       <==> HasAnchor(anchors, link.records) && RrsetSigned(w, link.records, QueryType.DNSKEY, anchors)
  {
    hide RrsetSigned, Signs, RrsetOf;
    SignedIffSomeKeySigns(w, link.records, QueryType.DNSKEY, anchors);
    if key, a :| key in link.records && a in anchors && SameDnskey(key, a) {
      RrsetMember(link.records, QueryType.DNSKEY, key);
    }
  }

  lemma DsSignedIff(w: World, link: Link, parent: Link)
    requires KeysEndorsed(w, link)
    ensures DsSigned(w, link, parent) <==> RrsetSigned(w, w.fetchDs(link.zone), QueryType.DS, parent.records)
  {
    hide RrsetSigned, Signs, RrsetOf, VerifyDs;
    var ds := w.fetchDs(link.zone);
    SignedIffSomeKeySigns(w, ds, QueryType.DS, parent.records);
    var key, r :| key in link.records && r in ds && VerifyDs(w, r, key, link.zone);
    VerifyDsTypes(w, r, key, link.zone);
    RrsetMember(ds, QueryType.DS, r);
  }

  /** One unfolding of the walk, in the vocabulary of chains. */
  lemma WalkStep(w: World, anchors: seq<DnsRecord>, link: Link, depth: nat)
    requires depth <= MAX_CHAIN_DEPTH
    ensures var status := ValidateChain(w, anchors, link.zone, link.records, depth);
            var parent := Link(ParentZone(link.zone), w.fetchDnskeys(ParentZone(link.zone)));
            if HasAnchor(anchors, link.records) then
              status == if Anchored(w, anchors, link) then Secure else Bogus
            else if IsRoot(link.zone) then status == Indeterminate
            else if !(exists ds :: ds in w.fetchDs(link.zone) && ds.DS?) then status == Insecure
            else if !KeysEndorsed(w, link) then status == Bogus
            else if parent.records == [] then status == Indeterminate
            else
              var above := ValidateChain(w, anchors, parent.zone, parent.records, depth + 1);
              status == if above == Secure && !DsSigned(w, link, parent) then Bogus else above
  {
    hide RrsetSigned, EndorsedKeys, HasAnchor, Anchored, KeysEndorsed, DsSigned, IsRoot, ParentZone;
    AnchoredIff(w, anchors, link);
    KeysEndorsedIff(w, link);
    if KeysEndorsed(w, link) {
      DsSignedIff(w, link, Link(ParentZone(link.zone), w.fetchDnskeys(ParentZone(link.zone))));
    }
  }

  lemma {:induction false} SecureHasChain(w: World, anchors: seq<DnsRecord>, link: Link,
                                          depth: nat) returns (chain: seq<Link>)
    requires ValidateChain(w, anchors, link.zone, link.records, depth) == Secure
    ensures StartsAt(chain, link, depth) && ChainOfTrust(w, anchors, chain)
    decreases MAX_CHAIN_DEPTH + 1 - depth
  {
    hide ValidateChain, HasAnchor, Anchored, KeysEndorsed, DsSigned, IsRoot, ParentZone;
    DepthLimit(w, anchors, link, depth);
    WalkStep(w, anchors, link, depth);
    chain := [link];
    if !HasAnchor(anchors, link.records) {
      var parent := Link(ParentZone(link.zone), w.fetchDnskeys(ParentZone(link.zone)));
      var rest := SecureHasChain(w, anchors, parent, depth + 1);
      chain := [link] + rest;
      assert forall i :: 0 < i < |chain| ==> chain[i] == rest[i - 1];
    }
  }

  lemma DepthLimit(w: World, anchors: seq<DnsRecord>, link: Link, depth: nat)
    ensures depth > MAX_CHAIN_DEPTH ==> ValidateChain(w, anchors, link.zone, link.records, depth) == Indeterminate
  {
  }

  /** A longer chain is a step up onto a chain. */
  lemma ChainTail(w: World, anchors: seq<DnsRecord>, chain: seq<Link>)
    requires ChainOfTrust(w, anchors, chain) && |chain| > 1
    ensures Climbs(w, anchors, chain[0], chain[1]) && DsSigned(w, chain[0], chain[1])
    ensures ChainOfTrust(w, anchors, chain[1..])
  {
    hide Climbs, DsSigned, Anchored;
    var rest := chain[1..];
    assert forall i :: 0 <= i < |rest| ==> rest[i] == chain[i + 1];
  }

  lemma ChainHead(w: World, anchors: seq<DnsRecord>, chain: seq<Link>)
    requires ChainOfTrust(w, anchors, chain) && |chain| == 1
    ensures Anchored(w, anchors, chain[0]) && HasAnchor(anchors, chain[0].records)
  {
    AnchoredIff(w, anchors, chain[0]);
    hide Anchored, HasAnchor;
  }

  lemma {:induction false} ChainIsSecure(w: World, anchors: seq<DnsRecord>, link: Link, depth: nat, chain: seq<Link>)
    requires StartsAt(chain, link, depth) && ChainOfTrust(w, anchors, chain)
    ensures ValidateChain(w, anchors, link.zone, link.records, depth) == Secure
    decreases |chain|
  {
    hide ValidateChain, KeysEndorsed, DsSigned, IsRoot, ParentZone, HasAnchor, Anchored, ChainOfTrust;
    WalkStep(w, anchors, link, depth);
    if |chain| == 1 {
      ChainHead(w, anchors, chain);
    } else {
      ChainTail(w, anchors, chain);
      EndorsedHasDs(w, link);
      ChainIsSecure(w, anchors, chain[1], depth + 1, chain[1..]);
    }
  }

  lemma EndorsedHasDs(w: World, link: Link)
    requires KeysEndorsed(w, link)
    ensures exists ds :: ds in w.fetchDs(link.zone) && ds.DS?
  {
    hide VerifyDs, Signs;
    var key, ds :| key in link.records && ds in w.fetchDs(link.zone) && VerifyDs(w, ds, key, link.zone);
    VerifyDsTypes(w, ds, key, link.zone);
  }

  /** Secure means exactly that a chain of trust of at most eleven links leads to an anchor. */
  lemma SecureIffChain(w: World, anchors: seq<DnsRecord>, zone: Text, records: seq<DnsRecord>, depth: nat)
    ensures ValidateChain(w, anchors, zone, records, depth) == Secure
       <==> exists chain :: StartsAt(chain, Link(zone, records), depth) && ChainOfTrust(w, anchors, chain)
  {
    hide ValidateChain, ChainOfTrust;
    if ValidateChain(w, anchors, zone, records, depth) == Secure {
      var chain := SecureHasChain(w, anchors, Link(zone, records), depth);
    }
    forall chain | StartsAt(chain, Link(zone, records), depth) && ChainOfTrust(w, anchors, chain)
      ensures ValidateChain(w, anchors, zone, records, depth) == Secure
    {
      ChainIsSecure(w, anchors, Link(zone, records), depth, chain);
    }
  }

  lemma {:induction false} InsecureHasGap(w: World, anchors: seq<DnsRecord>, link: Link,
                                          depth: nat) returns (chain: seq<Link>)
    requires ValidateChain(w, anchors, link.zone, link.records, depth) == Insecure
    ensures StartsAt(chain, link, depth) && UnsignedDelegation(w, anchors, chain)
    decreases MAX_CHAIN_DEPTH + 1 - depth
  {
    hide ValidateChain, HasAnchor, Anchored, KeysEndorsed, DsSigned, IsRoot, ParentZone;
    DepthLimit(w, anchors, link, depth);
    WalkStep(w, anchors, link, depth);
    chain := [link];
    if exists ds :: ds in w.fetchDs(link.zone) && ds.DS? {
      var parent := Link(ParentZone(link.zone), w.fetchDnskeys(ParentZone(link.zone)));
      var rest := InsecureHasGap(w, anchors, parent, depth + 1);
      chain := [link] + rest;
      assert forall i :: 0 < i < |chain| ==> chain[i] == rest[i - 1];
    }
  }

  lemma {:induction false} GapIsInsecure(w: World, anchors: seq<DnsRecord>, link: Link, depth: nat, chain: seq<Link>)
    requires StartsAt(chain, link, depth) && UnsignedDelegation(w, anchors, chain)
    ensures ValidateChain(w, anchors, link.zone, link.records, depth) == Insecure
    decreases |chain|
  {
    hide ValidateChain, KeysEndorsed, DsSigned, IsRoot, ParentZone, HasAnchor, Anchored;
    WalkStep(w, anchors, link, depth);
    if |chain| > 1 {
      var rest := chain[1..];
      assert Climbs(w, anchors, chain[0], chain[1]);
      assert forall i :: 0 <= i < |rest| ==> rest[i] == chain[i + 1];
      EndorsedHasDs(w, link);
      GapIsInsecure(w, anchors, rest[0], depth + 1, rest);
    }
  }

  /** Insecure means exactly that endorsed key sets lead up to a zone whose parent shows no DS. */
  lemma InsecureIffUnsignedDelegation(w: World, anchors: seq<DnsRecord>, zone: Text, records: seq<DnsRecord>,
                                      depth: nat)
    ensures ValidateChain(w, anchors, zone, records, depth) == Insecure
       <==> exists chain :: StartsAt(chain, Link(zone, records), depth) && UnsignedDelegation(w, anchors, chain)
  {
    hide ValidateChain, UnsignedDelegation;
    if ValidateChain(w, anchors, zone, records, depth) == Insecure {
      var chain := InsecureHasGap(w, anchors, Link(zone, records), depth);
    }
    forall chain | StartsAt(chain, Link(zone, records), depth) && UnsignedDelegation(w, anchors, chain)
      ensures ValidateChain(w, anchors, zone, records, depth) == Insecure
    {
      GapIsInsecure(w, anchors, Link(zone, records), depth, chain);
    }
  }

  /** With no anchors nothing is ever Secure. */
  lemma NoAnchorsNeverSecure(w: World, zone: Text, records: seq<DnsRecord>, depth: nat)
    ensures ValidateChain(w, [], zone, records, depth) != Secure
  {
    if ValidateChain(w, [], zone, records, depth) == Secure {
      var chain := SecureHasChain(w, [], Link(zone, records), depth);
    }
  }
}
