/** Whole messages: `DnsPacket::from_buffer` and `DnsPacket::write`, with EDNS (section 6.1 of RFC 6891). */
module Packet {
  import opened Bytes
  import opened Cursor
  import opened Names
  import opened PacketBuffer
  import opened Question
  import opened Header
  import opened Record
  import opened RecordCodec

  const OPT_TYPE: u16 := 41

  datatype EdnsOpt = EdnsOpt(udpPayloadSize: u16, extendedRcode: byte, version: byte, doBit: bool, options: seq<byte>)

  datatype DnsPacket = DnsPacket(
    header: DnsHeader,
    questions: seq<DnsQuestion>,
    answers: seq<DnsRecord>,
    authorities: seq<DnsRecord>,
    resources: seq<DnsRecord>,
    edns: Option<EdnsOpt>)

  /** The packet's flags with the section counts `write` computes, wrap-around included. */
  function CountedHeader(p: DnsPacket): DnsHeader {
    p.header.(
      questions := AsU16(|p.questions|),
      answers := AsU16(|p.answers|),
      authoritativeEntries := AsU16(|p.authorities|),
      resourceEntries := AsU16(AsU16(|p.resources|) + (if p.edns.Some? then 1 else 0)))
  }

  function QuestionsWire(qs: seq<DnsQuestion>): Option<seq<byte>> {
    if qs == [] then Some([]) else
    var first :- QuestionWire(qs[0]);
    var rest :- QuestionsWire(qs[1..]);
    Some(first + rest)
  }

  function RecordsWire(rs: seq<DnsRecord>): Option<seq<byte>> {
    if rs == [] then Some([]) else
    var first :- RecordWire(rs[0]);
    var rest :- RecordsWire(rs[1..]);
    Some(first + rest)
  }

  /** Extended RCODE, version and the DO bit, packed where a record has its TTL. */
  function EdnsFlags(e: EdnsOpt): u32 {
    e.extendedRcode * 0x100_0000 + e.version * 0x1_0000 + (if e.doBit then 0x8000 else 0)
  }

  function EdnsWire(edns: Option<EdnsOpt>): seq<byte> {
    match edns
    case None => []
    case Some(e) =>
      [0] + BE16(OPT_TYPE) + BE16(e.udpPayloadSize) + BE32(EdnsFlags(e)) + BE16(AsU16(|e.options|)) + e.options
  }

  /** The OPT record byte by byte (sections 6.1.2 and 6.1.3 of RFC 6891): of its flags only DO is ever set. */
  lemma EdnsLayout(e: EdnsOpt)
    requires |e.options| < 0x1_0000
    ensures var w := EdnsWire(Some(e));
            && |w| == 11 + |e.options| && w[0] == 0 && U16(w[1], w[2]) == 41 && U16(w[3], w[4]) == e.udpPayloadSize
            && w[5] == e.extendedRcode && w[6] == e.version && w[7] == (if e.doBit then 0x80 else 0) && w[8] == 0
            && U16(w[9], w[10]) == |e.options| && w[11..] == e.options
    ensures EdnsWire(None) == []
  {
    FlagBytes(e);
    hide EdnsFlags, BE32;
    var w, flags := EdnsWire(Some(e)), BE32(EdnsFlags(e));
    assert w == [0] + BE16(OPT_TYPE) + BE16(e.udpPayloadSize) + flags + BE16(AsU16(|e.options|)) + e.options;
    assert w[5..9] == flags;
    assert w[5] == w[5..9][0] && w[6] == w[5..9][1] && w[7] == w[5..9][2] && w[8] == w[5..9][3];
  }

  lemma FlagBytes(e: EdnsOpt)
    ensures BE32(EdnsFlags(e)) == [e.extendedRcode, e.version, if e.doBit then 0x80 else 0, 0]
  {
    var flags := EdnsFlags(e);
    assert flags / 0x1_0000 == e.extendedRcode * 0x100 + e.version;
    assert flags % 0x1_0000 == if e.doBit then 0x8000 else 0;
  }

  function PacketWire(p: DnsPacket): Option<seq<byte>> {
    var qs :- QuestionsWire(p.questions);
    var an :- RecordsWire(p.answers);
    var ns :- RecordsWire(p.authorities);
    var ar :- RecordsWire(p.resources);
    Some(HeaderWire(CountedHeader(p)) + qs + an + ns + ar + EdnsWire(p.edns))
  }

  /** The four sections and then the OPT record, each beginning where the one before it ends (section 4.1 of RFC 1035). */
  lemma SectionsInOrder(p: DnsPacket)
    requires PacketWire(p).Some?
    ensures var w := PacketWire(p).value;
            var (qs, an, ns, ar) := (QuestionsWire(p.questions), RecordsWire(p.answers), RecordsWire(p.authorities), RecordsWire(p.resources));
            && qs.Some? && an.Some? && ns.Some? && ar.Some?
            && var (a, b, c, d) := (12 + |qs.value|, 12 + |qs.value| + |an.value|, |w| - |EdnsWire(p.edns)| - |ar.value|, |w| - |EdnsWire(p.edns)|);
               b + |ns.value| == c && w[12..a] == qs.value && w[a..b] == an.value && w[b..c] == ns.value && w[c..d] == ar.value
               && w[d..] == EdnsWire(p.edns)
  {
    hide QuestionsWire, RecordsWire, EdnsWire;
    Sections(HeaderWire(CountedHeader(p)), QuestionsWire(p.questions).value, RecordsWire(p.answers).value,
             RecordsWire(p.authorities).value, RecordsWire(p.resources).value, EdnsWire(p.edns));
  }

  lemma Sections(h: seq<byte>, qs: seq<byte>, an: seq<byte>, ns: seq<byte>, ar: seq<byte>, edns: seq<byte>)
    ensures var w := h + qs + an + ns + ar + edns;
            var (a, b) := (|h| + |qs|, |h| + |qs| + |an|);
            var (c, d) := (b + |ns|, b + |ns| + |ar|);
            w[|h|..a] == qs && w[a..b] == an && w[b..c] == ns && w[c..d] == ar && w[d..] == edns
  {
  }

  /** The records of a section, one after the other. */
  lemma RecordsInOrder(rs: seq<DnsRecord>, r: DnsRecord)
    requires RecordsWire(rs + [r]).Some?
    ensures RecordsWire([]) == Some([]) && RecordsWire(rs).Some? && RecordWire(r).Some?
            && RecordsWire(rs + [r]).value == RecordsWire(rs).value + RecordWire(r).value
  {
    hide RecordWire;
    if rs == [] {
      assert rs + [r] == [r] && [r][1..] == [];
    } else {
      assert (rs + [r])[1..] == rs[1..] + [r];
      RecordsInOrder(rs[1..], r);
      Assoc(RecordWire(rs[0]).value, RecordsWire(rs[1..]).value, RecordWire(r).value);
    }
  }

  // ---- Reading ----

  function ParseQuestions(b: seq<byte>, p: nat, n: nat, acc: seq<DnsQuestion>): Option<(seq<DnsQuestion>, nat)>
    decreases n
  {
    if n == 0 then Some((acc, p)) else
    var (q, p1) :- ParseQuestion(b, p);
    ParseQuestions(b, p1, n - 1, acc + [q])
  }

  function ParseRecords(b: seq<byte>, p: nat, n: nat, acc: seq<DnsRecord>): Option<(seq<DnsRecord>, nat)>
    decreases n
  {
    if n == 0 then Some((acc, p)) else
    var (r, p1) :- ParseRecord(b, p);
    ParseRecords(b, p1, n - 1, acc + [r])
  }

  /** Is the record at `p` root-owned with type 41? None: the buffer ends first. */
  function PeekOpt(b: seq<byte>, p: nat): Option<bool> {
    var (name, _) :- GetU8(b, p);
    if name != 0 then Some(false) else
    var (hi, _) :- GetU8(b, p + 1);
    var (lo, _) :- GetU8(b, p + 2);
    Some(U16(hi, lo) == OPT_TYPE)
  }

  function ParseOpt(b: seq<byte>, p: nat): Option<(EdnsOpt, nat)> {
    var (_, p1) :- GetU16(b, p + 1);
    var (size, p2) :- GetU16(b, p1);
    var (flags, p3) :- GetU32(b, p2);
    var (len, p4) :- GetU16(b, p3);
    var (options, p5) :- GetBytes(b, p4, len);
    Some((EdnsOpt(size, flags / 0x100_0000, flags / 0x1_0000 % 0x100, flags / 0x8000 % 2 == 1, options), p5))
  }

  /** The additional section: OPT records replace `edns`, the others join `acc`. */
  function ParseAdditional(b: seq<byte>, p: nat, n: nat, acc: seq<DnsRecord>, edns: Option<EdnsOpt>)
    : Option<((seq<DnsRecord>, Option<EdnsOpt>), nat)>
    decreases n
  {
    if n == 0 then Some(((acc, edns), p)) else
    var isOpt :- PeekOpt(b, p);
    if isOpt then
      var (e, p1) :- ParseOpt(b, p);
      ParseAdditional(b, p1, n - 1, acc, Some(e))
    else
      var (r, p1) :- ParseRecord(b, p);
      ParseAdditional(b, p1, n - 1, acc + [r], edns)
  }

  function ParsePacket(b: seq<byte>, p: nat): Option<(DnsPacket, nat)> {
    var (header, p1) :- ParseHeader(b, p);
    var (questions, p2) :- ParseQuestions(b, p1, header.questions, []);
    var (answers, p3) :- ParseRecords(b, p2, header.answers, []);
    var (authorities, p4) :- ParseRecords(b, p3, header.authoritativeEntries, []);
    var ((resources, edns), p5) :- ParseAdditional(b, p4, header.resourceEntries, [], None);
    Some((DnsPacket(header, questions, answers, authorities, resources, edns), p5))
  }

  // ---- Progress ----

  lemma {:induction false} QuestionsAdvance(b: seq<byte>, p: nat, n: nat, acc: seq<DnsQuestion>)
    ensures ParseQuestions(b, p, n, acc).Some? ==> p <= ParseQuestions(b, p, n, acc).value.1
    decreases n
  {
    hide ReadName;
    if ParseQuestions(b, p, n, acc).None? { return; }
    if n > 0 {
      NameAdvances(b, p);
      var (q, p1) := ParseQuestion(b, p).value;
      QuestionsAdvance(b, p1, n - 1, acc + [q]);
    }
  }

  lemma {:induction false} RecordsAdvance(b: seq<byte>, p: nat, n: nat, acc: seq<DnsRecord>)
    ensures ParseRecords(b, p, n, acc).Some? ==>
              var (rs, p1) := ParseRecords(b, p, n, acc).value;
              |rs| == |acc| + n && p + 11 * n <= p1 && (n > 0 ==> p1 <= |b|)
    decreases n
  {
    hide ParseRecord;
    if ParseRecords(b, p, n, acc).None? { return; }
    if n > 0 {
      RecordAdvances(b, p);
      var (r, p1) := ParseRecord(b, p).value;
      RecordsAdvance(b, p1, n - 1, acc + [r]);
    }
  }

  lemma OptAdvances(b: seq<byte>, p: nat)
    ensures ParseOpt(b, p).Some? ==> p + 11 <= ParseOpt(b, p).value.1 <= |b|
  {
  }

  lemma {:induction false} AdditionalAdvances(b: seq<byte>, p: nat, n: nat, acc: seq<DnsRecord>, edns: Option<EdnsOpt>)
    ensures ParseAdditional(b, p, n, acc, edns).Some? ==>
              var ((rs, _), p1) := ParseAdditional(b, p, n, acc, edns).value;
              |rs| <= |acc| + n && p + 11 * n <= p1 && (n > 0 ==> p1 <= |b|)
    decreases n
  {
    hide ParseRecord, ParseOpt, PeekOpt;
    if ParseAdditional(b, p, n, acc, edns).None? { return; }
    if n > 0 {
      if PeekOpt(b, p).value {
        OptAdvances(b, p);
        var (e, p1) := ParseOpt(b, p).value;
        AdditionalAdvances(b, p1, n - 1, acc, Some(e));
      } else {
        RecordAdvances(b, p);
        var (r, p1) := ParseRecord(b, p).value;
        AdditionalAdvances(b, p1, n - 1, acc + [r], edns);
      }
    }
  }

  /** However its names are compressed, a packet read from the buffer holds at most 371 records. */
  lemma ParsedSectionsAreSmall(b: seq<byte>, p: nat)
    requires |b| == BUF_SIZE
    ensures ParsePacket(b, p).Some? ==>
              var packet := ParsePacket(b, p).value.0;
              |packet.answers| + |packet.authorities| + |packet.resources| <= 371
  {
    hide ParseHeader, ParseQuestions, ParseRecords, ParseAdditional;
    if ParsePacket(b, p).None? { return; }
    var (header, p1) := ParseHeader(b, p).value;
    HeaderAdvances(b, p);
    QuestionsAdvance(b, p1, header.questions, []);
    var (_, p2) := ParseQuestions(b, p1, header.questions, []).value;
    RecordsAdvance(b, p2, header.answers, []);
    var (_, p3) := ParseRecords(b, p2, header.answers, []).value;
    RecordsAdvance(b, p3, header.authoritativeEntries, []);
    var (_, p4) := ParseRecords(b, p3, header.authoritativeEntries, []).value;
    AdditionalAdvances(b, p4, header.resourceEntries, [], None);
  }

  lemma HeaderAdvances(b: seq<byte>, p: nat)
    ensures ParseHeader(b, p).Some? ==> p + 12 == ParseHeader(b, p).value.1
  {
    hide FromFlags;
    if ParseHeader(b, p).None? { return; }
  }

  // ---- Round trip ----

  /** Packets whose parts can all be written and read back. */
  ghost predicate Encodable(p: DnsPacket) {
    && p.header.opcode < 16
    && (forall q <- p.questions :: WellFormedQuestion(q))
    && (forall r <- p.answers :: WellFormedRecord(r))
    && (forall r <- p.authorities :: WellFormedRecord(r))
    && (forall r <- p.resources :: WellFormedRecord(r))
  }

  /** Packets that also keep out of the way of EDNS. */
  ghost predicate WellFormed(p: DnsPacket) {
    Encodable(p) && forall r <- p.resources :: !LooksLikeOpt(r)
  }

  /** A root-owned opaque record of type 41, which the reader takes for EDNS. */
  predicate LooksLikeOpt(r: DnsRecord) {
    r.UNKNOWN? && r.qtype == OPT_TYPE && r.domain == []
  }

  /** What the reader makes of an opaque record that looks like OPT: its class is the size, its TTL the flags. */
  function TakenForOpt(size: u16, flags: u32, options: seq<byte>): EdnsOpt {
    EdnsOpt(size, flags / 0x100_0000, flags / 0x1_0000 % 0x100, flags / 0x8000 % 2 == 1, options)
  }

  /** The additional records that come back as records. */
  function WithoutOpt(rs: seq<DnsRecord>): (r: seq<DnsRecord>)
    ensures |r| <= |rs|
  {
    if rs == [] then [] else (if LooksLikeOpt(rs[0]) then [] else [rs[0]]) + WithoutOpt(rs[1..])
  }

  /** The EDNS they leave behind: the last one taken for OPT. */
  function OptAmong(rs: seq<DnsRecord>, seen: Option<EdnsOpt>): Option<EdnsOpt> {
    if rs == [] then seen
    else OptAmong(rs[1..], if LooksLikeOpt(rs[0]) then Some(TakenForOpt(1, rs[0].ttl, rs[0].data)) else seen)
  }

  /** What a written packet is read as. */
  function AsRead(p: DnsPacket): DnsPacket {
    p.(header := CountedHeader(p), resources := WithoutOpt(p.resources),
       edns := if p.edns.Some? then p.edns else OptAmong(p.resources, None))
  }

  lemma {:induction false} WithoutOptIff(rs: seq<DnsRecord>)
    ensures (forall r <- rs :: !LooksLikeOpt(r)) ==> WithoutOpt(rs) == rs && OptAmong(rs, None) == None
    ensures (exists r <- rs :: LooksLikeOpt(r)) ==> |WithoutOpt(rs)| < |rs|
  {
    hide LooksLikeOpt;
    if rs != [] {
      WithoutOptIff(rs[1..]);
      assert rs == [rs[0]] + rs[1..];
    }
  }

  lemma {:induction false} ParseWrittenQuestions(b: seq<byte>, p: nat, qs: seq<DnsQuestion>, acc: seq<DnsQuestion>)
    requires forall q <- qs :: WellFormedQuestion(q)
    requires QuestionsWire(qs).Some? && At(b, p, QuestionsWire(qs).value)
    ensures ParseQuestions(b, p, |qs|, acc) == Some((acc + qs, p + |QuestionsWire(qs).value|))
    decreases |qs|
  {
    hide At, QuestionWire, ParseQuestion, WellFormedQuestion;
    if qs == [] {
      assert acc + qs == acc;
    } else {
      var first, rest := QuestionWire(qs[0]).value, QuestionsWire(qs[1..]).value;
      AtConcat(b, p, first, rest);
      ParseWrittenQuestion(b, p, qs[0]);
      ParseWrittenQuestions(b, p + |first|, qs[1..], acc + [qs[0]]);
      assert acc + [qs[0]] + qs[1..] == acc + qs;
    }
  }

  lemma ParseFittingRecord(b: seq<byte>, p: nat, r: DnsRecord)
    requires WellFormedRecord(r) && RecordWire(r).Some? && |RecordWire(r).value| < 0x1_0000 && At(b, p, RecordWire(r).value)
    ensures ParseRecord(b, p) == Some((r, p + |RecordWire(r).value|))
  {
    hide RecordWire, RdataWire, ParseRecord, WellFormedRecord, At;
    RecordIsWritable(r);
    ParseWrittenRecord(b, p, r);
  }

  lemma {:induction false} ParseWrittenRecords(b: seq<byte>, p: nat, rs: seq<DnsRecord>, acc: seq<DnsRecord>)
    requires forall r <- rs :: WellFormedRecord(r)
    requires RecordsWire(rs).Some? && |RecordsWire(rs).value| < 0x1_0000 && At(b, p, RecordsWire(rs).value)
    ensures ParseRecords(b, p, |rs|, acc) == Some((acc + rs, p + |RecordsWire(rs).value|))
    decreases |rs|
  {
    hide At, RecordWire, ParseRecord, WellFormedRecord;
    if rs == [] {
      assert acc + rs == acc;
    } else {
      var first, rest := RecordWire(rs[0]).value, RecordsWire(rs[1..]).value;
      AtConcat(b, p, first, rest);
      ParseFittingRecord(b, p, rs[0]);
      ParseWrittenRecords(b, p + |first|, rs[1..], acc + [rs[0]]);
      assert acc + [rs[0]] + rs[1..] == acc + rs;
    }
  }

  /** A name's first wire byte is zero exactly for the root. */
  lemma FirstByteOfName(t: Text)
    requires NormalForm(t)
    ensures NameWire(t).Some? && (NameWire(t).value[0] == 0 <==> t == [])
    ensures t == [] ==> NameWire(t).value == [0]
  {
    var ls := ParseName(t).value;
    if ls != [] {
      assert LabelsWire(ls)[0] == |ls[0]|;
    }
  }

  lemma PeekWrittenRecord(b: seq<byte>, p: nat, r: DnsRecord)
    requires WellFormedRecord(r) && !LooksLikeOpt(r) && RecordWire(r).Some? && At(b, p, RecordWire(r).value)
    ensures PeekOpt(b, p) == Some(false)
  {
    hide NormalForm, RdataWire, NameWire;
    FirstByteOfName(r.domain);
    var name, num := NameWire(r.domain).value, r.QType().ToNum();
    var tail := BE16(1) + BE32(r.ttl) + BE16(AsU16(|RdataWire(r).value|)) + RdataWire(r).value;
    assert RecordWire(r).value == name + (BE16(num) + tail);
    AtConcat(b, p, name, BE16(num) + tail);
    AtConcat(b, p + |name|, BE16(num), tail);
    assert b[p] == b[p..p + |name|][0];
    AtBE16(b, p + |name|, num);
    if r.domain == [] { NotOpt(r); }
  }

  lemma NotOpt(r: DnsRecord)
    requires !LooksLikeOpt(r) && r.domain == []
    ensures r.QType().ToNum() != OPT_TYPE
  {
  }

  lemma EdnsFlagsRoundTrip(e: EdnsOpt)
    ensures var f := EdnsFlags(e);
            f / 0x100_0000 == e.extendedRcode && f / 0x1_0000 % 0x100 == e.version && (f / 0x8000 % 2 == 1 <==> e.doBit)
  {
    var f := EdnsFlags(e);
    assert f / 0x8000 == e.extendedRcode * 0x200 + e.version * 2 + (if e.doBit then 1 else 0);
    assert f / 0x1_0000 == e.extendedRcode * 0x100 + e.version;
  }

  /** An OPT record, or anything written like one. */
  function OptWire(size: u16, flags: u32, options: seq<byte>): seq<byte>
    requires |options| < 0x1_0000
  {
    [0] + BE16(OPT_TYPE) + BE16(size) + BE32(flags) + BE16(|options|) + options
  }

  /** Where its fields lie. */
  lemma OptFieldsAt(b: seq<byte>, p: nat, size: u16, flags: u32, options: seq<byte>)
    requires |options| < 0x1_0000 && At(b, p, OptWire(size, flags, options))
    ensures At(b, p, [0]) && At(b, p + 1, BE16(OPT_TYPE)) && At(b, p + 3, BE16(size))
    ensures At(b, p + 5, BE32(flags)) && At(b, p + 9, BE16(|options|)) && At(b, p + 11, options)
    ensures |OptWire(size, flags, options)| == 11 + |options|
  {
    hide At, BE16, BE32;
    var x1: seq<byte> := [0];
    var x2 := x1 + BE16(OPT_TYPE);
    var x3 := x2 + BE16(size);
    var x4 := x3 + BE32(flags);
    AtConcat(b, p, x4 + BE16(|options|), options);
    AtConcat(b, p, x4, BE16(|options|));
    AtConcat(b, p, x3, BE32(flags));
    AtConcat(b, p, x2, BE16(size));
    AtConcat(b, p, x1, BE16(OPT_TYPE));
  }

  lemma PeekOptWire(b: seq<byte>, p: nat)
    requires At(b, p, [0]) && At(b, p + 1, BE16(OPT_TYPE))
    ensures PeekOpt(b, p) == Some(true)
  {
    GetWritten8(b, p, 0);
    AtBE16(b, p + 1, OPT_TYPE);
    hide At, BE16;
  }

  lemma ParseOptWire(b: seq<byte>, p: nat, size: u16, flags: u32, options: seq<byte>)
    requires |options| < 0x1_0000 && At(b, p, OptWire(size, flags, options))
    ensures PeekOpt(b, p) == Some(true)
    ensures ParseOpt(b, p) == Some((TakenForOpt(size, flags, options), p + |OptWire(size, flags, options)|))
  {
    hide At, BE16, BE32, GetBytes, GetU16, GetU32, OptWire, PeekOpt;
    OptFieldsAt(b, p, size, flags, options);
    PeekOptWire(b, p);
    GetWritten16(b, p + 1, OPT_TYPE);
    GetWritten16(b, p + 3, size);
    GetWritten32(b, p + 5, flags);
    GetWritten16(b, p + 9, |options|);
    GetWrittenBytes(b, p + 11, options);
  }

  lemma ParseWrittenOpt(b: seq<byte>, p: nat, e: EdnsOpt)
    requires |e.options| < 0x1_0000 && At(b, p, EdnsWire(Some(e)))
    ensures PeekOpt(b, p) == Some(true) && ParseOpt(b, p) == Some((e, p + |EdnsWire(Some(e))|))
  {
    assert EdnsWire(Some(e)) == OptWire(e.udpPayloadSize, EdnsFlags(e), e.options);
    hide At, PeekOpt, ParseOpt, EdnsWire, OptWire, EdnsFlags;
    ParseOptWire(b, p, e.udpPayloadSize, EdnsFlags(e), e.options);
    EdnsFlagsRoundTrip(e);
  }

  /** A root-owned opaque record of type 41 is written exactly like an OPT record, class and all. */
  lemma LookalikeWire(r: DnsRecord)
    requires LooksLikeOpt(r) && |r.data| < 0x1_0000
    ensures RecordWire(r) == Some(OptWire(1, r.ttl, r.data))
  {
    FirstByteOfName([]);
    hide NameWire, NormalForm, BE16, BE32;
    assert r.QType().ToNum() == OPT_TYPE;
  }

  lemma ParseWrittenLookalike(b: seq<byte>, p: nat, r: DnsRecord)
    requires LooksLikeOpt(r) && RecordWire(r).Some? && |RecordWire(r).value| < 0x1_0000 && At(b, p, RecordWire(r).value)
    ensures PeekOpt(b, p) == Some(true)
    ensures ParseOpt(b, p) == Some((TakenForOpt(1, r.ttl, r.data), p + |RecordWire(r).value|))
  {
    assert |r.data| <= |RecordWire(r).value|;
    LookalikeWire(r);
    hide *;
    ParseOptWire(b, p, 1, r.ttl, r.data);
  }

  /** The additional section comes back without the records taken for OPT, at its exact end. */
  lemma {:induction false} ParseWrittenAdditional(b: seq<byte>, p: nat, rs: seq<DnsRecord>, edns: Option<EdnsOpt>,
                                                  acc: seq<DnsRecord>, seen: Option<EdnsOpt>)
    requires forall r <- rs :: WellFormedRecord(r)
    requires RecordsWire(rs).Some? && At(b, p, RecordsWire(rs).value + EdnsWire(edns))
    requires |RecordsWire(rs).value + EdnsWire(edns)| < 0x1_0000
    ensures ParseAdditional(b, p, |rs| + (if edns.Some? then 1 else 0), acc, seen)
         == Some(((acc + WithoutOpt(rs), if edns.Some? then edns else OptAmong(rs, seen)),
                  p + |RecordsWire(rs).value + EdnsWire(edns)|))
    decreases |rs|
  {
    hide At, RecordWire, ParseRecord, WellFormedRecord, PeekOpt, ParseOpt, LooksLikeOpt, TakenForOpt;
    if rs == [] {
      assert acc + WithoutOpt(rs) == acc;
      assert RecordsWire(rs).value + EdnsWire(edns) == EdnsWire(edns);
      if edns.Some? { ParseWrittenOpt(b, p, edns.value); }
    } else {
      var first, rest := RecordWire(rs[0]).value, RecordsWire(rs[1..]).value;
      Assoc(first, rest, EdnsWire(edns));
      AtConcat(b, p, first, rest + EdnsWire(edns));
      if LooksLikeOpt(rs[0]) {
        ParseWrittenLookalike(b, p, rs[0]);
        LookalikeIsOpaque(rs[0]);
        ParseWrittenAdditional(b, p + |first|, rs[1..], edns, acc, Some(TakenForOpt(1, rs[0].ttl, rs[0].data)));
        assert WithoutOpt(rs) == [] + WithoutOpt(rs[1..]) == WithoutOpt(rs[1..]);
      } else {
        PeekWrittenRecord(b, p, rs[0]);
        ParseFittingRecord(b, p, rs[0]);
        ParseWrittenAdditional(b, p + |first|, rs[1..], edns, acc + [rs[0]], seen);
        Assoc(acc, [rs[0]], WithoutOpt(rs[1..]));
      }
    }
  }

  lemma LookalikeIsOpaque(r: DnsRecord)
    requires LooksLikeOpt(r)
    ensures r.UNKNOWN?
  {
  }

  lemma {:induction false} RecordsWireSize(rs: seq<DnsRecord>)
    requires RecordsWire(rs).Some?
    ensures |RecordsWire(rs).value| >= 11 * |rs|
  {
    if rs != [] {
      RecordWireSize(rs[0]);
      RecordsWireSize(rs[1..]);
    }
  }

  lemma {:induction false} QuestionsWireSize(qs: seq<DnsQuestion>)
    requires QuestionsWire(qs).Some?
    ensures |QuestionsWire(qs).value| >= 5 * |qs|
  {
    if qs != [] { QuestionsWireSize(qs[1..]); }
  }

  lemma PacketWireParts(p: DnsPacket)
    requires PacketWire(p).Some?
    ensures QuestionsWire(p.questions).Some? && RecordsWire(p.answers).Some?
    ensures RecordsWire(p.authorities).Some? && RecordsWire(p.resources).Some?
    ensures |PacketWire(p).value| == 12 + |QuestionsWire(p.questions).value| + |RecordsWire(p.answers).value|
              + |RecordsWire(p.authorities).value| + |RecordsWire(p.resources).value| + |EdnsWire(p.edns)|
  {
    hide QuestionsWire, RecordsWire, HeaderWire, EdnsWire, CountedHeader;
  }

  /** The wire size of a packet that is one question. */
  lemma OneQuestionWire(p: DnsPacket)
    requires |p.questions| == 1 && p.answers == [] && p.authorities == [] && p.resources == [] && p.edns == None
    ensures PacketWire(p).Some? <==> NameWire(p.questions[0].name).Some?
    ensures PacketWire(p).Some? ==> |PacketWire(p).value| == 16 + |NameWire(p.questions[0].name).value|
  {
    hide NameWire, HeaderWire, CountedHeader, BE16;
    assert QuestionsWire(p.questions[1..]) == Some([]);
    assert RecordsWire([]) == Some([]) && EdnsWire(None) == [];
  }

  /** The section counts the header announces are the real ones, none truncated. */
  ghost predicate ExactCounts(h: DnsHeader, p: DnsPacket) {
    && h.questions as int == |p.questions|
    && h.answers as int == |p.answers|
    && h.authoritativeEntries as int == |p.authorities|
    && h.resourceEntries as int == |p.resources| + (if p.edns.Some? then 1 else 0)
  }

  lemma SectionsAreSmall(p: DnsPacket)
    requires PacketWire(p).Some? && |PacketWire(p).value| <= BUF_SIZE
    ensures |p.questions| <= 816 && |p.answers| + |p.authorities| + |p.resources| <= 371
  {
    PacketWireParts(p);
    QuestionsWireSize(p.questions);
    RecordsWireSize(p.answers);
    RecordsWireSize(p.authorities);
    RecordsWireSize(p.resources);
    hide *;
  }

  /** No section count of a packet that fits the buffer was truncated. */
  lemma CountsAreExact(p: DnsPacket)
    requires PacketWire(p).Some? && |PacketWire(p).value| <= BUF_SIZE
    ensures ExactCounts(CountedHeader(p), p)
  {
    SectionsAreSmall(p);
    hide PacketWire, AsU16;
  }

  /** Where the four sections of a written packet begin. */
  lemma SectionsAt(b: seq<byte>, p: nat, packet: DnsPacket) returns (p1: nat, p2: nat, p3: nat, p4: nat)
    requires PacketWire(packet).Some? && At(b, p, PacketWire(packet).value)
    ensures At(b, p, HeaderWire(CountedHeader(packet))) && p1 == p + 12
    ensures QuestionsWire(packet.questions).Some? && At(b, p1, QuestionsWire(packet.questions).value)
    ensures RecordsWire(packet.answers).Some? && At(b, p2, RecordsWire(packet.answers).value)
    ensures RecordsWire(packet.authorities).Some? && At(b, p3, RecordsWire(packet.authorities).value)
    ensures RecordsWire(packet.resources).Some? && At(b, p4, RecordsWire(packet.resources).value + EdnsWire(packet.edns))
    ensures p2 == p1 + |QuestionsWire(packet.questions).value| && p3 == p2 + |RecordsWire(packet.answers).value|
    ensures p4 == p3 + |RecordsWire(packet.authorities).value|
    ensures p + |PacketWire(packet).value| == p4 + |RecordsWire(packet.resources).value + EdnsWire(packet.edns)|
  {
    hide At, QuestionsWire, RecordsWire, EdnsWire, HeaderWire, CountedHeader;
    var w0, w1 := HeaderWire(CountedHeader(packet)), QuestionsWire(packet.questions).value;
    var w2, w3 := RecordsWire(packet.answers).value, RecordsWire(packet.authorities).value;
    var w4 := RecordsWire(packet.resources).value;
    Assoc(w0 + w1 + w2 + w3, w4, EdnsWire(packet.edns));
    AtConcat(b, p, w0 + w1 + w2 + w3, w4 + EdnsWire(packet.edns));
    AtConcat(b, p, w0 + w1 + w2, w3);
    AtConcat(b, p, w0 + w1, w2);
    AtConcat(b, p, w0, w1);
    p1 := p + |w0|;
    p2 := p1 + |w1|;
    p3 := p2 + |w2|;
    p4 := p3 + |w3|;
  }

  lemma JoinSections(b: seq<byte>, p: nat, h: DnsHeader, p1: nat, qs: seq<DnsQuestion>, p2: nat, an: seq<DnsRecord>,
                     p3: nat,
                     ns: seq<DnsRecord>, p4: nat, ar: seq<DnsRecord>, edns: Option<EdnsOpt>, p5: nat)
    requires ParseHeader(b, p) == Some((h, p1))
    requires ParseQuestions(b, p1, h.questions, []) == Some(([] + qs, p2))
    requires ParseRecords(b, p2, h.answers, []) == Some(([] + an, p3))
    requires ParseRecords(b, p3, h.authoritativeEntries, []) == Some(([] + ns, p4))
    requires ParseAdditional(b, p4, h.resourceEntries, [], None) == Some((([] + ar, edns), p5))
    ensures ParsePacket(b, p) == Some((DnsPacket(h, qs, an, ns, ar, edns), p5))
  {
    hide ParseHeader, ParseQuestions, ParseRecords, ParseAdditional;
    assert [] + qs == qs && [] + an == an && [] + ns == ns && [] + ar == ar;
  }

  /** What `from_buffer` makes of whatever `write` emits within the buffer, byte for byte consumed. */
  lemma WrittenReadsAs(b: seq<byte>, p: nat, packet: DnsPacket)
    requires Encodable(packet) && PacketWire(packet).Some?
    requires |PacketWire(packet).value| <= BUF_SIZE && At(b, p, PacketWire(packet).value)
    ensures ParsePacket(b, p) == Some((AsRead(packet), p + |PacketWire(packet).value|))
  {
    hide *;
    CountsAreExact(packet);
    PacketWireParts(packet);
    CountedOpcode(packet);
    AsReadParts(packet);
    var h, r := CountedHeader(packet), AsRead(packet);
    var p1, p2, p3, p4 := SectionsAt(b, p, packet);
    ParseWrittenHeader(b, p, h);
    SectionsParse(b, p1, p2, p3, p4, packet);
    JoinSections(b, p, h, p1, packet.questions, p2, packet.answers, p3, packet.authorities, p4, r.resources, r.edns,
                 p + |PacketWire(packet).value|);
  }

  lemma AsReadParts(packet: DnsPacket)
    ensures var r := AsRead(packet);
            && r.header == CountedHeader(packet) && r.questions == packet.questions && r.answers == packet.answers
            && r.authorities == packet.authorities && r.resources == WithoutOpt(packet.resources)
            && r.edns == if packet.edns.Some? then packet.edns else OptAmong(packet.resources, None)
    ensures (forall x <- packet.resources :: !LooksLikeOpt(x)) ==> AsRead(packet) == packet.(header := CountedHeader(packet))
    ensures (exists x <- packet.resources :: LooksLikeOpt(x)) ==> |AsRead(packet).resources| < |packet.resources|
  {
    hide CountedHeader, LooksLikeOpt;
    WithoutOptIff(packet.resources);
  }

  /** Reading back what was written is the identity, counts aside, exactly when no additional record looks like OPT. */
  lemma PacketRoundTripIff(b: seq<byte>, p: nat, packet: DnsPacket)
    requires Encodable(packet) && PacketWire(packet).Some?
    requires |PacketWire(packet).value| <= BUF_SIZE && At(b, p, PacketWire(packet).value)
    ensures ParsePacket(b, p) == Some((packet.(header := CountedHeader(packet)), p + |PacketWire(packet).value|))
       <==> forall r <- packet.resources :: !LooksLikeOpt(r)
  {
    hide ParsePacket, PacketWire, CountedHeader, LooksLikeOpt, AsRead, At, Encodable;
    WrittenReadsAs(b, p, packet);
    AsReadParts(packet);
  }

  /** Whatever `write` emits within the buffer, `from_buffer` reads back, byte for byte consumed. */
  lemma PacketRoundTrip(b: seq<byte>, p: nat, packet: DnsPacket)
    requires WellFormed(packet) && PacketWire(packet).Some?
    requires |PacketWire(packet).value| <= BUF_SIZE && At(b, p, PacketWire(packet).value)
    ensures ParsePacket(b, p)
         == Some((packet.(header := CountedHeader(packet)), p + |PacketWire(packet).value|))
  {
    hide ParsePacket, PacketWire, CountedHeader, LooksLikeOpt, AsRead, At, Encodable;
    PacketRoundTripIff(b, p, packet);
  }

  lemma CountedOpcode(p: DnsPacket)
    requires Encodable(p)
    ensures CountedHeader(p).opcode < 16
  {
  }

  lemma SectionsParse(b: seq<byte>, p1: nat, p2: nat, p3: nat, p4: nat, packet: DnsPacket)
    requires Encodable(packet) && ExactCounts(CountedHeader(packet), packet)
    requires PacketWire(packet).Some? && |PacketWire(packet).value| <= BUF_SIZE
    requires QuestionsWire(packet.questions).Some? && At(b, p1, QuestionsWire(packet.questions).value)
    requires RecordsWire(packet.answers).Some? && At(b, p2, RecordsWire(packet.answers).value)
    requires RecordsWire(packet.authorities).Some? && At(b, p3, RecordsWire(packet.authorities).value)
    requires RecordsWire(packet.resources).Some? && At(b, p4, RecordsWire(packet.resources).value + EdnsWire(packet.edns))
    ensures var h, r := CountedHeader(packet), AsRead(packet);
            && ParseQuestions(b, p1, h.questions, [])
               == Some(([] + packet.questions, p1 + |QuestionsWire(packet.questions).value|))
            && ParseRecords(b, p2, h.answers, []) == Some(([] + packet.answers, p2 + |RecordsWire(packet.answers).value|))
            && ParseRecords(b, p3, h.authoritativeEntries, [])
               == Some(([] + packet.authorities, p3 + |RecordsWire(packet.authorities).value|))
            && ParseAdditional(b, p4, h.resourceEntries, [], None)
               == Some((([] + r.resources, r.edns), p4 + |RecordsWire(packet.resources).value + EdnsWire(packet.edns)|))
  {
    hide At, QuestionsWire, RecordsWire, EdnsWire, ParseQuestions, ParseRecords, ParseAdditional, PacketWire,
         CountedHeader, WellFormedRecord, WellFormedQuestion, WithoutOpt, OptAmong;
    PacketWireParts(packet);
    ParseWrittenQuestions(b, p1, packet.questions, []);
    ParseWrittenRecords(b, p2, packet.answers, []);
    ParseWrittenRecords(b, p3, packet.authorities, []);
    ParseWrittenAdditional(b, p4, packet.resources, packet.edns, [], None);
  }

  // ---- A root name behind a pointer ----

  /** A header announcing one additional record and nothing else, with a zero byte to point at. */
  predicate PointsHome(h: DnsHeader) {
    h.id < 0x100 && h.opcode < 16
    && h.questions == 0 && h.answers == 0 && h.authoritativeEntries == 0 && h.resourceEntries == 1
  }

  /** That record: type 41, owned by the root, which it reaches by a pointer to the message's first byte. */
  function PointedRoot(h: DnsHeader, class_: u16, ttl: u32, data: seq<byte>): seq<byte>
    requires |data| < 0x1_0000
  {
    HeaderWire(h) + [0xC0, 0] + BE16(OPT_TYPE) + BE16(class_) + BE32(ttl) + BE16(|data|) + data
  }

  lemma PointedRootFields(b: seq<byte>, h: DnsHeader, class_: u16, ttl: u32, data: seq<byte>)
    requires |data| < 0x1_0000 && At(b, 0, PointedRoot(h, class_, ttl, data))
    ensures At(b, 0, HeaderWire(h)) && At(b, 12, [0xC0, 0]) && At(b, 14, BE16(OPT_TYPE))
    ensures At(b, 16, BE16(class_)) && At(b, 18, BE32(ttl)) && At(b, 22, BE16(|data|)) && At(b, 24, data)
  {
    hide At, HeaderWire, BE16, BE32;
    var x1 := HeaderWire(h);
    var x2 := x1 + [0xC0, 0];
    var x3 := x2 + BE16(OPT_TYPE);
    var x4 := x3 + BE16(class_);
    var x5 := x4 + BE32(ttl);
    AtConcat(b, 0, x5 + BE16(|data|), data);
    AtConcat(b, 0, x5, BE16(|data|));
    AtConcat(b, 0, x4, BE32(ttl));
    AtConcat(b, 0, x3, BE16(class_));
    AtConcat(b, 0, x2, BE16(OPT_TYPE));
    AtConcat(b, 0, x1, [0xC0, 0]);
  }

  lemma PointedName(b: seq<byte>, h: DnsHeader)
    requires PointsHome(h) && At(b, 0, HeaderWire(h)) && At(b, 12, [0xC0, 0])
    ensures |b| >= 14 && b[12] == 0xC0 && ReadName(b, 12) == Some(([], 14))
  {
    assert b[0] == b[0..12][0] && HeaderWire(h)[0] == 0;
    assert b[12] == b[12..14][0] && b[13] == b[12..14][1];
    hide HeaderWire, At;
    assert Expand(b, 0, 1) == Some([]);
    assert Expand(b, 12, 0) == Some([]);
    assert EndOfName(b, 12) == Some(14);
  }

  lemma PointedRecord(b: seq<byte>, h: DnsHeader, class_: u16, ttl: u32, data: seq<byte>)
    requires PointsHome(h) && |data| < 0x1_0000 && At(b, 0, PointedRoot(h, class_, ttl, data))
    ensures PeekOpt(b, 12) == Some(false)
    ensures ParseRecord(b, 12) == Some((DnsRecord.UNKNOWN([], OPT_TYPE, data, ttl), 24 + |data|))
  {
    hide At, HeaderWire, BE16, BE32, ReadName, PointedRoot, GetU16, GetU32, GetBytes;
    PointedRootFields(b, h, class_, ttl, data);
    PointedName(b, h);
    GetWritten16(b, 14, OPT_TYPE);
    GetWritten16(b, 16, class_);
    GetWritten32(b, 18, ttl);
    GetWritten16(b, 22, |data|);
    GetWrittenBytes(b, 24, data);
  }

  /** The OPT test looks for a literal zero byte, so this record is kept as an opaque one that looks like OPT. */
  lemma PointedRootIsNotOpt(b: seq<byte>, h: DnsHeader, class_: u16, ttl: u32, data: seq<byte>)
    requires PointsHome(h) && |data| < 0x1_0000 && At(b, 0, PointedRoot(h, class_, ttl, data))
    ensures var r := DnsRecord.UNKNOWN([], OPT_TYPE, data, ttl);
            LooksLikeOpt(r) && ParsePacket(b, 0) == Some((DnsPacket(h, [], [], [], [r], None), 24 + |data|))
  {
    hide At, ParseHeader, ParseRecord, PeekOpt, HeaderWire, PointedRoot;
    PointedRootFields(b, h, class_, ttl, data);
    PointedRecord(b, h, class_, ttl, data);
    ParseWrittenHeader(b, 0, h);
    var r := DnsRecord.UNKNOWN([], OPT_TYPE, data, ttl);
    assert [] + [r] == [r];
    assert ParseAdditional(b, 24 + |data|, 0, [r], None) == Some((([r], None), 24 + |data|));
  }

  lemma {:induction false} ParsedRecordsAreWellFormed(b: seq<byte>, p: nat, n: nat, acc: seq<DnsRecord>)
    requires forall r <- acc :: WellFormedRecord(r)
    ensures ParseRecords(b, p, n, acc).Some? ==>
              forall r <- ParseRecords(b, p, n, acc).value.0 :: WellFormedRecord(r)
    decreases n
  {
    hide ParseRecord, WellFormedRecord;
    if ParseRecords(b, p, n, acc).None? { return; }
    if n > 0 {
      ParsedRecordIsWellFormed(b, p);
      var (r, p1) := ParseRecord(b, p).value;
      ParsedRecordsAreWellFormed(b, p1, n - 1, acc + [r]);
    }
  }

  lemma {:induction false} ParsedQuestionsAreWellFormed(b: seq<byte>, p: nat, n: nat, acc: seq<DnsQuestion>)
    requires forall q <- acc :: WellFormedQuestion(q)
    ensures ParseQuestions(b, p, n, acc).Some? ==>
              forall q <- ParseQuestions(b, p, n, acc).value.0 :: WellFormedQuestion(q)
    decreases n
  {
    hide ReadName, NormalForm;
    if ParseQuestions(b, p, n, acc).None? { return; }
    if n > 0 {
      var (q, p1) := ParseQuestion(b, p).value;
      ParsedQuestionsAreWellFormed(b, p1, n - 1, acc + [q]);
    }
  }

  lemma {:induction false} ParsedAdditionalIsWellFormed(b: seq<byte>, p: nat, n: nat, acc: seq<DnsRecord>,
                                                        edns: Option<EdnsOpt>)
    requires forall r <- acc :: WellFormedRecord(r)
    ensures ParseAdditional(b, p, n, acc, edns).Some? ==>
              forall r <- ParseAdditional(b, p, n, acc, edns).value.0.0 :: WellFormedRecord(r)
    decreases n
  {
    hide ParseRecord, WellFormedRecord, PeekOpt, ParseOpt;
    if ParseAdditional(b, p, n, acc, edns).None? { return; }
    if n > 0 {
      if PeekOpt(b, p).value {
        var (e, p1) := ParseOpt(b, p).value;
        ParsedAdditionalIsWellFormed(b, p1, n - 1, acc, Some(e));
      } else {
        ParsedRecordIsWellFormed(b, p);
        var (r, p1) := ParseRecord(b, p).value;
        ParsedAdditionalIsWellFormed(b, p1, n - 1, acc + [r], edns);
      }
    }
  }

  lemma {:induction false} QuestionsAreWritable(qs: seq<DnsQuestion>)
    requires forall q <- qs :: WellFormedQuestion(q)
    ensures QuestionsWire(qs).Some?
  {
    hide NormalForm, NameWire;
    if qs != [] {
      assert qs[0] in qs;
      NormalFormWrites(qs[0].name);
      QuestionsAreWritable(qs[1..]);
    }
  }

  lemma {:induction false} RecordsAreWritable(rs: seq<DnsRecord>)
    requires forall r <- rs :: WellFormedRecord(r)
    ensures RecordsWire(rs).Some?
  {
    hide RecordWire, WellFormedRecord;
    if rs != [] {
      assert rs[0] in rs;
      RecordIsWritable(rs[0]);
      RecordsAreWritable(rs[1..]);
    }
  }

  /** Only room can be missing for an encodable packet. */
  lemma EncodableIsWritable(p: DnsPacket)
    requires Encodable(p)
    ensures PacketWire(p).Some?
  {
    hide QuestionsWire, RecordsWire, HeaderWire, EdnsWire, CountedHeader, WellFormedQuestion, WellFormedRecord;
    QuestionsAreWritable(p.questions);
    RecordsAreWritable(p.answers);
    RecordsAreWritable(p.authorities);
    RecordsAreWritable(p.resources);
  }

  /**
   On all buffers, a parsed packet meets the conditions of `WrittenReadsAs` but for its size, which
   compression may have hidden.
   */
  lemma ParsedPacketIsEncodable(b: seq<byte>, p: nat)
    ensures ParsePacket(b, p).Some? ==> Encodable(ParsePacket(b, p).value.0) && PacketWire(ParsePacket(b, p).value.0).Some?
  {
    if ParsePacket(b, p).None? { return; }
    var packet := ParsePacket(b, p).value.0;
    ParsedHeaderOpcode(b, p);
    hide ParseHeader, ParseQuestions, ParseRecords, ParseAdditional, WellFormedRecord, WellFormedQuestion, LooksLikeOpt;
    var (header, p1) := ParseHeader(b, p).value;
    ParsedQuestionsAreWellFormed(b, p1, header.questions, []);
    var (_, p2) := ParseQuestions(b, p1, header.questions, []).value;
    ParsedRecordsAreWellFormed(b, p2, header.answers, []);
    var (_, p3) := ParseRecords(b, p2, header.answers, []).value;
    ParsedRecordsAreWellFormed(b, p3, header.authoritativeEntries, []);
    var (_, p4) := ParseRecords(b, p3, header.authoritativeEntries, []).value;
    ParsedAdditionalIsWellFormed(b, p4, header.resourceEntries, [], None);
    hide Encodable, PacketWire;
    EncodableIsWritable(packet);
  }

  lemma ParsedHeaderOpcode(b: seq<byte>, p: nat)
    ensures ParseHeader(b, p).Some? ==> ParseHeader(b, p).value.0.opcode < 16
  {
    hide IsSet;
  }

  // ---- Methods ----

  method ReadQuestions(buffer: BytePacketBuffer, n: nat) returns (r: Option<seq<DnsQuestion>>)
    requires buffer.Valid()
    modifies buffer`pos
    ensures buffer.DidRead(ParseQuestions(buffer.buf[..], old(buffer.pos), n, []), r)
  {
    hide ParseQuestion;
    var questions := [];
    for i := 0 to n
      invariant ParseQuestions(buffer.buf[..], old(buffer.pos), n, []) == ParseQuestions(buffer.buf[..], buffer.pos, n - i, questions)
    {
      var q := ReadQuestion(buffer);
      if q.None? { return None; }
      questions := questions + [q.value];
    }
    r := Some(questions);
  }

  method ReadRecords(buffer: BytePacketBuffer, n: nat) returns (r: Option<seq<DnsRecord>>)
    requires buffer.Valid()
    modifies buffer`pos
    ensures buffer.DidRead(ParseRecords(buffer.buf[..], old(buffer.pos), n, []), r)
  {
    hide ParseRecord;
    var records := [];
    for i := 0 to n
      invariant ParseRecords(buffer.buf[..], old(buffer.pos), n, []) == ParseRecords(buffer.buf[..], buffer.pos, n - i, records)
    {
      var rec := ReadRecord(buffer);
      if rec.None? { return None; }
      records := records + [rec.value];
    }
    r := Some(records);
  }

  method PeekIsOpt(buffer: BytePacketBuffer) returns (r: Option<bool>)
    requires buffer.Valid()
    ensures r == PeekOpt(buffer.buf[..], buffer.pos)
  {
    var name := buffer.Get(buffer.pos);
    if name.None? { return None; }
    if name.value != 0 { return Some(false); }
    var hi := buffer.Get(buffer.pos + 1);
    if hi.None? { return None; }
    var lo := buffer.Get(buffer.pos + 2);
    if lo.None? { return None; }
    r := Some(U16(hi.value, lo.value) == OPT_TYPE);
  }

  method ReadOpt(buffer: BytePacketBuffer) returns (r: Option<EdnsOpt>)
    requires buffer.Valid()
    modifies buffer`pos
    ensures buffer.DidRead(ParseOpt(buffer.buf[..], old(buffer.pos)), r)
  {
    hide GetU16, GetU32, GetBytes;
    buffer.Step(1);
    var type_ := buffer.ReadU16();
    if type_.None? { return None; }
    var size := buffer.ReadU16();
    if size.None? { return None; }
    var flags := buffer.ReadU32();
    if flags.None? { return None; }
    var len := buffer.ReadU16();
    if len.None? { return None; }
    var options := buffer.Take(len.value);
    if options.None? { return None; }
    r := Some(EdnsOpt(size.value, flags.value / 0x100_0000, flags.value / 0x1_0000 % 0x100, flags.value / 0x8000 % 2 == 1, options.value));
  }

  method ReadAdditional(buffer: BytePacketBuffer, n: nat) returns (r: Option<(seq<DnsRecord>, Option<EdnsOpt>)>)
    requires buffer.Valid()
    modifies buffer`pos
    ensures buffer.DidRead(ParseAdditional(buffer.buf[..], old(buffer.pos), n, [], None), r)
  {
    hide ParseRecord, ParseOpt, PeekOpt;
    var resources := [];
    var edns: Option<EdnsOpt> := None;
    for i := 0 to n
      invariant ParseAdditional(buffer.buf[..], old(buffer.pos), n, [], None)
             == ParseAdditional(buffer.buf[..], buffer.pos, n - i, resources, edns)
    {
      var isOpt := PeekIsOpt(buffer);
      if isOpt.None? { return None; }
      if isOpt.value {
        var opt := ReadOpt(buffer);
        if opt.None? { return None; }
        edns := opt;
      } else {
        var rec := ReadRecord(buffer);
        if rec.None? { return None; }
        resources := resources + [rec.value];
      }
    }
    r := Some((resources, edns));
  }

  method FromBuffer(buffer: BytePacketBuffer) returns (r: Option<DnsPacket>)
    requires buffer.Valid()
    modifies buffer`pos
    ensures buffer.DidRead(ParsePacket(buffer.buf[..], old(buffer.pos)), r)
  {
    hide ParseHeader, ParseQuestions, ParseRecords, ParseAdditional;
    var header := ReadHeader(buffer);
    if header.None? { return None; }
    var questions := ReadQuestions(buffer, header.value.questions);
    if questions.None? { return None; }
    var answers := ReadRecords(buffer, header.value.answers);
    if answers.None? { return None; }
    var authorities := ReadRecords(buffer, header.value.authoritativeEntries);
    if authorities.None? { return None; }
    var additional := ReadAdditional(buffer, header.value.resourceEntries);
    if additional.None? { return None; }
    r := Some(DnsPacket(header.value, questions.value, answers.value, authorities.value, additional.value.0, additional.value.1));
  }

  lemma {:induction false} QuestionsWireSplit(qs: seq<DnsQuestion>, i: nat)
    requires i <= |qs|
    ensures qs[..|qs|] == qs && QuestionsWire(qs[..0]) == Some([])
    ensures i < |qs| && QuestionsWire(qs[..i]).Some? && QuestionWire(qs[i]).Some? ==>
              QuestionsWire(qs[..i + 1]) == Some(QuestionsWire(qs[..i]).value + QuestionWire(qs[i]).value)
    ensures QuestionsWire(qs).Some? ==>
              QuestionsWire(qs[..i]).Some? && |QuestionsWire(qs[..i]).value| <= |QuestionsWire(qs).value|
    ensures i < |qs| && QuestionsWire(qs).Some? ==>
              QuestionWire(qs[i]).Some? && |QuestionsWire(qs[..i]).value| + |QuestionWire(qs[i]).value| <= |QuestionsWire(qs).value|
    decreases i
  {
    hide QuestionWire;
    if i > 0 {
      QuestionsWireSplit(qs[1..], i - 1);
      assert qs[..i][1..] == qs[1..][..i - 1];
      if i < |qs| && QuestionsWire(qs[..i]).Some? && QuestionWire(qs[i]).Some? {
        assert qs[..i + 1][1..] == qs[1..][..i];
        Assoc(QuestionWire(qs[0]).value, QuestionsWire(qs[1..][..i - 1]).value, QuestionWire(qs[i]).value);
      }
    } else if |qs| > 0 {
      assert qs[..1][1..] == [];
      if QuestionWire(qs[0]).Some? { assert [] + QuestionWire(qs[0]).value == QuestionWire(qs[0]).value + []; }
    }
  }

  lemma {:induction false} RecordsWireSplit(rs: seq<DnsRecord>, i: nat)
    requires i <= |rs|
    ensures rs[..|rs|] == rs && RecordsWire(rs[..0]) == Some([])
    ensures i < |rs| && RecordsWire(rs[..i]).Some? && RecordWire(rs[i]).Some? ==>
              RecordsWire(rs[..i + 1]) == Some(RecordsWire(rs[..i]).value + RecordWire(rs[i]).value)
    ensures RecordsWire(rs).Some? ==>
              RecordsWire(rs[..i]).Some? && |RecordsWire(rs[..i]).value| <= |RecordsWire(rs).value|
    ensures i < |rs| && RecordsWire(rs).Some? ==>
              RecordWire(rs[i]).Some? && |RecordsWire(rs[..i]).value| + |RecordWire(rs[i]).value| <= |RecordsWire(rs).value|
    decreases i
  {
    hide RecordWire;
    if i > 0 {
      RecordsWireSplit(rs[1..], i - 1);
      assert rs[..i][1..] == rs[1..][..i - 1];
      if i < |rs| && RecordsWire(rs[..i]).Some? && RecordWire(rs[i]).Some? {
        assert rs[..i + 1][1..] == rs[1..][..i];
        Assoc(RecordWire(rs[0]).value, RecordsWire(rs[1..][..i - 1]).value, RecordWire(rs[i]).value);
      }
    } else if |rs| > 0 {
      assert rs[..1][1..] == [];
      if RecordWire(rs[0]).Some? { assert [] + RecordWire(rs[0]).value == RecordWire(rs[0]).value + []; }
    }
  }

  /** Every question of a written packet ends in its type number and the class IN. */
  lemma WrittenQuestionEnds(p: DnsPacket, i: nat) returns (end: nat)
    requires PacketWire(p).Some? && i < |p.questions|
    ensures var w := PacketWire(p).value;
            17 <= end <= |w| && w[end - 2] == 0 && w[end - 1] == 1
            && U16(w[end - 4], w[end - 3]) == p.questions[i].qtype.ToNum()
    ensures QuestionsWire(p.questions[..i + 1]).Some? && end == 12 + |QuestionsWire(p.questions[..i + 1]).value|
  {
    hide QuestionWire, QuestionsWire, PacketWire, QueryType.ToNum;
    QuestionsInPacket(p);
    QuestionsWireSplit(p.questions, i);
    QuestionEnds(p.questions[i]);
    QuestionsPrefix(p.questions, i + 1);
    var front, last := QuestionsWire(p.questions[..i + 1]).value, QuestionWire(p.questions[i]).value;
    end := 12 + |front|;
    EndOf(QuestionsWire(p.questions[..i]).value, last, front);
    EndInside(PacketWire(p).value, QuestionsWire(p.questions).value, front);
  }

  lemma QuestionsInPacket(p: DnsPacket)
    requires PacketWire(p).Some?
    ensures QuestionsWire(p.questions).Some?
    ensures var w, qs := PacketWire(p).value, QuestionsWire(p.questions).value;
            12 + |qs| <= |w| && w[12..12 + |qs|] == qs
  {
    hide QuestionsWire, RecordsWire, HeaderWire, EdnsWire, CountedHeader;
  }

  lemma EndOf(x: seq<byte>, y: seq<byte>, front: seq<byte>)
    requires front == x + y && |y| >= 4
    ensures front[|front| - 2..] == y[|y| - 2..]
    ensures front[|front| - 4] == y[|y| - 4] && front[|front| - 3] == y[|y| - 3]
  {
  }

  lemma EndInside(w: seq<byte>, qs: seq<byte>, front: seq<byte>)
    requires 12 + |qs| <= |w| && w[12..12 + |qs|] == qs && front <= qs && |front| >= 4
    ensures var end := 12 + |front|;
            && end <= |w| && w[end - 2] == front[|front| - 2] && w[end - 1] == front[|front| - 1]
            && w[end - 4] == front[|front| - 4] && w[end - 3] == front[|front| - 3]
  {
    assert forall k :: 0 <= k < |front| ==> front[k] == qs[k] == w[12 + k];
  }

  lemma {:induction false} QuestionsPrefix(qs: seq<DnsQuestion>, i: nat)
    requires QuestionsWire(qs).Some? && i <= |qs|
    ensures QuestionsWire(qs[..i]).Some? && QuestionsWire(qs[..i]).value <= QuestionsWire(qs).value
    decreases i
  {
    hide QuestionWire;
    if i > 0 {
      assert qs[..i][1..] == qs[1..][..i - 1];
      QuestionsPrefix(qs[1..], i - 1);
    }
  }

  method WriteQuestions(qs: seq<DnsQuestion>, buffer: BytePacketBuffer) returns (ok: bool)
    requires buffer.Valid() && buffer.pos <= BUF_SIZE
    modifies buffer, buffer.buf
    ensures ok <==> QuestionsWire(qs).Some? && old(buffer.pos) + |QuestionsWire(qs).value| <= BUF_SIZE
    ensures !ok && QuestionsWire(qs).Some? ==> buffer.overflow
    ensures ok ==> buffer.Wrote(old(buffer.pos), old(buffer.Filled()), QuestionsWire(qs).value) && buffer.overflow == old(buffer.overflow)
  {
    hide QuestionWire, QuestionsWire;
    ghost var start, before := buffer.pos, buffer.Filled();
    QuestionsWireSplit(qs, 0);
    for i := 0 to |qs|
      invariant QuestionsWire(qs[..i]).Some? && start + |QuestionsWire(qs[..i]).value| <= BUF_SIZE
      invariant buffer.Wrote(start, before, QuestionsWire(qs[..i]).value)
      invariant buffer.overflow == old(buffer.overflow)
    {
      QuestionsWireSplit(qs, i);
      ghost var mid, between := buffer.pos, buffer.Filled();
      ok := WriteQuestion(qs[i], buffer);
      if !ok { return; }
      buffer.WroteAfter(start, before, QuestionsWire(qs[..i]).value, mid, between, QuestionWire(qs[i]).value);
    }
    ok := true;
  }

  method WriteRecords(rs: seq<DnsRecord>, buffer: BytePacketBuffer) returns (ok: bool)
    requires buffer.Valid() && buffer.pos <= BUF_SIZE
    modifies buffer, buffer.buf
    ensures ok <==> RecordsWire(rs).Some? && old(buffer.pos) + |RecordsWire(rs).value| <= BUF_SIZE
    ensures !ok && RecordsWire(rs).Some? ==> buffer.overflow
    ensures ok ==> buffer.Wrote(old(buffer.pos), old(buffer.Filled()), RecordsWire(rs).value) && buffer.overflow == old(buffer.overflow)
  {
    hide RecordWire, RecordsWire;
    ghost var start, before := buffer.pos, buffer.Filled();
    RecordsWireSplit(rs, 0);
    for i := 0 to |rs|
      invariant RecordsWire(rs[..i]).Some? && start + |RecordsWire(rs[..i]).value| <= BUF_SIZE
      invariant buffer.Wrote(start, before, RecordsWire(rs[..i]).value)
      invariant buffer.overflow == old(buffer.overflow)
    {
      RecordsWireSplit(rs, i);
      ghost var mid, between := buffer.pos, buffer.Filled();
      ok := WriteRecord(rs[i], buffer);
      if !ok { return; }
      buffer.WroteAfter(start, before, RecordsWire(rs[..i]).value, mid, between, RecordWire(rs[i]).value);
    }
    ok := true;
  }

  method WriteEdns(edns: Option<EdnsOpt>, buffer: BytePacketBuffer) returns (ok: bool)
    requires buffer.Valid() && buffer.pos <= BUF_SIZE
    modifies buffer, buffer.buf
    ensures ok <==> old(buffer.pos) + |EdnsWire(edns)| <= BUF_SIZE
    ensures buffer.overflow <==> old(buffer.overflow) || !ok
    ensures ok ==> buffer.Wrote(old(buffer.pos), old(buffer.Filled()), EdnsWire(edns))
  {
    hide EdnsFlags;
    if edns.None? { return true; }
    var e := edns.value;
    ghost var start, before := buffer.pos, buffer.Filled();
    ok := buffer.Write(0);
    if !ok { return; }
    ghost var done: seq<byte> := [0];
    ok := buffer.ThenU16(start, before, done, QueryType.OPT.ToNum());
    if !ok { return; }
    done := done + BE16(OPT_TYPE);
    ok := buffer.ThenU16(start, before, done, e.udpPayloadSize);
    if !ok { return; }
    done := done + BE16(e.udpPayloadSize);
    ok := buffer.ThenU32(start, before, done, EdnsFlags(e));
    if !ok { return; }
    done := done + BE32(EdnsFlags(e));
    ok := buffer.ThenU16(start, before, done, AsU16(|e.options|));
    if !ok { return; }
    done := done + BE16(AsU16(|e.options|));
    ok := buffer.ThenBytes(start, before, done, e.options);
  }

  method WritePacket(p: DnsPacket, buffer: BytePacketBuffer) returns (ok: bool)
    requires buffer.Valid()
    modifies buffer, buffer.buf
    ensures ok <==> PacketWire(p).Some? && old(buffer.pos) + |PacketWire(p).value| <= BUF_SIZE
    ensures !ok && PacketWire(p).Some? ==> buffer.overflow
    ensures ok ==> buffer.Wrote(old(buffer.pos), old(buffer.Filled()), PacketWire(p).value) && buffer.overflow == old(buffer.overflow)
  {
    hide HeaderWire, CountedHeader, QuestionsWire, RecordsWire, EdnsWire;
    ghost var start, before := buffer.pos, buffer.Filled();
    ok := WriteHeader(CountedHeader(p), buffer);
    if !ok { return; }
    ghost var done := HeaderWire(CountedHeader(p));
    ghost var mid, between := buffer.pos, buffer.Filled();
    ok := WriteQuestions(p.questions, buffer);
    if !ok { return; }
    buffer.WroteAfter(start, before, done, mid, between, QuestionsWire(p.questions).value);
    done := done + QuestionsWire(p.questions).value;
    mid, between := buffer.pos, buffer.Filled();
    ok := WriteRecords(p.answers, buffer);
    if !ok { return; }
    buffer.WroteAfter(start, before, done, mid, between, RecordsWire(p.answers).value);
    done := done + RecordsWire(p.answers).value;
    mid, between := buffer.pos, buffer.Filled();
    ok := WriteRecords(p.authorities, buffer);
    if !ok { return; }
    buffer.WroteAfter(start, before, done, mid, between, RecordsWire(p.authorities).value);
    done := done + RecordsWire(p.authorities).value;
    mid, between := buffer.pos, buffer.Filled();
    ok := WriteRecords(p.resources, buffer);
    if !ok { return; }
    buffer.WroteAfter(start, before, done, mid, between, RecordsWire(p.resources).value);
    done := done + RecordsWire(p.resources).value;
    mid, between := buffer.pos, buffer.Filled();
    ok := WriteEdns(p.edns, buffer);
    if !ok { return; }
    buffer.WroteAfter(start, before, done, mid, between, EdnsWire(p.edns));
  }

  /** Serialize into a fresh buffer, rewind and parse, as the cache does between insertion and lookup. */
  method WriteThenRead(p: DnsPacket) returns (r: Option<DnsPacket>)
    requires Encodable(p)
    ensures PacketWire(p).Some? && (r.Some? <==> |PacketWire(p).value| <= BUF_SIZE)
    ensures r.Some? ==> r.value == AsRead(p) && ExactCounts(CountedHeader(p), p)
    ensures r == Some(p.(header := CountedHeader(p)))
       <==> |PacketWire(p).value| <= BUF_SIZE && forall x <- p.resources :: !LooksLikeOpt(x)
  {
    hide PacketWire, Encodable, ParsePacket, AsRead, CountedHeader, LooksLikeOpt, ExactCounts;
    EncodableIsWritable(p);
    AsReadParts(p);
    var buffer := new BytePacketBuffer();
    var ok := WritePacket(p, buffer);
    if !ok { return None; }
    ghost var wire := PacketWire(p).value;
    assert At(buffer.buf[..], 0, wire);
    buffer.Seek(0);
    CountsAreExact(p);
    WrittenReadsAs(buffer.buf[..], 0, p);
    r := FromBuffer(buffer);
  }
}
