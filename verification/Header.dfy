/** The twelve-byte message header (section 4.1.1 of RFC 1035). */
module Header {
  import opened Bytes
  import opened Cursor
  import opened PacketBuffer

  datatype ResultCode = NOERROR | FORMERR | SERVFAIL | NXDOMAIN | NOTIMP | REFUSED {
    function ToNum(): byte {
      match this
      case NOERROR => 0
      case FORMERR => 1
      case SERVFAIL => 2
      case NXDOMAIN => 3
      case NOTIMP => 4
      case REFUSED => 5
    }

    static function FromNum(num: byte): ResultCode {
      match num
      case 1 => FORMERR
      case 2 => SERVFAIL
      case 3 => NXDOMAIN
      case 4 => NOTIMP
      case 5 => REFUSED
      case _ => NOERROR
    }
  }

  /** The assigned codes (section 4.1.1 of RFC 1035). */
  lemma AssignedCodes(code: ResultCode)
    ensures ResultCode.NOERROR.ToNum() == 0 && ResultCode.FORMERR.ToNum() == 1 && ResultCode.SERVFAIL.ToNum() == 2
    ensures ResultCode.NXDOMAIN.ToNum() == 3 && ResultCode.NOTIMP.ToNum() == 4 && ResultCode.REFUSED.ToNum() == 5
    ensures ResultCode.FromNum(code.ToNum()) == code
  {
  }

  datatype DnsHeader = DnsHeader(
    id: u16,
    recursionDesired: bool,
    truncatedMessage: bool,
    authoritativeAnswer: bool,
    opcode: byte,
    response: bool,
    rescode: ResultCode,
    checkingDisabled: bool,
    authedData: bool,
    z: bool,
    recursionAvailable: bool,
    questions: u16,
    answers: u16,
    authoritativeEntries: u16,
    resourceEntries: u16)

  const NEW_HEADER := DnsHeader(0, false, false, false, 0, false, ResultCode.NOERROR, false, false, false, false, 0, 0, 0, 0)

  function Bit(b: bool, weight: byte): byte { if b then weight else 0 }

  predicate IsSet(flags: byte, weight: byte)
    requires weight > 0
  {
    flags / weight % 2 == 1
  }

  /** The first flag byte. `opcode << 3` keeps four bits and its fifth falls on the response bit. */
  function FlagsA(h: DnsHeader): byte {
    Bit(h.recursionDesired, 1) + Bit(h.truncatedMessage, 2) + Bit(h.authoritativeAnswer, 4)
    + h.opcode % 16 * 8 + Bit(h.response || IsSet(h.opcode, 16), 128)
  }

  function FlagsB(h: DnsHeader): byte {
    h.rescode.ToNum() + Bit(h.checkingDisabled, 16) + Bit(h.authedData, 32) + Bit(h.z, 64) + Bit(h.recursionAvailable, 128)
  }

  function HeaderWire(h: DnsHeader): (w: seq<byte>)
    ensures |w| == 12
  {
    BE16(h.id) + [FlagsA(h)] + [FlagsB(h)]
    + BE16(h.questions) + BE16(h.answers) + BE16(h.authoritativeEntries) + BE16(h.resourceEntries)
  }

  function FromFlags(id: u16, a: byte, b: byte, qd: u16, an: u16, ns: u16, ar: u16): DnsHeader {
    DnsHeader(id, IsSet(a, 1), IsSet(a, 2), IsSet(a, 4), a / 8 % 16, IsSet(a, 128),
              ResultCode.FromNum(b % 16), IsSet(b, 16), IsSet(b, 32), IsSet(b, 64), IsSet(b, 128), qd, an, ns, ar)
  }

  function ParseHeader(b: seq<byte>, p: nat): Option<(DnsHeader, nat)> {
    var (id, p1) :- GetU16(b, p);
    var (flags, p2) :- GetU16(b, p1);
    var (qd, p3) :- GetU16(b, p2);
    var (an, p4) :- GetU16(b, p3);
    var (ns, p5) :- GetU16(b, p4);
    var (ar, p6) :- GetU16(b, p5);
    Some((FromFlags(id, flags / 0x100, flags % 0x100, qd, an, ns, ar), p6))
  }

  lemma FlagsARoundTrip(h: DnsHeader)
    requires h.opcode < 16
    ensures var a := FlagsA(h);
            && IsSet(a, 1) == h.recursionDesired && IsSet(a, 2) == h.truncatedMessage && IsSet(a, 4) == h.authoritativeAnswer
            && a / 8 % 16 == h.opcode && IsSet(a, 128) == h.response
  {
    var a := FlagsA(h);
    var high := h.opcode + Bit(h.response, 16);
    assert a / 4 == Bit(h.authoritativeAnswer, 1) + 2 * high;
    assert a / 2 == Bit(h.truncatedMessage, 1) + 2 * (a / 4);
    assert a / 8 == high;
    assert a / 128 == Bit(h.response, 1);
  }

  lemma FlagsBRoundTrip(h: DnsHeader)
    ensures var b := FlagsB(h);
            && ResultCode.FromNum(b % 16) == h.rescode && IsSet(b, 16) == h.checkingDisabled
            && IsSet(b, 32) == h.authedData && IsSet(b, 64) == h.z && IsSet(b, 128) == h.recursionAvailable
  {
    var b := FlagsB(h);
    assert b / 128 == Bit(h.recursionAvailable, 1);
    assert b / 64 == Bit(h.z, 1) + 2 * (b / 128);
    assert b / 32 == Bit(h.authedData, 1) + 2 * (b / 64);
    assert b / 16 == Bit(h.checkingDisabled, 1) + 2 * (b / 32);
  }

  /** Every flag comes back, and so does the opcode unless it needs more than four bits. */
  lemma FlagsRoundTrip(h: DnsHeader)
    requires h.opcode < 16
    ensures FromFlags(h.id, FlagsA(h), FlagsB(h), h.questions, h.answers, h.authoritativeEntries, h.resourceEntries) == h
  {
    FlagsARoundTrip(h);
    FlagsBRoundTrip(h);
    hide FlagsA, FlagsB, IsSet;
  }

  /** With a five-bit opcode the response bit no longer survives. */
  lemma WideOpcodeIsNotRestored(h: DnsHeader)
    requires h.opcode >= 16
    ensures FromFlags(h.id, FlagsA(h), FlagsB(h), h.questions, h.answers, h.authoritativeEntries, h.resourceEntries) != h
  {
  }

  /**
   * The header's layout (section 4.1.1 of RFC 1035 and section 6.1 of RFC 4035): the second word holds, from the top, QR, the
   * opcode, AA, TC, RD, RA, Z, AD, CD and the code, and the six words stand in this order.
   */
  lemma HeaderLayout(h: DnsHeader)
    requires h.opcode < 16
    ensures var w := HeaderWire(h);
            && U16(w[0], w[1]) == h.id && U16(w[4], w[5]) == h.questions && U16(w[6], w[7]) == h.answers
            && U16(w[8], w[9]) == h.authoritativeEntries && U16(w[10], w[11]) == h.resourceEntries
            && U16(w[2], w[3]) as int
               == (if h.response then 0x8000 else 0) + h.opcode * 0x800 + (if h.authoritativeAnswer then 0x400 else 0)
                  + (if h.truncatedMessage then 0x200 else 0) + (if h.recursionDesired then 0x100 else 0)
                  + (if h.recursionAvailable then 0x80 else 0) + (if h.z then 0x40 else 0)
                  + (if h.authedData then 0x20 else 0) + (if h.checkingDisabled then 0x10 else 0) + h.rescode.ToNum()
  {
    var a, b := FlagsA(h), FlagsB(h);
    FirstFlags(h);
    SecondFlags(h);
    hide FlagsA, FlagsB, ResultCode.ToNum;
    assert HeaderWire(h)[2] == a && HeaderWire(h)[3] == b;
    Words(h);
    hide HeaderWire;
  }

  lemma Words(h: DnsHeader)
    ensures var w := HeaderWire(h);
            && U16(w[0], w[1]) == h.id && U16(w[4], w[5]) == h.questions && U16(w[6], w[7]) == h.answers
            && U16(w[8], w[9]) == h.authoritativeEntries && U16(w[10], w[11]) == h.resourceEntries
  {
    hide FlagsA, FlagsB;
  }

  lemma FirstFlags(h: DnsHeader)
    requires h.opcode < 16
    ensures FlagsA(h) == (if h.response then 0x80 else 0) + h.opcode * 8 + (if h.authoritativeAnswer then 4 else 0)
                         + (if h.truncatedMessage then 2 else 0) + (if h.recursionDesired then 1 else 0)
  {
  }

  lemma SecondFlags(h: DnsHeader)
    ensures FlagsB(h) == (if h.recursionAvailable then 0x80 else 0) + (if h.z then 0x40 else 0)
                         + (if h.authedData then 0x20 else 0) + (if h.checkingDisabled then 0x10 else 0) + h.rescode.ToNum()
  {
    hide ResultCode.ToNum;
  }

  lemma ParseWrittenHeader(b: seq<byte>, p: nat, h: DnsHeader)
    requires h.opcode < 16 && At(b, p, HeaderWire(h))
    ensures ParseHeader(b, p) == Some((h, p + 12))
  {
    hide FlagsA, FlagsB, IsSet, FromFlags, At, GetU16;
    var id, flags := BE16(h.id), [FlagsA(h)] + [FlagsB(h)];
    var qd, an, ns, ar := BE16(h.questions), BE16(h.answers), BE16(h.authoritativeEntries), BE16(h.resourceEntries);
    assert HeaderWire(h) == id + flags + qd + an + ns + ar;
    AtConcat(b, p, id + flags + qd + an + ns, ar);
    AtConcat(b, p, id + flags + qd + an, ns);
    AtConcat(b, p, id + flags + qd, an);
    AtConcat(b, p, id + flags, qd);
    AtConcat(b, p, id, flags);
    GetWritten16(b, p, h.id);
    var f: u16 := U16(FlagsA(h), FlagsB(h));
    assert BE16(f) == flags;
    GetWritten16(b, p + 2, f);
    GetWritten16(b, p + 4, h.questions);
    GetWritten16(b, p + 6, h.answers);
    GetWritten16(b, p + 8, h.authoritativeEntries);
    GetWritten16(b, p + 10, h.resourceEntries);
    FlagsRoundTrip(h);
  }

  method ReadHeader(buffer: BytePacketBuffer) returns (r: Option<DnsHeader>)
    requires buffer.Valid()
    modifies buffer`pos
    ensures buffer.DidRead(ParseHeader(buffer.buf[..], old(buffer.pos)), r)
  {
    hide IsSet;
    var id := buffer.ReadU16();
    if id.None? { return None; }
    var flags := buffer.ReadU16();
    if flags.None? { return None; }
    var qd := buffer.ReadU16();
    if qd.None? { return None; }
    var an := buffer.ReadU16();
    if an.None? { return None; }
    var ns := buffer.ReadU16();
    if ns.None? { return None; }
    var ar := buffer.ReadU16();
    if ar.None? { return None; }
    r := Some(FromFlags(id.value, flags.value / 0x100, flags.value % 0x100, qd.value, an.value, ns.value, ar.value));
  }

  method WriteHeader(h: DnsHeader, buffer: BytePacketBuffer) returns (ok: bool)
    requires buffer.Valid()
    modifies buffer, buffer.buf
    ensures ok <==> old(buffer.pos) + 12 <= BUF_SIZE
    ensures buffer.overflow <==> old(buffer.overflow) || !ok
    ensures ok ==> buffer.Wrote(old(buffer.pos), old(buffer.Filled()), HeaderWire(h))
  {
    hide FlagsA, FlagsB;
    ghost var start, before := buffer.pos, buffer.Filled();
    ok := buffer.WriteU16(h.id);
    if !ok { return; }
    ghost var done := BE16(h.id);
    ok := buffer.ThenU8(start, before, done, FlagsA(h));
    if !ok { return; }
    done := done + [FlagsA(h)];
    ok := buffer.ThenU8(start, before, done, FlagsB(h));
    if !ok { return; }
    done := done + [FlagsB(h)];
    ok := buffer.ThenU16(start, before, done, h.questions);
    if !ok { return; }
    done := done + BE16(h.questions);
    ok := buffer.ThenU16(start, before, done, h.answers);
    if !ok { return; }
    done := done + BE16(h.answers);
    ok := buffer.ThenU16(start, before, done, h.authoritativeEntries);
    if !ok { return; }
    done := done + BE16(h.authoritativeEntries);
    ok := buffer.ThenU16(start, before, done, h.resourceEntries);
  }
}
