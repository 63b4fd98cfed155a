/** Query types and the question section (section 4.1.2 of RFC 1035). */
module Question {
  import opened Bytes
  import opened Cursor
  import opened Names
  import opened PacketBuffer

  datatype QueryType =
    | UNKNOWN(num: u16)
    | A | NS | CNAME | SOA | PTR | MX | TXT | AAAA | LOC | SRV | NAPTR | OPT | DS | RRSIG | NSEC | DNSKEY | NSEC3 | SVCB | HTTPS
  {
    function ToNum(): u16 {
      match this
      case UNKNOWN(x) => x
      case A => 1
      case NS => 2
      case CNAME => 5
      case SOA => 6
      case PTR => 12
      case MX => 15
      case TXT => 16
      case AAAA => 28
      case LOC => 29
      case SRV => 33
      case NAPTR => 35
      case OPT => 41
      case DS => 43
      case RRSIG => 46
      case NSEC => 47
      case DNSKEY => 48
      case NSEC3 => 50
      case SVCB => 64
      case HTTPS => 65
    }

    static function FromNum(num: u16): QueryType {
      match num
      case 1 => A
      case 2 => NS
      case 5 => CNAME
      case 6 => SOA
      case 12 => PTR
      case 15 => MX
      case 16 => TXT
      case 28 => AAAA
      case 29 => LOC
      case 33 => SRV
      case 35 => NAPTR
      case 41 => OPT
      case 43 => DS
      case 46 => RRSIG
      case 47 => NSEC
      case 48 => DNSKEY
      case 50 => NSEC3
      case 64 => SVCB
      case 65 => HTTPS
      case _ => UNKNOWN(num)
    }
  }

  /** The types that `from_num` produces: a number with a name is never UNKNOWN. */
  predicate Canonical(t: QueryType) { QueryType.FromNum(t.ToNum()) == t }

  /** Numbers survive the enumeration; types survive exactly when canonical. */
  lemma TypeNumbers(num: u16, t: QueryType)
    ensures QueryType.FromNum(num).ToNum() == num && Canonical(QueryType.FromNum(num))
    ensures Canonical(t) <==> t.UNKNOWN? ==> QueryType.FromNum(t.num).UNKNOWN?
  {
  }

  /** The assigned numbers, by the RFC that defines each type: 1035, 1876, 2782, 3403, 3596, 4034, 5155, 6891 and 9460. */
  lemma AssignedNumbers()
    ensures QueryType.A.ToNum() == 1 && QueryType.NS.ToNum() == 2 && QueryType.CNAME.ToNum() == 5 && QueryType.SOA.ToNum() == 6
    ensures QueryType.PTR.ToNum() == 12 && QueryType.MX.ToNum() == 15 && QueryType.TXT.ToNum() == 16
    ensures QueryType.LOC.ToNum() == 29 && QueryType.SRV.ToNum() == 33 && QueryType.NAPTR.ToNum() == 35
    ensures QueryType.AAAA.ToNum() == 28 && QueryType.OPT.ToNum() == 41
    ensures QueryType.DS.ToNum() == 43 && QueryType.RRSIG.ToNum() == 46 && QueryType.NSEC.ToNum() == 47
    ensures QueryType.DNSKEY.ToNum() == 48 && QueryType.NSEC3.ToNum() == 50
    ensures QueryType.SVCB.ToNum() == 64 && QueryType.HTTPS.ToNum() == 65
  {
  }

  datatype DnsQuestion = DnsQuestion(name: Text, qtype: QueryType)

  function QuestionWire(q: DnsQuestion): Option<seq<byte>> {
    var name :- NameWire(q.name);
    Some(name + BE16(q.qtype.ToNum()) + BE16(1))
  }

  function ParseQuestion(b: seq<byte>, p: nat): Option<(DnsQuestion, nat)> {
    var (name, p1) :- ReadName(b, p);
    var (num, p2) :- GetU16(b, p1);
    var (_, p3) :- GetU16(b, p2);
    Some((DnsQuestion(name, QueryType.FromNum(num)), p3))
  }

  predicate WellFormedQuestion(q: DnsQuestion) {
    NormalForm(q.name) && Canonical(q.qtype)
  }

  lemma ParseWrittenQuestion(b: seq<byte>, p: nat, q: DnsQuestion)
    requires WellFormedQuestion(q) && QuestionWire(q).Some? && At(b, p, QuestionWire(q).value)
    ensures ParseQuestion(b, p) == Some((q, p + |QuestionWire(q).value|))
  {
    hide At, NameWire, ReadName, NormalForm, GetU16, BE16;
    var name := NameWire(q.name).value;
    AtConcat(b, p, name + BE16(q.qtype.ToNum()), BE16(1));
    AtConcat(b, p, name, BE16(q.qtype.ToNum()));
    ReadWritten(b, p, q.name);
    GetWritten16(b, p + |name|, q.qtype.ToNum());
    GetWritten16(b, p + |name| + 2, 1);
  }

  /** A question ends in its type number and the class IN. */
  lemma QuestionEnds(q: DnsQuestion)
    requires QuestionWire(q).Some?
    ensures var w := QuestionWire(q).value;
            |w| >= 5 && w[|w| - 2..] == [0, 1] && U16(w[|w| - 4], w[|w| - 3]) == q.qtype.ToNum()
  {
    hide NameWire, QueryType.ToNum;
  }

  method ReadQuestion(buffer: BytePacketBuffer) returns (r: Option<DnsQuestion>)
    requires buffer.Valid()
    modifies buffer`pos
    ensures buffer.DidRead(ParseQuestion(buffer.buf[..], old(buffer.pos)), r)
  {
    var name := buffer.ReadQname();
    if name.None? { return None; }
    var num := buffer.ReadU16();
    if num.None? { return None; }
    var class_ := buffer.ReadU16();
    if class_.None? { return None; }
    r := Some(DnsQuestion(name.value, QueryType.FromNum(num.value)));
  }

  method WriteQuestion(q: DnsQuestion, buffer: BytePacketBuffer) returns (ok: bool)
    requires buffer.Valid()
    modifies buffer, buffer.buf
    ensures ok <==> QuestionWire(q).Some? && old(buffer.pos) + |QuestionWire(q).value| <= BUF_SIZE
    ensures !ok && QuestionWire(q).Some? ==> buffer.overflow
    ensures ok ==> buffer.Wrote(old(buffer.pos), old(buffer.Filled()), QuestionWire(q).value) && buffer.overflow == old(buffer.overflow)
    ensures ok ==>
              && buffer.pos >= old(buffer.pos) + 5 && buffer.buf[buffer.pos - 2] == 0 && buffer.buf[buffer.pos - 1] == 1
              && U16(buffer.buf[buffer.pos - 4], buffer.buf[buffer.pos - 3]) == q.qtype.ToNum()
  {
    ghost var start, before := buffer.pos, buffer.Filled();
    ghost var name := NameWire(q.name);
    ok := buffer.WriteQname(q.name);
    if !ok { return; }
    ok := buffer.ThenU16(start, before, name.value, q.qtype.ToNum());
    if !ok { return; }
    ok := buffer.ThenU16(start, before, name.value + BE16(q.qtype.ToNum()), 1);
  }
}
