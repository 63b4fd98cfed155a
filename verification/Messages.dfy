/** Fresh queries and replies: `DnsPacket::query` and `DnsPacket::response_from`. */
module Messages {
  import opened Bytes
  import Names
  import opened Question
  import opened Header
  import opened Packet

  function Query(id: u16, name: Text, qtype: QueryType): DnsPacket {
    DnsPacket(NEW_HEADER.(id := id, recursionDesired := true), [DnsQuestion(name, qtype)], [], [], [], Option.None)
  }

  function ResponseFrom(query: DnsPacket, rescode: ResultCode): DnsPacket {
    var header := NEW_HEADER.(id := query.header.id, response := true, recursionDesired := query.header.recursionDesired,
                              recursionAvailable := true, rescode := rescode);
    DnsPacket(header, query.questions, [], [], [], Option.None)
  }

  function WithId(p: DnsPacket, id: u16): DnsPacket {
    p.(header := p.header.(id := id))
  }

  // ---- Field by field ----

  /** The leader's result under another id, and nothing else changed. */
  predicate SameButId(reply: DnsPacket, result: DnsPacket, id: u16) {
    && reply.header.id == id && reply.header == result.header.(id := id)
    && reply.questions == result.questions && reply.answers == result.answers && reply.authorities == result.authorities
    && reply.resources == result.resources && reply.edns == result.edns
  }

  /** A failure reply to the query: its id, question and RD bit, SERVFAIL, and no records. */
  predicate ServfailTo(reply: DnsPacket, query: DnsPacket) {
    && reply.header.rescode == SERVFAIL && reply.header.response && reply.header.id == query.header.id
    && reply.header.recursionDesired == query.header.recursionDesired && reply.questions == query.questions
    && reply.answers == [] && reply.authorities == [] && reply.resources == [] && reply.edns == Option.None
  }

  lemma RepliesAre(p: DnsPacket, query: DnsPacket, id: u16)
    ensures SameButId(WithId(p, id), p, id) && ServfailTo(ResponseFrom(query, SERVFAIL), query)
  {
  }

  /** A fresh query on the wire: its id, the RD bit alone, one question, and that question in class IN. */
  lemma QueryOnTheWire(id: u16, name: Text, qtype: QueryType)
    requires PacketWire(Query(id, name, qtype)).Some?
    ensures var w := PacketWire(Query(id, name, qtype)).value;
            |w| >= 17 && w[..12] == [id / 0x100, id % 0x100, 1, 0, 0, 1, 0, 0, 0, 0, 0, 0]
            && Names.NameWire(name).Some? && w[12..|w| - 4] == Names.NameWire(name).value
            && U16(w[|w| - 4], w[|w| - 3]) == qtype.ToNum() && w[|w| - 2..] == [0, 1]
  {
    var q := DnsQuestion(name, qtype);
    var p := Query(id, name, qtype);
    hide Names.NameWire, QuestionWire;
    assert QuestionsWire(p.questions[1..]) == Some([]) && RecordsWire([]) == Some([]) && EdnsWire(Option.None) == [];
    assert PacketWire(p).value == HeaderWire(CountedHeader(p)) + QuestionWire(q).value;
    HeaderOfQuery(id, name, qtype);
    QuestionEnds(q);
    QuestionStarts(q);
    hide QuestionsWire, RecordsWire, PacketWire, HeaderWire, CountedHeader;
  }

  lemma HeaderOfQuery(id: u16, name: Text, qtype: QueryType)
    ensures HeaderWire(CountedHeader(Query(id, name, qtype))) == [id / 0x100, id % 0x100, 1, 0, 0, 1, 0, 0, 0, 0, 0, 0]
  {
  }

  lemma QuestionStarts(q: DnsQuestion)
    requires QuestionWire(q).Some?
    ensures var w := QuestionWire(q).value;
            |w| >= 5 && Names.NameWire(q.name).Some? && w[..|w| - 4] == Names.NameWire(q.name).value
  {
    hide Names.NameWire;
  }
}
