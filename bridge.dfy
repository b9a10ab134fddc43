/**
 * The DNS bridge handler: a decoded query comes in, A questions are resolved
 * through the proxy, and a reply goes out. A records follow the RR layout of
 * section 3.4.1 of RFC 1035 and the AA bit is the one of section 4.1.1.
 */
module Bridge {
  import opened Wrappers
  import opened DottedQuad
  import opened Socks

  type uint16 = x: int | 0 <= x < 0x1_0000
  type uint32 = x: int | 0 <= x < 0x1_0000_0000

  const TypeA: uint16 := 1
  const ClassINET: uint16 := 1
  /** The TTL, in seconds, of every answer the bridge gives. */
  const AnswerTtl: uint32 := 60

  /** A question; its name is the presentation text the DNS library decoded, as a Go string (bytes). */
  datatype Question = Question(name: seq<byte>, qtype: uint16, qclass: uint16)

  datatype Header = Header(name: seq<byte>, rrtype: uint16, rrclass: uint16, ttl: uint32)

  /** An A record; its address is whatever net.ParseIP returned, None standing for a nil net.IP. */
  datatype ARecord = ARecord(hdr: Header, address: Option<IPv4>)

  /** The parts of a DNS message the bridge reads or sets. */
  datatype Message = Message(
    id: uint16,
    response: bool,
    recursionDesired: bool,
    authoritative: bool,
    question: seq<Question>,
    answer: seq<ARecord>)

  /**
   * The reply skeleton the DNS library's SetReply builds: same id, recursion
   * bit and first question, marked as a response, not authoritative, no answers.
   */
  function SetReply(query: Message): (reply: Message)
    requires |query.question| > 0
    ensures reply.id == query.id && reply.recursionDesired == query.recursionDesired
    ensures reply.response && !reply.authoritative
    ensures reply.question == [query.question[0]] && reply.answer == []
  {
    Message(query.id, true, query.recursionDesired, false, [query.question[0]], [])
  }

  /** The record answering a question with the text the resolver returned. */
  function AnswerFor(q: Question, address: string): (rr: ARecord)
    ensures rr.hdr.name == q.name && rr.hdr.rrtype == TypeA && rr.hdr.rrclass == ClassINET && rr.hdr.ttl == 60
    ensures forall ip :: rr.address == Some(ip) <==> address == Format(ip)
  {
    ParseIffAll(address);
    ARecord(Header(q.name, TypeA, ClassINET, AnswerTtl), Parse(address))
  }

  /**
   * The reply to a query, given what the resolver returned for its first
   * question's name (ignored unless that question asks for an A record).
   */
  function Respond(query: Message, resolved: Outcome): (reply: Message)
    requires |query.question| > 0
    ensures reply.id == query.id && reply.response && reply.recursionDesired == query.recursionDesired
    ensures reply.question == [query.question[0]]
    ensures reply.authoritative <==> query.question[0].qtype == TypeA
    ensures |reply.answer| == if query.question[0].qtype == TypeA && resolved.Resolved? then 1 else 0
    ensures forall rr :: rr in reply.answer ==>
              rr.hdr == Header(query.question[0].name, TypeA, ClassINET, AnswerTtl)
              && forall ip :: rr.address == Some(ip) <==> resolved.address == Format(ip)
  {
    var skeleton := SetReply(query);
    if query.question[0].qtype != TypeA then skeleton
    else
      var reply := skeleton.(authoritative := true);
      match resolved
      case Resolved(address) => reply.(answer := reply.answer + [AnswerFor(reply.question[0], address)])
      case Failed(_) => reply
  }

  /**
   * The handler closure: the reply is built step by step, the resolver is
   * called only for an A question, and the frames it wrote are returned.
   */
  method Handle(query: Message, proxy: Proxy) returns (reply: Message, written: seq<seq<byte>>)
    requires |query.question| > 0
    ensures query.question[0].qtype == TypeA ==>
              var session := Exchange(proxy, query.question[0].name);
              reply == Respond(query, session.outcome) && written == session.written
    ensures query.question[0].qtype != TypeA ==> reply == SetReply(query) && written == []
  {
    reply := SetReply(query);
    written := [];
    if reply.question[0].qtype == TypeA {
      reply := reply.(authoritative := true);
      var domain := reply.question[0].name;
      var outcome;
      outcome, written := Resolve(proxy, domain);
      if outcome.Resolved? {
        reply := reply.(answer := reply.answer + [AnswerFor(reply.question[0], outcome.address)]);
      }
    }
  }

  /**
   * End to end: an A query answered by the proxy's success reply gets exactly
   * one answer carrying the octets of that reply; every other A query gets an
   * authoritative reply with no answer.
   */
  lemma AnswerCarriesReplyAddress(query: Message, proxy: Proxy)
    requires |query.question| > 0 && query.question[0].qtype == TypeA
    ensures var reply := Respond(query, Exchange(proxy, query.question[0].name).outcome);
            reply.authoritative
            && (ResolveAnswered(proxy) && Negotiated(proxy) && proxy.dialOk ==>
                  reply.answer == [ARecord(Header(query.question[0].name, TypeA, ClassINET, AnswerTtl),
                                           Some(ReplyAddress(proxy.resolveReply[..ReplySize])))])
            && (!(ResolveAnswered(proxy) && Negotiated(proxy) && proxy.dialOk) ==> reply.answer == [])
  {
  }

  /** The scenario of a proxy resolving example.onion. to 127.0.0.1. */
  lemma ExampleOnion(query: Message)
    requires query.question == [Question(ExampleName, TypeA, ClassINET)]
    ensures Exchange(ExampleProxy, ExampleName).outcome == Resolved("127.0.0.1")
    ensures Respond(query, Exchange(ExampleProxy, ExampleName).outcome).answer
            == [ARecord(Header(ExampleName, TypeA, ClassINET, 60), Some(IPv4(0x7F, 0, 0, 1)))]
  {
    var ip := IPv4(0x7F, 0, 0, 1);
    assert ExampleProxy.resolveReply[..ReplySize] == SuccessReply(ip);
    ReplyAcceptedIff(SuccessReply(ip));
    assert Decimal(0) == "0" && Decimal(1) == "1";
    assert Decimal(0x7F) == "127" by {
      assert Decimal(12) == Decimal(1) + "2";
    }
    assert Format(ip) == "127.0.0.1";
    ParseFormat(ip);
  }

  /** "example.onion." as bytes. */
  const ExampleName: seq<byte> := [0x65, 0x78, 0x61, 0x6D, 0x70, 0x6C, 0x65, 0x2E, 0x6F, 0x6E, 0x69, 0x6F, 0x6E, 0x2E]

  /** A proxy that accepts the greeting and answers 05 00 00 01 7F 00 00 01 00 00. */
  const ExampleProxy: Proxy :=
    Proxy(true, true, [0x05, 0x00], true, [0x05, 0x00, 0x00, 0x01, 0x7F, 0x00, 0x00, 0x01, 0x00, 0x00])
}
