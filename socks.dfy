/**
 * The resolver: one SOCKS5 exchange with Tor's proxy that turns a host name
 * into an IPv4 address. The greeting is the method-selection message of
 * section 3 of RFC 1928, the request follows section 4 with the DOMAINNAME
 * address type of section 5 and Tor's RESOLVE command 0xF0, and the reply is
 * read as the fixed 10-byte IPv4 reply of section 6.
 *
 * The connection is abstracted as a Proxy value: whether the dial and each
 * write succeed, and which bytes arrive for each of the two reads.
 */
module Socks {
  import opened Wrappers
  import opened DottedQuad

  const Version: byte := 0x05
  const NoAuthentication: byte := 0x00
  const CmdResolve: byte := 0xF0
  const Reserved: byte := 0x00
  const AtypDomainName: byte := 0x03
  const AtypIPv4: byte := 0x01
  const Succeeded: byte := 0x00

  /** The size of the scratch buffer that both reads fill, and of the resolve reply. */
  const ReplySize: nat := 10

  /** Version 5, one method offered, that method "no authentication". */
  const Greeting: seq<byte> := [Version, 0x01, NoAuthentication]

  /** What the proxy side of the connection does; nothing else about it is observed. */
  datatype Proxy = Proxy(
    dialOk: bool,              // net.Dial reached the proxy
    greetingWriteOk: bool,     // the greeting was written without error
    greetingReply: seq<byte>,  // the bytes that arrive for the greeting read
    requestWriteOk: bool,      // the request frame was written without error
    resolveReply: seq<byte>)   // the bytes that arrive for the resolve read

  datatype Failure = ProxyUnreachable | NegotiationFailed | ResolveFailed

  datatype Outcome = Resolved(address: string) | Failed(failure: Failure)

  /** The outcome of a call, and the frames it wrote (or tried to write), in order. */
  datatype Session = Session(outcome: Outcome, written: seq<seq<byte>>)

  function Min(x: nat, y: nat): nat {
    if x <= y then x else y
  }

  // ---------------------------------------------------------------- frames

  /** The proxy selected version 5 with no authentication; only the first two bytes are looked at. */
  function GreetingAccepted(reply: seq<byte>): (ok: bool)
    requires |reply| >= 2
    ensures ok <==> reply[0] == Greeting[0] && reply[1] == Greeting[2]
  {
    reply[0] == Version && reply[1] == NoAuthentication
  }

  /**
   * The RESOLVE request for a name. The length octet is the name's length
   * truncated to 8 bits, as byte(len(address)) does.
   */
  function RequestFrame(name: seq<byte>): (frame: seq<byte>)
    ensures |frame| == |name| + 7
    ensures frame[..5] == [Version, CmdResolve, Reserved, AtypDomainName, (|name| % 0x100) as byte]
    ensures frame[5..5 + |name|] == name
    ensures frame[5 + |name|..] == [0x00, 0x00]
  {
    [Version, CmdResolve, Reserved, AtypDomainName, (|name| % 0x100) as byte] + name + [0x00, 0x00]
  }

  /** A request as the proxy reads it: command, host name and port. */
  datatype Request = Request(command: byte, host: seq<byte>, port: nat)

  /** The proxy's reading of a request frame whose address type is DOMAINNAME. */
  function ParseRequest(frame: seq<byte>): (r: Option<Request>)
    ensures r.Some? ==> |r.value.host| <= 0xFF && r.value.port < 0x1_0000
  {
    if |frame| < 5 || frame[0] != Version || frame[2] != Reserved || frame[3] != AtypDomainName then None
    else
      var n := frame[4] as nat;
      if |frame| != 5 + n + 2 then None
      else Some(Request(frame[1], frame[5..5 + n], frame[5 + n] as nat * 0x100 + frame[6 + n] as nat))
  }

  /** The proxy reads back exactly the name that was sent, as long as its length fits the length octet. */
  lemma RequestRoundTrip(name: seq<byte>)
    ensures |name| <= 0xFF ==> ParseRequest(RequestFrame(name)) == Some(Request(CmdResolve, name, 0))
    ensures |name| > 0xFF ==> ParseRequest(RequestFrame(name)) == None
  {
  }

  /** The successful IPv4 reply a proxy sends for an address: the placeholder port echoed as zero. */
  function SuccessReply(ip: IPv4): (reply: seq<byte>)
    ensures |reply| == ReplySize
  {
    [Version, Succeeded, Reserved, AtypIPv4, ip.a, ip.b, ip.c, ip.d, 0x00, 0x00]
  }

  /** Octets 4..7 of a reply, in network order. */
  function ReplyAddress(reply: seq<byte>): (ip: IPv4)
    requires |reply| == ReplySize
    ensures ReplyAccepted(reply) <==> reply == SuccessReply(ip)
  {
    IPv4(reply[4], reply[5], reply[6], reply[7])
  }

  /** Version, status, reserved octet, address type and the placeholder port are checked; the address is not. */
  function ReplyAccepted(reply: seq<byte>): (ok: bool)
    requires |reply| == ReplySize
    ensures ok <==> exists ip :: reply == SuccessReply(ip)
  {
    assert reply[0] == Version && reply[1] == Succeeded && reply[2] == Reserved && reply[3] == AtypIPv4
           && reply[8] == 0x00 && reply[9] == 0x00 ==>
           reply == SuccessReply(IPv4(reply[4], reply[5], reply[6], reply[7]));
    reply[0] == Version && reply[1] == Succeeded && reply[2] == Reserved && reply[3] == AtypIPv4
    && reply[8] == 0x00 && reply[9] == 0x00
  }

  /** A reply is accepted exactly when it is the success reply for some address, and then that address is the one read. */
  lemma ReplyAcceptedIff(reply: seq<byte>)
    requires |reply| == ReplySize
    ensures ReplyAccepted(reply) <==> (exists ip :: reply == SuccessReply(ip))
    ensures forall ip :: reply == SuccessReply(ip) ==> ReplyAddress(reply) == ip
  {
  }

  // ---------------------------------------------------------------- the exchange

  /** The greeting was written and answered with at least two bytes that accept it. */
  function Negotiated(p: Proxy): (ok: bool)
    ensures ok <==> p.greetingWriteOk && |p.greetingReply| >= 2
                    && GreetingAccepted(p.greetingReply[..Min(|p.greetingReply|, ReplySize)])
  {
    p.greetingWriteOk && |p.greetingReply| >= 2 && GreetingAccepted(p.greetingReply)
  }

  /** The request was written and a full reply arrived whose first ten bytes are accepted. */
  function ResolveAnswered(p: Proxy): (ok: bool)
    ensures ok <==> p.requestWriteOk && |p.resolveReply| >= ReplySize
                    && exists ip :: p.resolveReply[..ReplySize] == SuccessReply(ip)
  {
    p.requestWriteOk && |p.resolveReply| >= ReplySize && ReplyAccepted(p.resolveReply[..ReplySize])
  }

  /** What one call does: stages in order, each failure ending the call before the next frame. */
  function Exchange(p: Proxy, name: seq<byte>): (s: Session)
    ensures s.written <= [Greeting, RequestFrame(name)]
    ensures s.outcome.Resolved? ==> s.written == [Greeting, RequestFrame(name)] && ResolveAnswered(p)
    ensures s.outcome.Resolved? ==>
              |p.resolveReply| >= ReplySize && Parse(s.outcome.address) == Some(ReplyAddress(p.resolveReply[..ReplySize]))
  {
    if !p.dialOk then Session(Failed(ProxyUnreachable), [])
    else if !Negotiated(p) then Session(Failed(NegotiationFailed), [Greeting])
    else if !ResolveAnswered(p) then Session(Failed(ResolveFailed), [Greeting, RequestFrame(name)])
    else
      var ip := ReplyAddress(p.resolveReply[..ReplySize]);
      ParseFormat(ip);
      Session(Resolved(Format(ip)), [Greeting, RequestFrame(name)])
  }

  /**
   * io.ReadAtLeast over the bytes that arrive: they are copied into buf up to
   * its length, and the read fails when fewer than min arrive, or at once
   * when min exceeds the buffer. With min == buf.Length this is io.ReadFull.
   */
  method ReadAtLeast(buf: array<byte>, incoming: seq<byte>, min: nat) returns (n: nat, ok: bool)
    modifies buf
    ensures ok <==> min <= buf.Length && |incoming| >= min
    ensures n == if min <= buf.Length then Min(|incoming|, buf.Length) else 0
    ensures buf[..n] == incoming[..n] && buf[n..] == old(buf[n..])
  {
    if buf.Length < min {
      return 0, false;
    }
    n := Min(|incoming|, buf.Length);
    var i := 0;
    while i < n
      invariant 0 <= i <= n
      invariant forall k :: 0 <= k < i ==> buf[k] == incoming[k]
      invariant forall k :: i <= k < buf.Length ==> buf[k] == old(buf[k])
    {
      buf[i] := incoming[i];
      i := i + 1;
    }
    ok := n >= min;
  }

  /**
   * resolve: dial, greet, check the greeting reply, send the request, read the
   * 10-byte reply into the same buffer, check it and format octets 4..7.
   */
  method Resolve(p: Proxy, name: seq<byte>) returns (outcome: Outcome, written: seq<seq<byte>>)
    ensures Session(outcome, written) == Exchange(p, name)
  {
    written := [];
    if !p.dialOk {
      return Failed(ProxyUnreachable), written;
    }
    written := written + [Greeting];
    if !p.greetingWriteOk {
      return Failed(NegotiationFailed), written;
    }
    var buff := new byte[ReplySize];
    var n, ok := ReadAtLeast(buff, p.greetingReply, 2);
    if !ok {
      return Failed(NegotiationFailed), written;
    }
    if buff[0] != Version || buff[1] != NoAuthentication {
      return Failed(NegotiationFailed), written;
    }
    written := written + [RequestFrame(name)];
    if !p.requestWriteOk {
      return Failed(ResolveFailed), written;
    }
    n, ok := ReadAtLeast(buff, p.resolveReply, buff.Length);
    if !ok {
      return Failed(ResolveFailed), written;
    }
    assert buff[..] == p.resolveReply[..ReplySize];
    if buff[0] != Version || buff[1] != Succeeded || buff[2] != Reserved || buff[3] != AtypIPv4
       || buff[8] != 0x00 || buff[9] != 0x00 {
      return Failed(ResolveFailed), written;
    }
    outcome := Resolved(Format(IPv4(buff[4], buff[5], buff[6], buff[7])));
  }

  // ---------------------------------------------------------------- properties of the exchange

  /** Each failure kind names the first stage that failed, and the request is written only after negotiation. */
  lemma StagesInOrder(p: Proxy, name: seq<byte>)
    ensures Exchange(p, name).outcome == Failed(ProxyUnreachable) <==> !p.dialOk
    ensures Exchange(p, name).outcome == Failed(NegotiationFailed) <==> p.dialOk && !Negotiated(p)
    ensures Exchange(p, name).outcome == Failed(ResolveFailed) <==> p.dialOk && Negotiated(p) && !ResolveAnswered(p)
    ensures (Greeting in Exchange(p, name).written) <==> p.dialOk
    ensures RequestFrame(name) in Exchange(p, name).written <==> p.dialOk && Negotiated(p)
    ensures Exchange(p, name).written == [] || Exchange(p, name).written[0] == Greeting
  {
  }

  /**
   * A call resolves exactly when every stage passes and the reply is the
   * success reply for some address; the text returned is that address's
   * dotted quad, which parses back to the same octets.
   */
  lemma ResolvedIff(p: Proxy, name: seq<byte>, ip: IPv4)
    ensures Exchange(p, name).outcome == Resolved(Format(ip))
            <==> p.dialOk && Negotiated(p) && p.requestWriteOk
                 && |p.resolveReply| >= ReplySize && p.resolveReply[..ReplySize] == SuccessReply(ip)
    ensures Exchange(p, name).outcome.Resolved? ==>
            exists ip' :: Parse(Exchange(p, name).outcome.address) == Some(ip')
                          && p.resolveReply[..ReplySize] == SuccessReply(ip')
  {
    if p.dialOk && Negotiated(p) && p.requestWriteOk && |p.resolveReply| >= ReplySize {
      var reply := p.resolveReply[..ReplySize];
      ReplyAcceptedIff(reply);
      if Exchange(p, name).outcome == Resolved(Format(ip)) {
        FormatInjective(ReplyAddress(reply), ip);
      }
      if ReplyAccepted(reply) {
        var got := ReplyAddress(reply);
        ParseFormat(got);
        assert reply == SuccessReply(got);
      }
    }
  }

  /**
   * The greeting reply matters only through its first two bytes: bytes it
   * leaves in the shared buffer are overwritten by the full resolve read, and
   * only the first ten bytes of the resolve reply are read.
   */
  lemma OutcomeIgnoresLeftovers(p: Proxy, q: Proxy, name: seq<byte>)
    requires p.dialOk == q.dialOk && p.greetingWriteOk == q.greetingWriteOk && p.requestWriteOk == q.requestWriteOk
    requires |p.greetingReply| >= 2 && |q.greetingReply| >= 2 && p.greetingReply[..2] == q.greetingReply[..2]
    requires |p.resolveReply| >= ReplySize && |q.resolveReply| >= ReplySize
    requires p.resolveReply[..ReplySize] == q.resolveReply[..ReplySize]
    ensures Exchange(p, name) == Exchange(q, name)
  {
  }
}
