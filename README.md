# dns-over-tor: a verified model of the resolution bridge

dns-over-tor answers DNS A queries by asking Tor's SOCKS5 proxy to resolve the
name. This project models its two pieces of protocol logic in Dafny:

- **The resolver** (`resolve` in `main.go`, module `Socks`). It dials the proxy
  and sends the greeting `05 01 00`, the method-selection message of section 3
  of RFC 1928. It checks that the reply starts `05 00`. It then sends the
  request `05 F0 00 03 <len> <name> 00 00`: section 4 of RFC 1928 with the
  DOMAINNAME address type of section 5, and Tor's non-standard RESOLVE command
  `F0`. Last, it reads a 10-byte reply into the same buffer, checks it as in
  section 6, and formats octets 4..7 as a dotted quad.
  - The connection is a `Proxy` value: whether the dial and each write
    succeed, and which bytes arrive for each read.
  - `Socks.Exchange` states what one call does: its outcome and the frames it
    wrote.
  - `Socks.Resolve` is the imperative version. It keeps one 10-byte array
    and fills it with `Socks.ReadAtLeast`, as `io.ReadAtLeast` and
    `io.ReadFull` do. It is proved equal to `Exchange`.
- **The handler** (the `dns.HandlerFunc` closure, module `Bridge`).
  `Bridge.Respond` builds the reply from the query and what the resolver
  returned. `Bridge.Handle` builds it step by step, as the closure does, and
  calls `Resolve` only for an A question. A records follow the RR layout of
  section 3.4.1 of RFC 1035. The AA bit is the one of section 4.1.1.
- **Dotted quads** (module `DottedQuad`). `Format` is the text that
  `net.IPv4(a, b, c, d).String()` produces. `Parse` is the dotted-quad form
  that `net.ParseIP` reads. They are proved inverse in both directions.

Two behaviours of the code are kept as written:

- A query with no question is not answered with an empty reply. The closure
  reads `r.Question[0]` unguarded, so a question is required.
- A name longer than 255 bytes is not refused up front. The length octet is
  `byte(len(address))`, which truncates. `Socks.RequestFrame` writes
  `|name| % 256`, and `Socks.RequestRoundTrip` shows that such a frame no
  longer reads back as the name.

## Model

| member | source | states |
|---|---|---|
| `Socks.RequestFrame` | main.go:74 | The request is `05 F0 00 03`, then the name's length truncated to 8 bits, then the name, then `00 00`; it is 7 bytes longer than the name and bytes 5..5+n are the name |
| `Socks.ParseRequest` | main.go:74 | A proxy-side reference decoder for section 4 of RFC 1928 with the DOMAINNAME address type, not code of the bridge. It is the partner of the frame built at this line, and yields a host of at most 255 bytes and a 16-bit port |
| `Socks.RequestRoundTrip` | main.go:74 | For a name of at most 255 bytes the proxy reads back the RESOLVE command, exactly that name and port 0; for a longer name the frame does not parse |
| `Socks.SuccessReply` | main.go:86 | A proxy-side reference frame from section 6 of RFC 1928, not code of the bridge: the 10-byte success reply `05 00 00 01 a b c d 00 00` that the checks at this line are tied to |
| `Socks.ReplyAccepted` | main.go:86 | The six byte tests pass iff the reply is the success reply for some address |
| `Socks.ReplyAddress` | main.go:89 | The octets read from a reply are the one address whose success reply it is, whenever the reply is accepted |
| `Socks.ReplyAcceptedIff` | main.go:86-88 | A 10-byte reply is accepted iff it is the success reply `05 00 00 01 a b c d 00 00` for some address, and then that address is the one read |
| `Socks.GreetingAccepted` | main.go:70-72 | The greeting reply is accepted iff it echoes the version the greeting announced and selects the one method it offered, "no authentication" |
| `Socks.Negotiated` | main.go:59-72 | Negotiation passes iff the greeting was written, at least two bytes arrived, and the bytes the read puts in the 10-byte buffer are an accepted greeting reply |
| `Socks.ResolveAnswered` | main.go:76-88 | The resolve stage passes iff the request was written, ten bytes arrived, and those ten are the success reply for some address |
| `Socks.Exchange` | main.go:53-91 | The specification of `resolve`. Frames are written in protocol order, greeting then request, each at most once. A call resolves only after both were written and the reply was accepted, and the text it returns parses back to the reply's octets |
| `Socks.ReadAtLeast` | main.go:64-68 | The read copies the arriving bytes into the buffer, up to its length, and leaves the rest of the buffer as it was; it succeeds iff at least `min` bytes arrive and `min` fits the buffer |
| `Socks.Resolve` | main.go:53-91 | The imperative exchange over one reused 10-byte buffer returns exactly the outcome and the written frames of `Exchange` |
| `Socks.StagesInOrder` | main.go:54-88 | Unreachable iff the dial fails; negotiation failure iff the dial succeeds and the greeting fails; resolve failure iff both pass and the reply is refused. The greeting is written iff the dial succeeds, and first; the request is written iff negotiation succeeded |
| `Socks.ResolvedIff` | main.go:81-90 | A call returns the dotted quad of an address iff every stage passes and the first 10 reply bytes are the success reply for that address; a returned text parses back to the reply's octets |
| `Socks.OutcomeIgnoresLeftovers` | main.go:64-86 | Only the first two greeting-reply bytes and the first ten resolve-reply bytes affect a call's outcome and frames. `Exchange` has no buffer. That leftover greeting bytes in the shared buffer cannot change acceptance follows from this lemma together with the ensures of `Resolve` and `ReadAtLeast` |
| `DottedQuad.Decimal` | main.go:89-90 | A numeral has at least one digit, only digits, no leading zero when longer than one digit, and a single digit exactly for values below 10 |
| `DottedQuad.ParseOctet` | main.go:38 | A field parses iff it is one to three digits, without a leading zero, worth at most 255; a parsed field is exactly the decimal numeral of the octet it yields |
| `DottedQuad.Split` | main.go:38 | Splitting at dots gives at least one field, and no field holds a dot |
| `DottedQuad.Format` | main.go:89-90 | `net.IPv4(a, b, c, d).String()`: the four decimal numerals joined by dots, 7 to 15 characters, each a digit or a dot |
| `DottedQuad.Parse` | main.go:38 | The dotted-quad form of `net.ParseIP`: a text that parses is exactly the dotted quad of the address it yields |
| `DottedQuad.DecimalRoundTrip` | main.go:89-90 | Reading the decimal numeral of a number gives the number back |
| `DottedQuad.CanonicalNumeral` | main.go:38 | A numeral without leading zeros is the decimal numeral of its own value |
| `DottedQuad.OctetNumeralIff` | main.go:38 | A field parses to an octet iff it is that octet's decimal numeral |
| `DottedQuad.JoinSplit` | main.go:38 | Joining the fields of a split with dots gives the text back |
| `DottedQuad.SplitJoin` | main.go:89-90 | Splitting a dot-joined list of dotless fields gives the fields back |
| `DottedQuad.ParseFormat` | main.go:89-90 | The text of an address parses back to the same four octets |
| `DottedQuad.ParseIff` | main.go:38 | A text parses to an address iff it is exactly that address's dotted quad |
| `DottedQuad.ParseIffAll` | main.go:38 | For every address at once: a text parses to it iff it is its dotted quad |
| `DottedQuad.FormatInjective` | main.go:89-90 | Different addresses give different texts |
| `Bridge.SetReply` | main.go:25-26 | The reply skeleton keeps the query's id, recursion bit and first question; it is a response, not authoritative, with no answers |
| `Bridge.AnswerFor` | main.go:36-39 | The answer carries the question's name, type A, class INET and TTL 60; its address is some octets exactly when the resolver's text is their dotted quad, and then it is those octets |
| `Bridge.Respond` | main.go:24-45 | The reply keeps the id and question; it is authoritative iff the first question is A; it has one answer iff the question is A and the resolver succeeded, else none; that answer has the question's name, type A, class INET, TTL 60, and holds exactly the octets whose dotted quad the resolver returned |
| `Bridge.Handle` | main.go:24-45 | The closure, step by step, gives the reply of `Respond` for the outcome of `Exchange`. It writes the resolver's frames only for an A question; any other question gets the bare skeleton and no proxy traffic |
| `Bridge.AnswerCarriesReplyAddress` | main.go:28-42 | For an A query the reply is authoritative; when every stage passes its one answer holds the octets of the proxy's reply, otherwise it has no answer |
| `Bridge.ExampleOnion` | main.go:24-45 | `example.onion.` with proxy reply `05 00 00 01 7F 00 00 01 00 00` resolves to `127.0.0.1` and yields the answer `example.onion. 60 IN A 127.0.0.1` |

## Left out

- Flag parsing, the UDP `dns.Server`, `ListenAndServe` and the exit on a failure to serve (main.go:14-23, 46-50) are startup plumbing and are not modelled.
- Real TCP is not modelled: `net.Dial`, the writes, blocking reads and `defer conn.Close()`. The `Proxy` value replaces them. Closing the connection on every path has no counterpart.
- Socks.ReadAtLeast: how the peer's bytes are split across TCP reads is not modelled. A read delivers all arriving bytes up to the buffer's length at once. `io.ReadAtLeast` may stop after fewer bytes once it has `min`, but only the first two bytes are checked, so the outcome is the same. Greeting-reply bytes past the tenth are dropped here; on a real connection the bytes the first read leaves unread would reach `io.ReadFull` (main.go:81) ahead of the resolve reply.
- Logging and the verbose line (main.go:33-34, 41, 93-95) are side effects that never change the reply, and are not modelled. Error message texts and `errors.Wrap` chains are reduced to the three `Failure` kinds.
- Bridge.SetReply: the DNS library is not part of this model. Its reply skeleton is taken to copy the id, the recursion-desired bit and the first question. The opcode, the checking-disabled bit and the rcode are not modelled, and neither is message encoding or `w.WriteMsg`.
- DottedQuad.Parse: `net.ParseIP` is modelled only for dotted-quad text. IPv6 text gives `None` here, but the handler only ever parses the resolver's dotted quads.
- Concurrent handler calls are not modelled. The handler shares no state between calls.
- A query with no question is excluded by a precondition, because the code indexes the first question unguarded.
