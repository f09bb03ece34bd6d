/** The discovery responder of src/main.rs: the JSON response built for each
    configured server, the fatal-error helper and its exit codes, the
    22-byte probe check, the UDP socket, the serve loop and the start-up
    sequence that ties them to the configuration store.

    The socket is an object whose queue of incoming events the loop drains
    and whose log of sent datagrams it extends; the endless `loop` is run
    over a finite queue, and `process::exit` becomes an exit code in the
    result. */
module Daemon {
  import opened Base
  import Utf8
  import Json
  import Config

  // ---- Fatal errors (src/main.rs:89-101)

  const ConfigExit: int := 100
  const BindExit: int := 101
  const RecvExit: int := 102
  const ResponseExit: int := 103
  const SendExit: int := 104

  /** What `handle_error` leads to: the value it returns, or the exit of the
      process with a code. */
  datatype Handled<+T> = Value(value: T) | Exit(code: int)

  /** `handle_error`: the inner value of `Ok`; on `Err`, exit with `code`. */
  function HandleError<T, E>(res: Result<T, E>, code: int): (h: Handled<T>)
    ensures h.Value? <==> res.Ok?
    ensures h.Value? ==> h.value == res.value
    ensures h.Exit? ==> h.code == code
  {
    match res
    case Ok(x) => Value(x)
    case Err(_) => Exit(code)
  }

  // ---- The response record (src/main.rs:62-69)

  /** `Response`. Its last field, `Option<()>`, is `None` in every response
      the program builds. */
  datatype Response = Response(address: string, id: string, name: string, endpointAddress: Option<()>)

  /** The field names of `Response`, in declaration order. */
  const FieldNames: seq<string> := ["address", "id", "name", "endpoint_address"]

  /** The JSON keys, in the same order. */
  const Keys: seq<string> := ["Address", "Id", "Name", "EndpointAddress"]

  /** serde's `rename_all = "PascalCase"` applied to a snake_case field name:
      every underscore is dropped and the letter after it, like the first
      letter, is made upper case. */
  function PascalCase(field: string): (key: string)
    ensures NoUnderscore(key) && |key| <= |field|
  {
    Capitalize(field, true)
  }

  function Capitalize(s: string, upper: bool): (r: string)
    ensures NoUnderscore(r) && |r| <= |s|
  {
    if s == [] then []
    else if s[0] == '_' then Capitalize(s[1..], true)
    else if upper && 'a' <= s[0] <= 'z' then [Upper(s[0])] + Capitalize(s[1..], false)
    else [s[0]] + Capitalize(s[1..], false)
  }

  predicate NoUnderscore(s: string) {
    forall i :: 0 <= i < |s| ==> s[i] != '_'
  }

  lemma {:induction false} CapitalizeRest(s: string)
    requires NoUnderscore(s)
    ensures Capitalize(s, false) == s
  {
    if s != [] {
      CapitalizeRest(s[1..]);
    }
  }

  lemma CapitalizeWord(s: string)
    requires s != [] && NoUnderscore(s) && 'a' <= s[0] <= 'z'
    ensures Capitalize(s, true) == [Upper(s[0])] + s[1..]
  {
    CapitalizeRest(s[1..]);
  }

  lemma {:induction false} CapitalizeSplit(a: string, b: string, upper: bool)
    requires a != [] && NoUnderscore(a)
    ensures Capitalize(a + "_" + b, upper) == Capitalize(a, upper) + Capitalize(b, true)
  {
    var t := a + "_" + b;
    assert t[0] == a[0] && t[1..] == a[1..] + "_" + b;
    if |a| == 1 {
      assert t[1..] == "_" + b;
      assert ("_" + b)[1..] == b;
    } else {
      CapitalizeSplit(a[1..], b, false);
    }
  }

  function Upper(c: char): char
    requires 'a' <= c <= 'z'
  {
    (c as int - 32) as char
  }

  /** A one-word field name only has its first letter raised. */
  lemma PascalCaseWord(a: string)
    requires a != [] && NoUnderscore(a) && 'a' <= a[0] <= 'z'
    ensures PascalCase(a) == [Upper(a[0])] + a[1..]
  {
    CapitalizeWord(a);
  }

  /** A two-word field name loses its underscore and has both words
      capitalised. */
  lemma PascalCaseSnake(a: string, b: string)
    requires a != [] && NoUnderscore(a) && 'a' <= a[0] <= 'z'
    requires b != [] && NoUnderscore(b) && 'a' <= b[0] <= 'z'
    ensures PascalCase(a + "_" + b) == [Upper(a[0])] + a[1..] + [Upper(b[0])] + b[1..]
  {
    CapitalizeSplit(a, b, true);
    CapitalizeWord(a);
    CapitalizeWord(b);
  }

  lemma PascalCaseEndpoint(field: string)
    requires field == "endpoint_address"
    ensures PascalCase(field) == "EndpointAddress"
  {
    var a, b := field[..8], field[9..];
    assert field == a + "_" + b;
    PascalCaseSnake(a, b);
  }

  lemma PascalCaseKey(i: nat, field: string, key: string)
    requires i < |FieldNames| && field == FieldNames[i] && key == Keys[i]
    ensures PascalCase(field) == key
  {
    if i == 3 {
      PascalCaseEndpoint(field);
    } else {
      PascalCaseWord(field);
    }
  }

  /** The keys of every response are the PascalCase forms of the field names,
      in the order the fields are declared. */
  lemma KeysArePascalCase()
    ensures |Keys| == |FieldNames|
    ensures forall i :: 0 <= i < |Keys| ==> Keys[i] == PascalCase(FieldNames[i])
  {
    forall i | 0 <= i < |Keys|
      ensures Keys[i] == PascalCase(FieldNames[i])
    {
      PascalCaseKey(i, FieldNames[i], Keys[i]);
    }
  }

  /** The object serde's derived `Serialize` gives a `Response`: one member per
      field, in declaration order, under the PascalCase key. `Option<()>` is
      written `null` whether it is `None` or `Some(())`. */
  function ToJson(r: Response): (o: Json.Object)
    ensures |o| == |FieldNames|
    ensures FromJson(o) == Some(Response(r.address, r.id, r.name, None))
  {
    [ Json.Member(Keys[0], Json.String(r.address)),
      Json.Member(Keys[1], Json.String(r.id)),
      Json.Member(Keys[2], Json.String(r.name)),
      Json.Member(Keys[3], Json.Null) ]
  }

  /** `serde_json::to_vec`: the UTF-8 bytes of the compact JSON text. It cannot
      fail for this record, whose fields are all strings or null. */
  function ToVec(r: Response): (res: Result<seq<uint8>, ()>)
    ensures res.Ok?
  {
    Ok(Utf8.Encode(Json.SerializeObject(ToJson(r))))
  }

  /** Reads a response back from its JSON object. */
  function FromJson(o: Json.Object): Option<Response> {
    if |o| == 4 && o[0].key == Keys[0] && o[0].value.String? && o[1].key == Keys[1] && o[1].value.String?
       && o[2].key == Keys[2] && o[2].value.String? && o[3] == Json.Member(Keys[3], Json.Null)
    then Some(Response(o[0].value.s, o[1].value.s, o[2].value.s, None))
    else None
  }

  // ---- Preconstruction (src/main.rs:71-87)

  /** The record built for one server. */
  function ResponseFor(s: Config.ServerConfig): Response {
    Response(s.url, s.id, s.name, None)
  }

  /** The datagram payload built for one server. */
  function Payload(s: Config.ServerConfig): seq<uint8> {
    ToVec(ResponseFor(s)).value
  }

  /** The payloads for a whole server list: the list built by pushing one
      payload per server. */
  function Payloads(servers: seq<Config.ServerConfig>): seq<seq<uint8>> {
    Map(Payload, servers)
  }

  /** The JSON object a payload carries, if it is UTF-8 text holding one. */
  function PayloadObject(b: seq<uint8>): Option<Json.Object> {
    match Utf8.Decode(b)
    case None => None
    case Some(text) => Json.ParseObject(text)
  }

  /** The response a payload carries, if any. */
  function DecodePayload(b: seq<uint8>): Option<Response> {
    match PayloadObject(b)
    case None => None
    case Some(o) => FromJson(o)
  }

  /** Every payload is a JSON object with exactly the members Address, Id,
      Name and EndpointAddress, in that order, holding the server's url, id
      and name and `null`. */
  lemma PayloadFields(s: Config.ServerConfig)
    ensures PayloadObject(Payload(s)) == Some([
      Json.Member("Address", Json.String(s.url)),
      Json.Member("Id", Json.String(s.id)),
      Json.Member("Name", Json.String(s.name)),
      Json.Member("EndpointAddress", Json.Null)])
  {
    var text := Json.SerializeObject(ToJson(ResponseFor(s)));
    Utf8.DecodeEncode(text);
    Json.ParseSerializedObject(ToJson(ResponseFor(s)));
  }

  /** Every payload decodes to the record with the server's url, id and name
      and no endpoint address. */
  lemma PayloadRoundTrip(s: Config.ServerConfig)
    ensures DecodePayload(Payload(s)) == Some(Response(s.url, s.id, s.name, None))
  {
    PayloadFields(s);
  }

  /** Two servers get the same payload only if they are the same server. */
  lemma PayloadInjective(s: Config.ServerConfig, t: Config.ServerConfig)
    requires Payload(s) == Payload(t)
    ensures s == t
  {
    PayloadRoundTrip(s);
    PayloadRoundTrip(t);
  }

  /** A payload is at most a few hundred bytes plus 24 per character of the
      server's fields (6 for a JSON escape, times 4 for UTF-8). */
  lemma PayloadSize(s: Config.ServerConfig)
    ensures |Payload(s)| <= 24 * (|s.url| + |s.id| + |s.name|) + 1000
  {
    var o := ToJson(ResponseFor(s));
    Json.SerializeObjectSize(o);
    assert Json.TextLength(o) == |s.url| + |s.id| + |s.name| + 28 by {
      assert Json.TextLength(o[3..]) == 15;
      assert o[2..][1..] == o[3..];
      assert Json.TextLength(o[2..]) == 4 + |s.name| + 15;
      assert o[1..][1..] == o[2..];
      assert Json.TextLength(o[1..]) == 2 + |s.id| + 4 + |s.name| + 15;
    }
  }

  /** Entry `i` of the payload list decodes to server `i`'s url, id and name
      with no endpoint address. */
  lemma PayloadsDecode(servers: seq<Config.ServerConfig>, i: nat)
    requires i < |servers|
    ensures i < |Payloads(servers)|
    ensures DecodePayload(Payloads(servers)[i]) == Some(Response(servers[i].url, servers[i].id, servers[i].name, None))
  {
    MapElement(Payload, servers, i);
    PayloadRoundTrip(servers[i]);
  }

  /** `handle_error(serde_json::to_vec(&response), 103)` never exits. */
  lemma ResponseNeverExits(r: Response)
    ensures HandleError(ToVec(r), ResponseExit).Value?
  {
  }

  /** `preconstruct_response`: one payload per server, pushed in list order. */
  method PreconstructResponse(servers: seq<Config.ServerConfig>) returns (output: seq<seq<uint8>>)
    ensures output == Payloads(servers)
  {
    output := [];
    for i := 0 to |servers|
      invariant output == Payloads(servers[..i])
    {
      var config := servers[i];
      var response := Response(config.url, config.id, config.name, None);
      var responseVec := HandleError(ToVec(response), ResponseExit);
      MapPrefixStep(Payload, servers, i);
      output := output + [responseVec.value];
    }
    MapWhole(Payload, servers);
  }

  // ---- The probe (src/main.rs:41-46)

  /** The receive buffer's length, which is also the length of both probe
      literals. */
  const BufferSize: nat := 22

  /** The bytes of a Rust byte-string literal. */
  function Ascii(s: string): (b: seq<uint8>)
    requires forall i :: 0 <= i < |s| ==> (s[i] as int) < 0x80
    ensures |b| == |s|
    ensures forall i :: 0 <= i < |s| ==> b[i] as int == s[i] as int
  {
    seq(|s|, i requires 0 <= i < |s| => s[i] as int as uint8)
  }

  /** A byte-string literal is the UTF-8 encoding of its text, since every
      character of it is ASCII. */
  lemma AsciiIsUtf8(s: string)
    requires forall i :: 0 <= i < |s| ==> (s[i] as int) < 0x80
    ensures Ascii(s) == Utf8.Encode(s)
  {
    Utf8.EncodeAscii(s);
  }

  const ProbeLower: seq<uint8> := Ascii("who is JellyfinServer?")
  const ProbeUpper: seq<uint8> := Ascii("Who is JellyfinServer?")

  lemma ProbeTextIsAscii(text: string)
    requires text == "who is JellyfinServer?" || text == "Who is JellyfinServer?"
    ensures forall i :: 0 <= i < |text| ==> (text[i] as int) < 0x80
  {
  }

  /** The probe literals are the UTF-8 bytes of their text, so a client that
      encodes either sentence as UTF-8 sends exactly the literal. */
  lemma ProbesAreUtf8(lower: string, upper: string)
    requires lower == "who is JellyfinServer?" && upper == "Who is JellyfinServer?"
    ensures ProbeLower == Utf8.Encode(lower) && ProbeUpper == Utf8.Encode(upper)
  {
    ProbeTextIsAscii(lower);
    ProbeTextIsAscii(upper);
    AsciiIsUtf8(lower);
    AsciiIsUtf8(upper);
  }

  /** Both literals fill the buffer exactly, and both end in `?`. */
  lemma ProbeShape()
    ensures |ProbeLower| == BufferSize && |ProbeUpper| == BufferSize
    ensures ProbeLower[BufferSize - 1] == '?' as int as uint8 && ProbeUpper[BufferSize - 1] == '?' as int as uint8
  {
  }

  /** `BytesMut::zeroed(n)`. */
  function Zeroed(n: nat): (z: seq<uint8>)
    ensures |z| == n && forall i :: 0 <= i < n ==> z[i] == 0
  {
    seq(n, _ => 0)
  }

  /** The buffer after `recv_from` stored datagram `d` in it: the datagram's
      first bytes, as many as fit, over the buffer's old contents. */
  function Fill(buf: seq<uint8>, d: seq<uint8>): (r: seq<uint8>)
    ensures |r| == |buf|
    ensures forall i :: 0 <= i < |r| ==> r[i] == if i < |d| then d[i] else buf[i]
  {
    if |d| >= |buf| then d[..|buf|] else d + buf[|d|..]
  }

  /** The buffer one loop iteration compares: a fresh zeroed buffer filled
      with the datagram. */
  function ReceiveBuffer(d: seq<uint8>): seq<uint8> {
    Fill(Zeroed(BufferSize), d)
  }

  /** The comparison on line 46. */
  predicate IsProbe(buf: seq<uint8>)
    ensures IsProbe(buf) ==> |buf| == BufferSize
  {
    buf == ProbeLower || buf == ProbeUpper
  }

  /** The datagrams that get an answer, stated on the datagram itself: at
      least 22 bytes, of which the first 22 are one of the two literals. */
  predicate Accepted(d: seq<uint8>) {
    |d| >= BufferSize && (d[..BufferSize] == ProbeLower || d[..BufferSize] == ProbeUpper)
  }

  /** The buffer comparison accepts exactly the datagrams `Accepted` names:
      a shorter datagram leaves a zero in the last position, where both
      literals have `?`, and a longer one is cut to its first 22 bytes. */
  lemma ReceiveBufferAccepted(d: seq<uint8>)
    ensures IsProbe(ReceiveBuffer(d)) <==> Accepted(d)
  {
    var buf := ReceiveBuffer(d);
    ProbeShape();
    if |d| >= BufferSize {
      assert buf == d[..BufferSize];
    } else {
      assert buf[BufferSize - 1] == 0;
      assert buf[BufferSize - 1] != ProbeLower[BufferSize - 1];
      assert buf[BufferSize - 1] != ProbeUpper[BufferSize - 1];
    }
  }

  /** Whatever follows the first 22 bytes of a datagram is never looked at. */
  lemma TrailingBytesIgnored(d: seq<uint8>, extra: seq<uint8>)
    requires |d| >= BufferSize
    ensures ReceiveBuffer(d + extra) == ReceiveBuffer(d)
  {
    assert (d + extra)[..BufferSize] == d[..BufferSize];
  }

  /** Only the two literals are accepted: the all-capitals variant and the
      all-lower-case one are ignored, and so is a literal missing its last
      byte. */
  lemma OnlyTwoLiterals()
    ensures Accepted(ProbeLower) && Accepted(ProbeUpper)
    ensures !Accepted(Ascii("WHO IS JELLYFINSERVER?"))
    ensures !Accepted(Ascii("who is jellyfinserver?"))
    ensures !Accepted(ProbeLower[..BufferSize - 1])
  {
    var caps := Ascii("WHO IS JELLYFINSERVER?");
    var lower := Ascii("who is jellyfinserver?");
    assert caps[..BufferSize] == caps && lower[..BufferSize] == lower;
    assert caps[1] != ProbeLower[1] && caps[1] != ProbeUpper[1];
    assert lower[7] != ProbeLower[7] && lower[7] != ProbeUpper[7];
    assert ProbeLower[..BufferSize] == ProbeLower && ProbeUpper[..BufferSize] == ProbeUpper;
  }

  // ---- The socket (src/main.rs:29-30, 42, 50)

  datatype SocketAddr = SocketAddr(ip: seq<uint8>, port: uint16)

  /** What one `recv_from` call meets: a datagram and its sender, or an error. */
  datatype Incoming = Datagram(bytes: seq<uint8>, src: SocketAddr) | RecvFailure

  datatype Outgoing = Outgoing(payload: seq<uint8>, dst: SocketAddr)

  /** The largest UDP payload over IPv4. */
  const MaxDatagram: nat := 65507

  /** Whether `send_to` succeeds: the payload fits one datagram and the
      destination is not one the host cannot reach. */
  predicate Deliverable(o: Outgoing, unreachable: set<SocketAddr>) {
    |o.payload| <= MaxDatagram && o.dst !in unreachable
  }

  /** A bound UDP socket. `pending` holds what the host will deliver to
      successive `recv_from` calls; `sent` records every datagram sent. */
  class UdpSocket {
    const local: SocketAddr
    const unreachable: set<SocketAddr>
    var pending: seq<Incoming>
    var sent: seq<Outgoing>

    constructor (local: SocketAddr, traffic: seq<Incoming>, unreachable: set<SocketAddr>)
      ensures this.local == local && this.unreachable == unreachable
      ensures pending == traffic && sent == []
    {
      this.local := local;
      this.unreachable := unreachable;
      pending := traffic;
      sent := [];
    }

    /** `recv_from`: takes the next event; a datagram is copied into `buf`,
        as much of it as fits, and its length so copied and its sender are
        returned. The real call blocks while nothing is pending. */
    method RecvFrom(buf: array<uint8>) returns (r: Result<(nat, SocketAddr), ()>)
      requires pending != []
      modifies this, buf
      ensures pending == old(pending)[1..] && sent == old(sent)
      ensures old(pending)[0].RecvFailure? ==> r.Err? && buf[..] == old(buf[..])
      ensures old(pending)[0].Datagram? ==>
                var d := old(pending)[0].bytes;
                && r == Ok((if |d| < buf.Length then |d| else buf.Length, old(pending)[0].src))
                && buf[..] == Fill(old(buf[..]), d)
    {
      var event := pending[0];
      pending := pending[1..];
      match event
      case RecvFailure =>
        r := Err(());
      case Datagram(d, src) =>
        var n := if |d| < buf.Length then |d| else buf.Length;
        for i := 0 to n
          modifies buf
          invariant forall j :: 0 <= j < buf.Length ==> buf[j] == if j < i then d[j] else old(buf[j])
        {
          buf[i] := d[i];
        }
        r := Ok((n, src));
    }

    /** `send_to`: the number of bytes sent, or an error with nothing sent. */
    method SendTo(payload: seq<uint8>, dst: SocketAddr) returns (r: Result<nat, ()>)
      modifies this
      ensures pending == old(pending)
      ensures Deliverable(Outgoing(payload, dst), unreachable) ==>
                r == Ok(|payload|) && sent == old(sent) + [Outgoing(payload, dst)]
      ensures !Deliverable(Outgoing(payload, dst), unreachable) ==> r.Err? && sent == old(sent)
    {
      if Deliverable(Outgoing(payload, dst), unreachable) {
        sent := sent + [Outgoing(payload, dst)];
        r := Ok(|payload|);
      } else {
        r := Err(());
      }
    }
  }

  /** `UdpSocket::bind`: fails when the port is taken (or not ours to take). */
  method Bind(addr: SocketAddr, inUse: set<uint16>, traffic: seq<Incoming>, unreachable: set<SocketAddr>)
    returns (r: Result<UdpSocket, ()>)
    ensures r.Ok? <==> addr.port !in inUse
    ensures r.Ok? ==> fresh(r.value) && r.value.local == addr && r.value.pending == traffic
                      && r.value.sent == [] && r.value.unreachable == unreachable
  {
    if addr.port in inUse {
      r := Err(());
    } else {
      var socket := new UdpSocket(addr, traffic, unreachable);
      r := Ok(socket);
    }
  }

  // ---- One iteration and the whole loop, as functions (src/main.rs:40-59)

  /** The answer to one datagram: every payload, in order, to the sender, if
      the datagram is a probe; nothing otherwise. `ServeOnce` decides this
      with the buffer comparison of line 46, which `ReceiveBufferAccepted`
      shows to agree with `Accepted`. */
  function Replies(d: seq<uint8>, src: SocketAddr, payloads: seq<seq<uint8>>): (out: seq<Outgoing>)
    ensures |out| == if Accepted(d) then |payloads| else 0
    ensures forall i :: 0 <= i < |out| ==> out[i] == Outgoing(payloads[i], src)
  {
    if Accepted(d) then seq(|payloads|, i requires 0 <= i < |payloads| => Outgoing(payloads[i], src))
    else []
  }

  /** What the process has sent so far, and the exit code if it has stopped. */
  datatype Trace = Trace(sent: seq<Outgoing>, exit: Option<int>)

  /** Sends `out` in order, stopping the process at the first failed send. */
  function SendAll(out: seq<Outgoing>, unreachable: set<SocketAddr>): (t: Trace)
    ensures |t.sent| <= |out| && t.sent == out[..|t.sent|]
    ensures forall i :: 0 <= i < |t.sent| ==> Deliverable(out[i], unreachable)
    ensures t.exit.None? ==> t.sent == out
    ensures t.exit.Some? ==> t.exit == Some(SendExit) && |t.sent| < |out| && !Deliverable(out[|t.sent|], unreachable)
  {
    if out == [] then Trace([], None)
    else if !Deliverable(out[0], unreachable) then Trace([], Some(SendExit))
    else
      var rest := SendAll(out[1..], unreachable);
      Trace([out[0]] + rest.sent, rest.exit)
  }

  /** With every datagram deliverable, all of them are sent and the process
      goes on. */
  lemma SendAllDelivered(out: seq<Outgoing>, unreachable: set<SocketAddr>)
    requires forall i :: 0 <= i < |out| ==> Deliverable(out[i], unreachable)
    ensures SendAll(out, unreachable) == Trace(out, None)
  {
  }

  /** The first undeliverable datagram ends the process with code 104, after
      everything before it was sent. */
  lemma SendAllStops(out: seq<Outgoing>, unreachable: set<SocketAddr>, k: nat)
    requires k < |out| && !Deliverable(out[k], unreachable)
    requires forall i :: 0 <= i < k ==> Deliverable(out[i], unreachable)
    ensures SendAll(out, unreachable) == Trace(out[..k], Some(SendExit))
  {
  }

  /** One pass of the loop body for one receive event. */
  function Iteration(event: Incoming, payloads: seq<seq<uint8>>, unreachable: set<SocketAddr>): Trace {
    match event
    case RecvFailure => Trace([], Some(RecvExit))
    case Datagram(d, src) => SendAll(Replies(d, src, payloads), unreachable)
  }

  /** `a` followed by `b`, unless `a` ended the process. */
  function Then(a: Trace, b: Trace): Trace {
    if a.exit.Some? then a else Trace(a.sent + b.sent, b.exit)
  }

  lemma ThenAssociative(a: Trace, b: Trace, c: Trace)
    ensures Then(Then(a, b), c) == Then(a, Then(b, c))
  {
    if a.exit.None? && b.exit.None? {
      assert (a.sent + b.sent) + c.sent == a.sent + (b.sent + c.sent);
    }
  }

  /** The loop over a finite sequence of receive events. */
  function Run(events: seq<Incoming>, payloads: seq<seq<uint8>>, unreachable: set<SocketAddr>): Trace {
    if events == [] then Trace([], None)
    else Then(Iteration(events[0], payloads, unreachable), Run(events[1..], payloads, unreachable))
  }

  /** The number of probes among the events. */
  function ProbeCount(events: seq<Incoming>): nat {
    if events == [] then 0
    else (if events[0].Datagram? && Accepted(events[0].bytes) then 1 else 0) + ProbeCount(events[1..])
  }

  /** One iteration on a datagram from a reachable peer sends every reply. */
  lemma IterationDelivered(e: Incoming, payloads: seq<seq<uint8>>, unreachable: set<SocketAddr>)
    requires e.Datagram? && e.src !in unreachable
    requires forall j :: 0 <= j < |payloads| ==> |payloads[j]| <= MaxDatagram
    ensures Iteration(e, payloads, unreachable) == Trace(Replies(e.bytes, e.src, payloads), None)
  {
    SendAllDelivered(Replies(e.bytes, e.src, payloads), unreachable);
  }

  lemma CountStep(n: nat, k: nat, rest: nat)
    ensures n * (k + rest) == n * k + n * rest
  {
  }

  /** With no receive error and every reply deliverable, the loop never stops
      and sends one datagram per payload per probe. */
  lemma {:induction false} RunWithoutFaults(events: seq<Incoming>, payloads: seq<seq<uint8>>, unreachable: set<SocketAddr>)
    requires forall i :: 0 <= i < |events| ==> events[i].Datagram? && events[i].src !in unreachable
    requires forall j :: 0 <= j < |payloads| ==> |payloads[j]| <= MaxDatagram
    ensures Run(events, payloads, unreachable).exit == None
    ensures |Run(events, payloads, unreachable).sent| == |payloads| * ProbeCount(events)
  {
    if events != [] {
      var e := events[0];
      IterationDelivered(e, payloads, unreachable);
      RunWithoutFaults(events[1..], payloads, unreachable);
      var k := if Accepted(e.bytes) then 1 else 0;
      assert |Replies(e.bytes, e.src, payloads)| == |payloads| * k;
      CountStep(|payloads|, k, ProbeCount(events[1..]));
    }
  }

  /** A datagram that is not a probe has no effect: removing it from the
      input leaves everything the loop does unchanged. */
  lemma {:induction false} NonProbeIgnored(before: seq<Incoming>, d: seq<uint8>, src: SocketAddr, after: seq<Incoming>,
                                           payloads: seq<seq<uint8>>, unreachable: set<SocketAddr>)
    requires !Accepted(d)
    ensures Run(before + [Datagram(d, src)] + after, payloads, unreachable) == Run(before + after, payloads, unreachable)
  {
    if before == [] {
      assert before + [Datagram(d, src)] + after == [Datagram(d, src)] + after;
      assert ([Datagram(d, src)] + after)[1..] == after;
      assert before + after == after;
    } else {
      assert (before + [Datagram(d, src)] + after)[1..] == before[1..] + [Datagram(d, src)] + after;
      assert (before + after)[1..] == before[1..] + after;
      NonProbeIgnored(before[1..], d, src, after, payloads, unreachable);
    }
  }

  /** The loop stops only through a failed receive (102) or a failed send
      (104), and a 102 means a receive did fail. */
  lemma {:induction false} RunExits(events: seq<Incoming>, payloads: seq<seq<uint8>>, unreachable: set<SocketAddr>)
    ensures Run(events, payloads, unreachable).exit in {None, Some(RecvExit), Some(SendExit)}
    ensures Run(events, payloads, unreachable).exit == Some(RecvExit) ==> RecvFailure in events
  {
    if events != [] {
      RunExits(events[1..], payloads, unreachable);
      if Run(events, payloads, unreachable).exit == Some(RecvExit) && events[0] != RecvFailure {
        assert RecvFailure in events[1..];
      }
    }
  }

  // ---- The loop as the program runs it (src/main.rs:40-59)

  /** One iteration of the loop: a fresh zeroed 22-byte buffer, one receive,
      and on a probe one send per payload to the sender. */
  method ServeOnce(socket: UdpSocket, payloads: seq<seq<uint8>>) returns (exit: Option<int>)
    requires socket.pending != []
    modifies socket
    ensures socket.pending == old(socket.pending)[1..]
    ensures var t := Iteration(old(socket.pending)[0], payloads, socket.unreachable);
            socket.sent == old(socket.sent) + t.sent && exit == t.exit
  {
    var buf := new uint8[BufferSize](_ => 0);
    assert buf[..] == Zeroed(BufferSize);
    var received := socket.RecvFrom(buf);
    var handled := HandleError(received, RecvExit);
    if handled.Exit? {
      return Some(handled.code);
    }
    var (amount, src) := handled.value;
    ghost var d := old(socket.pending)[0].bytes;
    ghost var replies := Replies(d, src, payloads);
    assert buf[..] == ReceiveBuffer(d);
    ReceiveBufferAccepted(d);
    if buf[..] == ProbeLower || buf[..] == ProbeUpper {
      assert |replies| == |payloads|;
      for i := 0 to |payloads|
        invariant socket.pending == old(socket.pending)[1..]
        invariant socket.sent == old(socket.sent) + replies[..i]
        invariant forall j :: 0 <= j < i ==> Deliverable(replies[j], socket.unreachable)
      {
        var result := socket.SendTo(payloads[i], src);
        var sendHandled := HandleError(result, SendExit);
        if sendHandled.Exit? {
          SendAllStops(replies, socket.unreachable, i);
          return Some(sendHandled.code);
        }
        assert replies[..i + 1] == replies[..i] + [replies[i]];
      }
      assert replies[..|payloads|] == replies;
    }
    SendAllDelivered(replies, socket.unreachable);
    exit := None;
  }

  /** Taking one event off the front moves its iteration into what is done. */
  lemma RunStep(done: Trace, events: seq<Incoming>, payloads: seq<seq<uint8>>, unreachable: set<SocketAddr>)
    requires events != []
    ensures Then(done, Run(events, payloads, unreachable))
            == Then(Then(done, Iteration(events[0], payloads, unreachable)), Run(events[1..], payloads, unreachable))
  {
    ThenAssociative(done, Iteration(events[0], payloads, unreachable), Run(events[1..], payloads, unreachable));
  }

  /** The loop, run until the pending events are used up or the process exits. */
  method Serve(socket: UdpSocket, payloads: seq<seq<uint8>>) returns (exit: Option<int>)
    modifies socket
    ensures var t := Run(old(socket.pending), payloads, socket.unreachable);
            socket.sent == old(socket.sent) + t.sent && exit == t.exit
    ensures exit.None? ==> socket.pending == []
  {
    ghost var done := Trace([], None);
    exit := None;
    while socket.pending != [] && exit.None?
      invariant Run(old(socket.pending), payloads, socket.unreachable) == Then(done, Run(socket.pending, payloads, socket.unreachable))
      invariant socket.sent == old(socket.sent) + done.sent && exit == done.exit
      decreases |socket.pending|
    {
      ghost var step := Iteration(socket.pending[0], payloads, socket.unreachable);
      RunStep(done, socket.pending, payloads, socket.unreachable);
      exit := ServeOnce(socket, payloads);
      ConcatAssociative(old(socket.sent), done.sent, step.sent);
      done := Trace(done.sent + step.sent, step.exit);
    }
    assert done.sent + [] == done.sent;
  }

  // ---- Start-up (src/main.rs:22-60)

  /** The whole life of the process, from the result of loading the
      configuration: exit 100 if loading failed, 101 if the port cannot be
      bound, otherwise the loop over the preconstructed payloads. */
  function Lifetime(loaded: Result<Config.Config, Config.ConfigError>, inUse: set<uint16>,
                    traffic: seq<Incoming>, unreachable: set<SocketAddr>): Trace
  {
    match HandleError(loaded, ConfigExit)
    case Exit(code) => Trace([], Some(code))
    case Value(config) =>
      if config.port in inUse then Trace([], Some(BindExit))
      else Run(traffic, Payloads(config.server), unreachable)
  }

  /** `main`, logging aside: load the configuration, bind 0.0.0.0 at its
      port, preconstruct the payloads and serve. */
  method Start(fs: Config.FileSystem, vars: map<string, string>, cwd: Option<Config.Path>, codec: Config.TomlCodec,
               inUse: set<uint16>, traffic: seq<Incoming>, unreachable: set<SocketAddr>)
    returns (exit: Option<int>, sent: seq<Outgoing>)
    modifies fs
    ensures fs.faulty == old(fs.faulty)
    ensures var loaded := Config.Load(vars, cwd, old(fs.files), old(fs.faulty), codec);
            fs.files == loaded.files && Trace(sent, exit) == Lifetime(loaded.result, inUse, traffic, unreachable)
  {
    var read := Config.ReadConfig(fs, vars, cwd, codec);
    var config := HandleError(read, ConfigExit);
    if config.Exit? {
      return Some(config.code), [];
    }
    var addr := SocketAddr([0, 0, 0, 0], config.value.port);
    var bound := Bind(addr, inUse, traffic, unreachable);
    var socket := HandleError(bound, BindExit);
    if socket.Exit? {
      return Some(socket.code), [];
    }
    var payloads := PreconstructResponse(config.value.server);
    assert payloads == Payloads(config.value.server);
    exit := Serve(socket.value, payloads);
    sent := socket.value.sent;
  }

  // ---- Properties of the whole process

  /** Each exit code names one cause: 100 exactly when the configuration did
      not load, 101 exactly when it loaded but the port is taken, 102 only
      after a failed receive, 104 otherwise, and never 103. Nothing is sent
      before the loop starts. */
  lemma ExitCodeNamesCause(loaded: Result<Config.Config, Config.ConfigError>, inUse: set<uint16>,
                           traffic: seq<Incoming>, unreachable: set<SocketAddr>)
    ensures var t := Lifetime(loaded, inUse, traffic, unreachable);
            && (t.exit == Some(ConfigExit) <==> loaded.Err?)
            && (t.exit == Some(BindExit) <==> loaded.Ok? && loaded.value.port in inUse)
            && (t.exit == Some(RecvExit) ==> RecvFailure in traffic)
            && t.exit != Some(ResponseExit)
            && t.exit in {None, Some(ConfigExit), Some(BindExit), Some(RecvExit), Some(SendExit)}
            && (t.exit == Some(ConfigExit) || t.exit == Some(BindExit) ==> t.sent == [])
  {
    if loaded.Ok? && loaded.value.port !in inUse {
      RunExits(traffic, Payloads(loaded.value.server), unreachable);
    }
  }

  /** A configuration that loads, on a free port, answers a single probe
      from a reachable peer with every payload, in order, and keeps going. */
  lemma ProbeAnswered(config: Config.Config, inUse: set<uint16>, src: SocketAddr, unreachable: set<SocketAddr>)
    requires config.port !in inUse && src !in unreachable
    requires forall j :: 0 <= j < |config.server| ==> |Payloads(config.server)[j]| <= MaxDatagram
    ensures Accepted(ProbeLower)
    ensures Lifetime(Ok(config), inUse, [Datagram(ProbeLower, src)], unreachable)
            == Trace(Replies(ProbeLower, src, Payloads(config.server)), None)
  {
    var payloads := Payloads(config.server);
    var e := Datagram(ProbeLower, src);
    OnlyTwoLiterals();
    IterationDelivered(e, payloads, unreachable);
    assert [e][1..] == [];
    var out := Replies(ProbeLower, src, payloads);
    assert Run([e], payloads, unreachable) == Trace(out + [], None);
    assert out + [] == out;
  }

  // The sample lemmas below take the sample (or its server list) as a
  // parameter equal to it, rather than naming `Config.SampleConfig()` in
  // their bodies, so that the verifier does not evaluate the whole literal
  // payload text.

  /** The sample server's payload fits in a datagram. */
  lemma SamplePayloadFits(servers: seq<Config.ServerConfig>)
    requires servers == Config.SampleConfig().server
    ensures |servers| == 1 && |Payloads(servers)[0]| <= MaxDatagram
  {
    MapElement(Payload, servers, 0);
    PayloadSize(servers[0]);
  }

  /** The sample server's payload decodes to the sample server's url, id and
      name. */
  lemma SamplePayloadDecodes(servers: seq<Config.ServerConfig>)
    requires servers == Config.SampleConfig().server
    ensures |servers| == 1
    ensures DecodePayload(Payloads(servers)[0])
            == Some(Response("http://jellyfin-test.local", "CHANGEME", "Test Jellyfin Server", None))
  {
    PayloadsDecode(servers, 0);
  }

  /** With one server, a probe is answered with exactly its payload. */
  lemma SingleServerProbe(config: Config.Config, src: SocketAddr)
    requires |config.server| == 1 && |Payloads(config.server)[0]| <= MaxDatagram
    ensures Lifetime(Ok(config), {}, [Datagram(ProbeLower, src)], {})
            == Trace([Outgoing(Payloads(config.server)[0], src)], None)
  {
    ProbeAnswered(config, {}, src, {});
  }

  /** The sample configuration answers a probe with one datagram carrying
      the sample server. */
  lemma SampleAnswersProbe(sample: Config.Config, src: SocketAddr)
    requires sample == Config.SampleConfig()
    ensures exists p :: Lifetime(Ok(sample), {}, [Datagram(ProbeLower, src)], {}) == Trace([Outgoing(p, src)], None)
                        && DecodePayload(p)
                           == Some(Response("http://jellyfin-test.local", "CHANGEME", "Test Jellyfin Server", None))
  {
    SamplePayloadFits(sample.server);
    SamplePayloadDecodes(sample.server);
    SingleServerProbe(sample, src);
    var p := Payloads(sample.server)[0];
    assert Lifetime(Ok(sample), {}, [Datagram(ProbeLower, src)], {}) == Trace([Outgoing(p, src)], None);
  }

  /** The first run in an empty directory: the sample is written, port 7359 is
      bound, and a lower-case probe is answered with the one sample payload,
      which carries the sample server's url, id and name. */
  lemma FirstRunAnswersWithSample(vars: map<string, string>, cwd: Option<Config.Path>, codec: Config.TomlCodec,
                                  src: SocketAddr)
    requires Config.ConfigPath(vars, cwd).Ok? && codec.render(Config.SampleConfig()).Some?
    ensures var loaded := Config.Load(vars, cwd, map[], {}, codec);
            && loaded.result == Ok(Config.SampleConfig())
            && exists p :: Lifetime(loaded.result, {}, [Datagram(ProbeLower, src)], {}) == Trace([Outgoing(p, src)], None)
                           && DecodePayload(p)
                              == Some(Response("http://jellyfin-test.local", "CHANGEME", "Test Jellyfin Server", None))
  {
    var sample := Config.SampleConfig();
    Config.LoadAbsent(vars, cwd, map[], {}, codec);
    var loaded := Config.Load(vars, cwd, map[], {}, codec);
    assert loaded.result == Ok(sample);
    SampleAnswersProbe(sample, src);
  }
}
