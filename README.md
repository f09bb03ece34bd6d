# Jellyfin discovery responder, modelled in Dafny

jellyfin-discovery-util is a small UDP daemon. Jellyfin clients on a local
network broadcast the probe `who is JellyfinServer?`. The daemon answers each
probe with one JSON datagram per configured server, giving its address, id
and name. It reads its configuration (port and server list) once at start-up
from a TOML file. The file's path comes from the `JDU_CONF` environment
variable, or is `discover.toml` in the working directory. If no such file
exists, the daemon writes a sample configuration there and uses it.

This project models the configuration store (`src/config.rs`) and the
responder (`src/main.rs`), and proves properties of both.

- `base.dfy` (module `Base`): Rust's `u8` and `u16`, `Option`, `Result`, and a
  generic sequence map with its lemmas.
- `utf8.dfy` (module `Utf8`): UTF-8 as defined in section 3 of RFC 3629.
  Rust stores text as UTF-8, so `serde_json::to_vec` returns the UTF-8 bytes
  of the JSON text. A decoder is included, and the round trip is proved.
- `json.dfy` (module `Json`): the part of JSON (RFC 8259, sections 4 and 7)
  that a response uses. That is a flat object whose members hold strings or
  `null`. The writer is serde_json's compact writer with its escape table:
  `\"`, `\\`, `\b`, `\f`, `\n`, `\r`, `\t`, and `\u00xx` with lower-case hex
  for the other control characters. A reader serves as an independent
  reference, and parsing written text is proved to give back the same object.
- `config.dfy` (module `Config`): `ServerConfig`, `Config`, `ConfigError`,
  the two constructors and the sample configuration. It also models the path
  choice, a `FileSystem` class whose file map `read_config` updates in place,
  and `read_config` / `create_sample_config` as methods. Each method is proved
  equal to a function of the environment and the files before the call.
- `daemon.dfy` (module `Daemon`): `handle_error` and its exit codes, and the
  `Response` record with its PascalCase JSON keys. It also models
  `preconstruct_response`, the 22-byte probe check and a `UdpSocket` class.
  The serve loop is a method over the socket, proved equal to a function of
  the incoming events. `Start` models `main`.

The first error variant is called `Deserialize` here; the source spells it
`Derserialize`.

## Model

| member | source | states |
|---|---|---|
| Config.NewServerConfig | src/config.rs:24-30 | the url, id and name are copied unchanged |
| Config.NewConfig | src/config.rs:41-47 | the version is always "1"; the port and the server list are kept as given, order included |
| Config.NewConfigCharacterized | src/config.rs:41-47 | `Config::new` rebuilds a configuration exactly when that configuration's version is "1" |
| Config.SampleConfig | src/config.rs:80-87 | the sample has version "1", port 7359 and the one server "http://jellyfin-test.local", "CHANGEME", "Test Jellyfin Server" |
| Config.Join | src/config.rs:57 | joining a relative path to a directory ends with that path, and the result is absolute when the directory is |
| Config.Absolute | src/config.rs:53-59 | `path::absolute` fails, with Io, exactly on the empty path or on a relative path with no working directory; an absolute path is kept; every result ends with the given path |
| Config.DefaultPath | src/config.rs:55-58 | without `JDU_CONF`, the path is `discover.toml` joined to the working directory, and resolution fails exactly when there is no working directory |
| Config.OverriddenPath | src/config.rs:53-54 | with `JDU_CONF` set, its value is the path made absolute; an absolute value is used as is; an empty one gives Io |
| Config.ConfigPath | src/config.rs:53-59 | the path is the value of `JDU_CONF`, or `discover.toml`, made absolute; every failure is Io, and with an absolute working directory the path is always absolute |
| Config.FileSystem.Exists | src/config.rs:61 | `Path::exists`: the path is in the file map, whether or not it can be read |
| Config.FileSystem.ReadToString | src/config.rs:64 | the read succeeds exactly for an existing readable file and gives its contents; otherwise the error is Io |
| Config.FileSystem.Write | src/config.rs:91 | a failed write gives Io and, the write being taken as all-or-nothing, changes nothing; a successful one sets that one path's contents |
| Config.CreateSampleConfig | src/config.rs:79-94 | a failed render gives Serialize and writes nothing; a failed write gives Io; otherwise the rendered sample is written and the sample is returned |
| Config.ReadConfig | src/config.rs:50-77 | the result and the new file map are those of `Load` on the environment and the files before the call |
| Config.Load | src/config.rs:50-94 | `read_config` as a function of the environment and the files: a path failure is passed on; an existing file is read, a missing one gets the sample |
| Config.ReadExisting | src/config.rs:61-68 | for an existing file: a failed read gives Io, a failed parse gives Deserialize, otherwise the parsed configuration |
| Config.CreateSample | src/config.rs:79-94 | for a missing file: a failed render gives Serialize, a failed write gives Io, otherwise the sample, with its text written at the path |
| Config.LoadExisting | src/config.rs:61-68 | for an existing file: no file changes; the result is Ok exactly when the file is read and parsed, and it then holds the parse; it is Deserialize exactly when the read succeeds and the parse fails |
| Config.LoadAbsent | src/config.rs:69-76 | for a missing file: Ok exactly when the sample renders and can be written; then it returns the sample, the file holds the rendered text, and every other file is kept; on failure nothing is written, under the all-or-nothing write |
| Config.LoadPreservesExistingFiles | src/config.rs:50-94 | loading never changes or removes an existing file, and creates at most the file at the configuration path |
| Config.LoadErrorKinds | src/config.rs:53-93 | Deserialize only for an existing file; Serialize only for a missing file whose sample does not render; Io only when the path cannot be resolved or the file cannot be read or written |
| Config.BootstrapThenReload | src/config.rs:61-93 | if the TOML crate reads back what it writes, loading again after the first-run bootstrap returns the sample and writes nothing |
| Utf8.EncodeChar | src/main.rs:82 | a character takes the number of bytes given in the table in section 3 of RFC 3629 |
| Utf8.Encode | src/main.rs:82 | a string of n characters takes between n and 4n bytes |
| Utf8.DecodeEncodeChar | src/main.rs:82 | decoding the encoding of one character, whatever follows it, gives that character and its width |
| Utf8.DecodeEncode | src/main.rs:82 | decoding the UTF-8 bytes of any string gives back that string |
| Utf8.EncodeInjective | src/main.rs:82 | different strings have different encodings |
| Utf8.EncodeAscii | src/main.rs:82 | an ASCII string's encoding is its characters, one byte each |
| Json.HexDigit | src/main.rs:82 | the lower-case hex digit written for a nibble reads back as that nibble |
| Json.HexRoundTrip | src/main.rs:82 | the two hex digits written for a control character read back as its high and low nibble |
| Json.EscapeChar | src/main.rs:82 | a character is written as an escape exactly when it is a quote, a backslash or a control character; an escape takes at most six characters |
| Json.EscapeChars | src/main.rs:82 | escaping keeps or lengthens the text, at most six-fold |
| Json.SerializeString | src/main.rs:82 | a quoted string takes at most six characters per character plus the two quotes |
| Json.SerializeObject | src/main.rs:82 | the compact text of an object: `{}` when it has no members, otherwise the members in order, comma-separated, inside braces (read back by `ParseSerializedObject`) |
| Json.ParseEscapeChar | src/main.rs:82 | reading the written form of one character, followed by more string text, gives that character before whatever the rest reads as |
| Json.ParseEscapedChars | src/main.rs:82 | reading the escaped form of a whole string, up to a closing quote, gives back that string and the text after the quote |
| Json.ParseSerializedString | src/main.rs:82 | reading a written string gives back the string and exactly the text after it |
| Json.ParseSerializedValue | src/main.rs:82 | reading a written value (string or `null`) gives back the value and the rest of the text |
| Json.ParseSerializedMember | src/main.rs:82 | reading a written member gives back the member and the rest of the text |
| Json.ParseSerializedMembers | src/main.rs:82 | reading a written member list, with its closing brace, gives back every member in order and the rest of the text |
| Json.SerializeMembersStart | src/main.rs:82 | a written member list starts with a quote |
| Json.ParseSerializedObject | src/main.rs:82 | reading the compact text of any object gives back the same members in the same order |
| Json.SerializeObjectInjective | src/main.rs:82 | different objects are written as different texts |
| Json.SerializeMembersSize | src/main.rs:82 | a member list's text is at most six characters per key or string character plus eight per member |
| Json.SerializeObjectSize | src/main.rs:82 | an object's text is at most six characters per key or string character, plus eight per member, plus two |
| Daemon.HandleError | src/main.rs:89-101 | the result is the value exactly when the input is Ok, and that value is passed through; on Err the process exits with the given code |
| Daemon.PascalCase | src/main.rs:63 | a PascalCase key has no underscore and is no longer than its field name |
| Daemon.PascalCaseWord | src/main.rs:63 | a one-word field name only has its first letter raised to upper case |
| Daemon.PascalCaseSnake | src/main.rs:63 | a two-word snake_case name loses its underscore, and both words are capitalised |
| Daemon.KeysArePascalCase | src/main.rs:62-69 | the keys Address, Id, Name, EndpointAddress are the PascalCase forms of the four field names, in declaration order |
| Daemon.ToJson | src/main.rs:62-69 | a response is an object with one member per field; reading it back gives the same address, id and name, and `None` for the endpoint address, which serde writes as `null` |
| Daemon.ResponseFor | src/main.rs:74-81 | the response for a server carries its url as the address, its id and its name, and no endpoint address |
| Daemon.Payload | src/main.rs:74-83 | a server's payload is the UTF-8 bytes of the compact JSON of its response (read back by `PayloadRoundTrip`) |
| Daemon.Payloads | src/main.rs:71-87 | one payload per server, in the servers' order (entry by entry in `PayloadsDecode`) |
| Daemon.ToVec | src/main.rs:82 | `serde_json::to_vec` of a response always succeeds |
| Daemon.ResponseNeverExits | src/main.rs:82 | `handle_error(.., 103)` around the serialization never exits, so code 103 is never produced |
| Daemon.PayloadFields | src/main.rs:75-82 | every payload is UTF-8 JSON text of an object whose members are exactly Address, Id, Name, EndpointAddress, in that order, holding the server's url, id, name and `null` |
| Daemon.PayloadRoundTrip | src/main.rs:75-83 | every payload decodes back to the server's url, id and name, with no endpoint address |
| Daemon.PayloadInjective | src/main.rs:75-83 | two servers have the same payload only if they are the same server |
| Daemon.PayloadSize | src/main.rs:82 | a payload is at most 24 bytes per character of the url, id and name, plus 1000 |
| Daemon.PayloadsDecode | src/main.rs:71-87 | payload list entry i decodes to server i's url, id and name |
| Daemon.PreconstructResponse | src/main.rs:71-87 | the output is one payload per server, pushed in the servers' order |
| Daemon.Ascii | src/main.rs:46 | a byte-string literal has one byte per character, of the same value |
| Daemon.AsciiIsUtf8 | src/main.rs:46 | a byte-string literal of ASCII text is the UTF-8 encoding of that text |
| Daemon.ProbesAreUtf8 | src/main.rs:46 | both probe literals are exactly the UTF-8 bytes of the sentences "who is JellyfinServer?" and "Who is JellyfinServer?" |
| Daemon.ProbeShape | src/main.rs:41-46 | both probe literals are exactly 22 bytes, the buffer length, and end in `?` |
| Daemon.Zeroed | src/main.rs:41 | a fresh buffer of n bytes, all zero |
| Daemon.Fill | src/main.rs:42 | after a receive, the buffer holds the datagram's first bytes, as many as fit, over its old contents |
| Daemon.IsProbe | src/main.rs:46 | the buffer equals one of the two literals; a buffer that matches is exactly 22 bytes long |
| Daemon.ReceiveBufferAccepted | src/main.rs:41-46 | comparing the filled 22-byte buffer with the literals accepts exactly the datagrams of at least 22 bytes whose first 22 bytes are one of the two literals |
| Daemon.TrailingBytesIgnored | src/main.rs:41-46 | bytes after the first 22 never change what the loop sees |
| Daemon.OnlyTwoLiterals | src/main.rs:46 | both literals are accepted; the all-capitals and all-lower-case variants are not, and neither is a literal missing its last byte |
| Daemon.UdpSocket.RecvFrom | src/main.rs:42 | the next event is taken; a datagram is copied into the buffer as far as it fits, and the copied length and the sender are returned; a receive error returns Err |
| Daemon.UdpSocket.SendTo | src/main.rs:50 | a deliverable datagram is appended to what was sent and its length returned; otherwise Err, with nothing sent |
| Daemon.Bind | src/main.rs:29-30 | binding succeeds exactly when the port is free, and gives a fresh socket at that address that has sent nothing |
| Daemon.Replies | src/main.rs:46-52 | a probe gets every payload, in order, sent to its sender; any other datagram gets nothing |
| Daemon.SendAll | src/main.rs:49-52 | the replies are sent in order up to the first one that cannot be delivered, which ends the process with code 104; if every one is delivered, all are sent and the loop goes on |
| Daemon.SendAllDelivered | src/main.rs:49-52 | when every reply is deliverable, all are sent and the process goes on |
| Daemon.SendAllStops | src/main.rs:49-52 | the first undeliverable reply stops the process with 104, after everything before it was sent |
| Daemon.Iteration | src/main.rs:41-58 | a failed receive exits with 102; a datagram gets its replies sent as `SendAll` says |
| Daemon.Run | src/main.rs:40-59 | the events are taken in order, and the loop stops at the first iteration that exits |
| Daemon.Lifetime | src/main.rs:22-59 | a failed load exits with 100, a port in use with 101; otherwise the loop runs over the loaded servers' payloads |
| Daemon.IterationDelivered | src/main.rs:41-52 | one iteration on a datagram from a reachable peer sends its replies and goes on |
| Daemon.RunWithoutFaults | src/main.rs:40-59 | with no receive error and every reply deliverable, the loop never stops and sends one datagram per payload per probe |
| Daemon.NonProbeIgnored | src/main.rs:46-58 | removing a datagram that is not a probe from the input changes nothing the loop does |
| Daemon.RunExits | src/main.rs:40-59 | the loop stops only with 102 or 104, and 102 only after a failed receive |
| Daemon.ServeOnce | src/main.rs:41-58 | one pass of the loop body consumes one event and sends, and exits with, what `Iteration` says |
| Daemon.Serve | src/main.rs:40-59 | the loop sends, and exits with, what `Run` says of the pending events; when it returns without an exit code, every event has been consumed |
| Daemon.Start | src/main.rs:22-59 | start-up sends, and exits with, what `Lifetime` says of the configuration `Load` gives; the files end up as `Load` leaves them |
| Daemon.ExitCodeNamesCause | src/main.rs:27-50 | exit 100 exactly when the configuration fails to load, 101 exactly when it loads but the port is taken, 102 only after a failed receive, never 103; nothing is sent before a 100 or a 101 |
| Daemon.ProbeAnswered | src/main.rs:40-52 | a configuration that loads, on a free port, answers one probe from a reachable peer with every payload in order, and keeps going |
| Daemon.SingleServerProbe | src/main.rs:46-52 | with one server, a probe is answered with exactly that server's payload |
| Daemon.SamplePayloadFits | src/config.rs:80-87 | the sample server's payload fits in one datagram |
| Daemon.SamplePayloadDecodes | src/config.rs:80-87 | the sample server's payload decodes to "http://jellyfin-test.local", "CHANGEME", "Test Jellyfin Server" |
| Daemon.SampleAnswersProbe | src/main.rs:46-52 | the sample configuration answers a probe with one datagram that carries the sample server |
| Daemon.FirstRunAnswersWithSample | src/config.rs:69-93 | on a first run with no file, the sample is loaded, port 7359 is bound, and a lower-case probe is answered with one datagram carrying the sample server |

## Left out

- Logging is not modelled: `enable_logging`, the journal and env_logger set-up, and every `trace!`, `debug!`, `info!`, `warn!`, `error!` and `dbg!`. They do not change what is sent or returned.
- `process::exit` is not called. `handle_error` returns an exit code, and the loop's trace ends with it.
- The TOML crate is not modelled. `toml::from_str` and `toml::to_string` are passed in as a `TomlCodec` value, and `None` stands for their error values. That the crate reads back what it writes is a hypothesis (`RoundTrips`) of `Config.BootstrapThenReload`, not a proved fact.
- Environment variables are a map from names to strings. `env::var` also fails on a value that is not Unicode, and the source then falls back to the default name. Here such a value is simply absent from the map.
- Config.FileSystem.Write: a write is all-or-nothing here. `fs::write` creates the file and then writes to it, so a failure after the create (a full disk, an exceeded quota, EIO) can leave the file empty or partly written. That is not modelled. On such a first run the next start finds the file and fails with Deserialize instead of writing the sample again.
- Config.CreateSample: its Io branch keeps the file map unchanged, which holds only under the all-or-nothing `Write`.
- Config.LoadAbsent: "on failure nothing is written" holds only under the all-or-nothing `Write`, not for `fs::write` itself.
- Config.Absolute: follows `std::path::absolute` on Unix, but does not drop `.` components or repeated separators.
- Config.FileSystem.Exists: `Path::exists` reports false when it cannot read a path's metadata. Here a file that exists but cannot be read counts as existing, and the read then fails with Io.
- Real sockets are not modelled. The socket holds a finite queue of receive events and a log of sent datagrams. Blocking in `recv_from` is not modelled, and the endless `loop` runs until the queue is empty or the process exits.
- Daemon.Bind: every bind failure (a port in use, or no permission) is modelled as the port being in a set of taken ports.
- Daemon.UdpSocket.SendTo: every send failure is modelled as an unreachable destination or a payload above 65507 bytes. Partial sends and interrupted calls are not modelled.
- The JSON writer covers only what a `Response` needs: flat objects whose members hold strings or `null`. Numbers, arrays, nesting and pretty-printing are not modelled.
- The JSON reader exists only as the partner of the writer. It accepts no white space between tokens, and it refuses `\u` escapes that name surrogates, so surrogate pairs are not read.
- `Response.endpoint_address` is always `None`, and serde_json writes `Some(())` as `null` too. So decoding gives `None` for the field, and the model never builds `Some(())`.
- Daemon.PayloadSize: gives a generous upper bound, not the exact length of a payload.

