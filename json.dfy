/** The part of JSON (RFC 8259) that the discovery responses use: objects
    (section 4) whose member values are strings (section 7) or `null`,
    written the way serde_json's compact serializer writes them, and a
    parser that reads such objects back. */
module Json {
  import opened Base

  datatype Value = Null | String(s: string)

  datatype Member = Member(key: string, value: Value)

  /** An object keeps its members in the order they are written. */
  type Object = seq<Member>

  const Quote: char := '"'
  const Backslash: char := '\\'
  /** U+0008 and U+000C, which Dafny's character literals cannot spell. */
  const Backspace: char := 0x08 as char
  const FormFeed: char := 0x0C as char

  /** Lower-case hexadecimal digit, as serde_json writes `\u00XX` escapes. */
  function HexDigit(n: nat): (c: char)
    requires n < 16
    ensures HexValue(c) == Some(n)
  {
    "0123456789abcdef"[n]
  }

  /** The value of a hexadecimal digit of either case. */
  function HexValue(c: char): (r: Option<nat>)
    ensures r.Some? ==> r.value < 16
  {
    if '0' <= c <= '9' then Some(c as int - '0' as int)
    else if 'a' <= c <= 'f' then Some(c as int - 'a' as int + 10)
    else if 'A' <= c <= 'F' then Some(c as int - 'A' as int + 10)
    else None
  }

  /** The text that stands for `c` inside a string literal: serde_json escapes
      the quotation mark, the reverse solidus and the control characters
      U+0000 to U+001F (the two-character forms where section 7 of RFC 8259 has one,
      `\u00XX` otherwise) and writes every other character as it is. */
  function EscapeChar(c: char): (t: string)
    ensures 1 <= |t| <= 6
    ensures t[0] == Backslash <==> c == Quote || c == Backslash || c < ' '
  {
    if c == Quote then ['\\', '"']
    else if c == Backslash then ['\\', '\\']
    else if c == Backspace then ['\\', 'b']
    else if c == '\t' then ['\\', 't']
    else if c == '\n' then ['\\', 'n']
    else if c == FormFeed then ['\\', 'f']
    else if c == '\r' then ['\\', 'r']
    else if c < ' ' then ['\\', 'u', '0', '0', HexDigit(c as int / 16), HexDigit(c as int % 16)]
    else [c]
  }

  /** The body of a string literal, without its quotation marks. */
  function EscapeChars(s: string): (t: string)
    ensures |s| <= |t| <= 6 * |s|
  {
    if s == [] then [] else EscapeChar(s[0]) + EscapeChars(s[1..])
  }

  function SerializeString(s: string): (t: string)
    ensures |t| <= 6 * |s| + 2
  {
    [Quote] + EscapeChars(s) + [Quote]
  }

  function SerializeValue(v: Value): string {
    match v
    case Null => "null"
    case String(s) => SerializeString(s)
  }

  function SerializeMember(m: Member): string {
    SerializeString(m.key) + ":" + SerializeValue(m.value)
  }

  /** The members of a non-empty object, separated by commas. */
  function SerializeMembers(ms: seq<Member>): string
    requires ms != []
  {
    if |ms| == 1 then SerializeMember(ms[0])
    else SerializeMember(ms[0]) + "," + SerializeMembers(ms[1..])
  }

  /** The compact text of an object: no white space between tokens. */
  function SerializeObject(o: Object): string {
    if o == [] then "{}" else "{" + SerializeMembers(o) + "}"
  }

  /** The characters an object's keys and string values hold. */
  function TextLength(ms: seq<Member>): nat {
    if ms == [] then 0
    else |ms[0].key| + (if ms[0].value.String? then |ms[0].value.s| else 0) + TextLength(ms[1..])
  }

  /** Each character takes at most six characters of output (a `\uXXXX`
      escape) and each member at most eight more (quotes, colon, comma and
      `null`). */
  lemma {:induction false} SerializeMembersSize(ms: seq<Member>)
    requires ms != []
    ensures |SerializeMembers(ms)| <= 6 * TextLength(ms) + 8 * |ms|
  {
    if |ms| > 1 {
      SerializeMembersSize(ms[1..]);
    }
  }

  lemma SerializeObjectSize(o: Object)
    ensures |SerializeObject(o)| <= 6 * TextLength(o) + 8 * |o| + 2
  {
    if o != [] {
      SerializeMembersSize(o);
    }
  }

  /** Reads the escape sequence after a reverse solidus: the character it
      stands for and the text after it. `\uXXXX` naming a surrogate is
      refused (surrogate pairs are outside this model). */
  function ParseEscape(t: string): (r: Option<(char, string)>)
    ensures r.Some? ==> |r.value.1| < |t|
  {
    if t == [] then None
    else if t[0] == '"' then Some(('"', t[1..]))
    else if t[0] == '\\' then Some(('\\', t[1..]))
    else if t[0] == '/' then Some(('/', t[1..]))
    else if t[0] == 'b' then Some((Backspace, t[1..]))
    else if t[0] == 'f' then Some((FormFeed, t[1..]))
    else if t[0] == 'n' then Some(('\n', t[1..]))
    else if t[0] == 'r' then Some(('\r', t[1..]))
    else if t[0] == 't' then Some(('\t', t[1..]))
    else if t[0] == 'u' && |t| >= 5 then
      match (HexValue(t[1]), HexValue(t[2]), HexValue(t[3]), HexValue(t[4]))
      case (Some(a), Some(b), Some(c), Some(d)) =>
        var v := ((a * 16 + b) * 16 + c) * 16 + d;
        if v < 0xD800 || 0xE000 <= v then Some((v as char, t[5..])) else None
      case _ => None
    else None
  }

  /** Reads the rest of a string literal whose opening quotation mark has been
      consumed: its characters and the text after the closing mark.
      Unescaped control characters are refused, as section 7 of RFC 8259 requires. */
  function ParseStringBody(t: string): (r: Option<(string, string)>)
    ensures r.Some? ==> |r.value.1| < |t|
    decreases |t|
  {
    if t == [] then None
    else if t[0] == Quote then Some(([], t[1..]))
    else if t[0] < ' ' then None
    else
      var next :=
        if t[0] == Backslash then ParseEscape(t[1..]) else Some((t[0], t[1..]));
      match next
      case None => None
      case Some((c, after)) =>
        match ParseStringBody(after)
        case None => None
        case Some((s, rest)) => Some(([c] + s, rest))
  }

  function ParseString(t: string): (r: Option<(string, string)>)
    ensures r.Some? ==> |r.value.1| < |t|
  {
    if t != [] && t[0] == Quote then ParseStringBody(t[1..]) else None
  }

  function ParseValue(t: string): (r: Option<(Value, string)>)
    ensures r.Some? ==> |r.value.1| < |t|
  {
    if |t| >= 4 && t[..4] == "null" then Some((Null, t[4..]))
    else
      match ParseString(t)
      case None => None
      case Some((s, rest)) => Some((String(s), rest))
  }

  function ParseMember(t: string): (r: Option<(Member, string)>)
    ensures r.Some? ==> |r.value.1| < |t|
  {
    match ParseString(t)
    case None => None
    case Some((k, rest)) =>
      if rest == [] || rest[0] != ':' then None
      else
        match ParseValue(rest[1..])
        case None => None
        case Some((v, rest')) => Some((Member(k, v), rest'))
  }

  /** Reads one or more members and the closing brace of an object. */
  function ParseMembers(t: string): (r: Option<(seq<Member>, string)>)
    ensures r.Some? ==> r.value.0 != [] && |r.value.1| < |t|
    decreases |t|
  {
    match ParseMember(t)
    case None => None
    case Some((m, rest)) =>
      if rest == [] then None
      else if rest[0] == '}' then Some(([m], rest[1..]))
      else if rest[0] == ',' then
        match ParseMembers(rest[1..])
        case None => None
        case Some((ms, rest')) => Some(([m] + ms, rest'))
      else None
  }

  /** Parses a text that must be exactly one compact object. */
  function ParseObject(t: string): Option<Object> {
    if |t| < 2 || t[0] != '{' then None
    else if t[1] == '}' then (if |t| == 2 then Some([]) else None)
    else
      match ParseMembers(t[1..])
      case Some((ms, rest)) => if rest == [] then Some(ms) else None
      case None => None
  }

  // Round trip, bottom up: escape sequences, strings, values, members, objects.

  lemma HexRoundTrip(n: nat)
    requires n < 0x20
    ensures HexValue(HexDigit(n / 16)) == Some(n / 16)
    ensures HexValue(HexDigit(n % 16)) == Some(n % 16)
  {
  }

  /** Reading the escaped form of one character gives that character back. */
  lemma ParseEscapeChar(c: char, t: string)
    ensures ParseStringBody(EscapeChar(c) + t) ==
      match ParseStringBody(t)
      case None => None
      case Some((s, rest)) => Some(([c] + s, rest))
  {
    var e := EscapeChar(c) + t;
    if c == Quote || c == Backslash || c < ' ' {
      assert e[0] == Backslash;
      assert e[1..] == EscapeChar(c)[1..] + t;
      if c < ' ' && c != Backspace && c != '\t' && c != '\n' && c != FormFeed && c != '\r' {
        var n := c as int;
        HexRoundTrip(n);
        assert e[1..][5..] == t;
        assert ((0 * 16 + 0) * 16 + n / 16) * 16 + n % 16 == n;
      } else {
        assert e[1..][1..] == t;
      }
    } else {
      assert e[1..] == t;
    }
  }

  /** A string literal's body followed by the closing mark reads back as that string. */
  lemma {:induction false} ParseEscapedChars(s: string, rest: string)
    ensures ParseStringBody(EscapeChars(s) + [Quote] + rest) == Some((s, rest))
  {
    if s == [] {
      assert EscapeChars(s) + [Quote] + rest == [Quote] + rest;
    } else {
      var tail := EscapeChars(s[1..]) + [Quote] + rest;
      assert EscapeChars(s) + [Quote] + rest == EscapeChar(s[0]) + tail;
      ParseEscapedChars(s[1..], rest);
      ParseEscapeChar(s[0], tail);
      assert [s[0]] + s[1..] == s;
    }
  }

  lemma ParseSerializedString(s: string, rest: string)
    ensures ParseString(SerializeString(s) + rest) == Some((s, rest))
  {
    var t := SerializeString(s) + rest;
    assert t[1..] == EscapeChars(s) + [Quote] + rest;
    ParseEscapedChars(s, rest);
  }

  lemma ParseSerializedValue(v: Value, rest: string)
    ensures ParseValue(SerializeValue(v) + rest) == Some((v, rest))
  {
    var t := SerializeValue(v) + rest;
    match v
    case Null =>
      assert t[..4] == "null" && t[4..] == rest;
    case String(s) =>
      assert t[0] == Quote;
      ParseSerializedString(s, rest);
  }

  lemma ParseSerializedMember(m: Member, rest: string)
    ensures ParseMember(SerializeMember(m) + rest) == Some((m, rest))
  {
    var after := ":" + SerializeValue(m.value) + rest;
    assert SerializeMember(m) + rest == SerializeString(m.key) + after;
    ParseSerializedString(m.key, after);
    assert after[1..] == SerializeValue(m.value) + rest;
    ParseSerializedValue(m.value, rest);
  }

  lemma ParseLastMember(m: Member, rest: string)
    ensures ParseMembers(SerializeMember(m) + "}" + rest) == Some(([m], rest))
  {
    var after := "}" + rest;
    assert SerializeMember(m) + "}" + rest == SerializeMember(m) + after;
    ParseSerializedMember(m, after);
    assert after[0] == '}' && after[1..] == rest;
  }

  lemma ParseNextMember(m: Member, t: string, ms: seq<Member>, rest: string)
    requires ParseMembers(t) == Some((ms, rest))
    ensures ParseMembers(SerializeMember(m) + "," + t) == Some(([m] + ms, rest))
  {
    var after := "," + t;
    assert SerializeMember(m) + "," + t == SerializeMember(m) + after;
    ParseSerializedMember(m, after);
    assert after[0] == ',' && after[1..] == t;
  }

  lemma {:induction false} ParseSerializedMembers(ms: seq<Member>, rest: string)
    requires ms != []
    ensures ParseMembers(SerializeMembers(ms) + "}" + rest) == Some((ms, rest))
  {
    if |ms| == 1 {
      ParseLastMember(ms[0], rest);
      assert [ms[0]] == ms;
    } else {
      var head, tail := SerializeMember(ms[0]) + ",", SerializeMembers(ms[1..]);
      ParseSerializedMembers(ms[1..], rest);
      ParseNextMember(ms[0], tail + "}" + rest, ms[1..], rest);
      ConcatAssociative(head + tail, "}", rest);
      ConcatAssociative(head, tail, "}" + rest);
      ConcatAssociative(tail, "}", rest);
      assert [ms[0]] + ms[1..] == ms;
    }
  }

  /** The members' text opens with the first key's quotation mark, so it
      never starts like an empty object. */
  lemma SerializeMembersStart(ms: seq<Member>)
    requires ms != []
    ensures |SerializeMembers(ms)| > 0 && SerializeMembers(ms)[0] == Quote
  {
    var first := SerializeMember(ms[0]);
    assert first[0] == Quote;
  }

  /** Parsing the compact text of any object gives back the same members in
      the same order. */
  lemma ParseSerializedObject(o: Object)
    ensures ParseObject(SerializeObject(o)) == Some(o)
  {
    if o != [] {
      var body := SerializeMembers(o);
      SerializeMembersStart(o);
      ParseSerializedMembers(o, []);
      var t := SerializeObject(o);
      assert t[1..] == body + "}" + [];
    }
  }

  /** The compact serialization is injective: distinct objects are written as
      distinct texts. */
  lemma SerializeObjectInjective(o: Object, p: Object)
    requires SerializeObject(o) == SerializeObject(p)
    ensures o == p
  {
    ParseSerializedObject(o);
    ParseSerializedObject(p);
  }
}
