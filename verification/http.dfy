/** A reader for HTTP/1.1 responses (section 2.1 and sections 4 to 6 of RFC 9112):
    status line, field lines, an empty line, then the body framed by
    Content-Length (section 8.6 of RFC 9110) or, without one, by the end of the
    connection. It is the independent counterpart against which the test server's
    response is checked. */
module Http {
  import opened Outcomes
  import Decimal
  import Text

  const Crlf: string := "\r\n"

  datatype Field = Field(name: string, value: string)

  datatype Response = Response(version: string, status: nat, reason: string, fields: seq<Field>, body: string)

  /** How the body's end is found. */
  datatype Framing = ByLength(length: nat) | UntilClose | Malformed

  predicate IsCrlfAt(s: string, j: nat)
  {
    j + 1 < |s| && s[j] == '\r' && s[j + 1] == '\n'
  }

  /** The first CRLF at or after `from`. */
  function FindCrlf(s: string, from: nat): (r: Option<nat>)
    ensures r.Some? ==> from <= r.value && IsCrlfAt(s, r.value)
    ensures r.Some? ==> forall j :: from <= j < r.value ==> !IsCrlfAt(s, j)
    ensures r.None? ==> forall j :: from <= j ==> !IsCrlfAt(s, j)
    decreases |s| - from
  {
    if from + 1 >= |s| then None
    else if IsCrlfAt(s, from) then Some(from)
    else FindCrlf(s, from + 1)
  }

  /** Splits off the first line and its CRLF. */
  function SplitLine(s: string): (r: Option<(string, string)>)
    ensures r.Some? ==> |r.value.1| < |s|
  {
    match FindCrlf(s, 0)
    case None => None
    case Some(i) => Some((s[..i], s[i + 2..]))
  }

  /** `HTTP-version SP status-code SP [reason-phrase]`, the version being
      "HTTP/" DIGIT "." DIGIT and the code three digits. */
  function ParseStatusLine(line: string): Option<(string, nat, string)>
  {
    if |line| >= 13 && line[..5] == "HTTP/" && Decimal.IsDigit(line[5]) && line[6] == '.'
       && Decimal.IsDigit(line[7]) && line[8] == ' ' && Decimal.AllDigits(line[9..12]) && line[12] == ' '
    then Some((line[..8], Decimal.Value(line[9..12]), line[13..]))
    else None
  }

  predicate IsTokenChar(c: char)
  {
    'A' <= c <= 'Z' || 'a' <= c <= 'z' || Decimal.IsDigit(c) || c in "!#$%&'*+-.^_`|~"
  }

  predicate IsToken(s: string)
  {
    |s| > 0 && forall i :: 0 <= i < |s| ==> IsTokenChar(s[i])
  }

  predicate IsOws(c: char)
  {
    c == ' ' || c == '\t'
  }

  /** Drops optional whitespace on both sides. */
  function TrimOws(s: string): string
  {
    var front := Text.CountWhile(s, IsOws);
    var rest := s[front..];
    rest[..|rest| - Text.CountWhileFromEnd(rest, IsOws)]
  }

  /** `field-name ":" OWS field-value OWS`. */
  function ParseField(line: string): Option<Field>
  {
    match Text.FirstIndex(line, ':')
    case None => None
    case Some(i) => if IsToken(line[..i]) then Some(Field(line[..i], TrimOws(line[i + 1..]))) else None
  }

  /** Field lines up to the empty line; returns them and what follows it. */
  function ParseFields(s: string): Option<(seq<Field>, string)>
    decreases |s|
  {
    match SplitLine(s)
    case None => None
    case Some((line, rest)) =>
      if line == "" then Some(([], rest))
      else match ParseField(line)
        case None => None
        case Some(f) =>
          match ParseFields(rest)
          case None => None
          case Some((fs, body)) => Some(([f] + fs, body))
  }

  function LowerCase(c: char): char
  {
    if 'A' <= c <= 'Z' then ((c as int) + 32) as char else c
  }

  /** Field names compare case-insensitively. */
  predicate SameName(a: string, b: string)
  {
    |a| == |b| && forall i :: 0 <= i < |a| ==> LowerCase(a[i]) == LowerCase(b[i])
  }

  /** The first Content-Length field decides the framing; its value must be digits. */
  function FramingOf(fields: seq<Field>): Framing
  {
    if |fields| == 0 then UntilClose
    else if SameName(fields[0].name, "content-length") then
      (var v := fields[0].value;
       if |v| > 0 && Decimal.AllDigits(v) then ByLength(Decimal.Value(v)) else Malformed)
    else FramingOf(fields[1..])
  }

  function ParseResponse(s: string): Option<Response>
  {
    match SplitLine(s)
    case None => None
    case Some((statusLine, afterStatus)) =>
      match ParseStatusLine(statusLine)
      case None => None
      case Some((version, status, reason)) =>
        match ParseFields(afterStatus)
        case None => None
        case Some((fields, payload)) =>
          match FramingOf(fields)
          case Malformed => None
          case UntilClose => Some(Response(version, status, reason, fields, payload))
          case ByLength(n) =>
            if |payload| < n then None else Some(Response(version, status, reason, fields, payload[..n]))
  }

  /** A line without CR is split off exactly at the CRLF that ends it. */
  lemma {:induction false} SplitLineAt(line: string, rest: string)
    requires '\r' !in line
    ensures SplitLine(line + Crlf + rest) == Some((line, rest))
  {
    var s := line + Crlf + rest;
    var k := |line|;
    assert IsCrlfAt(s, k);
    forall j | 0 <= j < k ensures !IsCrlfAt(s, j) {
      assert s[j] == line[j];
      assert line[j] in line;
    }
    var r := FindCrlf(s, 0);
    assert r == Some(k);
    assert s[..k] == line;
    assert s[k + 2..] == rest;
  }

  /** A token holds no colon, so the first colon of `name: value` ends the name. */
  lemma {:induction false} ColonAfterName(name: string, value: string)
    requires IsToken(name)
    ensures Text.FirstIndex(name + ": " + value, ':') == Some(|name|)
    ensures (name + ": " + value)[..|name|] == name
    ensures (name + ": " + value)[|name| + 1..] == " " + value
  {
    var line := name + ": " + value;
    var k := |name|;
    assert line[k] == ':';
    forall j | 0 <= j < k ensures line[j] != ':' {
      assert line[j] == name[j];
      assert IsTokenChar(name[j]);
    }
    Text.FirstIndexAt(line, ':', k);
    assert line[..k] == name;
    assert line[k + 1..] == " " + value;
  }

  /** The single space after the colon is optional whitespace and is dropped. */
  lemma {:induction false} TrimOneSpace(value: string)
    requires |value| > 0 && !IsOws(value[0]) && !IsOws(value[|value| - 1])
    ensures TrimOws(" " + value) == value
  {
    var v := " " + value;
    assert v[1..] == value;
    assert Text.CountWhile(v, IsOws) == 1;
    assert Text.CountWhileFromEnd(value, IsOws) == 0;
    assert value[..|value|] == value;
  }

  /** A field line `name: value` reads back as that field when the name is a token
      and the value has no surrounding whitespace. */
  lemma {:induction false} ParseFieldLine(name: string, value: string)
    requires IsToken(name)
    requires |value| > 0 && !IsOws(value[0]) && !IsOws(value[|value| - 1])
    ensures ParseField(name + ": " + value) == Some(Field(name, value))
  {
    ColonAfterName(name, value);
    TrimOneSpace(value);
  }

  /** The empty line ends the field section; the rest is the payload. */
  lemma {:induction false} FieldsEnd(payload: string)
    ensures ParseFields(Crlf + payload) == Some(([], payload))
  {
    SplitLineAt("", payload);
    assert "" + Crlf + payload == Crlf + payload;
  }

  /** A well-formed field line is read and parsing continues after it. */
  lemma {:induction false} FieldsCons(name: string, value: string, rest: string, fs: seq<Field>, payload: string)
    requires IsToken(name)
    requires |value| > 0 && !IsOws(value[0]) && !IsOws(value[|value| - 1])
    requires '\r' !in value
    requires ParseFields(rest) == Some((fs, payload))
    ensures ParseFields(name + ": " + value + Crlf + rest) == Some(([Field(name, value)] + fs, payload))
  {
    var line := name + ": " + value;
    var s := name + ": " + value + Crlf + rest;
    assert s == line + Crlf + rest;
    NoCrInFieldLine(name, value);
    SplitLineAt(line, rest);
    assert SplitLine(s) == Some((line, rest));
    ParseFieldLine(name, value);
    assert ParseField(line) == Some(Field(name, value));
    assert line != "" by {
      assert |line| >= 2;
    }
  }

  lemma NoCrInFieldLine(name: string, value: string)
    requires IsToken(name) && '\r' !in value
    ensures '\r' !in name + ": " + value
  {
    var line := name + ": " + value;
    forall j | 0 <= j < |line| ensures line[j] != '\r' {
      if j < |name| {
        assert line[j] == name[j] && IsTokenChar(name[j]);
      } else if j >= |name| + 2 {
        assert line[j] == value[j - |name| - 2];
      }
    }
  }

  /** A response whose parts read as given, framed by the length of what
      follows the fields, reads as that response. */
  lemma {:induction false} ReadsResponse(
    s: string, line: string, rest: string, version: string, status: nat, reason: string,
    fields: seq<Field>, body: string)
    requires SplitLine(s) == Some((line, rest))
    requires ParseStatusLine(line) == Some((version, status, reason))
    requires ParseFields(rest) == Some((fields, body))
    requires FramingOf(fields) == ByLength(|body|)
    ensures ParseResponse(s) == Some(Response(version, status, reason, fields, body))
  {
    assert body[..|body|] == body;
  }
}
