/** `testing/testserver.cpp`: the stand-in backend. It picks its port from the
    command line and answers every connection with a small HTML page. Sockets
    are left out; the time shown in the page is an input. */
module TestServer {
  import opened Outcomes
  import Decimal
  import Text
  import Http

  const DefaultPort: int := 8080
  const MaxPort: int := 65535
  const IntMin: int := -0x8000_0000
  const IntMax: int := 0x7FFF_FFFF

  /** `std::stoi`: a value, or the exception it throws. */
  datatype Conversion = Converted(value: int) | InvalidArgument | OutOfRange

  /** What `main` does after reading its arguments: listen, or return a status. */
  datatype Start = Listen(port: int) | Exit(status: int)

  /** `isspace` in the "C" locale. */
  predicate IsSpace(c: char)
  {
    c == ' ' || c == '\t' || c == '\n' || c == '\r' || c == '\U{B}' || c == '\U{C}'
  }

  predicate IsSign(c: char)
  {
    c == '+' || c == '-'
  }

  /** `std::stoi(s)`, i.e. `strtol(s, &end, 10)` with its checks: leading white
      space and one sign are skipped, the longest digit run is read, and whatever
      follows is ignored. No digits throws `invalid_argument`; a value outside
      `int` throws `out_of_range`. */
  function Stoi(s: string): Conversion
  {
    ConvertSigned(s[Text.CountWhile(s, IsSpace)..])
  }

  /** The part of `Stoi` after the white space: an optional sign, then digits. */
  function ConvertSigned(t: string): Conversion
  {
    var signed := |t| > 0 && IsSign(t[0]);
    var u := if signed then t[1..] else t;
    var n := Text.CountWhile(u, Decimal.IsDigit);
    if n == 0 then InvalidArgument
    else
      var magnitude: int := Decimal.Value(u[..n]);
      var v: int := if signed && t[0] == '-' then 0 - magnitude else magnitude;
      if v < IntMin || v > IntMax then OutOfRange else Converted(v)
  }

  /** The port selection at the top of `main`: 8080 without an argument;
      otherwise the first argument, which must convert and lie in [1, 65535],
      else the program returns 1. */
  function SelectPort(argv: seq<string>): (r: Start)
    ensures r.Listen? ==> 1 <= r.port <= MaxPort
    ensures r.Exit? ==> r.status == 1 && |argv| > 1
    ensures |argv| <= 1 ==> r == Listen(DefaultPort)
    ensures |argv| > 1 && !Stoi(argv[1]).Converted? ==> r == Exit(1)
    ensures |argv| > 1 && Stoi(argv[1]).Converted? ==>
      (r.Listen? <==> 1 <= Stoi(argv[1]).value <= MaxPort) && (r.Listen? ==> r.port == Stoi(argv[1]).value)
  {
    if |argv| > 1 then
      match Stoi(argv[1])
      case Converted(v) => if v <= 0 || v > MaxPort then Exit(1) else Listen(v)
      case _ => Exit(1)
    else Listen(DefaultPort)
  }

  const PageStart: string := "<html><body>" + "<h1>Hello from C++ HTTP Server (Windows)</h1>"
  const PageEnd: string := "</body></html>"

  function PortLine(port: int): string
  {
    "<p>Server running on port: " + Decimal.IntToString(port) + "</p>"
  }

  function TimeLine(time: int): string
  {
    "<p>Time: " + Decimal.IntToString(time) + "</p>"
  }

  /** The page: a heading, the port and the time, each in decimal. */
  function ResponseBody(port: int, time: int): string
  {
    PageStart + PortLine(port) + TimeLine(time) + PageEnd
  }

  const StatusLine: string := "HTTP/1.1 200 OK"
  const ContentTypeLine: string := "Content-Type: text/html"
  const ConnectionLine: string := "Connection: close"

  /** The bytes sent: status line, three header fields, an empty line, the body. */
  function BuildResponse(body: string): string
  {
    StatusLine + "\r\n" + ContentTypeLine + "\r\n"
    + "Content-Length: " + Decimal.NatToString(|body|) + "\r\n"
    + ConnectionLine + "\r\n" + "\r\n" + body
  }

  /** The fields the server sends for a body of `length` bytes. */
  function SentFields(length: nat): seq<Http.Field>
  {
    [Http.Field("Content-Type", "text/html"),
     Http.Field("Content-Length", Decimal.NatToString(length)),
     Http.Field("Connection", "close")]
  }

  /** Magnitude of a digit run with its optional sign. */
  function SignedValue(sign: string, digits: string): int
    requires Decimal.AllDigits(digits)
  {
    if sign == "-" then 0 - Decimal.Value(digits) else Decimal.Value(digits)
  }

  /** Every string that starts, after white space and an optional sign, with a
      digit run converts to the run's signed value, or throws `out_of_range`
      when that leaves `int`. Whatever follows the digits is ignored. */
  lemma {:induction false} StoiReadsNumeral(spaces: string, sign: string, digits: string, rest: string)
    requires forall i :: 0 <= i < |spaces| ==> IsSpace(spaces[i])
    requires sign == "" || sign == "+" || sign == "-"
    requires |digits| > 0 && Decimal.AllDigits(digits)
    requires rest == "" || !Decimal.IsDigit(rest[0])
    ensures Stoi(spaces + sign + digits + rest) ==
      var v := SignedValue(sign, digits);
      if IntMin <= v <= IntMax then Converted(v) else OutOfRange
  {
    var tail := sign + digits + rest;
    assert spaces + sign + digits + rest == spaces + tail;
    assert !IsSpace(tail[0]) by {
      if sign == "" {
        assert tail[0] == digits[0];
      }
    }
    StoiAfterSpaces(spaces, tail);
    ConvertSignedReads(sign, digits, rest);
  }

  /** A digit run followed by a non-digit is read up to its end. */
  lemma DigitRun(digits: string, rest: string)
    requires Decimal.AllDigits(digits)
    requires rest == "" || !Decimal.IsDigit(rest[0])
    ensures Text.CountWhile(digits + rest, Decimal.IsDigit) == |digits|
    ensures (digits + rest)[..|digits|] == digits
  {
    Text.CountWhileOfConcat(digits, rest, Decimal.IsDigit);
  }

  /** `ConvertSigned` on an unsigned digit run. */
  lemma {:induction false} ConvertUnsignedReads(digits: string, rest: string)
    requires |digits| > 0 && Decimal.AllDigits(digits)
    requires rest == "" || !Decimal.IsDigit(rest[0])
    ensures ConvertSigned(digits + rest) ==
      var v := SignedValue("", digits);
      if IntMin <= v <= IntMax then Converted(v) else OutOfRange
  {
    var u := digits + rest;
    DigitRun(digits, rest);
    assert !IsSign(u[0]) by {
      assert u[0] == digits[0];
    }
  }

  /** `ConvertSigned` on a digit run after a sign. */
  lemma {:induction false} ConvertWithSignReads(sign: string, digits: string, rest: string)
    requires sign == "+" || sign == "-"
    requires |digits| > 0 && Decimal.AllDigits(digits)
    requires rest == "" || !Decimal.IsDigit(rest[0])
    ensures ConvertSigned(sign + digits + rest) ==
      var v := SignedValue(sign, digits);
      if IntMin <= v <= IntMax then Converted(v) else OutOfRange
  {
    var t := sign + digits + rest;
    DigitRun(digits, rest);
    assert t[1..] == digits + rest;
    assert t[0] == sign[0];
  }

  lemma ConvertSignedReads(sign: string, digits: string, rest: string)
    requires sign == "" || sign == "+" || sign == "-"
    requires |digits| > 0 && Decimal.AllDigits(digits)
    requires rest == "" || !Decimal.IsDigit(rest[0])
    ensures ConvertSigned(sign + digits + rest) ==
      var v := SignedValue(sign, digits);
      if IntMin <= v <= IntMax then Converted(v) else OutOfRange
  {
    if sign == "" {
      assert sign + digits + rest == digits + rest;
      ConvertUnsignedReads(digits, rest);
    } else {
      ConvertWithSignReads(sign, digits, rest);
    }
  }

  /** Leading white space is skipped. */
  lemma StoiAfterSpaces(spaces: string, tail: string)
    requires forall i :: 0 <= i < |spaces| ==> IsSpace(spaces[i])
    requires tail == "" || !IsSpace(tail[0])
    ensures Stoi(spaces + tail) == ConvertSigned(tail)
  {
    Text.CountWhileOfConcat(spaces, tail, IsSpace);
    assert (spaces + tail)[|spaces|..] == tail;
  }

  /** Every string whose first character after white space and an optional sign
      is not a digit throws `invalid_argument`. */
  lemma {:induction false} StoiWithoutDigits(spaces: string, sign: string, rest: string)
    requires forall i :: 0 <= i < |spaces| ==> IsSpace(spaces[i])
    requires sign == "" || sign == "+" || sign == "-"
    requires rest == "" || !Decimal.IsDigit(rest[0])
    requires sign == "" && rest != "" ==> !IsSpace(rest[0]) && !IsSign(rest[0])
    ensures Stoi(spaces + sign + rest) == InvalidArgument
  {
    var tail := sign + rest;
    assert spaces + sign + rest == spaces + tail;
    if sign == "" {
      assert tail == rest;
    } else {
      assert tail[1..] == rest;
    }
    StoiAfterSpaces(spaces, tail);
  }

  /** A port written as the server's own decimal rendering is accepted as is. */
  lemma SelectPortReadsDecimal(program: string, port: int)
    requires 1 <= port <= MaxPort
    ensures SelectPort([program, Decimal.IntToString(port)]) == Listen(port)
  {
    var d := Decimal.NatToString(port);
    Decimal.ValueOfNatToString(port);
    StoiReadsNumeral("", "", d, "");
    assert "" + "" + d + "" == d;
  }

  /** A numeral outside [1, 65535] makes the program return 1 before any socket
      is created. */
  lemma SelectPortRejectsOutOfRange(program: string, sign: string, digits: string)
    requires sign == "" || sign == "-"
    requires |digits| > 0 && Decimal.AllDigits(digits)
    requires SignedValue(sign, digits) <= 0 || SignedValue(sign, digits) > MaxPort
    ensures SelectPort([program, sign + digits]) == Exit(1)
  {
    var arg := sign + digits;
    StoiOfNumeral(sign, digits);
    var argv := [program, arg];
    assert |argv| > 1 && argv[1] == arg;
    assert !(Stoi(arg).Converted? && 0 < Stoi(arg).value <= MaxPort);
  }

  /** A bare numeral, with nothing around it. */
  lemma StoiOfNumeral(sign: string, digits: string)
    requires sign == "" || sign == "+" || sign == "-"
    requires |digits| > 0 && Decimal.AllDigits(digits)
    ensures Stoi(sign + digits) ==
      var v := SignedValue(sign, digits);
      if IntMin <= v <= IntMax then Converted(v) else OutOfRange
  {
    var t := sign + digits;
    assert !IsSpace(t[0]) by {
      if sign == "" {
        assert t[0] == digits[0];
      }
    }
    assert "" + t == t;
    StoiAfterSpaces("", t);
    assert t + "" == t;
    ConvertSignedReads(sign, digits, "");
  }

  /** What `std::to_string` writes, `std::stoi` reads back: every `int`
      survives the round trip. */
  lemma StoiOfIntToString(v: int)
    requires IntMin <= v <= IntMax
    ensures Stoi(Decimal.IntToString(v)) == Converted(v)
  {
    if v < 0 {
      var digits := Decimal.NatToString(-v);
      Decimal.ValueOfNatToString(-v);
      StoiOfNumeral("-", digits);
    } else {
      var digits := Decimal.NatToString(v);
      Decimal.ValueOfNatToString(v);
      StoiOfNumeral("", digits);
      assert "" + digits == digits;
    }
  }

  /** The page shows the port in decimal. */
  lemma {:induction false} BodyShowsPort(port: int, time: int)
    ensures Text.Contains(ResponseBody(port, time), PortLine(port))
  {
    var before := PageStart;
    var line := PortLine(port);
    var after := TimeLine(time) + PageEnd;
    assert ResponseBody(port, time) == before + line + after;
    Text.ContainsMiddle(before, line, after);
  }

  /** The last field line, then the empty line. */
  lemma {:induction false} ConnectionFieldReads(body: string)
    ensures Http.ParseFields("Connection" + ": " + "close" + Http.Crlf + (Http.Crlf + body))
      == Some(([Http.Field("Connection", "close")], body))
  {
    ConnectionIsToken();
    Http.FieldsEnd(body);
    Http.FieldsCons("Connection", "close", Http.Crlf + body, [], body);
    assert [Http.Field("Connection", "close")] + [] == [Http.Field("Connection", "close")];
  }

  /** The Content-Length line, followed by fields that read as `fs`. */
  lemma {:induction false} LengthFieldReads(d: string, rest: string, fs: seq<Http.Field>, body: string)
    requires Decimal.Canonical(d)
    requires Http.ParseFields(rest) == Some((fs, body))
    ensures Http.ParseFields("Content-Length" + ": " + d + Http.Crlf + rest)
      == Some(([Http.Field("Content-Length", d)] + fs, body))
  {
    ContentLengthIsToken();
    assert '\r' !in d by {
      forall j | 0 <= j < |d| ensures d[j] != '\r' {
        assert Decimal.IsDigit(d[j]);
      }
    }
    Http.FieldsCons("Content-Length", d, rest, fs, body);
  }

  /** The Content-Type line, followed by fields that read as `fs`. */
  lemma {:induction false} TypeFieldReads(rest: string, fs: seq<Http.Field>, body: string)
    requires Http.ParseFields(rest) == Some((fs, body))
    ensures Http.ParseFields("Content-Type" + ": " + "text/html" + Http.Crlf + rest)
      == Some(([Http.Field("Content-Type", "text/html")] + fs, body))
  {
    ContentTypeIsToken();
    Http.FieldsCons("Content-Type", "text/html", rest, fs, body);
  }

  /** The header fields, grouped one line at a time, read back as `SentFields`. */
  lemma {:induction false} GroupedFieldsReadBack(d: string, body: string)
    requires d == Decimal.NatToString(|body|)
    ensures Http.ParseFields("Content-Type" + ": " + "text/html" + Http.Crlf
      + ("Content-Length" + ": " + d + Http.Crlf + ("Connection" + ": " + "close" + Http.Crlf + (Http.Crlf + body))))
      == Some((SentFields(|body|), body))
  {
    var r3 := "Connection" + ": " + "close" + Http.Crlf + (Http.Crlf + body);
    var r2 := "Content-Length" + ": " + d + Http.Crlf + r3;
    var f3 := Http.Field("Connection", "close");
    var f2 := Http.Field("Content-Length", d);
    var f1 := Http.Field("Content-Type", "text/html");
    ConnectionFieldReads(body);
    LengthFieldReads(d, r3, [f3], body);
    TypeFieldReads(r2, [f2] + [f3], body);
    assert [f1] + ([f2] + [f3]) == SentFields(|body|);
  }

  /** The header fields the server sends read back as `SentFields`, and what
      follows the empty line is the body. */
  lemma {:induction false} FieldsReadBack(body: string)
    ensures Http.ParseFields(
      ContentTypeLine + "\r\n" + ("Content-Length: " + Decimal.NatToString(|body|)) + "\r\n"
      + ConnectionLine + "\r\n" + "\r\n" + body) == Some((SentFields(|body|), body))
  {
    var d := Decimal.NatToString(|body|);
    FieldLinesRegrouped(d, body);
    GroupedFieldsReadBack(d, body);
  }

  lemma ContentTypeIsToken()
    ensures Http.IsToken("Content-Type")
  {
  }

  lemma ContentLengthIsToken()
    ensures Http.IsToken("Content-Length")
  {
  }

  lemma ConnectionIsToken()
    ensures Http.IsToken("Connection")
  {
  }

  /** The constant field lines are `name: value`. */
  lemma FieldLinesSplit()
    ensures ContentTypeLine == "Content-Type" + ": " + "text/html"
    ensures ConnectionLine == "Connection" + ": " + "close"
    ensures Http.Crlf == "\r\n"
  {
  }

  lemma ContentLengthLineSplit(d: string)
    ensures "Content-Length: " + d == "Content-Length" + ": " + d
  {
  }

  /** The field section as the server writes it, regrouped line by line. */
  lemma FieldLinesRegrouped(d: string, body: string)
    ensures "Content-Type" + ": " + "text/html" + Http.Crlf
      + ("Content-Length" + ": " + d + Http.Crlf + ("Connection" + ": " + "close" + Http.Crlf + (Http.Crlf + body)))
      == ContentTypeLine + "\r\n" + ("Content-Length: " + d) + "\r\n" + ConnectionLine + "\r\n" + "\r\n" + body
  {
    FieldLinesSplit();
    ContentLengthLineSplit(d);
    Regroup(ContentTypeLine, "Content-Length: " + d, ConnectionLine, Http.Crlf, body);
  }

  /** Concatenation regrouped: five lines, each closed by the same terminator. */
  lemma Regroup(a: string, b: string, c: string, e: string, body: string)
    ensures a + e + (b + e + (c + e + (e + body))) == a + e + b + e + c + e + e + body
  {
  }

  /** The sent fields frame the body by its exact length. */
  lemma SentFieldsFrameBody(length: nat)
    ensures Http.FramingOf(SentFields(length)) == Http.ByLength(length)
  {
    var fields := SentFields(length);
    assert !Http.SameName(fields[0].name, "content-length");
    assert Http.SameName(fields[1].name, "content-length");
    assert fields[1..][0] == fields[1];
    Decimal.ValueOfNatToString(length);
  }

  /** Reading the server's response as HTTP/1.1 gives status 200 "OK", the three
      fields sent, and exactly the body: Content-Length equals the body's length,
      the header block ends with an empty line, and the body follows verbatim. */
  lemma {:induction false} ResponseReadsBack(body: string)
    ensures Http.ParseResponse(BuildResponse(body))
      == Some(Http.Response("HTTP/1.1", 200, "OK", SentFields(|body|), body))
    ensures Http.FramingOf(SentFields(|body|)) == Http.ByLength(|body|)
  {
    var d := Decimal.NatToString(|body|);
    var rest := ContentTypeLine + "\r\n" + ("Content-Length: " + d) + "\r\n"
      + ConnectionLine + "\r\n" + "\r\n" + body;
    StatusLineSplitsOff(d, body);
    Http.SplitLineAt(StatusLine, rest);
    StatusLineReadsBack();
    FieldsReadBack(body);
    SentFieldsFrameBody(|body|);
    Http.ReadsResponse(BuildResponse(body), StatusLine, rest, "HTTP/1.1", 200, "OK", SentFields(|body|), body);
  }

  /** The response is the status line, a CRLF, and the rest. */
  lemma StatusLineSplitsOff(d: string, body: string)
    requires d == Decimal.NatToString(|body|)
    ensures BuildResponse(body) == StatusLine + Http.Crlf
      + (ContentTypeLine + "\r\n" + ("Content-Length: " + d) + "\r\n" + ConnectionLine + "\r\n" + "\r\n" + body)
  {
    FieldLinesSplit();
    RegroupAfterStatus(StatusLine, ContentTypeLine, "Content-Length: ", d, ConnectionLine, Http.Crlf, body);
  }

  lemma RegroupAfterStatus(s0: string, a: string, p: string, d: string, c: string, e: string, body: string)
    ensures s0 + e + a + e + p + d + e + c + e + e + body
      == s0 + e + (a + e + (p + d) + e + c + e + e + body)
  {
  }

  lemma StatusLineReadsBack()
    ensures Http.ParseStatusLine(StatusLine) == Some(("HTTP/1.1", 200, "OK"))
  {
    var line := StatusLine;
    assert line[..5] == "HTTP/";
    assert line[..8] == "HTTP/1.1";
    assert line[13..] == "OK";
    assert line[9..12] == "200";
    assert Decimal.Value("200") == 200 by {
      assert "200"[..2] == "20" && "20"[..1] == "2" && "2"[..0] == "";
    }
  }
}
