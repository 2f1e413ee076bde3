/**
 * The response builder of the server: a status line chosen by the status
 * code, then (for the codes it answers) Date, Content-Length, Connection
 * and, for a served GET, Content-Type and Last-Modified headers, a blank
 * line and the body. The layout follows the status-line and header-field
 * grammar of sections 4 and 5 of RFC 9112: `HTTP-version SP status-code
 * SP reason-phrase CRLF`, then `field-name ": " field-value CRLF`.
 *
 * The response is built as a value (`Reply`) and rendered to text; the
 * parser beside it reads the text back, which is how a client uses it.
 */
module Response {
  import opened JavaString
  import opened Validator

  /** One header field. */
  datatype Header = Header(name: string, value: string)

  /** The part after the status line: headers, the blank line, the body. */
  datatype Message = Message(headers: seq<Header>, body: string)

  /** A response: its code and, unless only the status line is written,
      its message. */
  datatype Reply = Reply(code: int, message: Option<Message>)

  /** What the response depends on outside the request: the content of a
      file (readFile, empty when the file is missing) and the text of its
      last-modified date, both by path. */
  datatype Env = Env(readFile: string -> string, lastModified: string -> string)

  // ---------------------------------------------------------------------
  // The status line
  // ---------------------------------------------------------------------

  /** The reason phrases of answerPutStatus's switch; no other code writes
      a status line. */
  function ReasonPhrase(code: int): (r: Option<string>)
    ensures r.Some? ==> 100 <= code <= 505 && '\r' !in r.value
  {
    match code
    case 100 => Some("Continue")
    case 200 => Some("OK")
    case 301 => Some("Moved Permanently")
    case 304 => Some("Not Modified")
    case 400 => Some("Bad Request")
    case 401 => Some("Unauthorized")
    case 404 => Some("Not Found")
    case 501 => Some("Not Implemented")
    case 503 => Some("Service Unavailable")
    case 505 => Some("Version Not Supported")
    case _ => None
  }

  /** The status line for `code`, CRLF included; empty for a code outside
      the table. */
  function StatusLine(code: int): string {
    match ReasonPhrase(code)
    case None => ""
    case Some(phrase) => "HTTP/1.1 " + IntToString(code as nat) + " " + phrase + CRLF
  }

  /** Every status numStatus can produce has a status line. */
  lemma ValidatedCodesHavePhrase(v: Validation)
    requires v.Status? && v.code in {200, 400, 404, 501, 503, 505}
    ensures ReasonPhrase(v.code).Some?
  {
  }

  // ---------------------------------------------------------------------
  // The message
  // ---------------------------------------------------------------------

  /** The file a target names: "/" is index.html, otherwise the target
      without its leading '/'. */
  function ResourcePath(url: string): string
    requires url != ""
  {
    if url != "/" then url[1..] else "index.html"
  }

  /** The headers of every reply but a served GET. */
  function PlainHeaders(now: string): seq<Header> {
    [Header("Date", now), Header("Content-Length", IntToString(0)), Header("Connection", "keep-alive")]
  }

  /** What answerPutStatus and answerBody write for `code`, given the
      current date `now`; None when answerBody throws (a status 200 for a
      request line with fewer than two tokens, or an empty target). */
  function AnswerFor(requestLine: string, code: int, now: string, env: Env): Option<Reply> {
    if code != 200 then Some(Reply(code, Some(Message(PlainHeaders(now), ""))))
    else
      var tokens := Split(requestLine, " ");
      if |tokens| < 2 || tokens[1] == "" then None
      else
        var path := ResourcePath(tokens[1]);
        if tokens[0] == "GET" then
          var content := env.readFile(path);
          Some(Reply(200, Some(Message(GetHeaders(now, |content|, env.lastModified(path)), content))))
        else if tokens[0] == "POST" then Some(Reply(200, Some(Message(PlainHeaders(now), ""))))
        else Some(Reply(200, None))
  }

  /** One header line, CRLF included. */
  function HeaderLine(h: Header): string {
    h.name + ": " + h.value + CRLF
  }

  function RenderHeaders(headers: seq<Header>): string
    decreases |headers|
  {
    if headers == [] then "" else HeaderLine(headers[0]) + RenderHeaders(headers[1..])
  }

  /** The rendering of three and of five headers, line by line. */
  lemma RenderThree(hs: seq<Header>)
    requires |hs| == 3
    ensures RenderHeaders(hs) == HeaderLine(hs[0]) + HeaderLine(hs[1]) + HeaderLine(hs[2])
  {
    var a, b, c := HeaderLine(hs[0]), HeaderLine(hs[1]), HeaderLine(hs[2]);
    assert hs[2..][1..] == [];
    assert RenderHeaders(hs[2..]) == c;
    assert hs[1..][1..] == hs[2..];
    assert RenderHeaders(hs[1..]) == b + c;
    assert RenderHeaders(hs) == a + (b + c);
    Assoc3(a, b, c);
  }

  lemma Assoc3(a: string, b: string, c: string)
    ensures a + (b + c) == a + b + c
  {
  }

  lemma RenderFive(hs: seq<Header>)
    requires |hs| == 5
    ensures RenderHeaders(hs) ==
      HeaderLine(hs[0]) + HeaderLine(hs[1]) + HeaderLine(hs[2]) + HeaderLine(hs[3]) + HeaderLine(hs[4])
  {
    var a, b, c, d, e := HeaderLine(hs[0]), HeaderLine(hs[1]), HeaderLine(hs[2]), HeaderLine(hs[3]), HeaderLine(hs[4]);
    assert hs[4..][1..] == [];
    assert RenderHeaders(hs[4..]) == e;
    assert hs[3..][1..] == hs[4..];
    assert RenderHeaders(hs[3..]) == d + e;
    assert hs[2..][1..] == hs[3..];
    assert RenderHeaders(hs[2..]) == c + (d + e);
    assert hs[1..][1..] == hs[2..];
    assert RenderHeaders(hs[1..]) == b + (c + (d + e));
    assert RenderHeaders(hs) == a + (b + (c + (d + e)));
    Assoc5(a, b, c, d, e);
  }

  lemma Assoc5(a: string, b: string, c: string, d: string, e: string)
    ensures a + (b + (c + (d + e))) == a + b + c + d + e
  {
  }

  function RenderMessage(m: Option<Message>): string {
    match m
    case None => ""
    case Some(msg) => RenderHeaders(msg.headers) + CRLF + msg.body
  }

  /** The text sent for a reply. */
  function Render(r: Reply): string {
    StatusLine(r.code) + RenderMessage(r.message)
  }

  // ---------------------------------------------------------------------
  // Reading a response back
  // ---------------------------------------------------------------------

  /** A status line without its CRLF: "HTTP/1.1 ", a code, a space and the
      phrase; the phrase must be the code's own. */
  function ParseStatusLine(line: string): Option<int> {
    if |line| < 9 || line[..9] != "HTTP/1.1 " then None
    else
      var rest := line[9..];
      match Find(rest, " ")
      case None => None
      case Some(k) =>
        match ParseInt(rest[..k])
        case None => None
        case Some(code) => if ReasonPhrase(code) == Some(rest[k + 1..]) then Some(code) else None
  }

  /** Header lines up to the blank line, then the body. */
  function ParseHeaders(s: string): Option<(seq<Header>, string)>
    decreases |s|
  {
    match Find(s, CRLF)
    case None => None
    case Some(k) =>
      if k == 0 then Some(([], s[2..]))
      else
        var line := s[..k];
        match Find(line, ": ")
        case None => None
        case Some(j) =>
          match ParseHeaders(s[k + 2..])
          case None => None
          case Some(parsed) => Some(([Header(line[..j], line[j + 2..])] + parsed.0, parsed.1))
  }

  /** A whole response: the status line, then nothing or a message. */
  function ParseReply(text: string): Option<Reply> {
    match Find(text, CRLF)
    case None => None
    case Some(k) =>
      match ParseStatusLine(text[..k])
      case None => None
      case Some(code) =>
        var rest := text[k + 2..];
        if rest == "" then Some(Reply(code, None))
        else match ParseHeaders(rest)
          case None => None
          case Some(parsed) => Some(Reply(code, Some(Message(parsed.0, parsed.1))))
  }

  /** A header that survives the round trip: no ':' in its name, no
      carriage return in either part. */
  predicate HeaderWellFormed(h: Header) {
    ':' !in h.name && '\r' !in h.name && '\r' !in h.value
  }

  predicate WellFormed(r: Reply) {
    ReasonPhrase(r.code).Some? &&
    (r.message.Some? ==> forall i :: 0 <= i < |r.message.value.headers| ==> HeaderWellFormed(r.message.value.headers[i]))
  }

  /** The status line reads back as its code. */
  lemma StatusLineRoundTrip(code: int)
    requires ReasonPhrase(code).Some?
    ensures StatusLine(code) == StatusLine(code)[..|StatusLine(code)| - 2] + CRLF
    ensures '\r' !in StatusLine(code)[..|StatusLine(code)| - 2]
    ensures ParseStatusLine(StatusLine(code)[..|StatusLine(code)| - 2]) == Some(code)
  {
    var phrase := ReasonPhrase(code).value;
    var digits := IntToString(code as nat);
    var line := "HTTP/1.1 " + digits + " " + phrase;
    assert StatusLine(code) == line + CRLF;
    assert StatusLine(code)[..|StatusLine(code)| - 2] == line;
    assert forall i :: 0 <= i < |digits| ==> IsDigit(digits[i]);
    assert '\r' !in line;
    assert line[..9] == "HTTP/1.1 ";
    var rest := line[9..];
    assert rest == digits + " " + phrase;
    FindAfterFree(digits, " ", phrase);
    assert rest[..|digits|] == digits;
    assert rest[|digits| + 1..] == phrase;
    ParseIntToString(code as nat);
  }

  /** Header lines followed by the blank line read back as themselves,
      whatever body follows. */
  lemma {:induction false} HeadersRoundTrip(headers: seq<Header>, body: string)
    requires forall i :: 0 <= i < |headers| ==> HeaderWellFormed(headers[i])
    ensures ParseHeaders(RenderHeaders(headers) + CRLF + body) == Some((headers, body))
    decreases |headers|
  {
    var s := RenderHeaders(headers) + CRLF + body;
    if headers == [] {
      assert s == "" + CRLF + body;
      FindAfterFree("", CRLF, body);
      assert s[2..] == body;
    } else {
      var h := headers[0];
      var line := h.name + ": " + h.value;
      var rest := RenderHeaders(headers[1..]) + CRLF + body;
      assert s == line + CRLF + rest;
      assert '\r' !in line;
      FindAfterFree(line, CRLF, rest);
      assert s[..|line|] == line;
      assert s[|line| + 2..] == rest;
      FindAfterFree(h.name, ": ", h.value);
      assert line[..|h.name|] == h.name;
      assert line[|h.name| + 2..] == h.value;
      HeadersRoundTrip(headers[1..], body);
      assert [h] + headers[1..] == headers;
    }
  }

  /** Rendering a well-formed reply and parsing the text gives it back. */
  lemma ReplyRoundTrip(r: Reply)
    requires WellFormed(r)
    ensures ParseReply(Render(r)) == Some(r)
  {
    StatusLineRoundTrip(r.code);
    var status := StatusLine(r.code);
    var line := status[..|status| - 2];
    var rest := RenderMessage(r.message);
    assert Render(r) == line + CRLF + rest;
    FindAfterFree(line, CRLF, rest);
    assert Render(r)[..|line|] == line;
    assert Render(r)[|line| + 2..] == rest;
    match r.message
    case None =>
    case Some(m) =>
      HeadersRoundTrip(m.headers, m.body);
      assert |rest| >= 2;
  }

  // ---------------------------------------------------------------------
  // What the builder promises
  // ---------------------------------------------------------------------

  /** The headers of a served GET, for a file of `size` characters
      modified at `modified`. */
  function GetHeaders(now: string, size: nat, modified: string): seq<Header> {
    [Header("Date", now), Header("Content-Length", IntToString(size)),
     Header("Content-Type", "text/html"), Header("Connection", "keep-alive"),
     Header("Last-Modified", modified)]
  }

  lemma DecimalWellFormed(name: string, n: nat)
    requires ':' !in name && '\r' !in name
    ensures HeaderWellFormed(Header(name, IntToString(n)))
  {
    var v := IntToString(n);
    assert forall k :: 0 <= k < |v| ==> IsDigit(v[k]);
  }

  lemma PlainWellFormed(now: string)
    requires '\r' !in now
    ensures forall i :: 0 <= i < |PlainHeaders(now)| ==> HeaderWellFormed(PlainHeaders(now)[i])
  {
    DecimalWellFormed("Content-Length", 0);
  }

  lemma GetWellFormed(now: string, size: nat, modified: string)
    requires '\r' !in now && '\r' !in modified
    ensures forall i :: 0 <= i < |GetHeaders(now, size, modified)| ==> HeaderWellFormed(GetHeaders(now, size, modified)[i])
  {
    var hs := GetHeaders(now, size, modified);
    FieldNamesWellFormed(now, size, modified);
    forall i | 0 <= i < 5 ensures HeaderWellFormed(hs[i]) {
      assert hs[i] in hs;
    }
  }

  lemma FieldNamesWellFormed(now: string, size: nat, modified: string)
    requires '\r' !in now && '\r' !in modified
    ensures forall h :: h in GetHeaders(now, size, modified) ==> HeaderWellFormed(h)
  {
    DecimalWellFormed("Content-Length", size);
    LiteralWellFormed();
  }

  lemma LiteralWellFormed()
    ensures ':' !in "Date" && '\r' !in "Date"
    ensures ':' !in "Content-Type" && '\r' !in "Content-Type" && '\r' !in "text/html"
    ensures ':' !in "Connection" && '\r' !in "Connection" && '\r' !in "keep-alive"
    ensures ':' !in "Last-Modified" && '\r' !in "Last-Modified"
  {
  }

  /** The headers the builder writes are well formed when the date texts
      carry no carriage return. */
  lemma AnswerWellFormed(requestLine: string, code: int, now: string, env: Env)
    requires ReasonPhrase(code).Some?
    requires '\r' !in now
    requires forall path :: '\r' !in env.lastModified(path)
    requires AnswerFor(requestLine, code, now, env).Some?
    ensures WellFormed(AnswerFor(requestLine, code, now, env).value)
  {
    PlainWellFormed(now);
    if code == 200 {
      var tokens := Split(requestLine, " ");
      var path := ResourcePath(tokens[1]);
      GetWellFormed(now, |env.readFile(path)|, env.lastModified(path));
    }
  }

  /** A validated status never makes answerBody throw. */
  lemma ValidatedAnswered(requestLine: string, allRequest: string, admitted: bool, check: LengthCheck,
                          now: string, env: Env)
    requires StatusOf(requestLine, allRequest, admitted, check).Status?
    ensures AnswerFor(requestLine, StatusOf(requestLine, allRequest, admitted, check).code, now, env).Some?
  {
  }

  /** The Content-Length header always states the length of the body that
      follows it (file contents being shorter than 2^31 characters, as
      Java strings are). */
  lemma ContentLengthMatchesBody(requestLine: string, code: int, now: string, env: Env)
    requires forall path :: |env.readFile(path)| <= MaxInt
    requires AnswerFor(requestLine, code, now, env).Some?
    requires AnswerFor(requestLine, code, now, env).value.message.Some?
    ensures var m := AnswerFor(requestLine, code, now, env).value.message.value;
      exists i :: 0 <= i < |m.headers| && m.headers[i].name == "Content-Length" &&
        ParseInt(m.headers[i].value) == Some(|m.body|)
  {
    var m := AnswerFor(requestLine, code, now, env).value.message.value;
    assert m.headers[1].name == "Content-Length";
    ParseIntToString(|m.body|);
  }

  /** A served GET answers with the file its target names; "/" and
      "/index.html" name the same file. */
  lemma GetServesFile(requestLine: string, now: string, env: Env)
    requires |Split(requestLine, " ")| >= 2 && Split(requestLine, " ")[0] == "GET"
    requires Split(requestLine, " ")[1] in {"/", "/index.html"}
    ensures AnswerFor(requestLine, 200, now, env) ==
      Some(Reply(200, Some(Message(
        GetHeaders(now, |env.readFile("index.html")|, env.lastModified("index.html")),
        env.readFile("index.html")))))
  {
    var url := Split(requestLine, " ")[1];
    if url == "/index.html" {
      assert url[1..] == "index.html";
    }
  }

  /** Every reply but a served GET has an empty body announced as such. */
  lemma OtherRepliesEmpty(requestLine: string, code: int, now: string, env: Env)
    requires AnswerFor(requestLine, code, now, env).Some?
    requires code != 200 || Split(requestLine, " ")[0] != "GET"
    ensures var r := AnswerFor(requestLine, code, now, env).value;
      r.code == code &&
      (r.message.Some? ==> r.message.value == Message(PlainHeaders(now), ""))
  {
  }

  // ---------------------------------------------------------------------
  // The builder as the handler runs it
  // ---------------------------------------------------------------------

  /** The answer buffer. */
  class StringBuilder {
    var text: string

    constructor ()
      ensures text == ""
    {
      text := "";
    }

    method Append(s: string)
      modifies this
      ensures text == old(text) + s
    {
      text := text + s;
    }
  }

  /** answerPutStatus: appends the status line of `errorNum`, or nothing
      for a code outside the table. */
  method AnswerPutStatus(sbAnswer: StringBuilder, errorNum: int)
    modifies sbAnswer
    ensures sbAnswer.text == old(sbAnswer.text) + StatusLine(errorNum)
  {
    var phrase := ReasonPhrase(errorNum);
    if phrase.Some? {
      sbAnswer.Append("HTTP/1.1 " + IntToString(errorNum as nat) + " " + phrase.value + CRLF);
    }
  }

  /** One `sbAnswer.append(name + ": " + value + CRLF)` of answerBody. */
  method AppendHeader(sbAnswer: StringBuilder, name: string, value: string)
    modifies sbAnswer
    ensures sbAnswer.text == old(sbAnswer.text) + HeaderLine(Header(name, value))
  {
    sbAnswer.Append(name + ": " + value + CRLF);
  }

  /** The appends of answerBody for a served GET, in the source's order:
      five header lines, the blank line, the file content. */
  method AppendGetMessage(sbAnswer: StringBuilder, now: string, fileContent: string, lastModified: string)
    modifies sbAnswer
    ensures sbAnswer.text ==
      old(sbAnswer.text) + RenderMessage(Some(Message(GetHeaders(now, |fileContent|, lastModified), fileContent)))
  {
    ghost var prefix := sbAnswer.text;
    AppendHeader(sbAnswer, "Date", now);
    AppendHeader(sbAnswer, "Content-Length", IntToString(|fileContent|));
    AppendHeader(sbAnswer, "Content-Type", "text/html");
    AppendHeader(sbAnswer, "Connection", "keep-alive");
    AppendHeader(sbAnswer, "Last-Modified", lastModified);
    sbAnswer.Append(CRLF);
    sbAnswer.Append(fileContent);
    GetMessageText(prefix, now, fileContent, lastModified);
  }

  lemma GetMessageText(prefix: string, now: string, content: string, modified: string)
    ensures prefix + HeaderLine(Header("Date", now)) + HeaderLine(Header("Content-Length", IntToString(|content|))) +
      HeaderLine(Header("Content-Type", "text/html")) + HeaderLine(Header("Connection", "keep-alive")) +
      HeaderLine(Header("Last-Modified", modified)) + CRLF + content
      == prefix + RenderMessage(Some(Message(GetHeaders(now, |content|, modified), content)))
  {
    var hs := GetHeaders(now, |content|, modified);
    RenderFive(hs);
    var a, b, c, d, e := HeaderLine(hs[0]), HeaderLine(hs[1]), HeaderLine(hs[2]), HeaderLine(hs[3]), HeaderLine(hs[4]);
    AssocFive(prefix, a, b, c, d, e, CRLF, content);
  }

  /** Regrouping five appended header lines, the blank line and the body
      as one message. */
  lemma AssocFive(prefix: string, a: string, b: string, c: string, d: string, e: string, blank: string, body: string)
    ensures prefix + a + b + c + d + e + blank + body == prefix + ((a + b + c + d + e) + blank + body)
  {
  }

  /** The same for three header lines. */
  lemma AssocThree(prefix: string, a: string, b: string, c: string, blank: string, body: string)
    ensures prefix + a + b + c + blank + body == prefix + ((a + b + c) + blank + body)
  {
  }

  /** The appends of answerBody for every other reply: Date,
      Content-Length 0 and Connection, the blank line, the empty body. */
  method AppendPlainMessage(sbAnswer: StringBuilder, now: string)
    modifies sbAnswer
    ensures sbAnswer.text == old(sbAnswer.text) + RenderMessage(Some(Message(PlainHeaders(now), "")))
  {
    ghost var prefix := sbAnswer.text;
    AppendHeader(sbAnswer, "Date", now);
    AppendHeader(sbAnswer, "Content-Length", IntToString(0));
    AppendHeader(sbAnswer, "Connection", "keep-alive");
    sbAnswer.Append(CRLF);
    sbAnswer.Append("");
    PlainMessageText(prefix, now);
  }

  lemma PlainMessageText(prefix: string, now: string)
    ensures prefix + HeaderLine(Header("Date", now)) + HeaderLine(Header("Content-Length", IntToString(0))) +
      HeaderLine(Header("Connection", "keep-alive")) + CRLF + ""
      == prefix + RenderMessage(Some(Message(PlainHeaders(now), "")))
  {
    var hs := PlainHeaders(now);
    RenderThree(hs);
    var a, b, c := HeaderLine(hs[0]), HeaderLine(hs[1]), HeaderLine(hs[2]);
    AssocThree(prefix, a, b, c, CRLF, "");
  }

  /** answerBody: appends the headers, the blank line and the body for
      `statusCode`; `thrown` reports the exception it throws on a request
      line too short for its target, in which case nothing is appended. */
  method AnswerBody(requestLine: string, sbAnswer: StringBuilder, statusCode: int, now: string, env: Env)
    returns (thrown: bool)
    modifies sbAnswer
    ensures thrown <==> AnswerFor(requestLine, statusCode, now, env).None?
    ensures !thrown ==>
      sbAnswer.text == old(sbAnswer.text) + RenderMessage(AnswerFor(requestLine, statusCode, now, env).value.message)
    ensures thrown ==> sbAnswer.text == old(sbAnswer.text)
  {
    if statusCode == 200 {
      var tokens := Split(requestLine, " ");
      if |tokens| < 2 {
        return true;
      }
      var httpMethod, url := tokens[0], tokens[1];
      if url != "/" {
        if url == "" {
          return true;
        }
        url := url[1..];
      } else {
        url := "index.html";
      }
      if httpMethod == "GET" {
        var fileContent := env.readFile(url);
        var lastModified := env.lastModified(url);
        AppendGetMessage(sbAnswer, now, fileContent, lastModified);
      } else if httpMethod == "POST" {
        AppendPlainMessage(sbAnswer, now);
      }
    } else {
      AppendPlainMessage(sbAnswer, now);
    }
    return false;
  }
}
