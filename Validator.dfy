/**
 * The request validator of the server: an ordered, first-match-wins chain
 * of checks that maps the text of one request to a status code in
 * {200, 400, 404, 501, 503, 505}, or to an exception that the handler
 * catches (and then sends nothing).
 *
 * The chain loosely follows the request-line grammar of section 3 of
 * RFC 9112 (`method SP request-target SP HTTP-version`) and the CRLF line
 * ending of its section 2.2, but splits the request on "\n" alone, so the
 * version token must be "HTTP/1.1\r" with the carriage return included.
 */
module Validator {
  import opened JavaString

  /** A status code, or an exception thrown while validating. */
  datatype Validation = Status(code: int) | Throws

  /** What the POST Content-Length check decided. */
  datatype LengthCheck = LengthOk | LengthMismatch | LengthThrows

  /** The request line as the handler extracts it: the first element of
      `allRequest.split("\n")`; None when that array is empty, which makes
      the index throw. */
  function RequestLineOf(allRequest: string): Option<string> {
    var lines := Split(allRequest, "\n");
    if |lines| == 0 then None else Some(lines[0])
  }

  /** The loop over `lines` from index `i`: at each element equal to
      "Content-Length" the next element is parsed as an int and compared
      with the body length. */
  function ScanContentLength(lines: seq<string>, body: string, i: nat): LengthCheck
    requires i <= |lines|
    decreases |lines| - i
  {
    if i == |lines| then LengthOk
    else if lines[i] == "Content-Length" then
      if i + 1 >= |lines| then LengthThrows
      else match ParseInt(lines[i + 1])
        case None => LengthThrows
        case Some(n) => if |body| != n then LengthMismatch else ScanContentLength(lines, body, i + 1)
    else ScanContentLength(lines, body, i + 1)
  }

  /** The POST body check as written: the body is the last line, and the
      scanned `lines` come from splitting the *identity string* of the
      line array (its default toString, which depends on `arrayHash`) at
      ": ". */
  function BodyCheckAsWritten(requestAllLines: seq<string>, arrayHash: nat): LengthCheck {
    if |requestAllLines| == 0 then LengthThrows
    else
      var body := requestAllLines[|requestAllLines| - 1];
      ScanContentLength(Split(StringArrayToString(arrayHash), ": "), body, 0)
  }

  /** The value of the first line starting with `name` followed by ": ". */
  function HeaderValue(lines: seq<string>, name: string): (r: Option<string>)
    ensures r.Some? ==> exists i :: 0 <= i < |lines| && lines[i] == name + ": " + r.value
    decreases |lines|
  {
    if lines == [] then None
    else
      var prefix := name + ": ";
      if |prefix| <= |lines[0]| && lines[0][..|prefix|] == prefix then
        assert lines[0] == prefix + lines[0][|prefix|..];
        Some(lines[0][|prefix|..])
      else match HeaderValue(lines[1..], name)
        case None => None
        case Some(v) =>
          ghost var i :| 0 <= i < |lines[1..]| && lines[1..][i] == name + ": " + v;
          assert lines[i + 1] == name + ": " + v;
          Some(v)
  }

  /** `s` without one trailing carriage return. */
  function StripCR(s: string): string {
    if EndsWith(s, "\r") then s[..|s| - 1] else s
  }

  /** The POST body check as its comment describes it: the value of the
      Content-Length header line (before the body, carriage return
      removed) must be the length of the body, the last line. A missing
      header is not checked; an unreadable value is a mismatch. */
  function BodyCheckIntended(requestAllLines: seq<string>): LengthCheck {
    if |requestAllLines| == 0 then LengthThrows
    else
      var body := requestAllLines[|requestAllLines| - 1];
      match HeaderValue(requestAllLines[..|requestAllLines| - 1], "Content-Length")
      case None => LengthOk
      case Some(v) =>
        match ParseInt(StripCR(v))
        case None => LengthMismatch
        case Some(n) => if n == |body| then LengthOk else LengthMismatch
  }

  /** All lines but the last end in a carriage return. */
  predicate CrlfTerminated(lines: seq<string>) {
    forall i :: 0 <= i < |lines| - 1 ==> EndsWith(lines[i], "\r")
  }

  /** The version checks and the line-ending check, the last stage of the
      chain. Only the first two `/`-separated segments are examined. */
  function VersionStatus(version: string, requestAllLines: seq<string>): (v: Validation)
    ensures v.Status? ==> v.code in {200, 400, 505}
    ensures v == Status(200) ==> CrlfTerminated(requestAllLines)
  {
    if !Contains(version, "/") then Status(400)
    else
      var versionNum := Split(version, "/");
      if |versionNum| == 0 then Throws
      else if versionNum[0] != "HTTP" then Status(400)
      else if |versionNum| < 2 then Throws
      else if versionNum[1] != "1.1\r" then Status(505)
      else if !CrlfTerminated(requestAllLines) then Status(400)
      else Status(200)
  }

  /** The method and target pairs the server serves. */
  predicate Served(httpMethod: string, url: string) {
    (httpMethod == "GET" && (url == "/index.html" || url == "/")) ||
    (httpMethod == "POST" && url == "/simpleForm.html")
  }

  /** The method and target checks on a three-token request line, then
      the version stage. */
  function TokensStatus(httpMethod: string, url: string, version: string,
                        requestAllLines: seq<string>, check: LengthCheck): (v: Validation)
    ensures v.Status? ==> v.code in {200, 400, 404, 501, 505}
    ensures v == Status(200) ==> CrlfTerminated(requestAllLines) && Served(httpMethod, url)
  {
    if httpMethod != "GET" && httpMethod != "POST" then Status(501)
    else if httpMethod == "GET" && url != "/index.html" && url != "/" then Status(404)
    else if httpMethod == "POST" && url != "/simpleForm.html" then Status(404)
    else if httpMethod == "POST" && check == LengthThrows then Throws
    else if httpMethod == "POST" && check == LengthMismatch then Status(400)
    else VersionStatus(version, requestAllLines)
  }

  /** The decision chain, given what the POST body check found. */
  function StatusOf(requestLine: string, allRequest: string, admitted: bool, check: LengthCheck): (v: Validation)
    ensures v.Status? ==> v.code in {200, 400, 404, 501, 503, 505}
    ensures requestLine == "" ==> v == Status(404)
    ensures requestLine != "" && !admitted ==> v == Status(503)
    ensures requestLine != "" && admitted && |Split(requestLine, " ")| != 3 ==> v == Status(400)
    ensures v == Status(200) ==> admitted && CrlfTerminated(Split(allRequest, "\n"))
    ensures v == Status(200) ==>
      |Split(requestLine, " ")| == 3 && Served(Split(requestLine, " ")[0], Split(requestLine, " ")[1])
  {
    var methodUrlVersion := Split(requestLine, " ");
    if requestLine == "" then Status(404)
    else if !admitted then Status(503)
    else if |methodUrlVersion| != 3 then Status(400)
    else TokensStatus(methodUrlVersion[0], methodUrlVersion[1], methodUrlVersion[2],
                      Split(allRequest, "\n"), check)
  }

  /** numStatus as written. */
  function Validate(requestLine: string, allRequest: string, admitted: bool, arrayHash: nat): Validation {
    StatusOf(requestLine, allRequest, admitted, BodyCheckAsWritten(Split(allRequest, "\n"), arrayHash))
  }

  /** numStatus with the Content-Length check its comment describes. */
  function ValidateIntended(requestLine: string, allRequest: string, admitted: bool): Validation {
    StatusOf(requestLine, allRequest, admitted, BodyCheckIntended(Split(allRequest, "\n")))
  }

  /** A whole request validated as written: extract the request line,
      then run numStatus on it. */
  function ValidateRequest(allRequest: string, admitted: bool, arrayHash: nat): Validation {
    match RequestLineOf(allRequest)
    case None => Throws
    case Some(line) => Validate(line, allRequest, admitted, arrayHash)
  }

  /** The same with the Content-Length check its comment describes. */
  function ValidateRequestIntended(allRequest: string, admitted: bool): Validation {
    match RequestLineOf(allRequest)
    case None => Throws
    case Some(line) => ValidateIntended(line, allRequest, admitted)
  }

  /** numStatus, given what its POST body check finds (`check`, computed
      by ContentLengthAsWritten or ContentLengthIntended), with its
      line-ending loop. */
  method NumStatus(requestLine: string, allRequest: string, admitted: bool, check: LengthCheck)
    returns (v: Validation)
    ensures v == StatusOf(requestLine, allRequest, admitted, check)
  {
    var methodUrlVersion := Split(requestLine, " ");
    var requestAllLines := Split(allRequest, "\n");
    if requestLine == "" {
      return Status(404);
    }
    if !admitted {
      return Status(503);
    }
    if |methodUrlVersion| != 3 {
      return Status(400);
    }
    var httpMethod, url, versionCrlf := methodUrlVersion[0], methodUrlVersion[1], methodUrlVersion[2];
    if httpMethod != "GET" && httpMethod != "POST" {
      return Status(501);
    }
    if httpMethod == "GET" && url != "/index.html" && url != "/" {
      return Status(404);
    }
    if httpMethod == "POST" {
      if url != "/simpleForm.html" {
        return Status(404);
      }
      if check == LengthThrows {
        return Throws;
      }
      if check == LengthMismatch {
        return Status(400);
      }
    }
    assert StatusOf(requestLine, allRequest, admitted, check) == VersionStatus(versionCrlf, requestAllLines);
    if !Contains(versionCrlf, "/") {
      return Status(400);
    }
    var versionNum := Split(versionCrlf, "/");
    if |versionNum| == 0 {
      return Throws;
    }
    if versionNum[0] != "HTTP" {
      return Status(400);
    }
    if |versionNum| < 2 {
      return Throws;
    }
    if versionNum[1] != "1.1\r" {
      return Status(505);
    }
    var terminated := LinesEndInCR(requestAllLines);
    if !terminated {
      return Status(400);
    }
    return Status(200);
  }

  /** The POST body check of numStatus as written: the body is the last
      line, and the Content-Length loop runs over the split identity
      string of the line array. */
  method ContentLengthAsWritten(requestAllLines: seq<string>, arrayHash: nat) returns (found: LengthCheck)
    ensures found == BodyCheckAsWritten(requestAllLines, arrayHash)
  {
    if |requestAllLines| == 0 {
      return LengthThrows;
    }
    var body := requestAllLines[|requestAllLines| - 1];
    var lines := Split(StringArrayToString(arrayHash), ": ");
    found := ScanLines(lines, body);
  }

  /** The POST body check as its comment describes it: the first
      Content-Length header line before the body must carry the body's
      length. */
  method ContentLengthIntended(requestAllLines: seq<string>) returns (found: LengthCheck)
    ensures found == BodyCheckIntended(requestAllLines)
  {
    if |requestAllLines| == 0 {
      return LengthThrows;
    }
    var body := requestAllLines[|requestAllLines| - 1];
    var headers := requestAllLines[..|requestAllLines| - 1];
    var prefix := "Content-Length" + ": ";
    var i := 0;
    while i < |headers|
      invariant 0 <= i <= |headers|
      invariant HeaderValue(headers, "Content-Length") == HeaderValue(headers[i..], "Content-Length")
    {
      assert headers[i..][0] == headers[i] && headers[i..][1..] == headers[i + 1..];
      if |prefix| <= |headers[i]| && headers[i][..|prefix|] == prefix {
        var contentLength := ParseInt(StripCR(headers[i][|prefix|..]));
        if contentLength.None? || contentLength.value != |body| {
          return LengthMismatch;
        }
        return LengthOk;
      }
      i := i + 1;
    }
    return LengthOk;
  }

  /** The Content-Length loop of numStatus: a result other than LengthOk
      stands for its early `return 400` or for the exception it throws. */
  method ScanLines(lines: seq<string>, body: string) returns (found: LengthCheck)
    ensures found == ScanContentLength(lines, body, 0)
  {
    var i := 0;
    while i < |lines|
      invariant 0 <= i <= |lines|
      invariant ScanContentLength(lines, body, 0) == ScanContentLength(lines, body, i)
    {
      if lines[i] == "Content-Length" {
        if i + 1 >= |lines| {
          return LengthThrows;
        }
        var contentLength := ParseInt(lines[i + 1]);
        if contentLength.None? {
          return LengthThrows;
        }
        if |body| != contentLength.value {
          return LengthMismatch;
        }
      }
      i := i + 1;
    }
    return LengthOk;
  }

  /** The line-ending loop of numStatus: every line but the last must end
      in a carriage return. */
  method LinesEndInCR(requestAllLines: seq<string>) returns (ok: bool)
    ensures ok == CrlfTerminated(requestAllLines)
  {
    var i := 0;
    while i < |requestAllLines| - 1
      invariant 0 <= i <= |requestAllLines|
      invariant forall k :: 0 <= k < i ==> EndsWith(requestAllLines[k], "\r")
    {
      if !EndsWith(requestAllLines[i], "\r") {
        return false;
      }
      i := i + 1;
    }
    return true;
  }
}
