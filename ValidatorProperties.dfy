/**
 * Properties of the request validator: how the request line is found,
 * what the version checks examine, that the Content-Length loop as written
 * never fires, and the outcome for the requests the bundled client sends.
 */
module ValidatorProperties {
  import opened JavaString
  import opened Validator

  // ---------------------------------------------------------------------
  // Splitting helpers for the shapes the server sees
  // ---------------------------------------------------------------------

  /** A request line of three space-free tokens, the last non-empty,
      splits into exactly those tokens. */
  lemma ThreeTokens(a: string, b: string, c: string)
    requires ' ' !in a && ' ' !in b && ' ' !in c && c != ""
    ensures Split(a + " " + b + " " + c, " ") == [a, b, c]
  {
    var parts := [a, b, c];
    assert parts[1..] == [b, c] && parts[1..][1..] == [c];
    assert Join([c], " ") == c;
    assert Join([b, c], " ") == b + " " + c;
    assert Join(parts, " ") == a + " " + b + " " + c;
    SplitOfJoin(parts, " ");
  }

  /** Two slash-free segments, the second non-empty, split into themselves. */
  lemma TwoSegments(a: string, b: string)
    requires '/' !in a && '/' !in b && b != ""
    ensures Split(a + "/" + b, "/") == [a, b]
  {
    var parts := [a, b];
    assert parts[1..] == [b];
    assert Join([b], "/") == b;
    assert Join(parts, "/") == a + "/" + b;
    SplitOfJoin(parts, "/");
  }

  // ---------------------------------------------------------------------
  // The request line
  // ---------------------------------------------------------------------

  /** The request line is the text before the first "\n" (all of the
      request when it has none), unless that text is empty and nothing
      but newlines follows. */
  lemma RequestLineIsFirstLine(line: string, rest: string)
    requires '\n' !in line
    requires line != "" || exists i :: 0 <= i < |rest| && rest[i] != '\n'
    ensures RequestLineOf(line + "\n" + rest) == Some(line)
  {
    var s := line + "\n" + rest;
    FindAfterFree(line, "\n", rest);
    var fs := Fields(s, "\n");
    assert s[..|line|] == line;
    assert fs[0] == line;
    if line == "" {
      var i :| 0 <= i < |rest| && rest[i] != '\n';
      assert s[|line| + 1 + i] == rest[i];
      SplitEmptyIff(s, '\n');
    }
    assert |Split(s, "\n")| > 0;
    SplitHead(s, "\n");
  }

  /** A request without any newline is its own request line. */
  lemma RequestLineWithoutNewline(allRequest: string)
    requires '\n' !in allRequest
    ensures RequestLineOf(allRequest) == Some(allRequest)
  {
    SplitOfFree(allRequest, "\n");
  }

  /** The request line is missing (the index throws) exactly when the
      request is non-empty and made of newlines only. */
  lemma RequestLineMissingIff(allRequest: string)
    ensures RequestLineOf(allRequest) == None <==>
      allRequest != "" && forall i :: 0 <= i < |allRequest| ==> allRequest[i] == '\n'
  {
    SplitEmptyIff(allRequest, '\n');
  }

  /** An empty first line yields 404 before admission is even asked. */
  lemma EmptyFirstLineNotFound(rest: string, admitted: bool, arrayHash: nat)
    requires exists i :: 0 <= i < |rest| && rest[i] != '\n'
    ensures ValidateRequest("\n" + rest, admitted, arrayHash) == Status(404)
  {
    RequestLineIsFirstLine("", rest);
    assert "" + "\n" + rest == "\n" + rest;
  }

  /** A request of newlines only makes the request-line index throw. */
  lemma NewlinesOnlyThrow(allRequest: string, admitted: bool, arrayHash: nat)
    requires allRequest != "" && forall i :: 0 <= i < |allRequest| ==> allRequest[i] == '\n'
    ensures ValidateRequest(allRequest, admitted, arrayHash) == Throws
  {
    RequestLineMissingIff(allRequest);
  }

  // ---------------------------------------------------------------------
  // The version token
  // ---------------------------------------------------------------------

  /** A version token without '/' is a bad request. */
  lemma VersionWithoutSlash(version: string, lines: seq<string>)
    requires '/' !in version
    ensures VersionStatus(version, lines) == Status(400)
  {
    FindAbsent(version, "/");
  }

  /** Only the first two '/'-separated segments are examined: the first
      must be "HTTP" (else 400), the second "1.1\r" (else 505); any
      further segments are ignored. */
  lemma VersionSegments(first: string, second: string, more: seq<string>, lines: seq<string>)
    requires '/' !in first && '/' !in second && second != ""
    requires forall i :: 0 <= i < |more| ==> '/' !in more[i]
    ensures VersionStatus(Join([first, second] + more, "/"), lines) ==
      if first != "HTTP" then Status(400)
      else if second != "1.1\r" then Status(505)
      else if !CrlfTerminated(lines) then Status(400)
      else Status(200)
  {
    var parts := [first, second] + more;
    var version := Join(parts, "/");
    forall i | 0 <= i < |parts| ensures '/' !in parts[i] {
      if i >= 2 {
        assert parts[i] == more[i - 2];
      }
    }
    FirstTwoSegments(parts);
    var versionNum := Split(version, "/");
    assert versionNum[0] == first && versionNum[1] == second by {
      assert versionNum[..2] == [first, second];
    }
    VersionByFirstTwo(version, first, second, lines);
  }

  /** The version stage looks at the first two segments only. */
  lemma VersionByFirstTwo(version: string, first: string, second: string, lines: seq<string>)
    requires Contains(version, "/") && |Split(version, "/")| >= 2
    requires Split(version, "/")[0] == first && Split(version, "/")[1] == second
    ensures VersionStatus(version, lines) ==
      if first != "HTTP" then Status(400)
      else if second != "1.1\r" then Status(505)
      else if !CrlfTerminated(lines) then Status(400)
      else Status(200)
  {
  }

  /** The split of such a version token starts with its first two segments. */
  lemma FirstTwoSegments(parts: seq<string>)
    requires |parts| >= 2 && parts[1] != ""
    requires forall i :: 0 <= i < |parts| ==> '/' !in parts[i]
    ensures Contains(Join(parts, "/"), "/")
    ensures |Split(Join(parts, "/"), "/")| >= 2 && Split(Join(parts, "/"), "/")[..2] == parts[..2]
  {
    FindAfterFree(parts[0], "/", Join(parts[1..], "/"));
    SplitOfJoin(parts, "/");
    var r := DropTrailingEmpty(parts);
    assert parts[1] != "";
    assert r[..2] == parts[..2];
  }

  /** The version token the client sends passes exactly when every line
      but the last ends in a carriage return. */
  lemma Http11Version(lines: seq<string>)
    ensures VersionStatus("HTTP/1.1\r", lines) == if CrlfTerminated(lines) then Status(200) else Status(400)
  {
    var parts := ["HTTP", "1.1\r"];
    assert parts[1..] == ["1.1\r"];
    assert Join(["1.1\r"], "/") == "1.1\r";
    assert Join(parts, "/") == "HTTP" + "/" + "1.1\r" == "HTTP/1.1\r";
    assert parts + [] == parts;
    VersionSegments("HTTP", "1.1\r", [], lines);
  }

  /** A version token ending in its first '/' ("HTTP/") has no second
      segment: reading it throws, so no response is sent. */
  lemma VersionWithEmptySecondSegment(first: string, lines: seq<string>)
    requires '/' !in first && first != ""
    ensures VersionStatus(first + "/", lines) == if first == "HTTP" then Throws else Status(400)
  {
    var parts := [first, ""];
    assert parts[1..] == [""];
    assert Join(parts, "/") == first + "/";
    FindAfterFree(first, "/", "");
    SplitOfJoin(parts, "/");
    assert DropTrailingEmpty(parts) == [first];
  }

  // ---------------------------------------------------------------------
  // The POST Content-Length check as written
  // ---------------------------------------------------------------------

  /** As written, the Content-Length loop scans the split identity string
      of the line array, which is never "Content-Length": the check never
      rejects, whatever the request says. */
  lemma ContentLengthNeverChecked(requestAllLines: seq<string>, arrayHash: nat)
    ensures BodyCheckAsWritten(requestAllLines, arrayHash) ==
      if |requestAllLines| == 0 then LengthThrows else LengthOk
  {
    StringArrayToStringSplit(arrayHash);
    var id := StringArrayToString(arrayHash);
    assert id != "Content-Length" by {
      assert id[0] != "Content-Length"[0];
    }
    if |requestAllLines| > 0 {
      var body := requestAllLines[|requestAllLines| - 1];
      assert ScanContentLength([id], body, 1) == LengthOk;
    }
  }

  /** Hence the verdict does not depend on the identity hash of the array. */
  lemma ArrayHashIrrelevant(requestLine: string, allRequest: string, admitted: bool, h1: nat, h2: nat)
    ensures Validate(requestLine, allRequest, admitted, h1) == Validate(requestLine, allRequest, admitted, h2)
  {
    ContentLengthNeverChecked(Split(allRequest, "\n"), h1);
    ContentLengthNeverChecked(Split(allRequest, "\n"), h2);
  }

  /** The two readings of the Content-Length check differ only on a POST
      to /simpleForm.html whose Content-Length disagrees with its body. */
  lemma IntendedDiffersOnlyOnLength(requestLine: string, allRequest: string, admitted: bool, arrayHash: nat)
    requires Validate(requestLine, allRequest, admitted, arrayHash) != ValidateIntended(requestLine, allRequest, admitted)
    ensures admitted && |Split(requestLine, " ")| == 3
    ensures Split(requestLine, " ")[0] == "POST" && Split(requestLine, " ")[1] == "/simpleForm.html"
    ensures ValidateIntended(requestLine, allRequest, admitted) == Status(400)
    ensures BodyCheckIntended(Split(allRequest, "\n")) == LengthMismatch
  {
    var lines := Split(allRequest, "\n");
    var written, intended := BodyCheckAsWritten(lines, arrayHash), BodyCheckIntended(lines);
    ContentLengthNeverChecked(lines, arrayHash);
    CheckMatters(requestLine, allRequest, admitted, written, intended);
    assert |lines| > 0;
    assert written == LengthOk;
  }

  /** A request line that is not a POST validates the same under both
      readings of the Content-Length check. */
  lemma NonPostUnaffected(requestLine: string, allRequest: string, admitted: bool, arrayHash: nat)
    requires |Split(requestLine, " ")| > 0 && Split(requestLine, " ")[0] != "POST"
    ensures Validate(requestLine, allRequest, admitted, arrayHash) == ValidateIntended(requestLine, allRequest, admitted)
  {
  }

  /** The header search finds the first line that starts with the name
      and ": ", and finds nothing exactly when no line does. */
  lemma {:induction false} HeaderValueFirst(lines: seq<string>, name: string)
    ensures HeaderValue(lines, name).None? <==>
      forall i :: 0 <= i < |lines| ==> !OccursAt(lines[i], name + ": ", 0)
    ensures HeaderValue(lines, name).Some? ==>
      exists i :: 0 <= i < |lines| && lines[i] == name + ": " + HeaderValue(lines, name).value &&
        forall j :: 0 <= j < i ==> !OccursAt(lines[j], name + ": ", 0)
    decreases |lines|
  {
    var prefix := name + ": ";
    if lines != [] {
      assert OccursAt(lines[0], prefix, 0) <==> |prefix| <= |lines[0]| && lines[0][..|prefix|] == prefix by {
        if |prefix| <= |lines[0]| {
          assert lines[0][0..|prefix|] == lines[0][..|prefix|];
        }
      }
      if !OccursAt(lines[0], prefix, 0) {
        HeaderValueFirst(lines[1..], name);
        assert forall i :: 1 <= i < |lines| ==> lines[i] == lines[1..][i - 1];
        if HeaderValue(lines, name).Some? {
          var k :| 0 <= k < |lines[1..]| && lines[1..][k] == prefix + HeaderValue(lines, name).value &&
            forall j :: 0 <= j < k ==> !OccursAt(lines[1..][j], prefix, 0);
          assert lines[k + 1] == prefix + HeaderValue(lines, name).value;
          assert forall j :: 0 <= j < k + 1 ==> !OccursAt(lines[j], prefix, 0) by {
            forall j | 0 <= j < k + 1
              ensures !OccursAt(lines[j], prefix, 0)
            {
              if j > 0 {
                assert lines[j] == lines[1..][j - 1];
              }
            }
          }
        }
      } else {
        assert lines[0] == prefix + lines[0][|prefix|..];
      }
    }
  }

  /** For an admitted request line of three tokens, whatever the body
      check finds: a method other than GET and POST gives 501, a GET of a
      target other than / and /index.html gives 404, and a POST of a
      target other than /simpleForm.html gives 404. */
  lemma MethodAndTargetRules(requestLine: string, allRequest: string, check: LengthCheck)
    requires requestLine != "" && |Split(requestLine, " ")| == 3
    ensures var t := Split(requestLine, " ");
      t[0] != "GET" && t[0] != "POST" ==> StatusOf(requestLine, allRequest, true, check) == Status(501)
    ensures var t := Split(requestLine, " ");
      t[0] == "GET" && t[1] != "/" && t[1] != "/index.html" ==> StatusOf(requestLine, allRequest, true, check) == Status(404)
    ensures var t := Split(requestLine, " ");
      t[0] == "POST" && t[1] != "/simpleForm.html" ==> StatusOf(requestLine, allRequest, true, check) == Status(404)
  {
  }

  /** Two outcomes of the body check lead to different statuses only for
      an admitted POST to /simpleForm.html, and only when one of them is
      a mismatch or an exception. */
  lemma CheckMatters(requestLine: string, allRequest: string, admitted: bool, c1: LengthCheck, c2: LengthCheck)
    requires StatusOf(requestLine, allRequest, admitted, c1) != StatusOf(requestLine, allRequest, admitted, c2)
    ensures admitted && |Split(requestLine, " ")| == 3
    ensures Split(requestLine, " ")[0] == "POST" && Split(requestLine, " ")[1] == "/simpleForm.html"
    ensures c1 != c2
    ensures StatusOf(requestLine, allRequest, admitted, LengthMismatch) == Status(400)
  {
  }

  // ---------------------------------------------------------------------
  // The requests the bundled client sends
  // ---------------------------------------------------------------------

  /** A request as the client assembles it: a request line, a Host
      header, a Content-Length header, a (misspelt) Conection header, a
      blank line and a body; every line but the body ends in CRLF. */
  function ClientRequest(requestLine: string, host: string, contentLength: string, body: string): string {
    requestLine + CRLF + "Host: " + host + CRLF + "Content-Length: " + contentLength + CRLF
      + KeepAlive + CRLF + CRLF + body
  }

  /** The client's connection header line, spelt as the client spells it. */
  const KeepAlive: string := "Conection: keep-alive"

  lemma CrlfSplits(x: string)
    ensures x + CRLF == x + "\r" + "\n"
  {
  }

  /** The six pieces the client's request is made of, joined by "\n". */
  function ClientParts(requestLine: string, host: string, contentLength: string, body: string): seq<string> {
    [requestLine + "\r", "Host: " + host + "\r", "Content-Length: " + contentLength + "\r",
     KeepAlive + "\r", "\r", body]
  }

  lemma ClientRequestJoin(requestLine: string, host: string, contentLength: string, body: string)
    ensures Join(ClientParts(requestLine, host, contentLength, body), "\n")
      == ClientRequest(requestLine, host, contentLength, body)
  {
    var parts := ClientParts(requestLine, host, contentLength, body);
    var h, c := "Host: " + host, "Content-Length: " + contentLength;
    JoinSix(requestLine + "\r", h + "\r", c + "\r", KeepAlive + "\r", "\r", body);
    assert parts == [requestLine + "\r", h + "\r", c + "\r", KeepAlive + "\r", "\r", body];
    CrlfSplits(requestLine);
    CrlfSplits(h);
    CrlfSplits(c);
    CrlfSplits(KeepAlive);
    CrlfSplits("");
  }

  lemma JoinSix(a: string, b: string, c: string, d: string, e: string, f: string)
    ensures Join([a, b, c, d, e, f], "\n") == a + "\n" + b + "\n" + c + "\n" + d + "\n" + e + "\n" + f
  {
    assert Join([f], "\n") == f;
    JoinCons(e, [f], "\n");
    assert [e] + [f] == [e, f];
    JoinCons(d, [e, f], "\n");
    assert [d] + [e, f] == [d, e, f];
    JoinCons(c, [d, e, f], "\n");
    assert [c] + [d, e, f] == [c, d, e, f];
    JoinCons(b, [c, d, e, f], "\n");
    assert [b] + [c, d, e, f] == [b, c, d, e, f];
    JoinCons(a, [b, c, d, e, f], "\n");
    assert [a] + [b, c, d, e, f] == [a, b, c, d, e, f];
  }

  lemma ClientPartsFree(requestLine: string, host: string, contentLength: string, body: string)
    requires '\n' !in requestLine && '\n' !in host && '\n' !in contentLength && '\n' !in body
    ensures forall i :: 0 <= i < 6 ==> '\n' !in ClientParts(requestLine, host, contentLength, body)[i]
  {
    var parts := ClientParts(requestLine, host, contentLength, body);
    assert '\n' !in "Host: " && '\n' !in "Content-Length: " && '\n' !in KeepAlive;
    forall i | 0 <= i < 6 ensures '\n' !in parts[i] {
    }
  }

  /** The lines numStatus sees for such a request. */
  lemma ClientRequestLines(requestLine: string, host: string, contentLength: string, body: string)
    requires '\n' !in requestLine && '\n' !in host && '\n' !in contentLength && '\n' !in body
    ensures Split(ClientRequest(requestLine, host, contentLength, body), "\n") ==
      ClientParts(requestLine, host, contentLength, body)[..if body == "" then 5 else 6]
  {
    var parts := ClientParts(requestLine, host, contentLength, body);
    ClientRequestJoin(requestLine, host, contentLength, body);
    ClientPartsFree(requestLine, host, contentLength, body);
    SplitOfJoin(parts, "\n");
    if body == "" {
      assert parts[..6][..5] == parts[..5];
      assert parts[..5][4] != "";
      assert DropTrailingEmpty(parts) == DropTrailingEmpty(parts[..5]);
    } else {
      assert parts[..6] == parts;
    }
  }

  /** The client's request lines are CRLF-terminated, and its request line
      is the first line with the carriage return still attached. */
  lemma ClientRequestShape(requestLine: string, host: string, contentLength: string, body: string)
    requires '\n' !in requestLine && '\n' !in host && '\n' !in contentLength && '\n' !in body
    ensures CrlfTerminated(Split(ClientRequest(requestLine, host, contentLength, body), "\n"))
    ensures RequestLineOf(ClientRequest(requestLine, host, contentLength, body)) == Some(requestLine + "\r")
  {
    ClientRequestLines(requestLine, host, contentLength, body);
    var lines := Split(ClientRequest(requestLine, host, contentLength, body), "\n");
    forall i | 0 <= i < |lines| - 1 ensures EndsWith(lines[i], "\r") {
      assert lines[i][|lines[i]| - 1..] == "\r";
    }
  }

  /** With the request line split into three tokens and the handler
      admitted, the method, target and version checks decide. */
  lemma ValidateTokens(requestLine: string, allRequest: string, arrayHash: nat,
                       httpMethod: string, url: string, version: string)
    requires Split(requestLine, " ") == [httpMethod, url, version] && requestLine != ""
    ensures Validate(requestLine, allRequest, true, arrayHash) ==
      TokensStatus(httpMethod, url, version, Split(allRequest, "\n"),
                   BodyCheckAsWritten(Split(allRequest, "\n"), arrayHash))
  {
  }

  /** Malformed request 2: extra spaces give empty tokens, so the line has
      more than three: 400. */
  lemma ClientExtraSpaces(host: string, arrayHash: nat)
    requires '\n' !in host
    ensures ValidateRequest(ClientRequest("GET /  index.html     HTTP/  1.1", host, "0", ""), true, arrayHash)
      == Status(400)
  {
    var line := "GET /  index.html     HTTP/  1.1";
    assert '\n' !in line;
    ClientRequestShape(line, host, "0", "");
    ExtraSpacesTokens();
  }

  /** The padded request line splits into eleven tokens, empty ones included. */
  lemma ExtraSpacesTokens()
    ensures |Split("GET /  index.html     HTTP/  1.1" + "\r", " ")| == 11
  {
    var parts := ExtraSpacesParts();
    ExtraSpacesJoin();
    ExtraSpacesFree();
    SplitOfJoin(parts, " ");
    assert parts[10] != "";
  }

  lemma ExtraSpacesFree()
    ensures forall i :: 0 <= i < |ExtraSpacesParts()| ==> ' ' !in ExtraSpacesParts()[i]
  {
    var parts := ExtraSpacesParts();
    forall i | 0 <= i < |parts| ensures ' ' !in parts[i] {
      assert parts[i] in {"GET", "/", "", "index.html", "HTTP/", "1.1\r"};
    }
  }

  /** The tokens of the padded request line, empty ones included. */
  function ExtraSpacesParts(): seq<string> {
    ["GET", "/", "", "index.html", "", "", "", "", "HTTP/", "", "1.1\r"]
  }

  lemma ExtraSpacesJoin()
    ensures Join(ExtraSpacesParts(), " ") == "GET /  index.html     HTTP/  1.1" + "\r"
  {
    var tail := ["HTTP/", "", "1.1\r"];
    assert ExtraSpacesParts() == ["GET", "/", "", "index.html", "", "", "", ""] + tail;
    assert "GET /  index.html     HTTP/  1.1" + "\r" == "GET /  index.html     " + "HTTP/  1.1\r";
    JoinTail(tail);
    JoinSpaces(["GET", "/", "", "index.html", "", "", "", ""], tail);
    ExtraSpacesHead();
  }

  lemma ExtraSpacesHead()
    ensures JoinPrefix(["GET", "/", "", "index.html", "", "", "", ""]) == "GET /  index.html     "
  {
    var e := ["", "", "", ""];
    FourEmptyTokens();
    JoinPrefixCons("index.html", e);
    JoinPrefixCons("", ["index.html"] + e);
    JoinPrefixCons("/", [""] + (["index.html"] + e));
    JoinPrefixCons("GET", ["/"] + ([""] + (["index.html"] + e)));
    assert ["GET"] + (["/"] + ([""] + (["index.html"] + e))) == ["GET", "/", "", "index.html", "", "", "", ""];
    assert "GET" + " " + ("/" + " " + ("" + " " + ("index.html" + " " + "    "))) == "GET /  index.html     ";
  }

  lemma FourEmptyTokens()
    ensures JoinPrefix(["", "", "", ""]) == "    "
  {
    JoinPrefixCons("", []);
    JoinPrefixCons("", [""]);
    JoinPrefixCons("", ["", ""]);
    JoinPrefixCons("", ["", "", ""]);
    assert [""] + [""] == ["", ""] && [""] + ["", ""] == ["", "", ""] && [""] + ["", "", ""] == ["", "", "", ""];
  }

  lemma JoinPrefixCons(x: string, rest: seq<string>)
    ensures JoinPrefix([x] + rest) == x + " " + JoinPrefix(rest)
  {
    assert ([x] + rest)[1..] == rest;
  }

  lemma JoinTail(tail: seq<string>)
    requires tail == ["HTTP/", "", "1.1\r"]
    ensures Join(tail, " ") == "HTTP/  1.1\r"
  {
    assert Join(["1.1\r"], " ") == "1.1\r";
    JoinCons("", ["1.1\r"], " ");
    assert [""] + ["1.1\r"] == ["", "1.1\r"];
    JoinCons("HTTP/", ["", "1.1\r"], " ");
    assert ["HTTP/"] + ["", "1.1\r"] == tail;
  }

  /** Joining a head list of tokens in front of a non-empty tail. */
  lemma {:induction false} JoinSpaces(head: seq<string>, tail: seq<string>)
    requires |tail| > 0
    ensures Join(head + tail, " ") == JoinPrefix(head) + Join(tail, " ")
    decreases |head|
  {
    if head == [] {
      assert head + tail == tail;
    } else {
      assert head + tail == [head[0]] + (head[1..] + tail);
      JoinCons(head[0], head[1..] + tail, " ");
      JoinSpaces(head[1..], tail);
    }
  }

  /** Each token followed by a space. */
  function JoinPrefix(head: seq<string>): string
    decreases |head|
  {
    if head == [] then "" else head[0] + " " + JoinPrefix(head[1..])
  }

  /** A request line as the client writes it: method, target and version
      separated by single spaces. */
  function RequestLine(httpMethod: string, target: string, version: string): string {
    httpMethod + " " + target + " " + version
  }

  /** With the carriage return left on, such a line splits back into its
      three tokens, the version carrying the carriage return. */
  lemma RequestLineTokens(httpMethod: string, target: string, version: string)
    requires ' ' !in httpMethod && ' ' !in target && ' ' !in version
    ensures Split(RequestLine(httpMethod, target, version) + "\r", " ") == [httpMethod, target, version + "\r"]
  {
    assert RequestLine(httpMethod, target, version) + "\r" == httpMethod + " " + target + " " + (version + "\r");
    ThreeTokens(httpMethod, target, version + "\r");
  }

  /** Four space-free tokens, the last non-empty, split into themselves. */
  lemma FourTokens(a: string, b: string, c: string, d: string)
    requires ' ' !in a && ' ' !in b && ' ' !in c && ' ' !in d && d != ""
    ensures Split(a + " " + b + " " + c + " " + d, " ") == [a, b, c, d]
  {
    var parts := [a, b, c, d];
    assert Join([d], " ") == d;
    JoinCons(c, [d], " ");
    assert [c] + [d] == [c, d];
    JoinCons(b, [c, d], " ");
    assert [b] + [c, d] == [b, c, d];
    JoinCons(a, [b, c, d], " ");
    assert [a] + [b, c, d] == parts;
    assert Join(parts, " ") == a + " " + b + " " + c + " " + d;
    SplitOfJoin(parts, " ");
    assert DropTrailingEmpty(parts) == parts;
  }

  /** A version "HTTP/x" is checked on x alone: 505 unless it is "1.1\r". */
  lemma HttpVersion(second: string, lines: seq<string>)
    requires '/' !in second && second != ""
    ensures VersionStatus("HTTP/" + second, lines) ==
      if second != "1.1\r" then Status(505)
      else if CrlfTerminated(lines) then Status(200) else Status(400)
  {
    var parts := ["HTTP", second];
    assert parts[1..] == [second];
    assert Join([second], "/") == second;
    assert Join(parts, "/") == "HTTP/" + second;
    assert parts + [] == parts;
    VersionSegments("HTTP", second, [], lines);
  }

  /** Any GET the client sends: 503 when the handler is not admitted, 404
      for a target other than / and /index.html, otherwise the version
      check decides (the line endings being right). */
  lemma ClientGet(target: string, version: string, host: string, admitted: bool, arrayHash: nat)
    requires ' ' !in target && '\n' !in target && ' ' !in version && '\n' !in version && '\n' !in host
    ensures CrlfTerminated(Split(ClientRequest(RequestLine("GET", target, version), host, "0", ""), "\n"))
    ensures ValidateRequest(ClientRequest(RequestLine("GET", target, version), host, "0", ""), admitted, arrayHash) ==
      if !admitted then Status(503)
      else if target != "/index.html" && target != "/" then Status(404)
      else VersionStatus(version + "\r", Split(ClientRequest(RequestLine("GET", target, version), host, "0", ""), "\n"))
  {
    var line := RequestLine("GET", target, version);
    var req := ClientRequest(line, host, "0", "");
    assert '\n' !in line;
    ClientRequestShape(line, host, "0", "");
    RequestLineTokens("GET", target, version);
    if admitted {
      ValidateTokens(line + "\r", req, arrayHash, "GET", target, version + "\r");
    }
  }

  /** GET / or GET /index.html over HTTP/1.1: 200 when the handler is
      admitted, 503 otherwise. */
  lemma ClientGetIndex(target: string, host: string, admitted: bool, arrayHash: nat)
    requires target == "/" || target == "/index.html"
    requires '\n' !in host
    ensures ValidateRequest(ClientRequest(RequestLine("GET", target, "HTTP/1.1"), host, "0", ""), admitted, arrayHash)
      == if admitted then Status(200) else Status(503)
  {
    var req := ClientRequest(RequestLine("GET", target, "HTTP/1.1"), host, "0", "");
    var lines := Split(req, "\n");
    ClientGet(target, "HTTP/1.1", host, admitted, arrayHash);
    if admitted {
      assert ValidateRequest(req, admitted, arrayHash) == VersionStatus("HTTP/1.1" + "\r", lines);
      Http11Literal();
      Http11Version(lines);
    }
  }

  lemma Http11Literal()
    ensures "HTTP/1.1" + "\r" == "HTTP/1.1\r"
  {
  }

  /** A well-formed GET of another resource: 404. */
  lemma ClientUnknownTarget(target: string, host: string, arrayHash: nat)
    requires target != "/" && target != "/index.html" && ' ' !in target && '\n' !in target
    requires '\n' !in host
    ensures ValidateRequest(ClientRequest(RequestLine("GET", target, "HTTP/1.1"), host, "0", ""), true, arrayHash)
      == Status(404)
  {
    ClientGet(target, "HTTP/1.1", host, true, arrayHash);
  }

  /** Any HTTP version other than 1.1, such as HTTP/2.0: 505. */
  lemma ClientWrongVersion(second: string, host: string, arrayHash: nat)
    requires '/' !in second && ' ' !in second && '\n' !in second && second != "1.1"
    requires '\n' !in host
    ensures ValidateRequest(ClientRequest(RequestLine("GET", "/index.html", "HTTP/" + second), host, "0", ""), true, arrayHash)
      == Status(505)
  {
    var req := ClientRequest(RequestLine("GET", "/index.html", "HTTP/" + second), host, "0", "");
    var lines := Split(req, "\n");
    assert ValidateRequest(req, true, arrayHash) == VersionStatus("HTTP/" + second + "\r", lines) by {
      ClientGet("/index.html", "HTTP/" + second, host, true, arrayHash);
    }
    assert (second + "\r")[..|second|] == second;
    assert "HTTP/" + second + "\r" == "HTTP/" + (second + "\r");
    HttpVersion(second + "\r", lines);
  }

  /** Malformed request 3: "GET /index.html " (the request line with an
      empty version) leaves the carriage return alone as the third token,
      which has no '/': 400. */
  lemma ClientMissingVersion(target: string, host: string, arrayHash: nat)
    requires target == "/" || target == "/index.html"
    requires '\n' !in host
    ensures ValidateRequest(ClientRequest(RequestLine("GET", target, ""), host, "0", ""), true, arrayHash)
      == Status(400)
  {
    var req := ClientRequest(RequestLine("GET", target, ""), host, "0", "");
    var lines := Split(req, "\n");
    assert ValidateRequest(req, true, arrayHash) == VersionStatus("" + "\r", lines) by {
      ClientGet(target, "", host, true, arrayHash);
    }
    VersionWithoutSlash("" + "\r", lines);
  }

  /** Malformed request 1: no CRLF after the request line, so the Host
      header runs into it and the line has four tokens: 400, whatever
      follows the first line. */
  lemma ClientMissingLineEnd(host: string, rest: string, arrayHash: nat)
    requires host != "" && ' ' !in host && '\n' !in host
    ensures ValidateRequest(RequestLine("GET", "/index.html", "HTTP/1.1Host:") + " " + host + "\r\n" + rest, true, arrayHash)
      == Status(400)
  {
    var line := RequestLine("GET", "/index.html", "HTTP/1.1Host:") + " " + host + "\r";
    assert RequestLine("GET", "/index.html", "HTTP/1.1Host:") + " " + host + "\r\n" + rest == line + "\n" + rest;
    assert '\n' !in line;
    RequestLineIsFirstLine(line, rest);
    assert line == "GET" + " " + "/index.html" + " " + "HTTP/1.1Host:" + " " + (host + "\r");
    FourTokens("GET", "/index.html", "HTTP/1.1Host:", host + "\r");
  }

  /** A method other than GET and POST: 501. */
  lemma ClientUnimplementedMethod(verb: string, host: string, arrayHash: nat)
    requires ' ' !in verb && '\n' !in verb && verb != "GET" && verb != "POST"
    requires '\n' !in host
    ensures ValidateRequest(ClientRequest(RequestLine(verb, "/index.html", "HTTP/1.1"), host, "0", ""), true, arrayHash)
      == Status(501)
  {
    var line := RequestLine(verb, "/index.html", "HTTP/1.1");
    var req := ClientRequest(line, host, "0", "");
    assert '\n' !in line;
    ClientRequestShape(line, host, "0", "");
    RequestLineTokens(verb, "/index.html", "HTTP/1.1");
    ValidateTokens(line + "\r", req, arrayHash, verb, "/index.html", "HTTP/1.1" + "\r");
  }

  /** In the client's request the Content-Length header is found, with its
      carriage return, when the request line does not start like it. */
  lemma ClientContentLengthHeader(requestLine: string, host: string, contentLength: string, body: string)
    requires requestLine == "" || requestLine[0] != 'C'
    ensures HeaderValue(ClientParts(requestLine, host, contentLength, body)[..5], "Content-Length")
      == Some(contentLength + "\r")
  {
    var headers := ClientParts(requestLine, host, contentLength, body)[..5];
    var prefix := "Content-Length: ";
    assert headers[0][0] != 'C';
    assert !(|prefix| <= |headers[0]| && headers[0][..|prefix|] == prefix) by {
      if |prefix| <= |headers[0]| {
        assert headers[0][..|prefix|][0] == headers[0][0];
      }
    }
    assert headers[1][0] == 'H';
    assert !(|prefix| <= |headers[1]| && headers[1][..|prefix|] == prefix) by {
      if |prefix| <= |headers[1]| {
        assert headers[1][..|prefix|][0] == headers[1][0];
      }
    }
    assert headers[2] == prefix + (contentLength + "\r");
    assert headers[2][..|prefix|] == prefix;
    assert "Content-Length" + ": " == prefix;
    assert HeaderValue(headers[2..], "Content-Length") == Some(contentLength + "\r");
    assert headers[1..][1..] == headers[2..];
    assert HeaderValue(headers[1..], "Content-Length") == Some(contentLength + "\r");
  }

  /** The client's POST as numStatus sees it: three tokens, the
      carriage returns in place. */
  lemma ClientPostShape(contentLength: string, body: string, host: string)
    requires '\n' !in contentLength && '\n' !in body && '\n' !in host
    ensures var req := ClientRequest(RequestLine("POST", "/simpleForm.html", "HTTP/1.1"), host, contentLength, body);
      RequestLineOf(req) == Some(RequestLine("POST", "/simpleForm.html", "HTTP/1.1") + "\r") &&
      Split(RequestLine("POST", "/simpleForm.html", "HTTP/1.1") + "\r", " ") == ["POST", "/simpleForm.html", "HTTP/1.1" + "\r"] &&
      VersionStatus("HTTP/1.1" + "\r", Split(req, "\n")) == Status(200)
  {
    var line := RequestLine("POST", "/simpleForm.html", "HTTP/1.1");
    var req := ClientRequest(line, host, contentLength, body);
    assert '\n' !in line;
    ClientRequestShape(line, host, contentLength, body);
    RequestLineTokens("POST", "/simpleForm.html", "HTTP/1.1");
    Http11Literal();
    Http11Version(Split(req, "\n"));
  }

  /** As written, the client's POST is accepted whatever its
      Content-Length header says. */
  lemma ClientPostAsWritten(contentLength: string, body: string, host: string, arrayHash: nat)
    requires '\n' !in contentLength && '\n' !in body && '\n' !in host
    ensures ValidateRequest(ClientRequest(RequestLine("POST", "/simpleForm.html", "HTTP/1.1"), host, contentLength, body),
      true, arrayHash) == Status(200)
  {
    var line := RequestLine("POST", "/simpleForm.html", "HTTP/1.1");
    var req := ClientRequest(line, host, contentLength, body);
    ClientPostShape(contentLength, body, host);
    ContentLengthNeverChecked(Split(req, "\n"), arrayHash);
    ValidateTokens(line + "\r", req, arrayHash, "POST", "/simpleForm.html", "HTTP/1.1" + "\r");
  }

  /** The intended check finds the client's Content-Length header and
      compares its value with the body. */
  lemma ClientPostLength(body: string, n: nat, host: string)
    requires body != "" && '\n' !in body && '\n' !in host
    requires n <= MaxInt
    ensures BodyCheckIntended(Split(ClientRequest(RequestLine("POST", "/simpleForm.html", "HTTP/1.1"), host,
      IntToString(n), body), "\n")) == if n == |body| then LengthOk else LengthMismatch
  {
    var line := RequestLine("POST", "/simpleForm.html", "HTTP/1.1");
    var cl := IntToString(n);
    assert '\n' !in cl by {
      assert forall i :: 0 <= i < |cl| ==> IsDigit(cl[i]);
    }
    assert '\n' !in line;
    ClientRequestLines(line, host, cl, body);
    var lines := Split(ClientRequest(line, host, cl, body), "\n");
    var parts := ClientParts(line, host, cl, body);
    assert lines == parts && lines[..|lines| - 1] == parts[..5];
    ClientContentLengthHeader(line, host, cl, body);
    assert StripCR(cl + "\r") == cl;
    ParseIntToString(n);
  }

  /** A POST of a form body with Content-Length `n` (the client sends the
      body's length): accepted as written whatever `n` is; the intended
      check accepts it exactly when `n` is the body's length. */
  lemma ClientPost(body: string, n: nat, host: string, arrayHash: nat)
    requires body != "" && '\n' !in body && '\n' !in host
    requires n <= MaxInt
    ensures ValidateRequest(ClientRequest(RequestLine("POST", "/simpleForm.html", "HTTP/1.1"), host, IntToString(n), body),
      true, arrayHash) == Status(200)
    ensures ValidateIntended(RequestLine("POST", "/simpleForm.html", "HTTP/1.1") + "\r",
      ClientRequest(RequestLine("POST", "/simpleForm.html", "HTTP/1.1"), host, IntToString(n), body), true)
      == if n == |body| then Status(200) else Status(400)
  {
    var cl := IntToString(n);
    assert '\n' !in cl by {
      assert forall i :: 0 <= i < |cl| ==> IsDigit(cl[i]);
    }
    ClientPostAsWritten(cl, body, host, arrayHash);
    ClientPostShape(cl, body, host);
    ClientPostLength(body, n, host);
  }

  /** The discrepancy in one instance: a POST announcing 5 body bytes but
      carrying 2 is accepted as written and rejected when checked. */
  lemma MismatchedPostAccepted(host: string, arrayHash: nat)
    requires '\n' !in host
    ensures ValidateRequest(ClientRequest(RequestLine("POST", "/simpleForm.html", "HTTP/1.1"), host, "5", "ab"),
      true, arrayHash) == Status(200)
    ensures ValidateIntended(RequestLine("POST", "/simpleForm.html", "HTTP/1.1") + "\r",
      ClientRequest(RequestLine("POST", "/simpleForm.html", "HTTP/1.1"), host, "5", "ab"), true) == Status(400)
  {
    assert IntToString(5) == "5";
    ClientPost("ab", 5, host, arrayHash);
  }

}
