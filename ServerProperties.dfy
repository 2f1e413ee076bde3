/**
 * What the handler lifecycle promises: how the input is cut into
 * requests, when a handler dies, what it sends for one request, and how
 * the registry's answer relates to the admission rule.
 */
module ServerProperties {
  import opened JavaString
  import opened ThreadStates
  import opened Admission
  import opened Validator
  import opened Response
  import opened Server
  import opened ValidatorProperties

  /** Character reads after each of which the reader is still ready. */
  predicate AllReady(rs: seq<ReadResult>) {
    forall k :: 0 <= k < |rs| ==> rs[k].Char? && rs[k].ready
  }

  /** The answers one optional answer contributes. */
  function Sent(answer: Option<string>): seq<string> {
    match answer
    case None => []
    case Some(a) => [a]
  }

  // ---------------------------------------------------------------------
  // Cutting the input into requests
  // ---------------------------------------------------------------------

  /** Reads that leave the reader ready are collected and the read goes
      on. */
  lemma {:induction false} ReadThroughReady(rs: seq<ReadResult>, rest: seq<ReadResult>, acc: string)
    requires AllReady(rs)
    ensures ReadCycle(rs + rest, acc) == ReadCycle(rest, acc + Chars(rs))
    decreases |rs|
  {
    if rs == [] {
      assert rs + rest == rest;
      assert acc + Chars(rs) == acc;
    } else {
      var c := rs[0].c;
      assert (rs + rest)[0] == rs[0];
      assert (rs + rest)[1..] == rs[1..] + rest;
      assert AllReady(rs[1..]);
      ReadThroughReady(rs[1..], rest, acc + [c]);
      assert Chars(rs) == [c] + Chars(rs[1..]);
      assert acc + [c] + Chars(rs[1..]) == acc + Chars(rs);
    }
  }

  /** A request is the characters up to and including the first one after
      which the reader is not ready. */
  lemma RequestCut(rs: seq<ReadResult>, c: char, rest: seq<ReadResult>)
    requires AllReady(rs)
    ensures ReadCycle(rs + [Char(c, false)] + rest, "") == Cycle(Chars(rs) + [c], NotReady, rest)
  {
    assert rs + [Char(c, false)] + rest == rs + ([Char(c, false)] + rest);
    ReadThroughReady(rs, [Char(c, false)] + rest, "");
    assert ([Char(c, false)] + rest)[1..] == rest;
    assert "" + Chars(rs) == Chars(rs);
  }

  /** The end of the stream stops a read, whatever was read before it. */
  lemma EofCut(rs: seq<ReadResult>, rest: seq<ReadResult>)
    requires AllReady(rs)
    ensures ReadCycle(rs + [Eof] + rest, "") == Cycle(Chars(rs), EndOfStream, rest)
  {
    assert rs + [Eof] + rest == rs + ([Eof] + rest);
    ReadThroughReady(rs, [Eof] + rest, "");
    assert ([Eof] + rest)[1..] == rest;
    assert "" + Chars(rs) == Chars(rs);
  }

  /** Where one read ends tells whether the input holds the end of the
      stream. */
  lemma {:induction false} ReadCycleEof(input: seq<ReadResult>, acc: string)
    ensures var cy := ReadCycle(input, acc);
      (cy.ending == Blocked ==> Eof !in input) &&
      (cy.ending == EndOfStream ==> Eof in input) &&
      (cy.ending == NotReady ==> (Eof in input <==> Eof in cy.rest))
    decreases |input|
  {
    if input != [] {
      assert input == [input[0]] + input[1..];
      if input[0].Char? {
        ReadCycleEof(input[1..], acc + [input[0].c]);
      }
    }
  }

  // ---------------------------------------------------------------------
  // The session
  // ---------------------------------------------------------------------

  /** A handler turns DEAD exactly when its connection reaches the end of
      the stream; otherwise it is left waiting on a read that blocks. */
  lemma {:induction false} DeadIffEof(input: seq<ReadResult>, admitted: bool, now: string, env: Env)
    ensures Session(input, admitted, now, env).state == Dead <==> Eof in input
    ensures Session(input, admitted, now, env).state == Live ==>
      Session(input, admitted, now, env).rest == []
    decreases |input|
  {
    ReadCycleEof(input, "");
    var cy := ReadCycle(input, "");
    if cy.ending == NotReady {
      DeadIffEof(cy.rest, admitted, now, env);
    }
  }

  /** One request, read whole while LIVE: its answer, if any, goes out
      before those of the rest of the input. */
  lemma RequestAnswered(rs: seq<ReadResult>, c: char, rest: seq<ReadResult>,
                        admitted: bool, now: string, env: Env)
    requires AllReady(rs)
    ensures Session(rs + [Char(c, false)] + rest, admitted, now, env) ==
      Prepend(Sent(Respond(Chars(rs) + [c], admitted, now, env)),
              Session(rest, admitted, now, env))
  {
    RequestCut(rs, c, rest);
    var next := Session(rest, admitted, now, env);
    assert [] + next.sent == next.sent;
  }

  /** Characters cut short by the end of the stream are dropped
      unanswered: the handler is DEAD and the rest of the input unread. */
  lemma PartialRequestDropped(rs: seq<ReadResult>, rest: seq<ReadResult>,
                              admitted: bool, now: string, env: Env)
    requires AllReady(rs)
    ensures Session(rs + [Eof] + rest, admitted, now, env) == Outcome([], Dead, rest)
  {
    EofCut(rs, rest);
  }

  /** The reads after which the reader is not ready: one per request read
      whole. */
  function NotReadyCount(input: seq<ReadResult>): nat
    decreases |input|
  {
    if input == [] then 0
    else NotReadyCount(input[1..]) + (if input[0].Char? && !input[0].ready then 1 else 0)
  }

  lemma {:induction false} NotReadyCountCut(input: seq<ReadResult>, acc: string)
    ensures var cy := ReadCycle(input, acc);
      cy.ending == NotReady ==> NotReadyCount(input) == NotReadyCount(cy.rest) + 1
    decreases |input|
  {
    if input != [] && input[0].Char? && input[0].ready {
      NotReadyCountCut(input[1..], acc + [input[0].c]);
    }
  }

  /** At most one answer goes out per request read whole. */
  lemma {:induction false} AnswersBounded(input: seq<ReadResult>, admitted: bool, now: string, env: Env)
    ensures |Session(input, admitted, now, env).sent| <= NotReadyCount(input)
    decreases |input|
  {
    var cy := ReadCycle(input, "");
    if cy.ending == NotReady {
      NotReadyCountCut(input, "");
      AnswersBounded(cy.rest, admitted, now, env);
    }
  }

  // ---------------------------------------------------------------------
  // One answer
  // ---------------------------------------------------------------------

  /** The handler stays silent on a request exactly when validating it
      throws, whatever the identity hash of the line array; every status
      it validates to is answered. */
  lemma SilentIffThrows(allRequest: string, admitted: bool, arrayHash: nat, now: string, env: Env)
    ensures Respond(allRequest, admitted, now, env).None? <==>
      ValidateRequest(allRequest, admitted, arrayHash) == Throws
  {
    if RequestLineOf(allRequest).Some? {
      var line := RequestLineOf(allRequest).value;
      ArrayHashIrrelevant(line, allRequest, admitted, arrayHash, 0);
      if Validate(line, allRequest, admitted, 0).Status? {
        ValidatedAnswered(line, allRequest, admitted, BodyCheckAsWritten(Split(allRequest, "\n"), 0), now, env);
      }
    }
  }

  /** What is sent is the rendering of the reply the builder wrote,
      under the status the request validated to. */
  lemma AnswerIsRendered(allRequest: string, admitted: bool, now: string, env: Env)
    requires Respond(allRequest, admitted, now, env).Some?
    ensures ValidateRequest(allRequest, admitted, 0).Status?
    ensures var reply := AnswerFor(RequestLineOf(allRequest).value, ValidateRequest(allRequest, admitted, 0).code, now, env);
      reply.Some? && reply.value.code == ValidateRequest(allRequest, admitted, 0).code &&
      Respond(allRequest, admitted, now, env).value == Render(reply.value)
  {
  }

  /** What is sent reads back as the reply the builder wrote, when the
      dates hold no carriage return. */
  lemma AnswerReadsBack(allRequest: string, admitted: bool, now: string, env: Env)
    requires '\r' !in now && forall path :: '\r' !in env.lastModified(path)
    requires Respond(allRequest, admitted, now, env).Some?
    ensures ValidateRequest(allRequest, admitted, 0).Status?
    ensures ParseReply(Respond(allRequest, admitted, now, env).value) ==
      AnswerFor(RequestLineOf(allRequest).value, ValidateRequest(allRequest, admitted, 0).code, now, env)
  {
    AnswerIsRendered(allRequest, admitted, now, env);
    var line := RequestLineOf(allRequest).value;
    var v := ValidateRequest(allRequest, admitted, 0);
    StatusOfCodes(line, allRequest, admitted);
    ValidatedCodesHavePhrase(v);
    AnswerWellFormed(line, v.code, now, env);
    ReplyRoundTrip(AnswerFor(line, v.code, now, env).value);
  }

  lemma StatusOfCodes(line: string, allRequest: string, admitted: bool)
    requires RequestLineOf(allRequest) == Some(line)
    requires ValidateRequest(allRequest, admitted, 0).Status?
    ensures ValidateRequest(allRequest, admitted, 0).code in {200, 400, 404, 501, 503, 505}
  {
  }

  /** A handler the registry does not admit answers every request with a
      non-empty request line with 503 and an empty body. */
  lemma RefusedAnswered503(allRequest: string, now: string, env: Env)
    requires RequestLineOf(allRequest).Some? && RequestLineOf(allRequest).value != ""
    ensures Respond(allRequest, false, now, env) ==
      Some(Render(Reply(503, Some(Message(PlainHeaders(now), "")))))
  {
  }

  /** A GET of / or /index.html that validates to 200 is answered with
      200 and the contents of index.html. */
  lemma IndexServed(allRequest: string, line: string, admitted: bool, now: string, env: Env)
    requires RequestLineOf(allRequest) == Some(line)
    requires Validate(line, allRequest, admitted, 0) == Status(200)
    requires |Split(line, " ")| >= 2 && Split(line, " ")[0] == "GET"
    requires Split(line, " ")[1] in {"/", "/index.html"}
    ensures var file := env.readFile("index.html");
      Respond(allRequest, admitted, now, env) ==
        Some(Render(Reply(200, Some(Message(GetHeaders(now, |file|, env.lastModified("index.html")), file)))))
  {
    GetServesFile(line, now, env);
    RespondAnswered(allRequest, admitted, now, env, line, 200);
  }

  /** The client's GET of / or /index.html, sent to an admitted handler,
      is answered with 200 and the contents of index.html. */
  lemma ClientGetAnswered(target: string, host: string, now: string, env: Env)
    requires target == "/" || target == "/index.html"
    requires '\n' !in host
    ensures var file := env.readFile("index.html");
      Respond(ClientRequest(RequestLine("GET", target, "HTTP/1.1"), host, "0", ""), true, now, env) ==
        Some(Render(Reply(200, Some(Message(GetHeaders(now, |file|, env.lastModified("index.html")), file)))))
  {
    var line := RequestLine("GET", target, "HTTP/1.1");
    var req := ClientRequest(line, host, "0", "");
    ClientGetLine(target);
    ClientGetIndex(target, host, true, 0);
    ClientRequestShape(line, host, "0", "");
    IndexServed(req, line + "\r", true, now, env);
  }

  /** A request that validates to `code`, other than a served GET, is
      answered with the three plain headers and an empty body. */
  lemma PlainAnswered(allRequest: string, line: string, admitted: bool, code: int, now: string, env: Env)
    requires RequestLineOf(allRequest) == Some(line)
    requires Validate(line, allRequest, admitted, 0) == Status(code)
    requires code != 200 || (|Split(line, " ")| > 0 && Split(line, " ")[0] == "POST")
    ensures Respond(allRequest, admitted, now, env) ==
      Some(Render(Reply(code, Some(Message(PlainHeaders(now), "")))))
  {
    ValidatedAnswered(line, allRequest, admitted, BodyCheckAsWritten(Split(allRequest, "\n"), 0), now, env);
    OtherRepliesEmpty(line, code, now, env);
    RespondAnswered(allRequest, admitted, now, env, line, code);
  }

  /** The handler and the corrected check answer differently only for an
      admitted POST to /simpleForm.html whose Content-Length disagrees
      with its body, which the corrected check answers with 400. */
  lemma RespondDiffersOnlyOnLength(allRequest: string, admitted: bool, now: string, env: Env)
    requires Respond(allRequest, admitted, now, env) != RespondIntended(allRequest, admitted, now, env)
    ensures RequestLineOf(allRequest).Some?
    ensures var tokens := Split(RequestLineOf(allRequest).value, " ");
      admitted && |tokens| == 3 && tokens[0] == "POST" && tokens[1] == "/simpleForm.html"
    ensures BodyCheckIntended(Split(allRequest, "\n")) == LengthMismatch
    ensures RespondIntended(allRequest, admitted, now, env) ==
      Some(Render(Reply(400, Some(Message(PlainHeaders(now), "")))))
  {
    var line := RequestLineOf(allRequest).value;
    IntendedDiffersOnlyOnLength(line, allRequest, admitted, 0);
  }

  /** A POST accepted as written and rejected by the corrected check is
      answered with 200 by the handler and with 400 by the corrected one,
      both with the plain headers and an empty body. */
  lemma PostAnsweredBothWays(allRequest: string, line: string, now: string, env: Env)
    requires RequestLineOf(allRequest) == Some(line)
    requires |Split(line, " ")| > 0 && Split(line, " ")[0] == "POST"
    requires Validate(line, allRequest, true, 0) == Status(200)
    requires ValidateIntended(line, allRequest, true) == Status(400)
    ensures Respond(allRequest, true, now, env) == Some(Render(Reply(200, Some(Message(PlainHeaders(now), "")))))
    ensures RespondIntended(allRequest, true, now, env) == Some(Render(Reply(400, Some(Message(PlainHeaders(now), "")))))
  {
    PlainAnswered(allRequest, line, true, 200, now, env);
  }

  /** The handler, given the client's POST announcing 5 body characters
      and carrying 2, answers 200; the corrected check answers 400. */
  lemma ClientMismatchedPostAnswered(host: string, now: string, env: Env)
    requires '\n' !in host
    ensures var req := ClientRequest(RequestLine("POST", "/simpleForm.html", "HTTP/1.1"), host, "5", "ab");
      Respond(req, true, now, env) == Some(Render(Reply(200, Some(Message(PlainHeaders(now), ""))))) &&
      RespondIntended(req, true, now, env) == Some(Render(Reply(400, Some(Message(PlainHeaders(now), "")))))
  {
    var line := RequestLine("POST", "/simpleForm.html", "HTTP/1.1");
    var req := ClientRequest(line, host, "5", "ab");
    ClientPostLine();
    MismatchedPostAccepted(host, 0);
    ClientRequestShape(line, host, "5", "ab");
    PostAnsweredBothWays(req, line + "\r", now, env);
  }

  lemma ClientPostLine()
    ensures '\n' !in RequestLine("POST", "/simpleForm.html", "HTTP/1.1")
    ensures Split(RequestLine("POST", "/simpleForm.html", "HTTP/1.1") + "\r", " ") == ["POST", "/simpleForm.html", "HTTP/1.1\r"]
  {
    RequestLineTokens("POST", "/simpleForm.html", "HTTP/1.1");
    Http11Literal();
  }

  lemma ClientGetLine(target: string)
    requires target == "/" || target == "/index.html"
    ensures '\n' !in RequestLine("GET", target, "HTTP/1.1")
    ensures Split(RequestLine("GET", target, "HTTP/1.1") + "\r", " ") == ["GET", target, "HTTP/1.1\r"]
  {
    RequestLineTokens("GET", target, "HTTP/1.1");
    Http11Literal();
  }

  // ---------------------------------------------------------------------
  // The registry
  // ---------------------------------------------------------------------

  /** Under the registry's numbering no handler is listed twice, so
      checkAvailable judges a listed handler at its own position. */
  lemma AvailableAt(registry: Registry, i: nat)
    requires registry.Valid() && i < |registry.threadList|
    ensures Available(registry.threadList, registry.threadList[i]) <==>
      Admitted(StatesOf(registry.threadList), i)
  {
    var ts := registry.threadList;
    if Available(ts, ts[i]) {
      var j :| 0 <= j < |ts| && ts[j] == ts[i] && Admitted(StatesOf(ts), j);
      assert ts[j].threadCount == j + 1 && ts[i].threadCount == i + 1;
    }
  }

  /** A handler just accepted is served exactly when fewer than 5 of the
      handlers before it are LIVE. */
  lemma NewestAvailable(registry: Registry)
    requires registry.Valid() && |registry.threadList| > 0
    requires registry.threadList[|registry.threadList| - 1].state == Live
    ensures var ts := registry.threadList;
      Available(ts, ts[|ts| - 1]) <==> LiveCount(StatesOf(ts[..|ts| - 1])) < SupportedThreadNum
  {
    var ts := registry.threadList;
    var n := |ts| - 1;
    AvailableAt(registry, n);
    var states := StatesOf(ts);
    assert states[..n + 1] == states;
    assert states == StatesOf(ts[..n]) + [ts[n].state];
  }
}
