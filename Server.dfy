/**
 * The connection handlers and the registry that admits them.
 *
 * A handler reads one request at a time from its connection: characters
 * until the reader reports that nothing more is ready, or until the end
 * of the stream, which closes the connection and turns the handler DEAD.
 * Each non-empty request read while LIVE is validated, answered and sent;
 * an exception on the way sends nothing and the handler reads on.
 *
 * The registry keeps every handler ever created, in creation order,
 * numbered 1, 2, 3, ...; a handler is served when at most 5 handlers at or
 * before its position are LIVE.
 */
module Server {
  import opened JavaString
  import opened ThreadStates
  import opened Admission
  import opened Validator
  import opened ValidatorProperties
  import opened Response

  /** One `reader.read()`: a character, with what `reader.ready()` says
      after it, or the end of the stream (-1). */
  datatype ReadResult = Char(c: char, ready: bool) | Eof

  /** How one readRequest ends: the reader had nothing more ready, the
      stream ended (the connection is closed), or the input ran out while
      the reader still promised more, where `read()` would block. */
  datatype Ending = NotReady | EndOfStream | Blocked

  /** What one readRequest finds: the characters read, how it ended and
      the input after it. */
  datatype Cycle = Cycle(text: string, ending: Ending, rest: seq<ReadResult>)

  /** The characters of a run of character reads. */
  function Chars(rs: seq<ReadResult>): (s: string)
    requires forall k :: 0 <= k < |rs| ==> rs[k].Char?
    ensures |s| == |rs| && forall k :: 0 <= k < |rs| ==> s[k] == rs[k].c
    decreases |rs|
  {
    if rs == [] then [] else Chars(rs[..|rs| - 1]) + [rs[|rs| - 1].c]
  }

  /** The do-while of readRequest, after `acc` has been read: it reads,
      stops at the end of the stream, and otherwise goes on while the
      reader is ready. */
  function ReadCycle(input: seq<ReadResult>, acc: string): (cy: Cycle)
    ensures cy.ending == NotReady ==> |cy.text| > |acc|
    ensures cy.ending == Blocked ==> cy.rest == []
    ensures cy.ending != Blocked ==> |cy.rest| < |input|
    decreases |input|
  {
    if input == [] then Cycle(acc, Blocked, [])
    else match input[0]
      case Eof => Cycle(acc, EndOfStream, input[1..])
      case Char(c, ready) =>
        if ready then ReadCycle(input[1..], acc + [c]) else Cycle(acc + [c], NotReady, input[1..])
  }

  /** What the handler sends for one request read while LIVE: nothing
      when extracting the request line, numStatus or answerBody throws,
      otherwise the status line and the message. numStatus is the one
      as written; the identity hash of the line array it scans does not
      change its verdict (ArrayHashIrrelevant), so 0 stands for it. */
  function Respond(allRequest: string, admitted: bool, now: string, env: Env): Option<string> {
    match RequestLineOf(allRequest)
    case None => None
    case Some(requestLine) =>
      match Validate(requestLine, allRequest, admitted, 0)
      case Throws => None
      case Status(code) =>
        match AnswerFor(requestLine, code, now, env)
        case None => None
        case Some(reply) => Some(StatusLine(code) + RenderMessage(reply.message))
  }

  /** What the handler would send with the Content-Length check its
      comment describes. */
  function RespondIntended(allRequest: string, admitted: bool, now: string, env: Env): Option<string> {
    match RequestLineOf(allRequest)
    case None => None
    case Some(requestLine) =>
      match ValidateIntended(requestLine, allRequest, admitted)
      case Throws => None
      case Status(code) =>
        match AnswerFor(requestLine, code, now, env)
        case None => None
        case Some(reply) => Some(StatusLine(code) + RenderMessage(reply.message))
  }

  /** The answer for a request whose line validates to `code` and for
      which answerBody does not throw. */
  lemma RespondAnswered(allRequest: string, admitted: bool, now: string, env: Env,
                        requestLine: string, code: int)
    requires RequestLineOf(allRequest) == Some(requestLine)
    requires Validate(requestLine, allRequest, admitted, 0) == Status(code)
    requires AnswerFor(requestLine, code, now, env).Some?
    ensures Respond(allRequest, admitted, now, env) ==
      Some(StatusLine(code) + RenderMessage(AnswerFor(requestLine, code, now, env).value.message))
  {
  }

  /** The whole life of a LIVE handler over its input: the answers it
      sends, its final state and the input left unread. */
  datatype Outcome = Outcome(sent: seq<string>, state: ThreadState, rest: seq<ReadResult>)

  /** `answers` sent before the rest of a session. */
  function Prepend(answers: seq<string>, o: Outcome): Outcome {
    Outcome(answers + o.sent, o.state, o.rest)
  }

  /** The loop of run, for a handler that the registry admits or not
      (`admitted`); the date and the files are fixed for the session. */
  function Session(input: seq<ReadResult>, admitted: bool, now: string, env: Env): Outcome
    decreases |input|
  {
    var cy := ReadCycle(input, "");
    match cy.ending
    case Blocked => Outcome([], Live, [])
    case EndOfStream => Outcome([], Dead, cy.rest)
    case NotReady =>
      var next := Session(cy.rest, admitted, now, env);
      match Respond(cy.text, admitted, now, env)
      case None => next
      case Some(answer) => Prepend([answer], next)
  }

  /** The states of a list of handlers, in order. */
  function StatesOf(ts: seq<ServerThread>): (states: seq<ThreadState>)
    reads ts`state
    ensures |states| == |ts| && forall i :: 0 <= i < |ts| ==> states[i] == ts[i].state
    decreases |ts|
  {
    if ts == [] then [] else StatesOf(ts[..|ts| - 1]) + [ts[|ts| - 1].state]
  }

  /** The answer checkAvailable gives for `t`. */
  ghost predicate Available(ts: seq<ServerThread>, t: ServerThread)
    reads ts`state
  {
    exists i :: 0 <= i < |ts| && ts[i] == t && Admitted(StatesOf(ts), i)
  }

  /** One connection handler (ServerThreads). */
  class ServerThread {
    var state: ThreadState
    /** The number the registry gave it. */
    var threadCount: int
    /** The reads its connection will deliver. */
    var input: seq<ReadResult>
    /** The answers written to its connection. */
    var output: seq<string>

    constructor (threadCount: int, input: seq<ReadResult>)
      ensures state == Live && this.threadCount == threadCount
      ensures this.input == input && output == []
    {
      state := Live;
      this.threadCount := threadCount;
      this.input := input;
      output := [];
    }

    /** close: the connection is closed and the handler turns DEAD. */
    method Close()
      modifies this
      ensures state == Dead
      ensures threadCount == old(threadCount) && input == old(input) && output == old(output)
    {
      state := Dead;
    }

    /** readRequest: reads one request; `starved` reports a read that
        would block forever. */
    method ReadRequest() returns (request: string, starved: bool)
      modifies this
      ensures threadCount == old(threadCount) && output == old(output)
      ensures var cy := ReadCycle(old(input), "");
        request == cy.text && starved == (cy.ending == Blocked) && input == cy.rest &&
        state == if cy.ending == EndOfStream then Dead else old(state)
    {
      var charsRequest := new StringBuilder();
      while true
        invariant ReadCycle(old(input), "") == ReadCycle(input, charsRequest.text)
        invariant threadCount == old(threadCount) && output == old(output) && state == old(state)
        decreases |input|
      {
        if input == [] {
          return charsRequest.text, true;
        }
        var c := input[0];
        input := input[1..];
        if c.Eof? {
          Close();
          return charsRequest.text, false;
        }
        charsRequest.Append([c.c]);
        if !c.ready {
          return charsRequest.text, false;
        }
      }
    }

    /** The body of run's `if` for one request: the request line, the
        admission check, numStatus, answerPutStatus and answerBody into a
        fresh answer buffer; None when one of them throws. */
    method Answer(allRequest: string, registry: Registry, now: string, env: Env)
      returns (answer: Option<string>)
      ensures answer == Respond(allRequest, old(Available(registry.threadList, this)), now, env)
    {
      var lines := Split(allRequest, "\n");
      if |lines| == 0 {
        return None;
      }
      var requestLine := lines[0];
      var admitted := registry.CheckAvailable(this);
      ghost var respond := Respond(allRequest, admitted, now, env);
      // the identity hash the JVM gives the line array: any value
      var arrayHash: nat :| true;
      var check := ContentLengthAsWritten(Split(allRequest, "\n"), arrayHash);
      var requestStatusCode := NumStatus(requestLine, allRequest, admitted, check);
      ArrayHashIrrelevant(requestLine, allRequest, admitted, arrayHash, 0);
      if requestStatusCode.Throws? {
        return None;
      }
      var code := requestStatusCode.code;
      var sbAnswer := new StringBuilder();
      AnswerPutStatus(sbAnswer, code);
      var thrown := AnswerBody(requestLine, sbAnswer, code, now, env);
      if thrown {
        return None;
      }
      assert "" + StatusLine(code) == StatusLine(code);
      answer := Some(sbAnswer.text);
      assert answer == respond by {
        RespondAnswered(allRequest, admitted, now, env, requestLine, code);
      }
    }

    /** run: serves requests while LIVE. `registry` is the server's list of
        handlers; the loop stops when the handler turns DEAD, or when a
        read would block forever. */
    method Run(registry: Registry, now: string, env: Env)
      modifies this
      ensures threadCount == old(threadCount)
      ensures old(state) == Dead ==> state == Dead && input == old(input) && output == old(output)
      ensures old(state) == Live ==>
        Prepend(old(output), Session(old(input), old(Available(registry.threadList, this)), now, env))
          == Outcome(output, state, input)
    {
      ghost var admitted := Available(registry.threadList, this);
      while state == Live
        invariant threadCount == old(threadCount)
        invariant old(state) == Dead ==> state == Dead && input == old(input) && output == old(output)
        invariant old(state) == Live ==>
          Prepend(old(output), Session(old(input), admitted, now, env))
            == Resume(output, state, input, admitted, now, env)
        decreases |input|
      {
        var starved := Serve(registry, now, env);
        if starved {
          SessionBlocked(output, admitted, now, env);
          return;
        }
      }
    }

    /** One turn of run's loop: read a request and, if it was read while
        LIVE, answer it. */
    method Serve(registry: Registry, now: string, env: Env) returns (starved: bool)
      requires state == Live
      modifies this
      ensures threadCount == old(threadCount)
      ensures Prepend(old(output), Session(old(input), old(Available(registry.threadList, this)), now, env))
        == Resume(output, state, input, old(Available(registry.threadList, this)), now, env)
      ensures starved ==> state == Live && input == []
      ensures !starved ==> |input| < |old(input)|
    {
      ghost var admitted := Available(registry.threadList, this);
      var allRequest;
      allRequest, starved := ReadRequest();
      if starved {
        return;
      }
      if state == Dead {
        PrependNothing(output, Dead);
        return;
      }
      assert Available(registry.threadList, this) == admitted;
      var answer := Answer(allRequest, registry, now, env);
      if answer.Some? {
        PrependTwice(output, [answer.value], Session(input, admitted, now, env));
        output := output + [answer.value];
      }
    }
  }

  /** Where a session stands after `output` was sent: DEAD, or LIVE with
      the session over `input` still to come. */
  function Resume(output: seq<string>, state: ThreadState, input: seq<ReadResult>,
                  admitted: bool, now: string, env: Env): Outcome
  {
    if state == Dead then Outcome(output, Dead, input)
    else Prepend(output, Session(input, admitted, now, env))
  }

  lemma SessionBlocked(output: seq<string>, admitted: bool, now: string, env: Env)
    ensures Prepend(output, Session([], admitted, now, env)) == Outcome(output, Live, [])
  {
    assert output + [] == output;
  }

  lemma PrependTwice(a: seq<string>, b: seq<string>, o: Outcome)
    ensures Prepend(a, Prepend(b, o)) == Prepend(a + b, o)
  {
  }

  lemma PrependNothing(a: seq<string>, s: ThreadState)
    ensures forall rest :: Prepend(a, Outcome([], s, rest)) == Outcome(a, s, rest)
  {
    assert a + [] == a;
  }

  /** The server's bookkeeping (MyHttpServer's static fields). */
  class Registry {
    /** The number the next handler gets. */
    var threadCount: int
    /** Every handler created so far, in creation order. */
    var threadList: seq<ServerThread>

    /** The handlers are numbered 1, 2, 3, ... in list order, and the next
        number follows the last. */
    ghost predicate Valid()
      reads this, threadList
    {
      threadCount == |threadList| + 1 &&
      forall i :: 0 <= i < |threadList| ==> threadList[i].threadCount == i + 1
    }

    /** The start of main: no handler yet, numbering from 1. */
    constructor ()
      ensures threadCount == 1 && threadList == [] && Valid()
    {
      threadCount := 1;
      threadList := [];
    }

    /** One turn of main's accept loop: a new LIVE handler for a
        connection delivering `input`, registered at the end of the list
        under the next number. */
    method Accept(input: seq<ReadResult>) returns (thread: ServerThread)
      requires Valid()
      modifies this
      ensures fresh(thread) && thread.state == Live && thread.input == input && thread.output == []
      ensures thread.threadCount == old(threadCount)
      ensures threadList == old(threadList) + [thread] && threadCount == old(threadCount) + 1
      ensures Valid()
    {
      thread := new ServerThread(threadCount, input);
      threadList := threadList + [thread];
      threadCount := threadCount + 1;
    }

    /** checkActive: the number of LIVE handlers. */
    method CheckActive() returns (liveThreadNum: int)
      ensures liveThreadNum == LiveCount(StatesOf(threadList))
      ensures 0 <= liveThreadNum <= |threadList|
    {
      ghost var states := StatesOf(threadList);
      liveThreadNum := 0;
      var i := 0;
      while i < |threadList|
        invariant 0 <= i <= |threadList|
        invariant liveThreadNum == LiveCount(states[..i])
      {
        LiveCountStep(states, i);
        if threadList[i].state == Live {
          liveThreadNum := liveThreadNum + 1;
        }
        i := i + 1;
      }
      assert states[..i] == states;
    }

    /** checkAvailable: true when, at some position holding `thread`, at
        most 5 handlers up to and including it are LIVE. */
    method CheckAvailable(thread: ServerThread) returns (available: bool)
      ensures available <==> Available(threadList, thread)
    {
      ghost var states := StatesOf(threadList);
      var liveThreadNum := 0;
      var i := 0;
      while i < |threadList|
        invariant 0 <= i <= |threadList|
        invariant liveThreadNum == LiveCount(states[..i])
        invariant forall j :: 0 <= j < i && threadList[j] == thread ==> !Admitted(states, j)
      {
        LiveCountStep(states, i);
        if threadList[i].state == Live {
          liveThreadNum := liveThreadNum + 1;
        }
        assert Admitted(states, i) <==> liveThreadNum <= SupportedThreadNum;
        if thread == threadList[i] {
          if liveThreadNum <= SupportedThreadNum {
            assert threadList[i] == thread && Admitted(states, i);
            return true;
          }
        }
        i := i + 1;
      }
      assert !Available(threadList, thread);
      return false;
    }
  }
}
