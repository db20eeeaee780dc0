/** One request line in, one response line out: `handleLine` of BACKEND/core/json_rpc.cpp, the loop of
    BACKEND/stdio/main.cpp around it, and the whole way of a request to the backend and back. */
module JsonRpc {
  import opened Numbers
  import opened Ordering
  import opened BackendErrors
  import opened Wrappers
  import opened JsonValues
  import opened JsonParsing
  import opened JsonPrinting
  import opened JsonMachine
  import opened Lines
  import opened LineFraming
  import opened Concat

  function CodeName(c: ErrorCode): string {
    match c
    case InvalidRequest => "InvalidRequest"
    case UnknownMethod => "UnknownMethod"
    case InvalidParams => "InvalidParams"
    case SessionExpired => "SessionExpired"
    case AuthenticationFailed => "AuthenticationFailed"
    case PermissionDenied => "PermissionDenied"
    case InvalidPath => "InvalidPath"
    case NotFound => "NotFound"
    case AlreadyExists => "AlreadyExists"
    case Conflict => "Conflict"
    case StorageError => "StorageError"
    case InternalError => "InternalError"
  }

  function Find(ms: seq<Member>, key: string): Option<Json> {
    if ms == [] then None else if ms[0].key == key then Some(ms[0].value) else Find(ms[1..], key)
  }

  /** What the dispatch table does with a method call: it may change the services' state, and returns
      a result, throws an RPC error, or throws anything else. */
  datatype Dispatched<S> =
    | Replied(state: S, result: Json)
    | Refused(state: S, code: ErrorCode, message: string)
    | Crashed(state: S)

  type Dispatch<!S> = (S, string, seq<Member>) -> Dispatched<S>

  function ErrorResponse(id: Json, code: ErrorCode, message: string): Json {
    Object([
      Member("error", Object([Member("code", String(CodeName(code))), Member("message", String(message))])),
      Member("id", id)])
  }

  function SuccessResponse(id: Json, result: Json): Json {
    Object([Member("id", id), Member("result", result)])
  }

  /** The id a response must carry: the request's, when the request has a string there. */
  function IdOf(line: string): Json {
    match ParseDocument(line)
    case Success(Object(ms)) => (match Find(ms, "id") case Some(String(s)) => String(s) case _ => Null)
    case _ => Null
  }

  /** A call that reaches the dispatch table. */
  datatype Call = Call(method_: string, params: seq<Member>)

  function CallOf(line: string): Option<Call> {
    match ParseDocument(line)
    case Success(Object(ms)) =>
      if Find(ms, "id").Some? && !Find(ms, "id").value.String? then None
      else if !(Find(ms, "method").Some? && Find(ms, "method").value.String?) then None
      else (match Find(ms, "params")
        case None => Some(Call(Find(ms, "method").value.s, []))
        case Some(Object(ps)) => Some(Call(Find(ms, "method").value.s, ps))
        case Some(_) => None)
    case _ => None
  }

  class JsonRpcDispatcher<S> {
    var services: S
    const dispatch: Dispatch<S>

    constructor (s: S, d: Dispatch<S>)
      ensures services == s && dispatch == d
    {
      services, dispatch := s, d;
    }

    /** The response value; `HandleLine` prints it. */
    method Respond(line: string) returns (response: Json)
      modifies this`services
      ensures (services, response) == Response(old(services), dispatch, line)
    {
      var id := Null;
      var parsed := ParseJson(line);
      if parsed.Failure? { return ErrorResponse(id, InvalidRequest, parsed.message); }
      if !parsed.value.Object? { return ErrorResponse(id, InvalidRequest, "Request must be an object."); }
      var request := parsed.value.members;
      var idEntry := Find(request, "id");
      if idEntry.Some? {
        if !idEntry.value.String? { return ErrorResponse(Null, InvalidRequest, "Request id must be a string."); }
        id := idEntry.value;
      }
      var methodEntry := Find(request, "method");
      if methodEntry.None? || !methodEntry.value.String? {
        return ErrorResponse(id, InvalidRequest, "Request method must be a string.");
      }
      var params: seq<Member> := [];
      var paramsEntry := Find(request, "params");
      if paramsEntry.Some? {
        if !paramsEntry.value.Object? { return ErrorResponse(id, InvalidParams, "Request params must be an object."); }
        params := paramsEntry.value.members;
      }
      var outcome := dispatch(services, methodEntry.value.s, params);
      services := outcome.state;
      match outcome
      case Replied(_, result) => return SuccessResponse(id, result);
      case Refused(_, code, message) => return ErrorResponse(id, code, message);
      case Crashed(_) => return ErrorResponse(id, InternalError, "Internal error.");
    }

    method HandleLine(line: string) returns (text: string)
      modifies this`services
      ensures services == Response(old(services), dispatch, line).0
      ensures text == Print(Response(old(services), dispatch, line).1)
    {
      var response := Respond(line);
      text := StringifyJson(response);
    }

    /** The loop of the backend process: read lines to the end of the input, skip the empty ones, and
        write each response and a line end. */
    method Serve(input: string, eol: string) returns (output: string)
      modifies this`services
      ensures services == Served(old(services), dispatch, GetLines(input, '\n')).0
      ensures output == Frame(Served(old(services), dispatch, GetLines(input, '\n')).1, eol)
    {
      output := "";
      var unread := input;
      ghost var all := Served(services, dispatch, GetLines(input, '\n'));
      while unread != ""
        invariant var more := Served(services, dispatch, GetLines(unread, '\n'));
          all.0 == more.0 && Frame(all.1, eol) == output + Frame(more.1, eol)
        decreases |unread|
      {
        GetLinesStep(unread, '\n');
        var line := FirstLine(unread, '\n');
        unread := AfterLine(unread, '\n');
        if line == "" { continue; }
        var text := HandleLine(line);
        Assoc(output, text + eol, Frame(Served(services, dispatch, GetLines(unread, '\n')).1, eol));
        output := output + (text + eol);
      }
    }
  }

  datatype Answer = Result(value: Json) | Error(code: ErrorCode, message: string)

  /** What a line is answered with, the id aside. */
  function AnswerTo<S>(s: S, dispatch: Dispatch<S>, line: string): (S, Answer) {
    match CallOf(line)
    case Some(call) =>
      (match dispatch(s, call.method_, call.params)
       case Replied(s', result) => (s', Result(result))
       case Refused(s', code, message) => (s', Error(code, message))
       case Crashed(s') => (s', Error(InternalError, "Internal error.")))
    case None =>
      (s, match ParseDocument(line)
       case Failure(message) => Error(InvalidRequest, message)
       case Success(v) =>
         if !v.Object? then Error(InvalidRequest, "Request must be an object.")
         else if Find(v.members, "id").Some? && !Find(v.members, "id").value.String? then
           Error(InvalidRequest, "Request id must be a string.")
         else if !(Find(v.members, "method").Some? && Find(v.members, "method").value.String?) then
           Error(InvalidRequest, "Request method must be a string.")
         else Error(InvalidParams, "Request params must be an object."))
  }

  function Response<S>(s: S, dispatch: Dispatch<S>, line: string): (S, Json) {
    var (s', answer) := AnswerTo(s, dispatch, line);
    (s', match answer
      case Result(v) => SuccessResponse(IdOf(line), v)
      case Error(code, message) => ErrorResponse(IdOf(line), code, message))
  }

  /** The printed responses to a list of lines, in order. */
  function Served<S>(s: S, dispatch: Dispatch<S>, lines: seq<string>): (S, seq<string>)
    decreases lines
  {
    if lines == [] then (s, [])
    else if lines[0] == "" then Served(s, dispatch, lines[1..])
    else
      var (s1, response) := Response(s, dispatch, lines[0]);
      var (s2, more) := Served(s1, dispatch, lines[1..]);
      (s2, [Print(response)] + more)
  }

  function Frame(texts: seq<string>, eol: string): string {
    if texts == [] then "" else texts[0] + eol + Frame(texts[1..], eol)
  }

  /** The dispatch table builds only values that `JsonValue` can hold. */
  ghost predicate RepliesValid<S(!new)>(dispatch: Dispatch<S>) {
    forall s, m, ps :: dispatch(s, m, ps).Replied? ==> Valid(dispatch(s, m, ps).result)
  }

  predicate IsId(id: Json) { id == Null || id.String? }

  lemma FindInPair(a: Member, b: Member, key: string)
    ensures Find([a, b], key) == if a.key == key then Some(a.value) else if b.key == key then Some(b.value) else None
  {
    assert [a, b][1..] == [b];
    assert Find([b], key) == if b.key == key then Some(b.value) else None;
  }

  lemma SuccessShape(id: Json, result: Json)
    requires IsId(id) && Valid(result)
    ensures var r := SuccessResponse(id, result);
      Valid(r) && Find(r.members, "id") == Some(id) && Find(r.members, "result") == Some(result)
      && Find(r.members, "error") == None
  {
    var r := SuccessResponse(id, result);
    assert "id"[0] == 'i' && "result"[0] == 'r' && "error"[0] == 'e';
    FindInPair(r.members[0], r.members[1], "error");
    assert Sorted(r.members) by { assert Less("id", "result"); }
  }

  lemma ErrorShape(id: Json, code: ErrorCode, message: string)
    requires IsId(id)
    ensures var r := ErrorResponse(id, code, message);
      Valid(r) && Find(r.members, "id") == Some(id) && Find(r.members, "result") == None
      && Find(r.members, "error").Some?
  {
    var r := ErrorResponse(id, code, message);
    assert "id"[0] == 'i' && "result"[0] == 'r' && "error"[0] == 'e' && "code"[0] == 'c' && "message"[0] == 'm';
    FindInPair(r.members[0], r.members[1], "result");
    assert Less("error", "id") && Less("code", "message");
    assert Valid(r.members[0].value);
  }

  /** Every response, whatever the line, is an object of exactly an id and a result or an error; the id
      is the request's string id or null. */
  lemma ResponseShape<S(!new)>(s: S, dispatch: Dispatch<S>, line: string)
    requires RepliesValid(dispatch)
    ensures var r := Response(s, dispatch, line).1;
      && Valid(r) && r.Object? && |r.members| == 2
      && IsId(IdOf(line)) && Find(r.members, "id") == Some(IdOf(line))
      && (Find(r.members, "result").Some? <==> !Find(r.members, "error").Some?)
      && (Find(r.members, "result").Some? <==>
          CallOf(line).Some? && dispatch(s, CallOf(line).value.method_, CallOf(line).value.params).Replied?)
  {
    match AnswerTo(s, dispatch, line).1
    case Result(v) => SuccessShape(IdOf(line), v);
    case Error(code, message) => ErrorShape(IdOf(line), code, message);
  }

  /** So the response line is one line, and the client reads the response out of it. */
  lemma ResponseLine<S(!new)>(s: S, dispatch: Dispatch<S>, line: string)
    requires RepliesValid(dispatch)
    ensures var r := Response(s, dispatch, line).1;
      Printable(Print(r)) && Print(r) != "" && ParseDocument(Print(r)) == Success(Rounded(r))
  {
    ResponseShape(s, dispatch, line);
    var r := Response(s, dispatch, line).1;
    PrintPrintable(r);
    PrintThenParse(r);
  }

  // ---- The way across the pipe ----

  lemma StripLine(text: string, eol: string)
    requires Printable(text) && eol in ["\n", "\r\n"]
    ensures '\n' !in text && '\r' !in text
    ensures text + eol == text + eol[..|eol| - 1] + ['\n'] && '\n' !in text + eol[..|eol| - 1]
    ensures StripCr(text + eol[..|eol| - 1]) == text
  {
    StripCrKeeps(text);
    StripCrConcat(text, eol[..|eol| - 1]);
    assert StripCr(eol[..|eol| - 1]) == "";
  }

  /** The number of texts before the first that is over the limit of the client. */
  function BeforeTooLong(texts: seq<string>): (n: nat)
    ensures n <= |texts|
    ensures forall i :: 0 <= i < n ==> |texts[i]| <= MAX_RESPONSE_LINE_BYTES
    ensures n < |texts| ==> |texts[n]| > MAX_RESPONSE_LINE_BYTES
  {
    if texts == [] || |texts[0]| > MAX_RESPONSE_LINE_BYTES then 0 else 1 + BeforeTooLong(texts[1..])
  }

  /** The first of some framed texts. */
  lemma FirstFramed(text: string, eol: string, rest: string)
    requires Printable(text) && eol in ["\n", "\r\n"] && |text| <= MAX_RESPONSE_LINE_BYTES
    ensures NextLine(text + eol + rest) == Line(text, rest)
  {
    StripLine(text, eol);
    IndexOfAfter(text + eol[..|eol| - 1], '\n', rest);
  }

  ghost predicate AllPrintable(texts: seq<string>) { forall i :: 0 <= i < |texts| ==> Printable(texts[i]) }

  lemma FramedStep(texts: seq<string>, eol: string, k: nat)
    requires texts != [] && AllPrintable(texts) && eol in ["\n", "\r\n"] && k > 0
    ensures Received(Frame(texts, eol), k) ==
      if |texts[0]| > MAX_RESPONSE_LINE_BYTES then [] else [texts[0]] + Received(Frame(texts[1..], eol), k - 1)
  {
    var rest := Frame(texts[1..], eol);
    if |texts[0]| > MAX_RESPONSE_LINE_BYTES {
      TooLongLine(texts[0], eol, rest);
    } else {
      FirstFramed(texts[0], eol, rest);
    }
  }

  /** The texts that get through in `k` calls. */
  function Fitting(texts: seq<string>, k: nat): seq<string> {
    if k == 0 || texts == [] || |texts[0]| > MAX_RESPONSE_LINE_BYTES then []
    else [texts[0]] + Fitting(texts[1..], k - 1)
  }

  lemma {:induction false} FittingIsPrefix(texts: seq<string>, k: nat)
    ensures Fitting(texts, k) == texts[..Min(k, BeforeTooLong(texts))]
  {
    if k > 0 && texts != [] && |texts[0]| <= MAX_RESPONSE_LINE_BYTES {
      FittingIsPrefix(texts[1..], k - 1);
      TakeMore(texts, Min(k - 1, BeforeTooLong(texts[1..])));
    }
  }

  lemma {:induction false} FramedFit(texts: seq<string>, eol: string, k: nat)
    requires AllPrintable(texts) && eol in ["\n", "\r\n"]
    ensures Received(Frame(texts, eol), k) == Fitting(texts, k)
    decreases texts
  {
    if texts == [] {
      NothingFramed(k);
    } else if k > 0 {
      FramedStep(texts, eol, k);
      FramedFit(texts[1..], eol, k - 1);
    }
  }

  /** Framed texts are received one by one, in order, with either line end, up to the first that is too long. */
  lemma FramedLines(texts: seq<string>, eol: string, k: nat)
    requires AllPrintable(texts) && eol in ["\n", "\r\n"]
    ensures Received(Frame(texts, eol), k) == texts[..Min(k, BeforeTooLong(texts))]
  {
    FramedFit(texts, eol, k);
    FittingIsPrefix(texts, k);
  }

  lemma NothingFramed(k: nat)
    ensures Received("", k) == []
  {
    assert NextLine("") == NoLine;
  }

  lemma TakeMore(texts: seq<string>, n: nat)
    requires n < |texts|
    ensures texts[..n + 1] == [texts[0]] + texts[1..][..n]
  {
  }

  /** A response longer than the limit is never received in part: the exchange ends there. */
  lemma TooLongLine(text: string, eol: string, rest: string)
    requires Printable(text) && eol in ["\n", "\r\n"] && |text| > MAX_RESPONSE_LINE_BYTES
    ensures NextLine(text + eol + rest) == NoLine
  {
    StripLine(text, eol);
    IndexOfAfter(text + eol[..|eol| - 1], '\n', rest);
  }

  function PrintAll(values: seq<Json>): seq<string> {
    seq(|values|, i requires 0 <= i < |values| => Print(values[i]))
  }

  /** Requests written as printed values and line ends are read by the backend line by line. */
  lemma {:induction false} RequestLines(values: seq<Json>)
    requires forall i :: 0 <= i < |values| ==> Valid(values[i])
    ensures GetLines(Frame(PrintAll(values), "\n"), '\n') == PrintAll(values)
    ensures forall i :: 0 <= i < |values| ==> PrintAll(values)[i] != ""
  {
    if values != [] {
      assert PrintAll(values) == [Print(values[0])] + PrintAll(values[1..]);
      PrintPrintable(values[0]);
      IndexOfAfter(Print(values[0]), '\n', Frame(PrintAll(values[1..]), "\n"));
      RequestLines(values[1..]);
    }
  }

  /** The responses to a list of lines, before they are printed. */
  function Answers<S>(s: S, dispatch: Dispatch<S>, lines: seq<string>): (answers: seq<Json>)
    ensures |answers| == |lines|
    decreases lines
  {
    if lines == [] then [] else
    var (next, response) := Response(s, dispatch, lines[0]);
    [response] + Answers(next, dispatch, lines[1..])
  }

  ghost predicate AllValid(values: seq<Json>) { forall i :: 0 <= i < |values| ==> Valid(values[i]) }

  /** One line is served for each line that is not empty. */
  lemma {:induction false} ServedAnswers<S(!new)>(s: S, dispatch: Dispatch<S>, lines: seq<string>)
    requires RepliesValid(dispatch) && forall i :: 0 <= i < |lines| ==> lines[i] != ""
    ensures AllValid(Answers(s, dispatch, lines))
    ensures Served(s, dispatch, lines).1 == PrintAll(Answers(s, dispatch, lines))
    decreases lines
  {
    if lines != [] {
      var (next, response) := Response(s, dispatch, lines[0]);
      ResponseShape(s, dispatch, lines[0]);
      ServedAnswers(next, dispatch, lines[1..]);
      PrintAllCons(response, Answers(next, dispatch, lines[1..]));
    }
  }

  lemma PrintAllCons(first: Json, rest: seq<Json>)
    ensures PrintAll([first] + rest) == [Print(first)] + PrintAll(rest)
  {
  }

  /** The answers to request values, which arrive at the backend as its lines. */
  function AnswersTo<S>(s: S, dispatch: Dispatch<S>, values: seq<Json>): (answers: seq<Json>)
    ensures |answers| == |values|
  {
    Answers(s, dispatch, PrintAll(values))
  }

  /** What the backend writes when the printed values are written to it, one per line. */
  function Output<S>(s: S, dispatch: Dispatch<S>, values: seq<Json>, eol: string): string {
    Frame(Served(s, dispatch, GetLines(Frame(PrintAll(values), "\n"), '\n')).1, eol)
  }

  lemma PrintedParse(values: seq<Json>)
    requires AllValid(values)
    ensures AllPrintable(PrintAll(values))
    ensures forall i :: 0 <= i < |values| ==> ParseDocument(PrintAll(values)[i]) == Success(Rounded(values[i]))
  {
    forall i | 0 <= i < |values|
      ensures Printable(PrintAll(values)[i]) && ParseDocument(PrintAll(values)[i]) == Success(Rounded(values[i]))
    {
      PrintPrintable(values[i]);
      PrintThenParse(values[i]);
    }
  }

  /** The backend parses each request value, up to rounding, and answers it; what `k` calls receive of the output
      are the printed answers in order, up to the first that is too long. */
  lemma AnswersCross<S(!new)>(s: S, dispatch: Dispatch<S>, values: seq<Json>, eol: string, k: nat)
    requires RepliesValid(dispatch) && eol in ["\n", "\r\n"] && AllValid(values)
    ensures var answers := AnswersTo(s, dispatch, values);
      AllValid(answers)
      && Received(Output(s, dispatch, values, eol), k)
        == PrintAll(answers)[..Min(k, BeforeTooLong(PrintAll(answers)))]
  {
    RequestLines(values);
    ServedAnswers(s, dispatch, PrintAll(values));
    PrintedParse(AnswersTo(s, dispatch, values));
    FramedLines(PrintAll(AnswersTo(s, dispatch, values)), eol, k);
  }

  /** End to end, on the client's transport: the client sends values, of which `sent` says whether they could be
      written, and reads the answers out of whatever chunks the pipe delivers. The i-th answer read is the printed
      answer to the i-th value, and parses to it up to rounding; there are as many as were asked for, unless one
      before is too long. */
  method ValuesCrossThePipe<S(!new)>(t: Transport, ghost s: S, ghost dispatch: Dispatch<S>, ghost values: seq<Json>,
      ghost eol: string, sent: seq<bool>) returns (responses: seq<string>)
    requires t.running && RepliesValid(dispatch) && eol in ["\n", "\r\n"] && AllValid(values)
    requires t.Stream() == Output(s, dispatch, values, eol)
    modifies t
    ensures var answers := AnswersTo(s, dispatch, values);
      |responses| == Min(Leading(sent), BeforeTooLong(PrintAll(answers)))
      && forall i :: 0 <= i < |responses| ==>
        responses[i] == Print(answers[i]) && ParseDocument(responses[i]) == Success(Rounded(answers[i]))
  {
    AnswersCross(s, dispatch, values, eol, Leading(sent));
    PrintedParse(AnswersTo(s, dispatch, values));
    responses := RequestAll(t, sent);
  }

  /** And each answer is the response to the value that was sent, as the backend parses it. */
  lemma {:induction false} AnswersAreResponses<S(!new)>(s: S, dispatch: Dispatch<S>, values: seq<Json>, i: nat)
    returns (before: S)
    requires RepliesValid(dispatch) && AllValid(values) && i < |values|
    ensures AnswersTo(s, dispatch, values)[i] == Response(before, dispatch, Print(values[i])).1
    ensures ParseDocument(Print(values[i])) == Success(Rounded(values[i]))
    decreases i
  {
    PrintThenParse(values[i]);
    AnswersCons(s, dispatch, values);
    before := s;
    if i > 0 { before := AnswersAreResponses(Response(s, dispatch, Print(values[0])).0, dispatch, values[1..], i - 1); }
  }

  lemma AnswersCons<S(!new)>(s: S, dispatch: Dispatch<S>, values: seq<Json>)
    requires values != []
    ensures var (next, answer) := Response(s, dispatch, Print(values[0]));
      AnswersTo(s, dispatch, values) == [answer] + AnswersTo(next, dispatch, values[1..])
  {
    Uncons(values);
    PrintAllCons(values[0], values[1..]);
  }
}
