/** What an answer of the backend says, BACKEND/core/json_rpc.cpp: stated on the parsed request alone, for every line
    and, end to end, for every value a client sends. */
module JsonAnswers {
  import opened BackendErrors
  import opened JsonParsing
  import opened JsonPrinting
  import opened JsonRpc
  import opened JsonValues
  import opened Ordering
  import opened Wrappers

  // ---- Members ----

  /** In an object a member is found exactly when it is there. */
  lemma {:induction false} FoundMembers(ms: seq<Member>, key: string, v: Json)
    requires Sorted(ms)
    ensures Find(ms, key) == Some(v) <==> Member(key, v) in ms
  {
    if ms != [] {
      FoundMembers(ms[1..], key, v);
      assert ms == [ms[0]] + ms[1..];
      LessIrreflexive(ms[0].key);
      forall i | 0 < i < |ms| ensures ms[i].key != ms[0].key { assert Less(ms[0].key, ms[i].key); }
    }
  }

  /** The names of the codes on the wire. */
  lemma CodeNamesAre()
    ensures [CodeName(InvalidRequest), CodeName(UnknownMethod), CodeName(InvalidParams), CodeName(SessionExpired)]
      == ["InvalidRequest", "UnknownMethod", "InvalidParams", "SessionExpired"]
    ensures [CodeName(AuthenticationFailed), CodeName(PermissionDenied), CodeName(InvalidPath), CodeName(NotFound)]
      == ["AuthenticationFailed", "PermissionDenied", "InvalidPath", "NotFound"]
    ensures [CodeName(AlreadyExists), CodeName(Conflict), CodeName(StorageError), CodeName(InternalError)]
      == ["AlreadyExists", "Conflict", "StorageError", "InternalError"]
  {
  }

  /** No two codes have the same name on the wire. */
  lemma CodeNamesDiffer(c: ErrorCode, d: ErrorCode)
    ensures CodeName(c) == CodeName(d) <==> c == d
  {
    NameLengths(c);
    NameLengths(d);
    assert "UnknownMethod"[0] == 'U' && "InvalidParams"[0] == 'I' && "InternalError"[0] == 'I';
    assert "AlreadyExists"[0] == 'A';
    assert "InvalidParams"[2] == 'v' && "InternalError"[2] == 't';
    assert "InvalidRequest"[0] == 'I' && "SessionExpired"[0] == 'S';
    assert "PermissionDenied"[0] == 'P' && "StorageError"[0] == 'S' && "NotFound"[0] == 'N' && "Conflict"[0] == 'C';
  }

  lemma NameLengths(c: ErrorCode)
    ensures |CodeName(c)| ==
      match c
      case InvalidRequest => 14 case UnknownMethod => 13 case InvalidParams => 13 case SessionExpired => 14
      case AuthenticationFailed => 20 case PermissionDenied => 16 case InvalidPath => 11 case NotFound => 8
      case AlreadyExists => 13 case Conflict => 8 case StorageError => 12 case InternalError => 13
  {
  }

  // ---- What an answer says ----

  /** An object with this id and this result and no error. */
  ghost predicate SaysResult(r: Json, id: Json, v: Json) {
    r.Object? && Find(r.members, "id") == Some(id) && Find(r.members, "result") == Some(v)
    && Find(r.members, "error") == None
  }

  /** An object with this id and an error of this code and message and no result. */
  ghost predicate SaysError(r: Json, id: Json, code: string, message: string) {
    r.Object? && Find(r.members, "id") == Some(id) && Find(r.members, "result") == None
    && match Find(r.members, "error")
      case Some(Object(e)) => Find(e, "code") == Some(String(code)) && Find(e, "message") == Some(String(message))
      case _ => false
  }

  lemma ResultSaid(id: Json, v: Json)
    ensures SaysResult(SuccessResponse(id, v), id, v)
  {
    assert "id"[0] == 'i' && "result"[0] == 'r' && "error"[0] == 'e';
    FindInPair(Member("id", id), Member("result", v), "id");
    FindInPair(Member("id", id), Member("result", v), "result");
    FindInPair(Member("id", id), Member("result", v), "error");
  }

  lemma ErrorSaid(id: Json, code: ErrorCode, message: string)
    ensures SaysError(ErrorResponse(id, code, message), id, CodeName(code), message)
  {
    assert "id"[0] == 'i' && "result"[0] == 'r' && "error"[0] == 'e' && "code"[0] == 'c' && "message"[0] == 'm';
    var c, m := Member("code", String(CodeName(code))), Member("message", String(message));
    FindInPair(c, m, "code");
    FindInPair(c, m, "message");
    FindInPair(Member("error", Object([c, m])), Member("id", id), "id");
    FindInPair(Member("error", Object([c, m])), Member("id", id), "result");
    FindInPair(Member("error", Object([c, m])), Member("id", id), "error");
  }

  /** An object that calls a method: its id is absent or a string, its parameters are absent or an object. */
  predicate Calls(ms: seq<Member>, m: string, ps: seq<Member>) {
    GoodId(ms) && Find(ms, "method") == Some(String(m))
    && (if Find(ms, "params").None? then ps == [] else Find(ms, "params") == Some(Object(ps)))
  }

  predicate GoodId(ms: seq<Member>) { Find(ms, "id").None? || Find(ms, "id").value.String? }

  function AnswerId(ms: seq<Member>): Json { if Find(ms, "id").None? then Null else Find(ms, "id").value }

  /** The state after a call and what the answer says, from what the method does. */
  ghost predicate Answers<S>(outcome: Dispatched<S>, id: Json, after: S, r: Json) {
    match outcome
    case Replied(next, v) => after == next && SaysResult(r, id, v)
    case Refused(next, code, message) => after == next && SaysError(r, id, CodeName(code), message)
    case Crashed(next) => after == next && SaysError(r, id, "InternalError", "Internal error.")
  }

  /** A call gets to the method with exactly its parameters, and the answer carries the result or the error. */
  lemma CallAnswered<S>(s: S, dispatch: Dispatch<S>, line: string, ms: seq<Member>, m: string, ps: seq<Member>)
    requires ParseDocument(line) == Success(Object(ms)) && Calls(ms, m, ps)
    ensures var (after, r) := Response(s, dispatch, line); Answers(dispatch(s, m, ps), AnswerId(ms), after, r)
  {
    assert CallOf(line) == Some(Call(m, ps)) && IdOf(line) == AnswerId(ms);
    match dispatch(s, m, ps)
    case Replied(_, v) => ResultSaid(AnswerId(ms), v);
    case Refused(_, code, message) => ErrorSaid(AnswerId(ms), code, message);
    case Crashed(_) => ErrorSaid(AnswerId(ms), InternalError, "Internal error.");
  }

  /** Why a line is no call, in the order of the checks: its id in the answer, the code and the message. */
  function Malformed(parsed: Outcome<Json>): Option<(Json, string, string)> {
    match parsed
    case Failure(message) => Some((Null, "InvalidRequest", message))
    case Success(v) =>
      if !v.Object? then Some((Null, "InvalidRequest", "Request must be an object."))
      else if !GoodId(v.members) then Some((Null, "InvalidRequest", "Request id must be a string."))
      else if !(Find(v.members, "method").Some? && Find(v.members, "method").value.String?) then
        Some((AnswerId(v.members), "InvalidRequest", "Request method must be a string."))
      else if Find(v.members, "params").Some? && !Find(v.members, "params").value.Object? then
        Some((AnswerId(v.members), "InvalidParams", "Request params must be an object."))
      else None
  }

  /** A malformed line changes nothing and is told so. */
  lemma MalformedAnswered<S>(s: S, dispatch: Dispatch<S>, line: string)
    requires Malformed(ParseDocument(line)).Some?
    ensures var (after, r) := Response(s, dispatch, line);
      var (id, code, message) := Malformed(ParseDocument(line)).value;
      after == s && SaysError(r, id, code, message)
  {
    var (_, answer) := AnswerTo(s, dispatch, line);
    assert CallOf(line).None? && answer.Error?;
    ErrorSaid(IdOf(line), answer.code, answer.message);
  }

  /** Every line is either. */
  lemma CallOrMalformed(parsed: Outcome<Json>)
    ensures Malformed(parsed).None? <==>
      parsed.Success? && parsed.value.Object? && exists m, ps :: Calls(parsed.value.members, m, ps)
  {
    if Malformed(parsed).None? {
      var ms := parsed.value.members;
      var ps := if Find(ms, "params").None? then [] else Find(ms, "params").value.members;
      assert Calls(ms, Find(ms, "method").value.s, ps);
    }
  }

  // ---- From end to end ----

  /** The services' state after a list of request values, one after the other. */
  ghost function AfterValues<S>(s: S, dispatch: Dispatch<S>, values: seq<Json>): S {
    if values == [] then s
    else Response(AfterValues(s, dispatch, values[..|values| - 1]), dispatch, Print(values[|values| - 1])).0
  }

  lemma {:induction false} AfterFirst<S>(s: S, dispatch: Dispatch<S>, values: seq<Json>)
    requires values != []
    ensures AfterValues(s, dispatch, values) ==
      AfterValues(Response(s, dispatch, Print(values[0])).0, dispatch, values[1..])
    decreases |values|
  {
    if |values| == 1 {
      assert values[..0] == [] && values[1..] == [];
    } else {
      var init := values[..|values| - 1];
      AfterFirst(s, dispatch, init);
      assert init[1..] == values[1..][..|values| - 2];
    }
  }

  lemma AfterMore<S>(s: S, dispatch: Dispatch<S>, values: seq<Json>, i: nat)
    requires 0 < i <= |values|
    ensures AfterValues(s, dispatch, values[..i]) ==
      AfterValues(Response(s, dispatch, Print(values[0])).0, dispatch, values[1..][..i - 1])
  {
    AfterFirst(s, dispatch, values[..i]);
    assert values[..i][1..] == values[1..][..i - 1];
  }

  /** The i-th answer is that of the state all earlier requests have left. */
  lemma {:induction false} AnswersInTurn<S(!new)>(s: S, dispatch: Dispatch<S>, values: seq<Json>, i: nat)
    requires i < |values|
    ensures AnswersTo(s, dispatch, values)[i] ==
      Response(AfterValues(s, dispatch, values[..i]), dispatch, Print(values[i])).1
    decreases i
  {
    AnswersCons(s, dispatch, values);
    if i > 0 {
      var next := Response(s, dispatch, Print(values[0])).0;
      AnswersInTurn(next, dispatch, values[1..], i - 1);
      AfterMore(s, dispatch, values, i);
    } else {
      assert values[..0] == [];
    }
  }

  /** A value that calls a method is answered with what the method does to the state all earlier requests have
      left, with its parameters as the backend parses them. */
  lemma CallsAcross<S(!new)>(s: S, dispatch: Dispatch<S>, values: seq<Json>, i: nat, m: string, ps: seq<Member>)
    requires AllValid(values) && i < |values| && values[i].Object?
    requires Calls(Rounded(values[i]).members, m, ps)
    ensures var before := AfterValues(s, dispatch, values[..i]);
      Answers(dispatch(before, m, ps), AnswerId(Rounded(values[i]).members),
        AfterValues(s, dispatch, values[..i + 1]), AnswersTo(s, dispatch, values)[i])
  {
    var before := AfterValues(s, dispatch, values[..i]);
    PrintThenParse(values[i]);
    AnswersInTurn(s, dispatch, values, i);
    CallAnswered(before, dispatch, Print(values[i]), Rounded(values[i]).members, m, ps);
    assert values[..i + 1][..i] == values[..i];
  }

  // ---- Empty lines ----

  function NotEmpty(lines: seq<string>): seq<string> {
    if lines == [] then [] else (if lines[0] == "" then [] else [lines[0]]) + NotEmpty(lines[1..])
  }

  /** Empty lines are passed over. */
  lemma {:induction false} EmptyLinesSkipped<S>(s: S, dispatch: Dispatch<S>, lines: seq<string>)
    ensures Served(s, dispatch, lines) == Served(s, dispatch, NotEmpty(lines))
    decreases lines
  {
    if lines != [] {
      if lines[0] == "" {
        EmptyLinesSkipped(s, dispatch, lines[1..]);
        assert [] + NotEmpty(lines[1..]) == NotEmpty(lines[1..]);
      } else {
        EmptyLinesSkipped(Response(s, dispatch, lines[0]).0, dispatch, lines[1..]);
        assert ([lines[0]] + NotEmpty(lines[1..]))[1..] == NotEmpty(lines[1..]);
      }
    }
  }
}
