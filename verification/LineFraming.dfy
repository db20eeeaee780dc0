/** The client's side of the pipe, after APP/backend_client/backend_process.cpp: response lines are
    put together from whatever chunks the pipe delivers. */
module LineFraming {
  import opened Lines
  import opened Concat
  import opened Wrappers

  const MAX_RESPONSE_LINE_BYTES: nat := 20 * 1024 * 1024

  datatype ConsumeResult = NeedMore | Complete | TooLong

  /** The text without its carriage returns. */
  function StripCr(s: string): (r: string)
    ensures |r| <= |s|
  {
    if s == "" then "" else (if s[0] == '\r' then "" else [s[0]]) + StripCr(s[1..])
  }

  lemma {:induction false} NoCrLeft(s: string)
    ensures '\r' !in StripCr(s)
  {
    if s != "" { NoCrLeft(s[1..]); }
  }

  lemma {:induction false} StripCrConcat(a: string, b: string)
    ensures StripCr(a + b) == StripCr(a) + StripCr(b)
  {
    if a == "" {
      assert a + b == b;
    } else {
      assert (a + b)[1..] == a[1..] + b;
      StripCrConcat(a[1..], b);
    }
  }

  lemma StripCrOneMore(s: string, i: nat)
    requires i < |s|
    ensures StripCr(s[..i + 1]) == StripCr(s[..i]) + if s[i] == '\r' then "" else [s[i]]
  {
    StripCrConcat(s[..i], [s[i]]);
    assert s[..i + 1] == s[..i] + [s[i]];
  }

  lemma StripCrGrows(s: string, i: nat, n: nat)
    requires i <= n <= |s|
    ensures |StripCr(s[..i])| <= |StripCr(s[..n])|
  {
    StripCrConcat(s[..i], s[i..n]);
    assert s[..n] == s[..i] + s[i..n];
  }

  lemma {:induction false} StripCrKeeps(s: string)
    requires '\r' !in s
    ensures StripCr(s) == s
  {
    if s != "" {
      assert s == [s[0]] + s[1..];
      StripCrKeeps(s[1..]);
    }
  }

  function Flatten(chunks: seq<string>): string {
    if chunks == [] then "" else chunks[0] + Flatten(chunks[1..])
  }

  /** What one response line is in a byte stream, however it is cut into chunks: the stripped text
      before the first line end, if there is one and it is within the limit, and the stream after it. */
  datatype Line = Line(text: string, rest: string) | NoLine

  function NextLine(stream: string): Line {
    var i := IndexOf(stream, '\n');
    if i < |stream| && |StripCr(stream[..i])| <= MAX_RESPONSE_LINE_BYTES
    then Line(StripCr(stream[..i]), stream[i + 1..])
    else NoLine
  }

  /** What `k` calls of `requestLine` return, up to the first that fails. */
  function Received(stream: string, k: nat): seq<string> { Taken(NextLine, stream, k) }

  function Taken(next: string -> Line, stream: string, k: nat): seq<string>
    decreases k
  {
    if k == 0 then [] else
    match next(stream)
    case NoLine => []
    case Line(text, rest) => [text] + Taken(next, rest, k - 1)
  }

  /** The stream after `k` lines, if there are as many. */
  function AfterLines(next: string -> Line, stream: string, k: nat): Option<string>
    decreases k
  {
    if k == 0 then Some(stream) else
    match next(stream)
    case NoLine => None
    case Line(_, rest) => AfterLines(next, rest, k - 1)
  }

  lemma {:induction false} TakenOneMore(next: string -> Line, stream: string, k: nat, rest: string)
    requires AfterLines(next, stream, k) == Some(rest)
    ensures Taken(next, stream, k + 1) == Taken(next, stream, k) + if next(rest).Line? then [next(rest).text] else []
    ensures AfterLines(next, stream, k + 1) == if next(rest).Line? then Some(next(rest).rest) else None
    decreases k
  {
    if k > 0 { TakenOneMore(next, next(stream).rest, k - 1, rest); }
  }

  /** After a failure there is nothing more. */
  lemma {:induction false} TakenNoMore(next: string -> Line, stream: string, k: nat, rest: string, n: nat)
    requires AfterLines(next, stream, k) == Some(rest) && next(rest) == NoLine && n >= k
    ensures Taken(next, stream, n) == Taken(next, stream, k)
    decreases k
  {
    if k > 0 { TakenNoMore(next, next(stream).rest, k - 1, rest, n - 1); }
  }

  /** The number of calls whose request is written, before the first that is not. */
  function Leading(sent: seq<bool>): nat { if sent == [] || !sent[0] then 0 else 1 + Leading(sent[1..]) }

  lemma LeadingStep(sent: seq<bool>, i: nat)
    requires i < |sent|
    ensures Leading(sent[i..]) == if sent[i] then 1 + Leading(sent[i + 1..]) else 0
  {
    assert sent[i..][1..] == sent[i + 1..];
  }

  class Transport {
    var running: bool
    var pending: string
    /** What the pipe will still deliver, read by read, before it fails or the deadline passes. */
    var incoming: seq<string>

    ghost function Stream(): string
      reads this
    {
      pending + Flatten(incoming)
    }

    constructor (chunks: seq<string>)
      ensures running && Stream() == Flatten(chunks)
    {
      running, pending, incoming := true, "", chunks;
      new;
      assert "" + Flatten(chunks) == Flatten(chunks);
    }

    /** `consumePendingLine`, with the response built so far as `soFar`. */
    method ConsumePendingLine(soFar: string) returns (result: ConsumeResult, response: string)
      requires |soFar| <= MAX_RESPONSE_LINE_BYTES
      modifies this`pending
      ensures var i := IndexOf(old(pending), '\n'); var line := soFar + StripCr(old(pending)[..i]);
        && (result.TooLong? <==> |line| > MAX_RESPONSE_LINE_BYTES)
        && (result.TooLong? ==> pending == old(pending))
        && (!result.TooLong? ==> response == line && (result.Complete? <==> i < |old(pending)|))
        && (result.Complete? ==> pending == old(pending)[i + 1..])
        && (result.NeedMore? ==> pending == "")
    {
      response := soFar;
      var count := IndexOf(pending, '\n');
      for i := 0 to count
        invariant pending == old(pending)
        invariant response == soFar + StripCr(pending[..i]) && |response| <= MAX_RESPONSE_LINE_BYTES
      {
        StripCrOneMore(pending, i);
        if pending[i] == '\r' { continue; }
        if |response| == MAX_RESPONSE_LINE_BYTES {
          StripCrGrows(pending, i + 1, count);
          return TooLong, response;
        }
        response := response + [pending[i]];
      }
      if count < |pending| {
        pending := pending[count + 1..];
        return Complete, response;
      }
      pending := "";
      return NeedMore, response;
    }

    method Stop()
      modifies this
      ensures !running && pending == "" && incoming == []
    {
      running, pending, incoming := false, "", [];
    }

    /** One read of the pipe. */
    method ReadChunk()
      requires pending == "" && incoming != []
      modifies this`pending, this`incoming
      ensures Stream() == old(Stream()) && |incoming| < old(|incoming|)
    {
      pending := pending + incoming[0];
      incoming := incoming[1..];
      assert pending == old(incoming[0]) && old(Stream()) == old(Flatten(incoming));
    }

    /** `requestLine`; `sent` is the fate of writing the request. */
    method RequestLine(sent: bool) returns (ok: bool, response: string)
      modifies this
      ensures ok <==> old(running) && sent && NextLine(old(Stream())).Line?
      ensures ok ==> running && NextLine(old(Stream())) == Line(response, Stream())
      ensures !ok && old(running) ==> !running && pending == ""
      ensures !old(running) ==> unchanged(this)
    {
      response := "";
      if !running { return false, ""; }
      if !sent { Stop(); return false, ""; }
      ghost var stream := Stream();
      ghost var taken := "";
      while true
        invariant running && '\n' !in taken && stream == taken + Stream()
        invariant response == StripCr(taken) && |response| <= MAX_RESPONSE_LINE_BYTES
        decreases |incoming|
      {
        ghost var here, later := pending, Flatten(incoming);
        var result;
        result, response := ConsumePendingLine(response);
        if result == Complete {
          LineHere(stream, taken, here, later, response, pending);
          assert Stream() == pending + later;
          return true, response;
        }
        if result == TooLong {
          LineTooLong(stream, taken, here, later);
          Stop();
          return false, response;
        }
        assert here[..IndexOf(here, '\n')] == here;
        LineGoesOn(stream, taken, here, later);
        if incoming == [] {
          Stop();
          return false, response;
        }
        taken := taken + here;
        ReadChunk();
      }
    }
  }

  /** The first line of the stream ends in the part at hand: what has been taken holds no line end, `here` comes
      next and `later` after it. */
  lemma LineHere(stream: string, taken: string, here: string, later: string, line: string, rest: string)
    requires '\n' !in taken && stream == taken + (here + later) && IndexOf(here, '\n') < |here|
    requires line == StripCr(taken) + StripCr(here[..IndexOf(here, '\n')]) && |line| <= MAX_RESPONSE_LINE_BYTES
    requires rest == here[IndexOf(here, '\n') + 1..]
    ensures NextLine(stream).Line? && NextLine(stream).text == line && NextLine(stream).rest == rest + later
  {
    var i := IndexOf(here, '\n');
    StripCrConcat(taken, here[..i]);
    LineEndsHere(stream, taken, here, later, i);
  }

  lemma LineTooLong(stream: string, taken: string, here: string, later: string)
    requires '\n' !in taken && stream == taken + (here + later)
    requires |StripCr(taken) + StripCr(here[..IndexOf(here, '\n')])| > MAX_RESPONSE_LINE_BYTES
    ensures NextLine(stream) == NoLine
  {
    var i := IndexOf(here, '\n');
    StripCrConcat(taken, here[..i]);
    if i < |here| {
      LineEndsHere(stream, taken, here, later, i);
    } else {
      assert here[..i] == here;
      Assoc(taken, here, later);
      NoLineEndIn(stream, taken + here, later);
    }
  }

  lemma LineGoesOn(stream: string, taken: string, here: string, later: string)
    requires '\n' !in taken && stream == taken + (here + later) && IndexOf(here, '\n') == |here|
    ensures '\n' !in taken + here && StripCr(taken + here) == StripCr(taken) + StripCr(here)
    ensures stream == taken + here + later && (later == "" ==> NextLine(stream) == NoLine)
  {
    StripCrConcat(taken, here);
    Assoc(taken, here, later);
    NoLineEndIn(stream, taken + here, later);
  }

  lemma LineEndsHere(stream: string, taken: string, here: string, later: string, i: nat)
    requires '\n' !in taken && stream == taken + (here + later) && i == IndexOf(here, '\n') < |here|
    ensures var n := IndexOf(stream, '\n');
      n < |stream| && stream[..n] == taken + here[..i] && stream[n + 1..] == here[i + 1..] + later
  {
    CutAround(here, i);
    Regroup(taken, here[..i], here[i], here[i + 1..], later);
    IndexOfAfter(taken + here[..i], '\n', here[i + 1..] + later);
  }

  lemma CutAround(s: string, i: nat)
    requires i < |s|
    ensures s == s[..i] + [s[i]] + s[i + 1..]
  {
  }

  lemma Regroup(taken: string, a: string, c: char, b: string, later: string)
    ensures taken + (a + [c] + b + later) == taken + a + [c] + (b + later)
  {
    Assoc(a + [c], b, later);
    Assoc(a, [c], b + later);
    Assoc(taken, a, [c] + (b + later));
    Assoc(taken + a, [c], b + later);
  }

  lemma NoLineEndIn(stream: string, part: string, later: string)
    requires '\n' !in part && stream == part + later
    ensures |StripCr(part)| > MAX_RESPONSE_LINE_BYTES || later == "" ==> NextLine(stream) == NoLine
  {
    var n := IndexOf(stream, '\n');
    if n < |stream| {
      assert forall k :: 0 <= k < |part| ==> stream[k] == part[k] && part[k] != '\n';
      assert stream[..n] == part + stream[|part|..n];
      StripCrConcat(part, stream[|part|..n]);
    }
  }

  /** Call after call of `requestLine`, however the stream is cut into chunks and whatever becomes of the writes:
      the lines of the stream in order, up to the first failure. */
  method RequestAll(t: Transport, sent: seq<bool>) returns (responses: seq<string>)
    requires t.running
    modifies t
    ensures responses == Received(old(t.Stream()), Leading(sent))
  {
    responses := [];
    ghost var stream := t.Stream();
    for i := 0 to |sent|
      invariant t.running ==> responses == Received(stream, i) && AfterLines(NextLine, stream, i) == Some(t.Stream())
      invariant t.running ==> Leading(sent) == i + Leading(sent[i..])
      invariant !t.running ==> responses == Received(stream, Leading(sent))
    {
      if t.running {
        LeadingStep(sent, i);
        TakenOneMore(NextLine, stream, i, t.Stream());
      }
      ghost var before, rest := t.running, t.Stream();
      var ok, response := t.RequestLine(sent[i]);
      if ok { responses := responses + [response]; }
      if before && !ok && sent[i] { TakenNoMore(NextLine, stream, i, rest, Leading(sent)); }
    }
  }
}
