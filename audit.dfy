/**
 * `InvoiceAuditor.audit`: clean the extracted text, then up to three
 * attempts at the chat endpoint, with the token cache, the recovery parser
 * and the consistency check. Each attempt's clock reading, token-exchange
 * reply and chat reply are given as a script; the events (token fetches,
 * POSTs, invalidations and sleeps) are recorded as a trace.
 */
module Audit {
  import opened Wrappers
  import opened Text
  import opened TextCleaner
  import opened JsonRecovery
  import opened Validation
  import opened Auth

  /** How many times the chat endpoint is tried (`range(3)`). */
  const Attempts: nat := 3
  /** How much of the cleaned text the prompt embeds (`text[:4000]`). */
  const PromptChars: nat := 4000
  /** How much of the cleaned text a diagnostic carries (`text[:1000]`). */
  const DiagnosticChars: nat := 1000

  /**
   * What the chat POST yields: a 401; a `Timeout`; any other exception
   * (another error status, a failed connection, a body without
   * `choices[0].message.content`); or the reply's content.
   */
  datatype PostOutcome = Unauthorized | PostTimedOut | PostFailed | Answered(content: string)

  /** The world as one attempt sees it. */
  datatype Attempt = Attempt(now: int, tokenReply: TokenReply, post: PostOutcome)

  /** What an attempt does, in order. */
  datatype Event =
    | Fetched(at: int)                      // a token exchange
    | Posted(bearer: string, document: string) // a chat POST; `document` is what the prompt embeds
    | Invalidated                           // `self.auth._token = None`
    | Slept(seconds: nat)                   // `time.sleep`

  /** The exception an audit ends with. */
  datatype Cause = TokenCause(error: AuthError) | PostCause
  datatype AuditError = Reraised(cause: Cause) | Exhausted

  /** What `audit` returns or raises. */
  datatype Outcome =
    | Audited(validation: Validation)
    | Diagnostic(raw: string, extracted: string)
    | Raised(error: AuditError)

  predicate HasValue(m: map<string, Json>) {
    exists k | k in m :: m[k] != JNull
  }

  /**
   * The checks after parsing: a record holding some non-null value, which
   * `validate_result` accepts. Anything else (not a record, an empty or
   * all-null record, a `TypeError` in the VAT check) takes the inner handler.
   */
  function Accepted(result: Json): (r: Option<Validation>)
    ensures r.Some? <==> result.JObject? && HasValue(result.fields) && Validate(result.fields).Success?
    ensures r.Some? ==> r.value == Validate(result.fields).value && r.value.data == result.fields
  {
    match result
    case JObject(m) => if HasValue(m) && Validate(m).Success? then Some(Validate(m).value) else None
    case _ => None
  }

  /** How the reply of attempt `a`, if it has one, is judged: the validated record when it is accepted. */
  function ReplyVerdict(loads: string -> Option<Json>, a: Attempt): Option<Validation> {
    if a.post.Answered? then Accepted(Parsed(a.post.content, loads)) else None
  }

  /** The verdicts on the three attempts' replies. */
  function Verdicts(loads: string -> Option<Json>, script: seq<Attempt>): (vs: seq<Option<Validation>>)
    requires |script| == Attempts
    ensures |vs| == Attempts && forall k :: 0 <= k < Attempts ==> vs[k] == ReplyVerdict(loads, script[k])
  {
    [ReplyVerdict(loads, script[0]), ReplyVerdict(loads, script[1]), ReplyVerdict(loads, script[2])]
  }

  /** The end of one attempt: on to the next one, or out of the loop. */
  datatype Turn =
    | Retry(cache: Cache, events: seq<Event>)
    | Done(cache: Cache, events: seq<Event>, outcome: Outcome)

  function Posts(events: seq<Event>): nat {
    if events == [] then 0 else (if events[0].Posted? then 1 else 0) + Posts(events[1..])
  }

  function Sleep(events: seq<Event>): nat {
    if events == [] then 0 else (if events[0].Slept? then events[0].seconds else 0) + Sleep(events[1..])
  }

  /** Every POST embeds `document`. */
  predicate Sends(events: seq<Event>, document: string) {
    forall k :: 0 <= k < |events| && events[k].Posted? ==> events[k].document == document
  }

  function Last(events: seq<Event>): Event
    requires events != []
  {
    events[|events| - 1]
  }

  /**
   * Attempt number `attempt` (counting from 0) with the cache `c`, where
   * `verdict` is how the reply, if any, is judged.
   */
  function AttemptTurn(c: Cache, text: string, a: Attempt, attempt: nat, verdict: Option<Validation>): Turn
  {
    var fetch := if NeedsRefresh(c, a.now) then [Fetched(a.now)] else [];
    var lookup := TokenStep(c, a.now, a.tokenReply);
    match lookup.token
    case Failure(e) =>
      if e == AuthTimeout then Retry(lookup.cache, fetch + [Slept(2)])
      else if attempt == 2 then Done(lookup.cache, fetch, Raised(Reraised(TokenCause(e))))
      else Retry(lookup.cache, fetch + [Slept(1)])
    case Success(bearer) =>
      var sent := fetch + [Posted(bearer, Prefix(text, PromptChars))];
      match a.post
      case Unauthorized => Retry(Cache(None, lookup.cache.expiresAt), sent + [Invalidated])
      case PostTimedOut => Retry(lookup.cache, sent + [Slept(2)])
      case PostFailed =>
        if attempt == 2 then Done(lookup.cache, sent, Raised(Reraised(PostCause)))
        else Retry(lookup.cache, sent + [Slept(1)])
      case Answered(content) =>
        match verdict
        case Some(v) => Done(lookup.cache, sent, Audited(v))
        case None =>
          if attempt == 2 then Done(lookup.cache, sent, Diagnostic(content, Prefix(text, DiagnosticChars)))
          else Retry(lookup.cache, sent + [Slept(1)])
  }

  /** The final cache, the trace and the outcome. */
  datatype Run = Run(cache: Cache, events: seq<Event>, outcome: Outcome)

  /** Attempts `i` to 2; after the third, the loop falls through to the final raise. */
  function RunFrom(c: Cache, text: string, script: seq<Attempt>, i: nat, vs: seq<Option<Validation>>): Run
    requires |script| == |vs| == Attempts && i <= Attempts
    decreases Attempts - i
  {
    if i == Attempts then Run(c, [], Raised(Exhausted))
    else
      match AttemptTurn(c, text, script[i], i, vs[i])
      case Done(c', events, outcome) => Run(c', events, outcome)
      case Retry(c', events) =>
        var rest := RunFrom(c', text, script, i + 1, vs);
        Run(rest.cache, events + rest.events, rest.outcome)
  }

  /**
   * `audit(pdf_path)` from the extracted text `raw` on: the auth cache ends
   * as the attempts leave it, and the trace and outcome are those of
   * `RunFrom` over the cleaned text.
   */
  method Audit(auth: GigaChatAuth, raw: string, script: seq<Attempt>, loads: string -> Option<Json>)
    returns (outcome: Outcome, events: seq<Event>)
    requires |script| == Attempts
    modifies auth
    ensures Run(auth.State(), events, outcome) == RunFrom(old(auth.State()), Clean(raw), script, 0, Verdicts(loads, script))
  {
    var text := Clean(raw);
    events := [];
    for attempt := 0 to Attempts
      invariant var rest := RunFrom(auth.State(), text, script, attempt, Verdicts(loads, script));
        Run(rest.cache, events + rest.events, rest.outcome) == RunFrom(old(auth.State()), text, script, 0, Verdicts(loads, script))
    {
      ghost var before := auth.State();
      var turn := TryOnce(auth, text, script[attempt], attempt, loads);
      if turn.Done? {
        events := events + turn.events;
        outcome := turn.outcome;
        return;
      }
      RetryAppends(before, text, script, attempt, Verdicts(loads, script), events);
      events := events + turn.events;
    }
    outcome := Raised(Exhausted);
  }

  /** After a retry, the run is this attempt's events followed by the rest. */
  lemma RetryAppends(c: Cache, text: string, script: seq<Attempt>, i: nat, vs: seq<Option<Validation>>, done: seq<Event>)
    requires |script| == |vs| == Attempts && i < Attempts
    requires AttemptTurn(c, text, script[i], i, vs[i]).Retry?
    ensures var t := AttemptTurn(c, text, script[i], i, vs[i]);
      var rest := RunFrom(t.cache, text, script, i + 1, vs);
      var run := RunFrom(c, text, script, i, vs);
      Run(run.cache, done + run.events, run.outcome) == Run(rest.cache, (done + t.events) + rest.events, rest.outcome)
  {
    var t := AttemptTurn(c, text, script[i], i, vs[i]);
    var rest := RunFrom(t.cache, text, script, i + 1, vs);
    assert done + (t.events + rest.events) == (done + t.events) + rest.events;
  }

  /**
   * One pass of the loop body: the cache it leaves, the events it causes,
   * and whether it returns or raises.
   */
  method TryOnce(auth: GigaChatAuth, text: string, a: Attempt, attempt: nat, loads: string -> Option<Json>)
    returns (turn: Turn)
    modifies auth
    ensures turn == AttemptTurn(old(auth.State()), text, a, attempt, ReplyVerdict(loads, a)) && auth.State() == turn.cache
  {
    var events := if NeedsRefresh(auth.State(), a.now) then [Fetched(a.now)] else [];
    var bearer := auth.Token(a.now, a.tokenReply);
    if bearer.Failure? {
      if bearer.error == AuthTimeout {
        return Retry(auth.State(), events + [Slept(2)]);
      } else if attempt == 2 {
        return Done(auth.State(), events, Raised(Reraised(TokenCause(bearer.error))));
      }
      return Retry(auth.State(), events + [Slept(1)]);
    }
    events := events + [Posted(bearer.value, Prefix(text, PromptChars))];
    match a.post
    case Unauthorized =>
      auth.Invalidate();
      return Retry(auth.State(), events + [Invalidated]);
    case PostTimedOut =>
      return Retry(auth.State(), events + [Slept(2)]);
    case PostFailed =>
      if attempt == 2 {
        return Done(auth.State(), events, Raised(Reraised(PostCause)));
      }
      return Retry(auth.State(), events + [Slept(1)]);
    case Answered(content) =>
      var result := ParseJsonRobust(content, loads);
      var accepted := Accepted(result);
      if accepted.Some? {
        return Done(auth.State(), events, Audited(accepted.value));
      } else if attempt == 2 {
        return Done(auth.State(), events, Diagnostic(content, Prefix(text, DiagnosticChars)));
      }
      return Retry(auth.State(), events + [Slept(1)]);
  }

  lemma {:induction false} CountsAppend(a: seq<Event>, b: seq<Event>)
    ensures Posts(a + b) == Posts(a) + Posts(b) && Sleep(a + b) == Sleep(a) + Sleep(b)
    decreases |a|
  {
    if a == [] {
      assert a + b == b;
    } else {
      assert (a + b)[0] == a[0] && (a + b)[1..] == a[1..] + b;
      CountsAppend(a[1..], b);
    }
  }

  lemma SendsAppend(a: seq<Event>, b: seq<Event>, document: string)
    requires Sends(a, document) && Sends(b, document)
    ensures Sends(a + b, document)
  {
    assert forall k :: |a| <= k < |a + b| ==> (a + b)[k] == b[k - |a|];
  }

  lemma CountsOne(e: Event)
    ensures Posts([e]) == (if e.Posted? then 1 else 0)
    ensures Sleep([e]) == (if e.Slept? then e.seconds else 0)
  {
    assert [e][1..] == [];
  }

  /**
   * The events of an attempt: a fetch exactly when the cache needs a
   * refresh, then the POST exactly when a token was had, bearing that token,
   * then what came after.
   */
  lemma TurnShape(c: Cache, text: string, a: Attempt, attempt: nat, verdict: Option<Validation>)
    returns (fetch: seq<Event>, sent: seq<Event>, after: seq<Event>)
    ensures AttemptTurn(c, text, a, attempt, verdict).events == fetch + sent + after
    ensures fetch == (if NeedsRefresh(c, a.now) then [Fetched(a.now)] else [])
    ensures var token := TokenStep(c, a.now, a.tokenReply).token;
      && (sent != [] <==> token.Success?)
      && (token.Success? ==> sent == [Posted(token.value, Prefix(text, PromptChars))])
    ensures after == [] || after == [Slept(1)] || after == [Slept(2)] || after == [Invalidated]
  {
    fetch := if NeedsRefresh(c, a.now) then [Fetched(a.now)] else [];
    var lookup := TokenStep(c, a.now, a.tokenReply);
    var r := AttemptTurn(c, text, a, attempt, verdict);
    sent := if lookup.token.Success? then [Posted(lookup.token.value, Prefix(text, PromptChars))] else [];
    after := r.events[|fetch + sent|..];
    assert r.events == fetch + sent + after;
  }

  /** One attempt POSTs at most once, embedding the prompt's cut of the text, and sleeps at most two seconds. */
  lemma TurnCounts(c: Cache, text: string, a: Attempt, attempt: nat, verdict: Option<Validation>)
    ensures var r := AttemptTurn(c, text, a, attempt, verdict);
      Posts(r.events) <= 1 && Sleep(r.events) <= 2 && Sends(r.events, Prefix(text, PromptChars))
  {
    var fetch, sent, after := TurnShape(c, text, a, attempt, verdict);
    CountsAppend(fetch, sent);
    CountsAppend(fetch + sent, after);
    if fetch != [] {
      CountsOne(fetch[0]);
    }
    if sent != [] {
      CountsOne(sent[0]);
    }
    if after != [] {
      CountsOne(after[0]);
    }
    SendsAppend(fetch, sent, Prefix(text, PromptChars));
    SendsAppend(fetch + sent, after, Prefix(text, PromptChars));
  }

  /**
   * An attempt goes on to the next one only after a sleep or a 401, and a
   * one-second sleep never follows the third attempt; a 401 leaves no token.
   */
  lemma TurnRetries(c: Cache, text: string, a: Attempt, attempt: nat, verdict: Option<Validation>)
    ensures var r := AttemptTurn(c, text, a, attempt, verdict);
      r.Retry? ==> r.events != [] && var e := Last(r.events);
        && (e == Slept(2) || (e == Slept(1) && attempt != 2) || (e == Invalidated && a.post == Unauthorized && r.cache.token.None?))
  {
  }

  /**
   * When reading the token raises: a timeout sleeps two seconds and moves
   * on, on every attempt; any other error sleeps one second and moves on,
   * except on the third attempt, which re-raises it. The cache is untouched.
   */
  lemma TurnTokenFails(c: Cache, text: string, a: Attempt, attempt: nat, verdict: Option<Validation>)
    requires TokenStep(c, a.now, a.tokenReply).token.Failure?
    ensures var e := TokenStep(c, a.now, a.tokenReply).token.error;
      var r := AttemptTurn(c, text, a, attempt, verdict);
      && r.cache == c && Posts(r.events) == 0
      && (e == AuthTimeout ==> r.Retry? && Last(r.events) == Slept(2))
      && (e != AuthTimeout && attempt < 2 ==> r.Retry? && Last(r.events) == Slept(1))
      && (e != AuthTimeout && attempt == 2 ==> r.Done? && r.outcome == Raised(Reraised(TokenCause(e))))
  {
    var fetch, sent, after := TurnShape(c, text, a, attempt, verdict);
    CountsAppend(fetch, sent);
    CountsAppend(fetch + sent, after);
    if fetch != [] {
      CountsOne(fetch[0]);
    }
    if after != [] {
      CountsOne(after[0]);
    }
  }

  /**
   * When a token was had and the POST sent: a 401 clears the token and
   * moves on without sleeping; a timeout sleeps two seconds and moves on,
   * the third attempt included; any other failure, and a reply judged
   * unusable, sleep one second and move on, except on the third attempt,
   * which re-raises the failure or returns the diagnostic; an accepted
   * reply is returned at once.
   */
  lemma TurnPostRules(c: Cache, text: string, a: Attempt, attempt: nat, verdict: Option<Validation>)
    requires TokenStep(c, a.now, a.tokenReply).token.Success?
    ensures var lookup := TokenStep(c, a.now, a.tokenReply);
      var r := AttemptTurn(c, text, a, attempt, verdict);
      && (a.post == Unauthorized ==>
            r.Retry? && r.cache == Cache(None, lookup.cache.expiresAt) && Last(r.events) == Invalidated && Sleep(r.events) == 0)
      && (a.post == PostTimedOut ==> r.Retry? && r.cache == lookup.cache && Last(r.events) == Slept(2))
      && (a.post == PostFailed && attempt < 2 ==> r.Retry? && Last(r.events) == Slept(1))
      && (a.post == PostFailed && attempt == 2 ==> r.Done? && r.outcome == Raised(Reraised(PostCause)))
      && (a.post.Answered? && verdict.Some? ==> r.Done? && r.outcome == Audited(verdict.value))
      && (a.post.Answered? && verdict.None? && attempt < 2 ==> r.Retry? && Last(r.events) == Slept(1))
      && (a.post.Answered? && verdict.None? && attempt == 2 ==>
            r.Done? && r.outcome == Diagnostic(a.post.content, Prefix(text, DiagnosticChars)))
  {
    if a.post == Unauthorized {
      var fetch, sent, after := TurnShape(c, text, a, attempt, verdict);
      CountsAppend(fetch, sent);
      CountsAppend(fetch + sent, after);
      if fetch != [] {
        CountsOne(fetch[0]);
      }
      CountsOne(sent[0]);
      CountsOne(after[0]);
    }
  }

  /**
   * The third attempt alone returns a diagnostic (for a reply judged
   * unusable, with the first thousand characters of the text) or re-raises;
   * an audited record is the verdict on the attempt's reply.
   */
  lemma TurnEnds(c: Cache, text: string, a: Attempt, attempt: nat, verdict: Option<Validation>)
    ensures var r := AttemptTurn(c, text, a, attempt, verdict);
      && (r.Done? && r.outcome.Diagnostic? ==>
          && attempt == 2 && a.post == Answered(r.outcome.raw)
          && verdict.None? && r.outcome.extracted == Prefix(text, DiagnosticChars))
      && (r.Done? && r.outcome.Raised? ==> attempt == 2 && r.outcome.error.Reraised?)
      && (r.Done? && r.outcome == Raised(Reraised(PostCause)) ==> a.post == PostFailed)
      && (r.Done? && r.outcome.Audited? ==> a.post.Answered? && verdict == Some(r.outcome.validation))
  {
  }

  /** From attempt `i` on there are at most `3 - i` POSTs and `2 * (3 - i)` seconds of sleep. */
  lemma {:induction false} RunBounds(c: Cache, text: string, script: seq<Attempt>, i: nat, vs: seq<Option<Validation>>)
    requires |script| == |vs| == Attempts && i <= Attempts
    ensures var run := RunFrom(c, text, script, i, vs);
      Posts(run.events) <= Attempts - i && Sleep(run.events) <= 2 * (Attempts - i)
    decreases Attempts - i
  {
    if i < Attempts {
      var t := AttemptTurn(c, text, script[i], i, vs[i]);
      TurnCounts(c, text, script[i], i, vs[i]);
      if t.Retry? {
        var rest := RunFrom(t.cache, text, script, i + 1, vs);
        RunBounds(t.cache, text, script, i + 1, vs);
        CountsAppend(t.events, rest.events);
      }
    }
  }

  /** Every POST of a run embeds the prompt's cut of the text. */
  lemma {:induction false} RunSends(c: Cache, text: string, script: seq<Attempt>, i: nat, vs: seq<Option<Validation>>)
    requires |script| == |vs| == Attempts && i <= Attempts
    ensures Sends(RunFrom(c, text, script, i, vs).events, Prefix(text, PromptChars))
    decreases Attempts - i
  {
    if i < Attempts {
      var t := AttemptTurn(c, text, script[i], i, vs[i]);
      TurnCounts(c, text, script[i], i, vs[i]);
      if t.Retry? {
        var rest := RunFrom(t.cache, text, script, i + 1, vs);
        RunSends(t.cache, text, script, i + 1, vs);
        SendsAppend(t.events, rest.events, Prefix(text, PromptChars));
      }
    }
  }

  /** A diagnostic answers the third attempt's reply, judged unusable, with the first thousand characters of the text. */
  lemma {:induction false} RunDiagnostic(c: Cache, text: string, script: seq<Attempt>, i: nat, vs: seq<Option<Validation>>)
    requires |script| == |vs| == Attempts && i <= Attempts
    ensures var run := RunFrom(c, text, script, i, vs);
      run.outcome.Diagnostic? ==>
        && script[2].post == Answered(run.outcome.raw) && vs[2].None?
        && run.outcome.extracted == Prefix(text, DiagnosticChars)
    decreases Attempts - i
  {
    if i < Attempts {
      var t := AttemptTurn(c, text, script[i], i, vs[i]);
      TurnEnds(c, text, script[i], i, vs[i]);
      if t.Retry? {
        RunDiagnostic(t.cache, text, script, i + 1, vs);
      }
    }
  }

  /** Only the third attempt re-raises, and a failed POST re-raised is the third attempt's. */
  lemma {:induction false} RunReraised(c: Cache, text: string, script: seq<Attempt>, i: nat, vs: seq<Option<Validation>>)
    requires |script| == |vs| == Attempts && i <= Attempts
    ensures var run := RunFrom(c, text, script, i, vs);
      run.outcome == Raised(Reraised(PostCause)) ==> script[2].post == PostFailed
    decreases Attempts - i
  {
    if i < Attempts {
      var t := AttemptTurn(c, text, script[i], i, vs[i]);
      TurnEnds(c, text, script[i], i, vs[i]);
      if t.Retry? {
        RunReraised(t.cache, text, script, i + 1, vs);
      }
    }
  }

  /** The final raise comes only after a last attempt that slept two seconds or met a 401. */
  lemma {:induction false} RunExhausted(c: Cache, text: string, script: seq<Attempt>, i: nat, vs: seq<Option<Validation>>)
    requires |script| == |vs| == Attempts && i < Attempts
    ensures var run := RunFrom(c, text, script, i, vs);
      run.outcome == Raised(Exhausted) ==> run.events != [] && Last(run.events) in {Slept(2), Invalidated}
    decreases Attempts - i
  {
    var t := AttemptTurn(c, text, script[i], i, vs[i]);
    TurnRetries(c, text, script[i], i, vs[i]);
    if t.Retry? {
      var rest := RunFrom(t.cache, text, script, i + 1, vs);
      if i + 1 < Attempts {
        RunExhausted(t.cache, text, script, i + 1, vs);
        if rest.outcome == Raised(Exhausted) {
          assert Last(t.events + rest.events) == Last(rest.events);
        }
      } else {
        assert t.events + rest.events == t.events;
      }
    }
  }

  /** An audited record is the verdict on some attempt's reply. */
  lemma {:induction false} RunAudited(c: Cache, text: string, script: seq<Attempt>, i: nat, vs: seq<Option<Validation>>)
    requires |script| == |vs| == Attempts && i <= Attempts
    ensures var run := RunFrom(c, text, script, i, vs);
      run.outcome.Audited? ==> exists k :: i <= k < Attempts && script[k].post.Answered? && vs[k] == Some(run.outcome.validation)
    decreases Attempts - i
  {
    if i < Attempts {
      var t := AttemptTurn(c, text, script[i], i, vs[i]);
      TurnEnds(c, text, script[i], i, vs[i]);
      if t.Retry? {
        RunAudited(t.cache, text, script, i + 1, vs);
      }
    }
  }

  /**
   * What `audit` promises over the cleaned text: at most three POSTs and six
   * seconds of sleep; every POST embeds at most the first 4000 characters;
   * an audited record is a reply's parsed record, holding some non-null
   * value and returned unchanged by `validate_result`; a diagnostic carries
   * the third reply and the first 1000 characters of the text.
   */
  lemma AuditProperties(c: Cache, raw: string, script: seq<Attempt>, loads: string -> Option<Json>)
    requires |script| == Attempts
    ensures var text := Clean(raw); var run := RunFrom(c, text, script, 0, Verdicts(loads, script));
      && Posts(run.events) <= 3 && Sleep(run.events) <= 6
      && Sends(run.events, Prefix(text, PromptChars)) && |Prefix(text, PromptChars)| <= 4000
      && (run.outcome.Audited? ==>
            exists k :: (0 <= k < Attempts && script[k].post.Answered?
              && Parsed(script[k].post.content, loads) == JObject(run.outcome.validation.data)
              && HasValue(run.outcome.validation.data)
              && Validate(run.outcome.validation.data) == Success(run.outcome.validation)))
      && (run.outcome.Diagnostic? ==>
            && script[2].post == Answered(run.outcome.raw)
            && Accepted(Parsed(run.outcome.raw, loads)).None? && run.outcome.extracted == Prefix(text, 1000))
  {
    var text := Clean(raw);
    var vs := Verdicts(loads, script);
    RunBounds(c, text, script, 0, vs);
    RunSends(c, text, script, 0, vs);
    RunAudited(c, text, script, 0, vs);
    RunDiagnostic(c, text, script, 0, vs);
  }

  /**
   * A 401 uses up its attempt without sleeping: three of them, each after a
   * fresh token, end in the final raise with three fetches, three POSTs and
   * three invalidations.
   */
  lemma ThreeUnauthorized(text: string, script: seq<Attempt>, a: Attempt, vs: seq<Option<Validation>>, tok: string)
    requires script == [a, a, a] && |vs| == Attempts && a.post == Unauthorized
    requires a.tokenReply == Reply(200, Some(tok), None) && tok != ""
    ensures var doc := Prefix(text, PromptChars);
      var round := [Fetched(a.now), Posted(tok, doc), Invalidated];
      RunFrom(Cache(None, None), text, script, 0, vs)
        == Run(Cache(None, Some(a.now + DefaultLifetimeMs)), round + round + round, Raised(Exhausted))
  {
    var doc := Prefix(text, PromptChars);
    var round := [Fetched(a.now), Posted(tok, doc), Invalidated];
    var spent := Cache(None, Some(a.now + DefaultLifetimeMs));
    assert AttemptTurn(Cache(None, None), text, a, 0, vs[0]) == Retry(spent, round);
    assert AttemptTurn(spent, text, a, 1, vs[1]) == Retry(spent, round);
    assert AttemptTurn(spent, text, a, 2, vs[2]) == Retry(spent, round);
    assert round + (round + (round + [])) == round + round + round;
  }

  /**
   * A timeout sleeps two seconds on every attempt, the last included, and
   * the token fetched on the first attempt is reused on the others.
   */
  lemma ThreeTimeouts(text: string, script: seq<Attempt>, a: Attempt, vs: seq<Option<Validation>>, tok: string)
    requires script == [a, a, a] && |vs| == Attempts && a.post == PostTimedOut
    requires a.tokenReply == Reply(200, Some(tok), None) && tok != ""
    ensures var doc := Prefix(text, PromptChars);
      var round := [Posted(tok, doc), Slept(2)];
      RunFrom(Cache(None, None), text, script, 0, vs)
        == Run(Cache(Some(tok), Some(a.now + DefaultLifetimeMs)), [Fetched(a.now)] + round + round + round, Raised(Exhausted))
  {
    var doc := Prefix(text, PromptChars);
    var round := [Posted(tok, doc), Slept(2)];
    var cached := Cache(Some(tok), Some(a.now + DefaultLifetimeMs));
    assert AttemptTurn(Cache(None, None), text, a, 0, vs[0]) == Retry(cached, [Fetched(a.now)] + round);
    assert !NeedsRefresh(cached, a.now);
    assert AttemptTurn(cached, text, a, 1, vs[1]) == Retry(cached, round);
    assert AttemptTurn(cached, text, a, 2, vs[2]) == Retry(cached, round);
    assert [Fetched(a.now)] + round + (round + (round + [])) == [Fetched(a.now)] + round + round + round;
  }

  /** The prompt embeds at most the first 4000 characters of the cleaned text. */
  lemma PromptCut(raw: string)
    ensures var doc := Prefix(Clean(raw), PromptChars);
      |doc| <= PromptChars && doc == Clean(raw)[..|doc|]
  {
  }
}
