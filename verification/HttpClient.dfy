/** The client's control loop: retries, redirects and proxy authentication. */
module HttpClient {
  import opened HttpCommon
  import opened Text

  const MAX_REDIRECTS: nat := 5
  const INTERNAL_SERVER_ERROR: nat := 500
  const SEE_OTHER: nat := 303
  const PROXY_AUTHENTICATION_REQUIRED: nat := 407

  datatype RedirectAction = RedirectDefault | RedirectAlways | RedirectNever

  datatype Verb = GET | POST | PUT | DELETE | CONNECT | HEAD

  datatype Config = Config(retries: nat, redirectAction: RedirectAction, httpsProxy: bool, hasUsername: bool)

  datatype Context = NoContext | Context(authMethod: string)

  datatype Mode = Connecting | Sending | Receiving

  /** What the client waits for: nothing yet, a name lookup, the engine, or nothing any more. */
  datatype Status = Ready | Resolving | Active(mode: Mode) | Over(error: HttpError)

  /** The fields that steer the loop, and how many streams were requested from the pool. */
  datatype State = State(attempt: nat, redirects: nat, context: Context, scode: nat, verb: Verb, requests: nat, status: Status)

  /**
   * The engine reports: in which mode it completed, with which error, and what is then found in
   * the response and the request. `cannotReplay` says that there is a request document that
   * cannot be rewound, `unresolved` that the next server's name needs a lookup.
   */
  datatype Report = Report(mode: Mode, error: HttpError, scode: nat, hasLocation: bool,
                           challenges: seq<string>, cannotReplay: bool, unresolved: bool)

  datatype Event = Resolved(failed: bool, report: Report) | Completed(report: Report)

  datatype AuthResult = Response | Ignore | Credentials

  predicate IsInformational(code: nat) { code / 100 == 1 }

  predicate IsRedirection(code: nat) { code / 100 == 3 }

  /** HttpAuthenticate without the Windows schemes: a context is made once, by basic or digest. */
  function Authenticate(c: Config, context: Context, scheme: string): (AuthResult, Context) {
    if context.Context? && context.authMethod != scheme then (Ignore, context)
    else if SameIgnoringCase(scheme, "basic") || SameIgnoringCase(scheme, "digest") then
      if context.Context? || !c.hasUsername then (Credentials, context) else (Response, Context(scheme))
    else (Ignore, context)
  }

  predicate ShouldRedirect(c: Config, s: State, r: Report) {
    && !c.redirectAction.RedirectNever? && IsRedirection(s.scode) && r.hasLocation && s.redirects < MAX_REDIRECTS
    && (c.redirectAction.RedirectAlways? || s.scode == SEE_OTHER || s.verb.HEAD? || s.verb.GET?)
  }

  function Connect(s: State, unresolved: bool): State {
    if unresolved then s.(status := Resolving) else s.(requests := s.requests + 1, status := Active(Connecting))
  }

  function Start(s: State, unresolved: bool): State {
    Connect(s.(attempt := 0), unresolved)
  }

  /** The first challenge answered restarts the request; one that is refused ends the search. */
  function TryChallenges(c: Config, s: State, r: Report, challenges: seq<string>, error: HttpError): State
    decreases |challenges|
  {
    if challenges == [] then s.(status := Over(error))
    else
      var (result, context) := Authenticate(c, s.context, challenges[0]);
      var t := s.(context := context);
      match result
      case Response =>
        if r.cannotReplay then TryChallenges(c, t, r, challenges[1..], StreamFailure)
        else Start(t.(scode := INTERNAL_SERVER_ERROR), r.unresolved)
      case Ignore => TryChallenges(c, t, r, challenges[1..], error)
      case Credentials => t.(status := Over(error))
  }

  /** onHttpComplete. */
  function Complete(c: Config, before: State, r: Report): State {
    var s := if r.mode.Receiving? then before.(scode := r.scode) else before;
    if (r.error == Disconnected || r.error == ConnectFailed || r.error == SocketError)
       && s.scode == INTERNAL_SERVER_ERROR && s.attempt < c.retries then
      var t := s.(attempt := s.attempt + 1);
      if r.cannotReplay then t.(status := Over(StreamFailure)) else Connect(t, r.unresolved)
    else if r.error != NoError then s.(status := Over(r.error))
    else if r.mode.Connecting? then s.(status := Active(Sending))
    else if r.mode.Sending? || IsInformational(s.scode) then s.(status := Active(Receiving))
    else if ShouldRedirect(c, s, r) then
      if s.scode != SEE_OTHER && r.cannotReplay then s.(status := Over(StreamFailure))
      else
        Start(s.(verb := if s.scode == SEE_OTHER then GET else s.verb, redirects := s.redirects + 1,
                 context := NoContext, scode := INTERNAL_SERVER_ERROR), r.unresolved)
    else if s.scode == PROXY_AUTHENTICATION_REQUIRED && c.httpsProxy then
      TryChallenges(c, s, r, r.challenges, NoError)
    else s.(status := Over(NoError))
  }

  /** An event the client is not waiting for does not occur. */
  function Next(c: Config, s: State, e: Event): State {
    match e
    case Resolved(failed, r) =>
      if !s.status.Resolving? then s
      else if failed then Complete(c, s, r.(mode := Connecting, error := ConnectFailed))
      else Connect(s, r.unresolved)
    case Completed(r) =>
      if s.status == Active(r.mode) then Complete(c, s, r) else s
  }

  function Run(c: Config, s: State, events: seq<Event>): State {
    if events == [] then s else Next(c, Run(c, s, events[..|events| - 1]), events[|events| - 1])
  }

  /** After reset: no redirects, no context, no response. */
  function Reset(verb: Verb): State {
    State(0, 0, NoContext, INTERNAL_SERVER_ERROR, verb, 0, Ready)
  }

  // --- the bound ----------------------------------------------------------------------------------

  /** Starts still possible: two for every redirect left, and one if there is no context yet. */
  function StartsLeft(s: State): nat
    requires s.redirects <= MAX_REDIRECTS
  {
    2 * (MAX_REDIRECTS - s.redirects) + if s.context.NoContext? then 1 else 0
  }

  /** Requests the client may still make beyond the one it is busy with. */
  function Budget(c: Config, s: State): nat
    requires s.redirects <= MAX_REDIRECTS && s.attempt <= c.retries
  {
    StartsLeft(s) * (c.retries + 1) + (c.retries - s.attempt)
  }

  function Bound(c: Config): nat {
    2 * (MAX_REDIRECTS + 1) * (c.retries + 1)
  }

  /** Requests made, one owed while a lookup is under way, and those still possible stay within the bound. */
  ghost predicate Within(c: Config, s: State) {
    && s.redirects <= MAX_REDIRECTS && s.attempt <= c.retries
    && s.requests + (if s.status.Resolving? then 1 else 0) + Budget(c, s) <= Bound(c)
  }

  lemma StartCosts(c: Config, s: State, t: State, unresolved: bool)
    requires Within(c, s) && !t.status.Resolving? && t.requests == s.requests
    requires t.redirects <= MAX_REDIRECTS && StartsLeft(t) < StartsLeft(s)
    ensures Within(c, Start(t, unresolved))
  {
    var u := Start(t, unresolved);
    var few, many := StartsLeft(u), StartsLeft(s);
    assert few == StartsLeft(t);
    hide StartsLeft;
    OneFewer(few, many, c.retries + 1);
  }

  lemma OneFewer(few: nat, many: nat, n: nat)
    requires few < many
    ensures few * n + n <= many * n
  {
    assert (many - few - 1) * n >= 0;
    assert many * n == few * n + n + (many - few - 1) * n;
  }

  lemma {:induction false} ChallengesWithin(c: Config, s: State, r: Report, challenges: seq<string>, error: HttpError)
    requires Within(c, s) && !s.status.Resolving?
    ensures Within(c, TryChallenges(c, s, r, challenges, error))
    decreases |challenges|
  {
    hide SameIgnoringCase;
    if challenges != [] {
      var (result, context) := Authenticate(c, s.context, challenges[0]);
      var t := s.(context := context);
      match result
      case Response =>
        FewerStarts(c, s, t);
        if r.cannotReplay {
          ChallengesWithin(c, t, r, challenges[1..], StreamFailure);
        } else {
          StartCosts(c, s, t.(scode := INTERNAL_SERVER_ERROR), r.unresolved);
        }
      case Ignore => ChallengesWithin(c, t, r, challenges[1..], error);
      case Credentials =>
    }
  }

  lemma FewerStarts(c: Config, s: State, t: State)
    requires Within(c, s) && s.context.NoContext? && t == s.(context := t.context) && t.context.Context?
    ensures StartsLeft(t) < StartsLeft(s) && Within(c, t)
  {
    assert StartsLeft(t) * (c.retries + 1) <= StartsLeft(s) * (c.retries + 1);
  }

  lemma CompleteWithin(c: Config, before: State, r: Report)
    requires Within(c, before) && (before.status.Resolving? ==> r.mode.Connecting? && r.error == ConnectFailed)
    ensures Within(c, Complete(c, before, r))
  {
    hide TryChallenges;
    var s := if r.mode.Receiving? then before.(scode := r.scode) else before;
    if r.error == NoError && r.mode.Receiving? && !IsInformational(s.scode) {
      if ShouldRedirect(c, s, r) {
        StartCosts(c, s, s.(verb := if s.scode == SEE_OTHER then GET else s.verb, redirects := s.redirects + 1,
                            context := NoContext, scode := INTERNAL_SERVER_ERROR), r.unresolved);
      } else {
        ChallengesWithin(c, s, r, r.challenges, NoError);
      }
    }
  }

  lemma {:induction false} RunWithin(c: Config, s: State, events: seq<Event>)
    requires Within(c, s)
    ensures Within(c, Run(c, s, events))
    decreases |events|
  {
    hide Complete, Within;
    if events != [] {
      var t, e := Run(c, s, events[..|events| - 1]), events[|events| - 1];
      RunWithin(c, s, events[..|events| - 1]);
      match e
      case Resolved(failed, r) =>
        if t.status.Resolving? {
          if failed {
            CompleteWithin(c, t, r.(mode := Connecting, error := ConnectFailed));
          } else {
            LookupDone(c, t, r.unresolved);
          }
        }
      case Completed(r) =>
        if t.status == Active(r.mode) {
          CompleteWithin(c, t, r);
        }
    }
  }

  lemma LookupDone(c: Config, s: State, unresolved: bool)
    requires Within(c, s) && s.status.Resolving?
    ensures Within(c, Connect(s, unresolved))
  {
  }

  /**
   * However the pool, the network and the server behave, one reset and start lead to at most
   * 2 * (MAX_REDIRECTS + 1) * (retries + 1) requests for a stream.
   */
  lemma RequestsAreBounded(c: Config, verb: Verb, unresolved: bool, events: seq<Event>)
    ensures Run(c, Start(Reset(verb), unresolved), events).requests <= Bound(c)
  {
    RunWithin(c, Start(Reset(verb), unresolved), events);
  }

  // --- what a redirect may repeat -----------------------------------------------------------------

  /** Redirects are followed only if allowed, and without RedirectAlways only for requests that change nothing. */
  ghost predicate SafelyRedirected(c: Config, s: State) {
    && (c.redirectAction.RedirectNever? ==> s.redirects == 0)
    && (c.redirectAction.RedirectDefault? && s.redirects > 0 ==> s.verb.GET? || s.verb.HEAD?)
  }

  lemma {:induction false} ChallengesKeepVerb(c: Config, s: State, r: Report, challenges: seq<string>, error: HttpError)
    ensures var t := TryChallenges(c, s, r, challenges, error); t.verb == s.verb && t.redirects == s.redirects
    decreases |challenges|
  {
    hide SameIgnoringCase;
    if challenges != [] {
      var (result, context) := Authenticate(c, s.context, challenges[0]);
      ChallengesKeepVerb(c, s.(context := context), r, challenges[1..], if result.Response? then StreamFailure else error);
    }
  }

  lemma CompleteRedirectsSafely(c: Config, before: State, r: Report)
    requires SafelyRedirected(c, before)
    ensures var s := Complete(c, before, r);
            && SafelyRedirected(c, s)
            && (s.verb == before.verb || (s.verb.GET? && s.redirects == before.redirects + 1))
            && (s.redirects == before.redirects
                || (s.redirects == before.redirects + 1 <= MAX_REDIRECTS && 300 <= r.scode < 400 && r.hasLocation))
  {
    hide TryChallenges;
    ChallengesKeepVerb(c, if r.mode.Receiving? then before.(scode := r.scode) else before, r, r.challenges, NoError);
  }

  lemma {:induction false} ChallengesNeverReceive(c: Config, s: State, r: Report, challenges: seq<string>, error: HttpError)
    ensures TryChallenges(c, s, r, challenges, error).status != Active(Receiving)
    decreases |challenges|
  {
    hide SameIgnoringCase;
    if challenges != [] {
      var (result, context) := Authenticate(c, s.context, challenges[0]);
      ChallengesNeverReceive(c, s.(context := context), r, challenges[1..], if result.Response? then StreamFailure else error);
    }
  }

  /** An answer is followed by another one exactly when its code is from 100 to 199. */
  lemma FinalAnswer(c: Config, s: State, r: Report)
    requires r.mode.Receiving? && r.error == NoError
    ensures Complete(c, s, r).status == Active(Receiving) <==> 100 <= r.scode < 200
  {
    hide TryChallenges;
    ChallengesNeverReceive(c, s.(scode := r.scode), r, r.challenges, NoError);
  }

  /**
   * In every run: nothing is redirected under RedirectNever, and by default whatever is sent to
   * another place is a GET or a HEAD.
   */
  lemma {:induction false} RedirectsAreSafe(c: Config, verb: Verb, unresolved: bool, events: seq<Event>)
    ensures SafelyRedirected(c, Run(c, Start(Reset(verb), unresolved), events))
    decreases |events|
  {
    hide Complete;
    if events != [] {
      var s, e := Run(c, Start(Reset(verb), unresolved), events[..|events| - 1]), events[|events| - 1];
      RedirectsAreSafe(c, verb, unresolved, events[..|events| - 1]);
      match e
      case Resolved(failed, r) => CompleteRedirectsSafely(c, s, r.(mode := Connecting, error := ConnectFailed));
      case Completed(r) => CompleteRedirectsSafely(c, s, r);
    }
  }

  // --- what a completion leads to -------------------------------------------------------------------

  predicate KnownScheme(scheme: string) {
    SameIgnoringCase(scheme, "basic") || SameIgnoringCase(scheme, "digest")
  }

  /** The first challenge of a known scheme, or their number. */
  function FirstKnown(challenges: seq<string>): (n: nat)
    ensures n <= |challenges| && (n < |challenges| ==> KnownScheme(challenges[n]))
    ensures forall i | 0 <= i < n :: !KnownScheme(challenges[i])
  {
    if challenges == [] || KnownScheme(challenges[0]) then 0 else 1 + FirstKnown(challenges[1..])
  }

  /** The response code as it stands after the report. */
  function CodeNow(s: State, r: Report): nat {
    if r.mode.Receiving? then r.scode else s.scode
  }

  /** Nothing meaningful came from the server, and an attempt is left. */
  predicate RetryDue(c: Config, s: State, r: Report) {
    r.error in {Disconnected, ConnectFailed, SocketError} && CodeNow(s, r) == 500 && s.attempt < c.retries
  }

  /** The whole answer is there, and it is not an interim one. */
  predicate Answered(r: Report) {
    r.error == NoError && r.mode.Receiving? && !(100 <= r.scode < 200)
  }

  predicate RedirectDue(c: Config, s: State, r: Report) {
    && Answered(r) && 300 <= r.scode < 400 && r.hasLocation && s.redirects < MAX_REDIRECTS
    && match c.redirectAction
       case RedirectNever => false
       case RedirectAlways => true
       case RedirectDefault => r.scode == 303 || s.verb in {GET, HEAD}
  }

  /** The proxy wants credentials, there are some, and they were not sent yet. */
  predicate AuthenticationDue(c: Config, s: State, r: Report) {
    && Answered(r) && r.scode == 407 && c.httpsProxy && c.hasUsername
    && s.context.NoContext? && FirstKnown(r.challenges) < |r.challenges|
  }

  /** Whatever comes next would have to send the request document again. */
  predicate Replays(c: Config, s: State, r: Report) {
    RetryDue(c, s, r) || (RedirectDue(c, s, r) && r.scode != 303) || AuthenticationDue(c, s, r)
  }

  predicate Repeats(c: Config, s: State, r: Report) {
    (RetryDue(c, s, r) || RedirectDue(c, s, r) || AuthenticationDue(c, s, r)) && !(Replays(c, s, r) && r.cannotReplay)
  }

  /** What the client waits for next, and with which error it is done. */
  ghost predicate LeadsTo(c: Config, s: State, r: Report, status: Status) {
    && (status.Over? ==> status.error == if Replays(c, s, r) then StreamFailure else r.error)
    && (status == Active(Sending) <==> r.error == NoError && r.mode.Connecting?)
    && (status == Active(Receiving) <==> r.error == NoError && (r.mode.Sending? || (r.mode.Receiving? && 100 <= r.scode < 200)))
    && (status == Resolving <==> Repeats(c, s, r) && r.unresolved)
    && (status == Active(Connecting) <==> Repeats(c, s, r) && !r.unresolved)
    && !status.Ready?
  }

  /** What is remembered from then on. */
  ghost predicate Remembers(c: Config, s: State, r: Report, t: State) {
    var started := Repeats(c, s, r) && !RetryDue(c, s, r);
    && t.attempt == (if RetryDue(c, s, r) then s.attempt + 1 else if started then 0 else s.attempt)
    && t.redirects == s.redirects + (if started && RedirectDue(c, s, r) then 1 else 0)
    && t.verb == (if started && RedirectDue(c, s, r) && r.scode == 303 then GET else s.verb)
    && t.scode == (if started then 500 else CodeNow(s, r))
    && t.requests == s.requests + (if Repeats(c, s, r) && !r.unresolved then 1 else 0)
    && t.context == (if AuthenticationDue(c, s, r) then Context(r.challenges[FirstKnown(r.challenges)])
                     else if started && RedirectDue(c, s, r) then NoContext
                     else s.context)
  }

  /** Only the first challenge of a known scheme matters, and only if no other was answered before. */
  lemma {:induction false} ChallengesMean(c: Config, s: State, r: Report, challenges: seq<string>, error: HttpError)
    ensures var t, n := TryChallenges(c, s, r, challenges, error), FirstKnown(challenges);
            if s.context.Context? || !c.hasUsername || n == |challenges| then t == s.(status := Over(error))
            else if r.cannotReplay then t == s.(context := Context(challenges[n]), status := Over(StreamFailure))
            else t == Start(s.(context := Context(challenges[n]), scode := INTERNAL_SERVER_ERROR), r.unresolved)
    decreases |challenges|
  {
    hide SameIgnoringCase;
    if challenges != [] {
      var (result, context) := Authenticate(c, s.context, challenges[0]);
      ChallengesMean(c, s.(context := context), r, challenges[1..], if result.Response? then StreamFailure else error);
    }
  }

  /**
   * A completion repeats the request, goes on with it, or ends it, exactly as the report and the state
   * say: success is reported only for a whole answer, and any other error is the engine's own, or
   * says that the request document could not be sent again.
   */
  lemma CompletionMeans(c: Config, s: State, r: Report)
    ensures LeadsTo(c, s, r, Complete(c, s, r).status) && Remembers(c, s, r, Complete(c, s, r))
  {
    hide TryChallenges, FirstKnown, Authenticate;
    ChallengesMean(c, if r.mode.Receiving? then s.(scode := r.scode) else s, r, r.challenges, NoError);
  }

  /** A finished request stays finished. */
  lemma {:induction false} OverIsFinal(c: Config, s: State, events: seq<Event>)
    requires s.status.Over?
    ensures Run(c, s, events) == s
    decreases |events|
  {
    hide Complete;
    if events != [] {
      OverIsFinal(c, s, events[..|events| - 1]);
    }
  }

  /** In every run that ends well, the last thing that happened was a whole answer received without error. */
  lemma {:induction false} SuccessIsAnAnswer(c: Config, s: State, events: seq<Event>)
    requires !s.status.Over? && Run(c, s, events).status == Over(NoError)
    ensures exists k :: && 0 <= k < |events| && events[k].Completed? && Answered(events[k].report)
                        && Run(c, s, events[..k]).status == Active(Receiving)
                        && Run(c, s, events[..k + 1]) == Run(c, s, events)
    decreases |events|
  {
    hide Complete, LeadsTo;
    var n := |events| - 1;
    assert events != [];
    var t := Run(c, s, events[..n]);
    if t.status.Over? {
      OverIsFinal(c, t, [events[n]]);
      assert [events[n]][..0] == [];
      assert Run(c, t, [events[n]]) == Next(c, t, events[n]);
      SuccessIsAnAnswer(c, s, events[..n]);
      var k :| 0 <= k < n && events[k].Completed? && Answered(events[k].report)
               && Run(c, s, events[..n][..k]).status == Active(Receiving)
               && Run(c, s, events[..n][..k + 1]) == Run(c, s, events[..n]);
      assert events[..n][..k] == events[..k] && events[..n][..k + 1] == events[..k + 1];
    } else {
      EndsWithAnswer(c, t, events[n]);
      assert events[..n + 1] == events;
    }
  }

  lemma EndsWithAnswer(c: Config, t: State, e: Event)
    requires !t.status.Over? && Next(c, t, e).status == Over(NoError)
    ensures e.Completed? && Answered(e.report) && t.status == Active(Receiving)
  {
    hide Complete;
    match e
    case Resolved(failed, r) => CompletionMeans(c, t, r.(mode := Connecting, error := ConnectFailed));
    case Completed(r) => CompletionMeans(c, t, r);
  }

  // --- the object -----------------------------------------------------------------------------------

  class Client {
    const config: Config
    var attempt: nat
    var redirects: nat
    var context: Context
    var scode: nat
    var verb: Verb
    var status: Status
    /** How often the pool was asked for a stream. */
    var requests: nat

    function Get(): State
      reads this
    {
      State(attempt, redirects, context, scode, verb, requests, status)
    }

    /** A client after reset. */
    constructor (config: Config, verb: Verb)
      ensures Get() == Reset(verb) && this.config == config
    {
      this.config, this.verb := config, verb;
      attempt, redirects, context, scode, requests, status := 0, 0, NoContext, INTERNAL_SERVER_ERROR, 0, Ready;
    }

    /**
     * connect: asks the pool for one stream, or for a name lookup that will. Using up the request owed
     * to a lookup keeps the bound.
     */
    method DoConnect(unresolved: bool)
      modifies this`requests, this`status
      ensures requests == old(requests) + if unresolved then 0 else 1
      ensures status == if unresolved then Resolving else Active(Connecting)
      ensures old(status.Resolving? && Within(config, Get())) ==> Within(config, Get())
    {
      ghost var before := Get();
      if status.Resolving? && Within(config, before) {
        LookupDone(config, before, unresolved);
      }
      hide Within;
      if unresolved {
        status := Resolving;
        return;
      }
      requests := requests + 1;
      status := Active(Connecting);
    }

    /**
     * start: the attempts begin again, and the first of them is made. It keeps the bound when it was
     * paid for: when fewer starts are possible now than in the state `before`, which kept it.
     */
    method DoStart(unresolved: bool, ghost before: State)
      modifies this`attempt, this`requests, this`status
      ensures attempt == 0 && requests == old(requests) + if unresolved then 0 else 1
      ensures status == if unresolved then Resolving else Active(Connecting)
      ensures Within(config, before) && before.requests == old(requests) && !old(status).Resolving?
              && redirects <= MAX_REDIRECTS && StartsLeft(Get()) < StartsLeft(before)
              ==> Within(config, Get())
    {
      ghost var now := Get();
      if Within(config, before) && before.requests == requests && !status.Resolving?
         && redirects <= MAX_REDIRECTS && StartsLeft(now) < StartsLeft(before) {
        StartCosts(config, before, now, unresolved);
      }
      hide Within, StartsLeft;
      attempt := 0;
      DoConnect(unresolved);
    }

    /** Answers proxy challenges until one restarts the request or none is left. */
    method AnswerChallenges(r: Report)
      modifies this
      ensures Get() == TryChallenges(config, old(Get()), r, r.challenges, NoError)
    {
      hide SameIgnoringCase;
      var error, i := NoError, 0;
      assert r.challenges[0..] == r.challenges;
      while i < |r.challenges|
        invariant i <= |r.challenges|
        invariant TryChallenges(config, Get(), r, r.challenges[i..], error)
               == TryChallenges(config, old(Get()), r, r.challenges, NoError)
      {
        assert r.challenges[i..][1..] == r.challenges[i + 1..];
        var (result, answered) := Authenticate(config, context, r.challenges[i]);
        context := answered;
        match result {
          case Response =>
            if r.cannotReplay {
              error := StreamFailure;
            } else {
              scode := INTERNAL_SERVER_ERROR;
              DoStart(r.unresolved, old(Get()));
              return;
            }
          case Ignore =>
          case Credentials => break;
        }
        i := i + 1;
      }
      status := Over(error);
    }

    /** onHttpComplete; the number of requests stays within the bound. */
    method OnHttpComplete(r: Report)
      requires Within(config, Get())
      requires status == Active(r.mode) || (status.Resolving? && r.mode.Connecting? && r.error == ConnectFailed)
      modifies this
      ensures Get() == Complete(config, old(Get()), r)
      ensures Within(config, Get()) && requests <= Bound(config)
      ensures LeadsTo(config, old(Get()), r, status) && Remembers(config, old(Get()), r, Get())
      ensures status.Over? && status.error == NoError ==> Answered(r)
    {
      CompletionMeans(config, Get(), r);
      hide TryChallenges, Within, LeadsTo, Remembers;
      CompleteWithin(config, Get(), r);
      NeverOver(config, Complete(config, Get(), r));
      if r.mode.Receiving? {
        scode := r.scode;
      }
      var error := r.error;
      if (error == Disconnected || error == ConnectFailed || error == SocketError)
         && scode == INTERNAL_SERVER_ERROR && attempt < config.retries {
        attempt := attempt + 1;
        if !r.cannotReplay {
          DoConnect(r.unresolved);
          return;
        }
        error := StreamFailure;
      } else if error == NoError {
        if r.mode.Connecting? {
          status := Active(Sending);
          return;
        } else if r.mode.Sending? || IsInformational(scode) {
          status := Active(Receiving);
          return;
        } else if ShouldRedirect(config, Get(), r) {
          if scode == SEE_OTHER {
            verb := GET;
          } else if r.cannotReplay {
            error := StreamFailure;
          }
          if error == NoError {
            redirects, context, scode := redirects + 1, NoContext, INTERNAL_SERVER_ERROR;
            DoStart(r.unresolved, old(Get()));
            return;
          }
        } else if scode == PROXY_AUTHENTICATION_REQUIRED && config.httpsProxy {
          AnswerChallenges(r);
          return;
        }
      }
      status := Over(error);
    }

    /** OnResolveResult: a failed lookup completes like a failed connect, a good one asks for the stream. */
    method OnResolveResult(failed: bool, r: Report)
      requires Within(config, Get()) && status.Resolving?
      modifies this
      ensures Get() == Next(config, old(Get()), Resolved(failed, r)) && Within(config, Get())
      ensures failed ==> LeadsTo(config, old(Get()), r.(mode := Connecting, error := ConnectFailed), status)
      ensures !failed ==> status == (if r.unresolved then Resolving else Active(Connecting))
                          && requests == old(requests) + (if r.unresolved then 0 else 1)
    {
      hide Complete, LeadsTo, Remembers, Within;
      if failed {
        OnHttpComplete(r.(mode := Connecting, error := ConnectFailed));
      } else {
        DoConnect(r.unresolved);
      }
    }
  }

  lemma NeverOver(c: Config, s: State)
    requires Within(c, s)
    ensures s.requests <= Bound(c)
  {
  }

  // --- the bound is reached -------------------------------------------------------------------------

  const PLAIN := Report(Connecting, NoError, 0, false, [], false, false)
  const FAIL := Completed(PLAIN.(error := ConnectFailed))

  /** Connected, sent, and this answer received. */
  function Answer(r: Report): seq<Event> {
    [Completed(PLAIN), Completed(PLAIN.(mode := Sending)), Completed(r.(mode := Receiving))]
  }

  const CHALLENGE := PLAIN.(scode := PROXY_AUTHENTICATION_REQUIRED, challenges := ["basic"])
  const MOVED := PLAIN.(scode := 301, hasLocation := true)

  function Failures(n: nat): seq<Event> {
    seq(n, _ => FAIL)
  }

  lemma {:induction false} RunAppend(c: Config, s: State, a: seq<Event>, b: seq<Event>)
    ensures Run(c, s, a + b) == Run(c, Run(c, s, a), b)
    decreases |b|
  {
    hide Next;
    if b == [] {
      assert a + b == a;
    } else {
      RunAppend(c, s, a, b[..|b| - 1]);
      assert (a + b)[..|a + b| - 1] == a + b[..|b| - 1];
    }
  }

  /** A fresh attempt series: connecting, nothing received yet. */
  ghost predicate Fresh(s: State) {
    s.status == Active(Connecting) && s.scode == INTERNAL_SERVER_ERROR && s.attempt == 0
  }

  lemma {:induction false} AfterFailures(c: Config, s: State, n: nat)
    requires Fresh(s) && n <= c.retries
    ensures Run(c, s, Failures(n)) == s.(attempt := n, requests := s.requests + n)
    decreases n
  {
    if n > 0 {
      AfterFailures(c, s, n - 1);
      assert Failures(n)[..n - 1] == Failures(n - 1);
    }
  }

  /** All retries used up, then an answer: the next series starts with one more request. */
  lemma AfterChallenge(c: Config, s: State)
    requires Fresh(s) && c.httpsProxy && c.hasUsername && s.context.NoContext?
    ensures Run(c, s, Failures(c.retries) + Answer(CHALLENGE))
         == s.(context := Context("basic"), requests := s.requests + c.retries + 1)
  {
    hide Run, Complete, Answer, Failures;
    var t := s.(attempt := c.retries, requests := s.requests + c.retries);
    AfterFailures(c, s, c.retries);
    RunAppend(c, s, Failures(c.retries), Answer(CHALLENGE));
    AnswerRuns(c, t, CHALLENGE);
    Challenged(c, t);
  }

  lemma Challenged(c: Config, t: State)
    requires c.httpsProxy && c.hasUsername && t.context.NoContext?
    ensures Complete(c, t.(status := Active(Receiving)), CHALLENGE.(mode := Receiving))
         == Start(t.(scode := INTERNAL_SERVER_ERROR, context := Context("basic")), false)
  {
    assert SameIgnoringCase("basic", "basic");
  }

  lemma Moved(c: Config, t: State)
    requires !c.redirectAction.RedirectNever? && t.verb.GET? && t.redirects < MAX_REDIRECTS
    ensures Complete(c, t.(status := Active(Receiving)), MOVED.(mode := Receiving))
         == Start(t.(scode := INTERNAL_SERVER_ERROR, context := NoContext, redirects := t.redirects + 1), false)
  {
    hide TryChallenges;
  }

  lemma AfterMoved(c: Config, s: State)
    requires Fresh(s) && !c.redirectAction.RedirectNever? && s.verb.GET? && s.redirects < MAX_REDIRECTS
    ensures Run(c, s, Failures(c.retries) + Answer(MOVED))
         == s.(context := NoContext, redirects := s.redirects + 1, requests := s.requests + c.retries + 1)
  {
    hide Run, Complete, Answer, Failures;
    var t := s.(attempt := c.retries, requests := s.requests + c.retries);
    AfterFailures(c, s, c.retries);
    RunAppend(c, s, Failures(c.retries), Answer(MOVED));
    AnswerRuns(c, t, MOVED);
    Moved(c, t);
  }

  lemma AnswerRuns(c: Config, s: State, r: Report)
    requires s.status == Active(Connecting)
    ensures Run(c, s, Answer(r)) == Complete(c, s.(status := Active(Receiving)), r.(mode := Receiving))
  {
    var e := Answer(r);
    hide TryChallenges;
    assert e[..2] == [e[0], e[1]] && e[..2][..1] == [e[0]] && [e[0]][..0] == [];
    assert Run(c, s, [e[0]]) == s.(status := Active(Sending));
    assert Run(c, s, [e[0], e[1]]) == s.(status := Active(Receiving));
    hide Complete;
    assert Run(c, s, e) == Next(c, s.(status := Active(Receiving)), e[2]);
  }

  /** n rounds of: fail, be challenged, fail, be redirected. */
  function Rounds(c: Config, n: nat): seq<Event> {
    if n == 0 then []
    else Rounds(c, n - 1) + ((Failures(c.retries) + Answer(CHALLENGE)) + (Failures(c.retries) + Answer(MOVED)))
  }

  /** Requests per round. */
  function Round(c: Config): nat {
    2 * (c.retries + 1)
  }

  lemma OneMore(n: nat, x: nat)
    requires n > 0
    ensures (n - 1) * x + x == n * x
  {
  }

  lemma {:induction false} AfterRounds(c: Config, n: nat)
    requires c.httpsProxy && c.hasUsername && !c.redirectAction.RedirectNever? && n <= MAX_REDIRECTS
    ensures var s := Start(Reset(GET), false);
            Run(c, s, Rounds(c, n)) == s.(redirects := n, requests := 1 + n * Round(c))
    decreases n
  {
    var s := Start(Reset(GET), false);
    if n > 0 {
      hide Run, Answer, Failures;
      AfterRounds(c, n - 1);
      var t := Run(c, s, Rounds(c, n - 1));
      var a, b := Failures(c.retries) + Answer(CHALLENGE), Failures(c.retries) + Answer(MOVED);
      RunAppend(c, s, Rounds(c, n - 1), a + b);
      RunAppend(c, t, a, b);
      AfterRound(c, t);
      OneMore(n, Round(c));
    }
  }

  lemma AfterRound(c: Config, t: State)
    requires c.httpsProxy && c.hasUsername && !c.redirectAction.RedirectNever?
    requires Fresh(t) && t.context.NoContext? && t.verb.GET? && t.redirects < MAX_REDIRECTS
    ensures var a, b := Failures(c.retries) + Answer(CHALLENGE), Failures(c.retries) + Answer(MOVED);
            Run(c, Run(c, t, a), b) == t.(redirects := t.redirects + 1, requests := t.requests + Round(c))
  {
    hide Run, Answer, Failures;
    AfterChallenge(c, t);
    AfterMoved(c, Run(c, t, Failures(c.retries) + Answer(CHALLENGE)));
  }

  /** The bound is the exact maximum: some behaviour of the world makes the client reach it. */
  lemma BoundIsReached(c: Config)
    requires c.httpsProxy && c.hasUsername && !c.redirectAction.RedirectNever?
    ensures exists events :: Run(c, Start(Reset(GET), false), events).requests == Bound(c)
  {
    hide Run, Answer, Rounds, Failures;
    var s := Start(Reset(GET), false);
    var a, b := Rounds(c, MAX_REDIRECTS), Failures(c.retries) + Answer(CHALLENGE);
    AfterRounds(c, MAX_REDIRECTS);
    var t := Run(c, s, a);
    AfterChallenge(c, t);
    var u := Run(c, t, b);
    AfterFailures(c, u, c.retries);
    RunAppend(c, t, b, Failures(c.retries));
    RunAppend(c, s, a, b + Failures(c.retries));
    assert Run(c, s, a + (b + Failures(c.retries))).requests == Bound(c);
  }
}
