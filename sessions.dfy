/**
 * The session store of FusionPipelineClient: one session per endpoint URL, created at
 * construction, re-created on demand and dropped when re-creation fails.
 *
 * Everything the Java code takes from its environment is explicit here. A `World` is
 * the client's state (the session map) together with the record of everything it has
 * done (`events`) and the counters that index the environment's oracles: the transport's
 * reply to the exchange recorded at position k of `events` is `env.reply(k, url)`, the
 * k-th reading of System.nanoTime() is `env.clock(k)`, the k-th raw random draw is
 * `env.random(k)`, and every HttpClientContext created gets the next serial number.
 */
module SessionStore {
  import opened Wrappers
  import opened Protocol

  /** FusionSession: an authentication context (known by its serial number) and the time it was established. */
  datatype Session = Session(context: nat, establishedAt: int)

  /** The check made before every send: the session is older than the inactivity threshold. */
  predicate IsStale(s: Session, now: int) {
    now - s.establishedAt > MaxNanosOfInactivity
  }

  /** A session whose age is exactly the threshold is still fresh; one nanosecond more makes it stale. */
  lemma StalenessBoundary(s: Session)
    ensures !IsStale(s, s.establishedAt + MaxNanosOfInactivity)
    ensures IsStale(s, s.establishedAt + MaxNanosOfInactivity + 1)
    ensures forall now :: now <= s.establishedAt ==> !IsStale(s, now)
  {
  }

  /** What the transport yields for one physical POST: a status line, or a thrown I/O error. */
  datatype Reply = Status(code: int) | Refused

  /** The exceptions the core raises. */
  datatype Failure =
    | ServerError(status: int)          // SolrException for a rejected login or ingestion status
    | TransportFailure(url: string)     // the exception httpClient.execute threw for a POST to url
    | MissingApiSegment(url: string)    // substring(0, -1) on an endpoint without "/api", with a realm
    | EndpointLost(endpoint: string)    // IllegalStateException: a session could not be re-established
    | NoEndpoints                       // IllegalStateException: the store was empty when a batch came
    | NoSessions(endpoints: seq<string>) // Exception: construction established nothing and saw no error

  /** The observable record of the client's behaviour. */
  datatype Event =
    | Login(url: string, body: string, context: nat)      // POST of credentials to the session resource
    | Post(url: string, body: string, session: Session)   // POST of a batch with a session's context
    | Reset(endpoint: string, outcome: Option<Session>)   // resetSession: the new session, or removal
    | Send(endpoint: string)                              // one call of postJsonToPipeline
    | Backoff(endpoint: string)                           // the one-second sleep before the last-endpoint retry

  datatype Credentials = Credentials(user: string, password: string, realm: Option<string>)

  datatype Env = Env(reply: (nat, string) -> Reply, clock: nat -> int, random: nat -> nat)

  datatype World = World(sessions: map<string, Session>, events: seq<Event>, ticks: nat, draws: nat, contexts: nat)

  /** A result together with the world after producing it. */
  datatype Step<+T> = Step(result: T, world: World)

  /** System.nanoTime() never runs backwards. */
  ghost predicate MonotoneClock(env: Env) {
    forall i, j :: i <= j ==> env.clock(i) <= env.clock(j)
  }

  // ---------------------------------------------------------------------------
  // Counting events

  datatype Kind = Logins | Posts | Resets | Sends | Backoffs

  predicate IsKind(e: Event, k: Kind) {
    match k
    case Logins => e.Login?
    case Posts => e.Post?
    case Resets => e.Reset?
    case Sends => e.Send?
    case Backoffs => e.Backoff?
  }

  function Count(evs: seq<Event>, k: Kind): nat {
    if evs == [] then 0
    else Count(evs[..|evs| - 1], k) + (if IsKind(evs[|evs| - 1], k) then 1 else 0)
  }

  lemma {:induction false} CountAppend(a: seq<Event>, b: seq<Event>, k: Kind)
    ensures Count(a + b, k) == Count(a, k) + Count(b, k)
  {
    if b != [] {
      assert (a + b)[..|a + b| - 1] == a + b[..|b| - 1];
      CountAppend(a, b[..|b| - 1], k);
    } else {
      assert a + b == a;
    }
  }

  lemma CountSingle(e: Event, k: Kind)
    ensures Count([e], k) == if IsKind(e, k) then 1 else 0
  {
    assert [e][..0] == [];
  }

  /** Nothing of kind `k` in `evs` means a count of zero, and conversely. */
  lemma {:induction false} CountZero(evs: seq<Event>, k: Kind)
    ensures Count(evs, k) == 0 <==> forall i :: 0 <= i < |evs| ==> !IsKind(evs[i], k)
  {
    if evs != [] {
      var front := evs[..|evs| - 1];
      CountZero(front, k);
      assert forall i :: 0 <= i < |front| ==> front[i] == evs[i];
    }
  }

  // ---------------------------------------------------------------------------
  // The store changes only through resets

  function Apply(m: map<string, Session>, e: Event): map<string, Session> {
    match e
    case Reset(endpoint, Some(s)) => m[endpoint := s]
    case Reset(endpoint, None) => m - {endpoint}
    case _ => m
  }

  /** The store obtained from `m` by replaying the resets in `evs`, in order. */
  function ApplyResets(m: map<string, Session>, evs: seq<Event>): map<string, Session> {
    if evs == [] then m
    else Apply(ApplyResets(m, evs[..|evs| - 1]), evs[|evs| - 1])
  }

  lemma {:induction false} ApplyResetsAppend(m: map<string, Session>, a: seq<Event>, b: seq<Event>)
    ensures ApplyResets(m, a + b) == ApplyResets(ApplyResets(m, a), b)
  {
    if b != [] {
      assert (a + b)[..|a + b| - 1] == a + b[..|b| - 1];
      ApplyResetsAppend(m, a, b[..|b| - 1]);
    } else {
      assert a + b == a;
    }
  }

  /**
   * The store only loses an endpoint through a failed reset of it, and only gains or
   * replaces an endpoint's session through a successful reset of it.
   */
  lemma {:induction false} StoreChangesOnlyByReset(m: map<string, Session>, evs: seq<Event>, k: string)
    ensures k in m && k !in ApplyResets(m, evs) ==> Reset(k, None) in evs
    ensures k in ApplyResets(m, evs) && (k !in m || ApplyResets(m, evs)[k] != m[k]) ==>
              Reset(k, Some(ApplyResets(m, evs)[k])) in evs
  {
    if evs != [] {
      var front := evs[..|evs| - 1];
      StoreChangesOnlyByReset(m, front, k);
      assert evs == front + [evs[|evs| - 1]];
    }
  }

  /** The endpoint an event concerns; a login concerns the session resource, not an endpoint. */
  function Subject(e: Event): Option<string> {
    match e
    case Login(_, _, _) => None
    case Post(url, _, _) => Some(url)
    case Reset(endpoint, _) => Some(endpoint)
    case Send(endpoint) => Some(endpoint)
    case Backoff(endpoint) => Some(endpoint)
  }

  /** Every event of `evs` that concerns an endpoint concerns one in `targets`. */
  predicate AddressedTo(evs: seq<Event>, targets: set<string>) {
    forall i :: 0 <= i < |evs| && Subject(evs[i]).Some? ==> Subject(evs[i]).value in targets
  }

  lemma AddressedToAppend(a: seq<Event>, b: seq<Event>, targets: set<string>)
    ensures AddressedTo(a + b, targets) <==> AddressedTo(a, targets) && AddressedTo(b, targets)
  {
    if AddressedTo(a + b, targets) {
      forall i | 0 <= i < |a| && Subject(a[i]).Some? ensures Subject(a[i]).value in targets {
        assert a[i] == (a + b)[i];
      }
      forall i | 0 <= i < |b| && Subject(b[i]).Some? ensures Subject(b[i]).value in targets {
        assert b[i] == (a + b)[|a| + i];
      }
    }
  }

  /**
   * Replaying events addressed to `targets` leaves every other endpoint's entry as it
   * was, and adds no key outside `targets`.
   */
  lemma {:induction false} ResetsWithin(m: map<string, Session>, evs: seq<Event>, targets: set<string>)
    requires AddressedTo(evs, targets)
    ensures ApplyResets(m, evs) - targets == m - targets
    ensures ApplyResets(m, evs).Keys <= m.Keys + targets
  {
    if evs != [] {
      var front := evs[..|evs| - 1];
      assert AddressedTo(front, targets) by {
        forall i | 0 <= i < |front| && Subject(front[i]).Some? ensures Subject(front[i]).value in targets {
          assert front[i] == evs[i];
        }
      }
      ResetsWithin(m, front, targets);
      assert Subject(evs[|evs| - 1]).Some? ==> Subject(evs[|evs| - 1]).value in targets;
    }
  }

  /**
   * `w2` is reached from `w` by appending to the record, with every change of the store
   * explained by the resets appended, and no counter running backwards.
   */
  ghost predicate Evolves(w: World, w2: World) {
    && w.events <= w2.events
    && w2.sessions == ApplyResets(w.sessions, w2.events[|w.events|..])
    && w.ticks <= w2.ticks && w.draws <= w2.draws && w.contexts <= w2.contexts
  }

  lemma EvolvesTrans(w1: World, w2: World, w3: World)
    requires Evolves(w1, w2) && Evolves(w2, w3)
    ensures Evolves(w1, w3)
  {
    assert w3.events[|w1.events|..] == w2.events[|w1.events|..] + w3.events[|w2.events|..];
    ApplyResetsAppend(w1.sessions, w2.events[|w1.events|..], w3.events[|w2.events|..]);
  }

  /** The events appended across two consecutive stages. */
  lemma RecordConcat(a: seq<Event>, b: seq<Event>, c: seq<Event>)
    requires a <= b <= c
    ensures c[|a|..] == b[|a|..] + c[|b|..]
  {
    assert c[|a|..] == c[|a|..|b|] + c[|b|..];
  }

  /** The events appended across two consecutive stages, the first of which begins with `e`. */
  lemma RecordSplit(a: seq<Event>, e: Event, b: seq<Event>, c: seq<Event>)
    requires a + [e] <= b <= c
    ensures c[|a|..] == [e] + b[|a| + 1..] + c[|b|..]
  {
    assert c[|a|..] == c[|a|..|b|] + c[|b|..];
    assert c[|a|..|b|] == b[|a|..];
    assert b[|a|..] == [e] + b[|a| + 1..];
  }

  /** The events appended across two stages with the event `e` recorded between them. */
  lemma RecordAround(a: seq<Event>, b: seq<Event>, e: Event, c: seq<Event>)
    requires a <= b && b + [e] <= c
    ensures c[|a|..] == b[|a|..] + [e] + c[|b| + 1..]
  {
    assert c[|a|..] == c[|a|..|b|] + c[|b|..];
    assert c[|a|..|b|] == b[|a|..];
    assert c[|b|..] == [e] + c[|b| + 1..];
  }

  /** Recording an event that is not a reset leaves the store as it was. */
  lemma EvolvesByRecord(w: World, e: Event)
    requires !e.Reset?
    ensures Evolves(w, w.(events := w.events + [e]))
  {
    assert (w.events + [e])[|w.events|..] == [e];
    assert ApplyResets(w.sessions, [e]) == Apply(ApplyResets(w.sessions, []), e);
  }

  // ---------------------------------------------------------------------------
  // establishSession and resetSession

  /** The session stamped with the current clock reading, which advances the clock. */
  function Stamp(env: Env, w: World, context: nat): Step<Result<Session, Failure>> {
    Step(Ok(Session(context, env.clock(w.ticks))), w.(ticks := w.ticks + 1))
  }

  /**
   * establishSession: create a context; with a realm, POST the credentials to the session
   * resource and demand 200, 201 or 204; then stamp the session with the time.
   */
  function EstablishSession(cred: Credentials, env: Env, w: World, url: string): (s: Step<Result<Session, Failure>>)
    ensures Evolves(w, s.world)
    ensures s.world.sessions == w.sessions && s.world.draws == w.draws
    ensures s.world.contexts == w.contexts + 1
    ensures s.result.Ok? ==> s.result.value == Session(w.contexts, env.clock(w.ticks)) && s.world.ticks == w.ticks + 1
    ensures s.result.Err? ==> s.world.ticks == w.ticks
    ensures cred.realm.None? ==> s.result.Ok? && s.world.events == w.events
    ensures cred.realm.Some? && SessionApiUrl(url, cred.realm.value).None? ==>
              s.result == Err(MissingApiSegment(url)) && s.world.events == w.events
    ensures cred.realm.Some? && SessionApiUrl(url, cred.realm.value).Some? ==>
              var api := SessionApiUrl(url, cred.realm.value).value;
              var reply := env.reply(|w.events|, api);
              && s.world.events == w.events + [Login(api, LoginBody(cred.user, cred.password), w.contexts)]
              && (s.result.Ok? <==> reply.Status? && LoginAccepted(reply.code))
              && (reply.Refused? ==> s.result == Err(TransportFailure(api)))
              && (reply.Status? && !LoginAccepted(reply.code) ==> s.result == Err(ServerError(reply.code)))
  {
    var context := w.contexts;
    var w1 := w.(contexts := context + 1);
    match cred.realm
    case None => Stamp(env, w1, context)
    case Some(realm) =>
      match SessionApiUrl(url, realm)
      case None => Step(Err(MissingApiSegment(url)), w1)
      case Some(api) =>
        var login := Login(api, LoginBody(cred.user, cred.password), context);
        var w2 := w1.(events := w1.events + [login]);
        EvolvesByRecord(w1, login);
        match env.reply(|w1.events|, api)
        case Refused => Step(Err(TransportFailure(api)), w2)
        case Status(code) =>
          if LoginAccepted(code) then Stamp(env, w2, context)
          else Step(Err(ServerError(code)), w2)
  }

  /**
   * resetSession: re-establish the endpoint's session; on success it replaces the stored
   * one and is returned, on failure the endpoint is removed and null is returned.
   */
  function ResetSession(cred: Credentials, env: Env, w: World, endpoint: string): (s: Step<Option<Session>>)
    ensures Evolves(w, s.world)
    ensures s.result.Some? <==> EstablishSession(cred, env, w, endpoint).result.Ok?
    ensures s.result.Some? <==> endpoint in s.world.sessions
    ensures s.result.Some? ==> s.world.sessions[endpoint] == s.result.value
    ensures s.result.Some? ==> s.result.value == Session(w.contexts, env.clock(w.ticks))
    ensures s.world.sessions - {endpoint} == w.sessions - {endpoint}
    ensures s.world.draws == w.draws && s.world.ticks <= w.ticks + 1
  {
    var est := EstablishSession(cred, env, w, endpoint);
    var outcome := if est.result.Ok? then Some(est.result.value) else None;
    var reset := Reset(endpoint, outcome);
    var w1 := est.world.(events := est.world.events + [reset]);
    assert w1.events[|est.world.events|..] == [reset];
    assert ApplyResets(est.world.sessions, [reset]) == Apply(ApplyResets(est.world.sessions, []), reset);
    EvolvesTrans(w, est.world, w1.(sessions := Apply(est.world.sessions, reset)));
    Step(outcome, w1.(sessions := Apply(est.world.sessions, reset)))
  }

  /**
   * What one reset records: at most the login exchange, then the reset itself with its
   * outcome; no POST of a batch, no send and no backoff.
   */
  lemma ResetSessionRecord(cred: Credentials, env: Env, w: World, endpoint: string)
    ensures var s := ResetSession(cred, env, w, endpoint);
      var evs := s.world.events[|w.events|..];
      && 1 <= |evs| <= 2 && evs[|evs| - 1] == Reset(endpoint, s.result)
      && (|evs| == 2 ==> evs[0].Login?)
      && AddressedTo(evs, {endpoint})
      && Count(evs, Resets) == 1 && Count(evs, Posts) == 0 && Count(evs, Sends) == 0 && Count(evs, Backoffs) == 0
  {
    var est := EstablishSession(cred, env, w, endpoint);
    var s := ResetSession(cred, env, w, endpoint);
    var login := est.world.events[|w.events|..];
    var evs := s.world.events[|w.events|..];
    assert evs == login + [Reset(endpoint, s.result)];
    assert |login| <= 1 && (|login| == 1 ==> login[0].Login?);
    forall k: Kind
      ensures Count(evs, k) == (if k == Logins then |login| else 0) + (if k == Resets then 1 else 0)
    {
      CountAppend(login, [Reset(endpoint, s.result)], k);
      CountSingle(Reset(endpoint, s.result), k);
      if |login| == 1 {
        assert login == [login[0]];
        CountSingle(login[0], k);
      }
    }
  }

  // ---------------------------------------------------------------------------
  // establishSessions

  /** The loop of establishSessions from index `i` on, with the map built so far and the last error seen. */
  function EstablishSessionsFrom(cred: Credentials, env: Env, w: World, endpoints: seq<string>, i: nat,
                                 acc: map<string, Session>, lastError: Option<Failure>): Step<Result<map<string, Session>, Failure>>
    requires i <= |endpoints|
    decreases |endpoints| - i
  {
    if i == |endpoints| then
      if acc != map[] then Step(Ok(acc), w)
      else Step(Err(lastError.GetOr(NoSessions(endpoints))), w)
    else
      var est := EstablishSession(cred, env, w, endpoints[i]);
      match est.result
      case Ok(session) => EstablishSessionsFrom(cred, env, est.world, endpoints, i + 1, acc[endpoints[i] := session], lastError)
      case Err(e) => EstablishSessionsFrom(cred, env, est.world, endpoints, i + 1, acc, Some(e))
  }

  function EstablishSessions(cred: Credentials, env: Env, w: World, endpoints: seq<string>): Step<Result<map<string, Session>, Failure>> {
    EstablishSessionsFrom(cred, env, w, endpoints, 0, map[], None)
  }

  /**
   * What establishSession returns for each endpoint from index `i` on, each attempt made
   * in the world the previous one left.
   */
  function AttemptsFrom(cred: Credentials, env: Env, w: World, endpoints: seq<string>, i: nat): (r: seq<Result<Session, Failure>>)
    requires i <= |endpoints|
    ensures |r| == |endpoints| - i
    decreases |endpoints| - i
  {
    if i == |endpoints| then []
    else
      var est := EstablishSession(cred, env, w, endpoints[i]);
      [est.result] + AttemptsFrom(cred, env, est.world, endpoints, i + 1)
  }

  /** The per-endpoint outcomes of establishSessions' loop, in list order. */
  function Attempts(cred: Credentials, env: Env, w: World, endpoints: seq<string>): (r: seq<Result<Session, Failure>>)
    ensures |r| == |endpoints|
  {
    AttemptsFrom(cred, env, w, endpoints, 0)
  }

  /**
   * The bookkeeping of establishSessions' loop on given outcomes: `names[j]` is put into
   * the map when `a[j]` succeeded and otherwise its error becomes the last error; at the
   * end the map, the last error, or the generic error naming `all`.
   */
  function Collect(names: seq<string>, a: seq<Result<Session, Failure>>, acc: map<string, Session>,
                   lastError: Option<Failure>, all: seq<string>): Result<map<string, Session>, Failure>
    requires |names| == |a|
  {
    if a == [] then
      if acc != map[] then Ok(acc) else Err(lastError.GetOr(NoSessions(all)))
    else
      match a[0]
      case Ok(session) => Collect(names[1..], a[1..], acc[names[0] := session], lastError, all)
      case Err(e) => Collect(names[1..], a[1..], acc, Some(e), all)
  }

  /** The loop's result depends on nothing but the outcomes of its attempts. */
  lemma {:induction false} EstablishSessionsFromCollect(cred: Credentials, env: Env, w: World, endpoints: seq<string>, i: nat,
                                                        acc: map<string, Session>, lastError: Option<Failure>)
    requires i <= |endpoints|
    ensures EstablishSessionsFrom(cred, env, w, endpoints, i, acc, lastError).result
         == Collect(endpoints[i..], AttemptsFrom(cred, env, w, endpoints, i), acc, lastError, endpoints)
    decreases |endpoints| - i
  {
    if i < |endpoints| {
      var est := EstablishSession(cred, env, w, endpoints[i]);
      assert endpoints[i..][0] == endpoints[i] && endpoints[i..][1..] == endpoints[i + 1..];
      match est.result
      case Ok(session) =>
        EstablishSessionsFromCollect(cred, env, est.world, endpoints, i + 1, acc[endpoints[i] := session], lastError);
      case Err(e) =>
        EstablishSessionsFromCollect(cred, env, est.world, endpoints, i + 1, acc, Some(e));
    }
  }

  /** The loop succeeds iff something was already stored or some outcome is a success; otherwise it raises the last error. */
  lemma {:induction false} CollectOutcome(names: seq<string>, a: seq<Result<Session, Failure>>, acc: map<string, Session>,
                                          lastError: Option<Failure>, all: seq<string>)
    requires |names| == |a|
    ensures var r := Collect(names, a, acc, lastError, all);
      && (r.Ok? <==> acc != map[] || exists j :: 0 <= j < |a| && a[j].Ok?)
      && (r.Err? ==> r.error == if a != [] then a[|a| - 1].error else lastError.GetOr(NoSessions(all)))
  {
    if a != [] {
      match a[0]
      case Ok(session) =>
        CollectOutcome(names[1..], a[1..], acc[names[0] := session], lastError, all);
        assert names[0] in acc[names[0] := session];
      case Err(e) =>
        CollectOutcome(names[1..], a[1..], acc, Some(e), all);
        if exists j :: 0 <= j < |a| && a[j].Ok? {
          var j :| 0 <= j < |a| && a[j].Ok?;
          assert a[1..][j - 1] == a[j];
        }
        if |a| > 1 {
          assert a[1..][|a| - 2] == a[|a| - 1];
        }
    }
  }

  /** The keys stored are the earlier ones plus the names whose outcome succeeded. */
  lemma {:induction false} CollectKeys(names: seq<string>, a: seq<Result<Session, Failure>>, acc: map<string, Session>,
                                       lastError: Option<Failure>, all: seq<string>)
    requires |names| == |a|
    ensures var r := Collect(names, a, acc, lastError, all);
      r.Ok? ==> r.value.Keys == acc.Keys + set j | 0 <= j < |a| && a[j].Ok? :: names[j]
  {
    if a != [] {
      var here := set j | 0 <= j < |a| && a[j].Ok? :: names[j];
      var later := set j | 0 <= j < |a| - 1 && a[1..][j].Ok? :: names[1..][j];
      forall x | x in later ensures x in here {
        var j :| 0 <= j < |a| - 1 && a[1..][j].Ok? && x == names[1..][j];
        assert a[j + 1] == a[1..][j] && names[j + 1] == names[1..][j];
      }
      forall x | x in here && !(a[0].Ok? && x == names[0]) ensures x in later {
        var j :| 0 <= j < |a| && a[j].Ok? && x == names[j];
        assert j > 0;
        assert a[1..][j - 1] == a[j] && names[1..][j - 1] == names[j];
      }
      match a[0]
      case Ok(session) =>
        CollectKeys(names[1..], a[1..], acc[names[0] := session], lastError, all);
        assert names[0] in here;
      case Err(e) =>
        CollectKeys(names[1..], a[1..], acc, Some(e), all);
    }
  }

  /** Every session stored is an earlier entry or the session some successful outcome returned for that name. */
  lemma {:induction false} CollectValues(names: seq<string>, a: seq<Result<Session, Failure>>, acc: map<string, Session>,
                                         lastError: Option<Failure>, all: seq<string>)
    requires |names| == |a|
    ensures var r := Collect(names, a, acc, lastError, all);
      r.Ok? ==> forall k :: k in r.value ==>
        (k in acc && r.value[k] == acc[k]) || exists j :: 0 <= j < |a| && a[j] == Ok(r.value[k]) && names[j] == k
  {
    if a != [] {
      var r := Collect(names, a, acc, lastError, all);
      var acc' := match a[0] case Ok(session) => acc[names[0] := session] case Err(_) => acc;
      match a[0]
      case Ok(session) => CollectValues(names[1..], a[1..], acc', lastError, all);
      case Err(e) => CollectValues(names[1..], a[1..], acc', Some(e), all);
      if r.Ok? {
        forall k | k in r.value && !(k in acc && r.value[k] == acc[k])
          ensures exists j :: 0 <= j < |a| && a[j] == Ok(r.value[k]) && names[j] == k
        {
          if names[0] == k && a[0] == Ok(r.value[k]) {
          } else {
            var j :| 0 <= j < |a| - 1 && a[1..][j] == Ok(r.value[k]) && names[1..][j] == k;
            assert a[j + 1] == a[1..][j] && names[j + 1] == names[1..][j];
          }
        }
      }
    }
  }

  /**
   * establishSessions tolerates partial failure: it succeeds iff at least one endpoint's
   * establishSession succeeds, the map holds exactly the endpoints whose attempt
   * succeeded, each with a session one of its attempts returned, and a failure of all
   * of them raises the error of the last endpoint tried.
   */
  lemma EstablishSessionsAttempts(cred: Credentials, env: Env, w: World, endpoints: seq<string>)
    ensures var s := EstablishSessions(cred, env, w, endpoints);
      var a := Attempts(cred, env, w, endpoints);
      && (s.result.Ok? <==> exists j :: 0 <= j < |a| && a[j].Ok?)
      && (s.result.Ok? ==> s.result.value.Keys == set j | 0 <= j < |a| && a[j].Ok? :: endpoints[j])
      && (s.result.Ok? ==> forall k :: k in s.result.value ==>
            exists j :: 0 <= j < |a| && a[j] == Ok(s.result.value[k]) && endpoints[j] == k)
      && (s.result.Err? && endpoints != [] ==> s.result.error == a[|endpoints| - 1].error)
      && (s.result.Err? && endpoints == [] ==> s.result.error == NoSessions(endpoints))
  {
    var a := Attempts(cred, env, w, endpoints);
    EstablishSessionsFromCollect(cred, env, w, endpoints, 0, map[], None);
    assert endpoints[0..] == endpoints;
    CollectOutcome(endpoints, a, map[], None, endpoints);
    CollectKeys(endpoints, a, map[], None, endpoints);
    CollectValues(endpoints, a, map[], None, endpoints);
  }

  lemma {:induction false} EstablishSessionsFromOk(cred: Credentials, env: Env, w: World, endpoints: seq<string>, i: nat,
                                                   acc: map<string, Session>, lastError: Option<Failure>, lo: nat)
    requires i <= |endpoints|
    requires forall k :: k in acc ==> k in endpoints
    requires lo <= w.contexts && forall k :: k in acc ==> lo <= acc[k].context < w.contexts
    ensures var s := EstablishSessionsFrom(cred, env, w, endpoints, i, acc, lastError);
      && s.world.sessions == w.sessions
      && (s.result.Ok? ==> && s.result.value != map[]
                           && (forall k :: k in s.result.value ==> k in endpoints)
                           && (forall k :: k in s.result.value ==> lo <= s.result.value[k].context < s.world.contexts))
    decreases |endpoints| - i
  {
    if i < |endpoints| {
      var est := EstablishSession(cred, env, w, endpoints[i]);
      match est.result
      case Ok(session) =>
        EstablishSessionsFromOk(cred, env, est.world, endpoints, i + 1, acc[endpoints[i] := session], lastError, lo);
      case Err(e) =>
        EstablishSessionsFromOk(cred, env, est.world, endpoints, i + 1, acc, Some(e), lo);
    }
  }

  lemma {:induction false} EstablishSessionsFromErr(cred: Credentials, env: Env, w: World, endpoints: seq<string>, i: nat,
                                                    acc: map<string, Session>, lastError: Option<Failure>)
    requires i <= |endpoints|
    requires acc == map[] && lastError.None? ==> i == 0
    requires lastError.Some? ==> i > 0 && !lastError.value.NoSessions?
    ensures var s := EstablishSessionsFrom(cred, env, w, endpoints, i, acc, lastError);
      s.result.Err? ==> (s.result.error.NoSessions? <==> endpoints == [])
    decreases |endpoints| - i
  {
    if i < |endpoints| {
      var est := EstablishSession(cred, env, w, endpoints[i]);
      match est.result
      case Ok(session) =>
        assert endpoints[i] in acc[endpoints[i] := session];
        EstablishSessionsFromErr(cred, env, est.world, endpoints, i + 1, acc[endpoints[i] := session], lastError);
      case Err(e) =>
        assert !e.NoSessions?;
        EstablishSessionsFromErr(cred, env, est.world, endpoints, i + 1, acc, Some(e));
    }
  }

  lemma {:induction false} EstablishSessionsFromWithoutRealm(cred: Credentials, env: Env, w: World, endpoints: seq<string>, i: nat,
                                                             acc: map<string, Session>, lastError: Option<Failure>)
    requires i <= |endpoints| && cred.realm.None?
    requires i < |endpoints| || acc != map[]
    ensures var s := EstablishSessionsFrom(cred, env, w, endpoints, i, acc, lastError);
      s.result.Ok? && s.result.value.Keys == acc.Keys + (set k | k in endpoints[i..])
    decreases |endpoints| - i
  {
    if i == |endpoints| {
      assert (set k | k in endpoints[i..]) == {};
    } else {
      var est := EstablishSession(cred, env, w, endpoints[i]);
      assert endpoints[i..] == [endpoints[i]] + endpoints[i + 1..];
      assert endpoints[i] in acc[endpoints[i] := est.result.value];
      EstablishSessionsFromWithoutRealm(cred, env, est.world, endpoints, i + 1, acc[endpoints[i] := est.result.value], lastError);
    }
  }

  /**
   * establishSessions: on success the map is non-empty, its keys are among the given
   * endpoints and every session in it was created by this call; the store itself is not
   * touched. On failure the generic exception is raised exactly when there were no
   * endpoints at all: otherwise the last establishment error is raised. Without a realm
   * nothing can fail, so every endpoint gets a session.
   */
  lemma EstablishSessionsOutcome(cred: Credentials, env: Env, w: World, endpoints: seq<string>)
    ensures var s := EstablishSessions(cred, env, w, endpoints);
      && s.world.sessions == w.sessions
      && (s.result.Ok? ==> && s.result.value != map[]
                           && (forall k :: k in s.result.value ==> k in endpoints)
                           && (forall k :: k in s.result.value ==> w.contexts <= s.result.value[k].context < s.world.contexts))
      && (s.result.Err? ==> (s.result.error.NoSessions? <==> endpoints == []))
      && (cred.realm.None? && endpoints != [] ==> s.result.Ok? && s.result.value.Keys == set k | k in endpoints)
  {
    EstablishSessionsFromOk(cred, env, w, endpoints, 0, map[], None, w.contexts);
    EstablishSessionsFromErr(cred, env, w, endpoints, 0, map[], None);
    if cred.realm.None? && endpoints != [] {
      EstablishSessionsFromWithoutRealm(cred, env, w, endpoints, 0, map[], None);
      assert endpoints[0..] == endpoints;
    }
  }
}
