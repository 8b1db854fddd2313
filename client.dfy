/**
 * FusionPipelineClient as an object: the session store and the environment counters are
 * fields its methods update in place, and every method is proved to do exactly what the
 * corresponding function of SessionStore or Orchestrator describes, so the lemmas proved
 * there hold of the object's behaviour.
 */
module Client {
  import opened Wrappers
  import opened Protocol
  import opened Selector
  import opened SessionStore
  import opened Orchestrator

  /** The state of a client before construction has established anything. */
  const Initial: World := World(map[], [], 0, 0, 0)

  /** The request-local ArrayList of candidate endpoints that a failover shrinks in place. */
  class Candidates {
    var items: seq<string>

    constructor (items: seq<string>)
      ensures this.items == items
    {
      this.items := items;
    }

    /** ArrayList.remove(Object). */
    method Remove(x: string)
      modifies this
      ensures items == RemoveFirst(old(items), x)
    {
      items := RemoveFirst(items, x);
    }
  }

  class FusionPipelineClient {
    const cred: Credentials
    const env: Env
    var sessions: map<string, Session>
    var events: seq<Event>
    var ticks: nat
    var draws: nat
    var contexts: nat

    function State(): World
      reads this
    {
      World(sessions, events, ticks, draws, contexts)
    }

    constructor Init(cred: Credentials, env: Env)
      ensures this.cred == cred && this.env == env && State() == Initial
    {
      this.cred := cred;
      this.env := env;
      sessions := map[];
      events := [];
      ticks := 0;
      draws := 0;
      contexts := 0;
    }

    /**
     * The public constructor: establish sessions with the endpoints and keep the ones
     * that succeeded, or fail with the error establishSessions raised.
     */
    static method Create(endpoints: seq<string>, cred: Credentials, env: Env) returns (r: Result<FusionPipelineClient, Failure>)
      ensures var spec := SessionStore.EstablishSessions(cred, env, Initial, endpoints);
        && (r.Ok? <==> spec.result.Ok?)
        && (r.Err? ==> r.error == spec.result.error)
        && (r.Ok? ==> && fresh(r.value) && r.value.cred == cred && r.value.env == env
                      && r.value.State() == spec.world.(sessions := spec.result.value))
    {
      var client := new FusionPipelineClient.Init(cred, env);
      var established := client.EstablishSessions(endpoints);
      match established
      case Err(e) => r := Err(e);
      case Ok(m) =>
        client.sessions := m;
        r := Ok(client);
    }

    // -------------------------------------------------------------------------
    // The environment

    /** System.nanoTime(). */
    method NanoTime() returns (t: int)
      modifies this
      ensures t == env.clock(old(ticks))
      ensures State() == old(State()).(ticks := old(ticks) + 1)
    {
      t := env.clock(ticks);
      ticks := ticks + 1;
    }

    /** random.nextInt(n). */
    method NextInt(n: nat) returns (i: nat)
      requires n > 0
      modifies this
      ensures i == env.random(old(draws)) % n && i < n
      ensures State() == old(State()).(draws := old(draws) + 1)
    {
      i := env.random(draws) % n;
      draws := draws + 1;
    }

    /** HttpClientContext.create(): a new context, known by its serial number. */
    method CreateContext() returns (context: nat)
      modifies this
      ensures context == old(contexts)
      ensures State() == old(State()).(contexts := old(contexts) + 1)
    {
      context := contexts;
      contexts := contexts + 1;
    }

    /** httpClient.execute of a login or batch POST: the transport's reply to it. */
    method Execute(request: Event) returns (reply: Reply)
      requires request.Login? || request.Post?
      modifies this
      ensures reply == env.reply(|old(events)|, request.url)
      ensures State() == old(State()).(events := old(events) + [request])
    {
      reply := env.reply(|events|, request.url);
      events := events + [request];
    }

    /** Thread.sleep(1000) before the retry to the last endpoint. */
    method Sleep(endpoint: string)
      modifies this
      ensures State() == old(State()).(events := old(events) + [Backoff(endpoint)])
    {
      events := events + [Backoff(endpoint)];
    }

    // -------------------------------------------------------------------------
    // The session store

    method EstablishSession(url: string) returns (r: Result<Session, Failure>)
      modifies this
      ensures Step(r, State()) == SessionStore.EstablishSession(cred, env, old(State()), url)
    {
      var context := CreateContext();
      if cred.realm.Some? {
        var api := SessionApiUrl(url, cred.realm.value);
        if api.None? {
          return Err(MissingApiSegment(url));
        }
        var reply := Execute(Login(api.value, LoginBody(cred.user, cred.password), context));
        match reply
        case Refused =>
          return Err(TransportFailure(api.value));
        case Status(code) =>
          if !LoginAccepted(code) {
            return Err(ServerError(code));
          }
      }
      var establishedAt := NanoTime();
      r := Ok(Session(context, establishedAt));
    }

    method EstablishSessions(endpoints: seq<string>) returns (r: Result<map<string, Session>, Failure>)
      modifies this
      ensures Step(r, State()) == SessionStore.EstablishSessions(cred, env, old(State()), endpoints)
    {
      ghost var goal := SessionStore.EstablishSessions(cred, env, State(), endpoints);
      var m: map<string, Session> := map[];
      var lastError: Option<Failure> := None;
      for i := 0 to |endpoints|
        invariant EstablishSessionsFrom(cred, env, State(), endpoints, i, m, lastError) == goal
      {
        var session := EstablishSession(endpoints[i]);
        match session
        case Ok(s) => m := m[endpoints[i] := s];
        case Err(e) => lastError := Some(e);
      }
      if m == map[] {
        if lastError.Some? {
          return Err(lastError.value);
        }
        return Err(NoSessions(endpoints));
      }
      r := Ok(m);
    }

    method ResetSession(endpoint: string) returns (r: Option<Session>)
      modifies this
      ensures Step(r, State()) == SessionStore.ResetSession(cred, env, old(State()), endpoint)
    {
      var established := EstablishSession(endpoint);
      if established.Ok? {
        sessions := sessions[endpoint := established.value];
        r := Some(established.value);
      } else {
        sessions := sessions - {endpoint};
        r := None;
      }
      events := events + [Reset(endpoint, r)];
    }

    // -------------------------------------------------------------------------
    // The selector and the orchestrator

    method GetLbEndpoint(list: seq<string>) returns (r: Option<string>)
      modifies this
      ensures Step(r, State()) == Pick(env, old(State()), list)
    {
      var num := |list|;
      if num == 0 {
        return None;
      }
      var index := 0;
      if num > 1 {
        index := NextInt(num);
      }
      r := Some(list[index]);
    }

    method PostJsonToPipeline(endpoint: string, body: string) returns (r: Option<Failure>)
      modifies this
      ensures Step(r, State()) == PostJson(cred, env, old(State()), endpoint, body)
    {
      ghost var w := State();
      events := events + [Send(endpoint)];
      var currTime := NanoTime();
      ghost var refreshed := Refresh(cred, env, w.(events := w.events + [Send(endpoint)], ticks := w.ticks + 1), endpoint, currTime);
      var session: Option<Session> := if endpoint in sessions then Some(sessions[endpoint]) else None;
      if session.None? || IsStale(session.value, currTime) {
        session := ResetSession(endpoint);
        assert Step(session, State()) == refreshed;
        if session.None? {
          PostJsonLost(cred, env, w, endpoint, body);
          return Some(EndpointLost(endpoint));
        }
      } else {
        assert Step(session, State()) == refreshed;
      }
      PostJsonDelivered(cred, env, w, endpoint, body);
      ghost var held := State();
      ghost var current := session.value;
      var reply := Execute(Post(endpoint, body, session.value));
      if reply == Status(401) {
        session := ResetSession(endpoint);
        if session.None? {
          DeliverLostStep(cred, env, held, endpoint, body, current);
          return Some(EndpointLost(endpoint));
        }
        reply := Execute(Post(endpoint, body, session.value));
        DeliverRenewedStep(cred, env, held, endpoint, body, current);
      } else {
        DeliverFinalStep(cred, env, held, endpoint, body, current);
      }
      r := Verdict(reply, endpoint);
    }

    method PostJsonToPipelineWithRetry(endpoint: string, body: string, mutable: Candidates) returns (outcome: RetryOutcome)
      modifies this, mutable
      ensures var spec := PostWithRetry(cred, env, old(State()), endpoint, body, old(mutable.items));
        outcome == spec.outcome && mutable.items == spec.candidates && State() == spec.world
    {
      var exc := PostJsonToPipeline(endpoint, body);
      if exc.None? {
        return Delivered;
      }
      if |mutable.items| > 1 {
        mutable.Remove(endpoint);
        return FailedOver(exc.value);
      }
      Sleep(endpoint);
      var retry := PostJsonToPipeline(endpoint, body);
      outcome := if retry.None? then Delivered else Raised(retry.value);
    }

    /** `new ArrayList(sessions.keySet())`: the keys, in an order the model leaves open. */
    method KeySnapshot() returns (keys: seq<string>)
      ensures NoDup(keys)
      ensures forall x :: x in keys <==> x in sessions
    {
      keys := [];
      var rest := sessions.Keys;
      while rest != {}
        invariant rest !! (set x | x in keys)
        invariant forall x :: x in sessions <==> x in rest || x in keys
        invariant NoDup(keys)
        decreases rest
      {
        var k :| k in rest;
        keys := keys + [k];
        rest := rest - {k};
      }
    }

    method PostBatchToPipeline(body: string) returns (r: Option<Failure>, ghost snapshot: seq<string>)
      modifies this
      ensures NoDup(snapshot) && forall x :: x in snapshot <==> x in old(sessions)
      ensures Step(r, State()) == PostBatch(cred, env, old(State()), body, snapshot)
    {
      var keys := KeySnapshot();
      snapshot := keys;
      var mutable := new Candidates(keys);
      if mutable.items == [] {
        return Some(NoEndpoints), snapshot;
      }
      if |mutable.items| > 1 {
        ghost var goal := FailoverLoop(cred, env, State(), body, mutable.items);
        while mutable.items != []
          invariant mutable.items != []
          invariant FailoverLoop(cred, env, State(), body, mutable.items) == goal
          decreases |mutable.items|
        {
          ghost var before := State();
          ghost var candidates := mutable.items;
          FailoverLoopStops(cred, env, before, body, candidates);
          FailoverLoopContinues(cred, env, before, body, candidates);
          var endpoint := GetLbEndpoint(mutable.items);
          var outcome := PostJsonToPipelineWithRetry(endpoint.value, body, mutable);
          match outcome
          case Delivered =>
            return None, snapshot;
          case Raised(cause) =>
            return Some(cause), snapshot;
          case FailedOver(_) =>
        }
        assert false;
      } else {
        var endpoint := GetLbEndpoint(mutable.items);
        var outcome := PostJsonToPipelineWithRetry(endpoint.value, body, mutable);
        r := if outcome.Delivered? then None else Some(outcome.cause);
      }
    }
  }
}
