/**
 * The retry/failover orchestrator of FusionPipelineClient: one logical request (a batch
 * already serialised to `body`) is driven across a request-local list of candidate
 * endpoints, one top-level send at a time.
 */
module Orchestrator {
  import opened Wrappers
  import opened Protocol
  import opened Selector
  import opened SessionStore

  /** getLbEndpoint with its random draw: `random.nextInt(n)` is the next raw draw reduced modulo n. */
  function Pick(env: Env, w: World, candidates: seq<string>): (s: Step<Option<string>>)
    ensures s.result.None? <==> candidates == []
    ensures s.result.Some? ==> s.result.value in candidates
    ensures |candidates| == 1 ==> s.result == Some(candidates[0])
    ensures s.world == if |candidates| > 1 then w.(draws := w.draws + 1) else w
  {
    if |candidates| > 1 then
      Step(LbEndpoint(candidates, env.random(w.draws) % |candidates|), w.(draws := w.draws + 1))
    else
      Step(LbEndpoint(candidates, 0), w)
  }

  /** One physical POST of the batch with a session's context, and the transport's reply to it. */
  function Exchange(env: Env, w: World, endpoint: string, body: string, session: Session): Step<Reply> {
    Step(env.reply(|w.events|, endpoint), w.(events := w.events + [Post(endpoint, body, session)]))
  }

  /** The outcome of an ingestion reply: success only for 200 and 204. */
  function Verdict(reply: Reply, endpoint: string): (r: Option<Failure>)
    ensures r.None? <==> reply.Status? && IngestAccepted(reply.code)
    ensures reply.Refused? ==> r == Some(TransportFailure(endpoint))
    ensures reply.Status? && !IngestAccepted(reply.code) ==> r == Some(ServerError(reply.code))
  {
    match reply
    case Refused => Some(TransportFailure(endpoint))
    case Status(code) => if IngestAccepted(code) then None else Some(ServerError(code))
  }

  /** The synchronized block of postJsonToPipeline: keep a present, fresh session, else reset it. */
  function Refresh(cred: Credentials, env: Env, w: World, endpoint: string, now: int): (s: Step<Option<Session>>)
    ensures Evolves(w, s.world)
    ensures s.world.sessions - {endpoint} == w.sessions - {endpoint}
    ensures s.result.Some? <==> endpoint in s.world.sessions
    ensures s.result.Some? ==> s.world.sessions[endpoint] == s.result.value
  {
    if endpoint in w.sessions && !IsStale(w.sessions[endpoint], now) then Step(Some(w.sessions[endpoint]), w)
    else ResetSession(cred, env, w, endpoint)
  }

  /** The POST with a session in hand, and the handling of a 401 reply. */
  function Deliver(cred: Credentials, env: Env, w: World, endpoint: string, body: string, session: Session): Step<Option<Failure>> {
    var first := Exchange(env, w, endpoint, body, session);
    match first.result
    case Refused => Step(Verdict(first.result, endpoint), first.world)
    case Status(code) =>
      if code != 401 then Step(Verdict(first.result, endpoint), first.world)
      else
        var reset := ResetSession(cred, env, first.world, endpoint);
        match reset.result
        case None => Step(Some(EndpointLost(endpoint)), reset.world)
        case Some(renewed) =>
          var second := Exchange(env, reset.world, endpoint, body, renewed);
          Step(Verdict(second.result, endpoint), second.world)
  }

  lemma DeliverEvolves(cred: Credentials, env: Env, w: World, endpoint: string, body: string, session: Session)
    ensures var s := Deliver(cred, env, w, endpoint, body, session);
      Evolves(w, s.world) && s.world.sessions - {endpoint} == w.sessions - {endpoint}
  {
    var first := Exchange(env, w, endpoint, body, session);
    EvolvesByRecord(w, Post(endpoint, body, session));
    if first.result == Status(401) {
      var reset := ResetSession(cred, env, first.world, endpoint);
      EvolvesTrans(w, first.world, reset.world);
      if reset.result.Some? {
        EvolvesByRecord(reset.world, Post(endpoint, body, reset.result.value));
        EvolvesTrans(w, reset.world, Exchange(env, reset.world, endpoint, body, reset.result.value).world);
      }
    }
  }

  /** Deliver, stage by stage: the reply to the first POST decides. */
  lemma DeliverFinalStep(cred: Credentials, env: Env, w: World, endpoint: string, body: string, session: Session)
    ensures var first := Exchange(env, w, endpoint, body, session);
      first.result != Status(401) ==> Deliver(cred, env, w, endpoint, body, session) == Step(Verdict(first.result, endpoint), first.world)
  {
  }

  lemma DeliverLostStep(cred: Credentials, env: Env, w: World, endpoint: string, body: string, session: Session)
    ensures var first := Exchange(env, w, endpoint, body, session);
      var reset := ResetSession(cred, env, first.world, endpoint);
      first.result == Status(401) && reset.result.None? ==>
        Deliver(cred, env, w, endpoint, body, session) == Step(Some(EndpointLost(endpoint)), reset.world)
  {
  }

  lemma DeliverRenewedStep(cred: Credentials, env: Env, w: World, endpoint: string, body: string, session: Session)
    ensures var first := Exchange(env, w, endpoint, body, session);
      var reset := ResetSession(cred, env, first.world, endpoint);
      first.result == Status(401) && reset.result.Some? ==>
        var second := Exchange(env, reset.world, endpoint, body, reset.result.value);
        Deliver(cred, env, w, endpoint, body, session) == Step(Verdict(second.result, endpoint), second.world)
  {
  }

  /** A reply other than 401 is final: a single POST, judged on 200/204 only. */
  lemma DeliverFinal(cred: Credentials, env: Env, w: World, endpoint: string, body: string, session: Session)
    requires env.reply(|w.events|, endpoint) != Status(401)
    ensures var s := Deliver(cred, env, w, endpoint, body, session);
      && s.world.events[|w.events|..] == [Post(endpoint, body, session)]
      && s.result == Verdict(env.reply(|w.events|, endpoint), endpoint)
      && s.world.sessions == w.sessions
  {
  }

  /**
   * A 401 reply costs exactly one reset of the same endpoint and no other send. If the
   * reset fails the request fails with EndpointLost after that single POST; otherwise
   * exactly one more POST is made, with the renewed session, and its reply is final:
   * 200/204 succeed, anything else (a second 401 too) is a server error.
   */
  lemma DeliverUnauthorized(cred: Credentials, env: Env, w: World, endpoint: string, body: string, session: Session)
    requires env.reply(|w.events|, endpoint) == Status(401)
    ensures var s := Deliver(cred, env, w, endpoint, body, session);
      var evs := s.world.events[|w.events|..];
      && |evs| >= 2 && evs[0] == Post(endpoint, body, session)
      && AddressedTo(evs, {endpoint})
      && Count(evs, Resets) == 1 && Count(evs, Sends) == 0 && Count(evs, Backoffs) == 0
      && (Count(evs, Posts) == 1 || Count(evs, Posts) == 2)
      && (Count(evs, Posts) == 1 <==> s.result == Some(EndpointLost(endpoint)))
      && (Count(evs, Posts) == 2 ==>
            && |evs| >= 3 && evs[|evs| - 2].Reset? && evs[|evs| - 2].outcome.Some?
            && evs[|evs| - 1] == Post(endpoint, body, evs[|evs| - 2].outcome.value)
            && evs[|evs| - 2].outcome.value.establishedAt == env.clock(w.ticks)
            && (forall i :: 0 < i < |evs| - 1 ==> !evs[i].Post?)
            && s.result == Verdict(env.reply(|s.world.events| - 1, endpoint), endpoint))
  {
    var first := Exchange(env, w, endpoint, body, session);
    if ResetSession(cred, env, first.world, endpoint).result.None? {
      ReauthLost(cred, env, w, endpoint, body, session);
    } else {
      ReauthRenewed(cred, env, w, endpoint, body, session);
    }
  }

  lemma ReauthLost(cred: Credentials, env: Env, w: World, endpoint: string, body: string, session: Session)
    requires env.reply(|w.events|, endpoint) == Status(401)
    requires ResetSession(cred, env, Exchange(env, w, endpoint, body, session).world, endpoint).result.None?
    ensures var s := Deliver(cred, env, w, endpoint, body, session);
      var evs := s.world.events[|w.events|..];
      && s.result == Some(EndpointLost(endpoint))
      && |evs| >= 2 && evs[0] == Post(endpoint, body, session)
      && AddressedTo(evs, {endpoint})
      && Count(evs, Resets) == 1 && Count(evs, Sends) == 0 && Count(evs, Backoffs) == 0 && Count(evs, Posts) == 1
  {
    var first := Exchange(env, w, endpoint, body, session);
    var reset := ResetSession(cred, env, first.world, endpoint);
    var post := Post(endpoint, body, session);
    DeliverLostStep(cred, env, w, endpoint, body, session);
    ResetSessionRecord(cred, env, first.world, endpoint);
    var resetEvs := reset.world.events[|first.world.events|..];
    RecordSplit(w.events, post, first.world.events, reset.world.events);
    assert first.world.events[|w.events| + 1..] == [];
    assert reset.world.events[|w.events|..] == [post] + resetEvs;
    LostShape(endpoint, post, resetEvs);
  }

  lemma ReauthRenewed(cred: Credentials, env: Env, w: World, endpoint: string, body: string, session: Session)
    requires env.reply(|w.events|, endpoint) == Status(401)
    requires ResetSession(cred, env, Exchange(env, w, endpoint, body, session).world, endpoint).result.Some?
    ensures var s := Deliver(cred, env, w, endpoint, body, session);
      var evs := s.world.events[|w.events|..];
      && |evs| >= 3 && evs[0] == Post(endpoint, body, session)
      && evs[|evs| - 2].Reset? && evs[|evs| - 2].outcome.Some?
      && evs[|evs| - 1] == Post(endpoint, body, evs[|evs| - 2].outcome.value)
      && evs[|evs| - 2].outcome.value.establishedAt == env.clock(w.ticks)
      && (forall i :: 0 < i < |evs| - 1 ==> !evs[i].Post?)
      && AddressedTo(evs, {endpoint})
      && s.result == Verdict(env.reply(|s.world.events| - 1, endpoint), endpoint)
      && Count(evs, Resets) == 1 && Count(evs, Sends) == 0 && Count(evs, Backoffs) == 0 && Count(evs, Posts) == 2
  {
    ReauthRenewedRecord(cred, env, w, endpoint, body, session);
    ReauthRenewedVerdict(cred, env, w, endpoint, body, session);
  }

  /** After a successful reset, the record is the POST, the reset's record and the second POST. */
  lemma ReauthRenewedRecord(cred: Credentials, env: Env, w: World, endpoint: string, body: string, session: Session)
    requires env.reply(|w.events|, endpoint) == Status(401)
    requires ResetSession(cred, env, Exchange(env, w, endpoint, body, session).world, endpoint).result.Some?
    ensures var first := Exchange(env, w, endpoint, body, session);
      var reset := ResetSession(cred, env, first.world, endpoint);
      var s := Deliver(cred, env, w, endpoint, body, session);
      var evs := s.world.events[|w.events|..];
      && |evs| >= 3 && evs[0] == Post(endpoint, body, session)
      && evs[|evs| - 2] == Reset(endpoint, reset.result)
      && evs[|evs| - 1] == Post(endpoint, body, reset.result.value)
      && (forall i :: 0 < i < |evs| - 1 ==> !evs[i].Post?)
      && AddressedTo(evs, {endpoint})
      && Count(evs, Resets) == 1 && Count(evs, Sends) == 0 && Count(evs, Backoffs) == 0 && Count(evs, Posts) == 2
  {
    var first := Exchange(env, w, endpoint, body, session);
    var reset := ResetSession(cred, env, first.world, endpoint);
    var post := Post(endpoint, body, session);
    var again := Post(endpoint, body, reset.result.value);
    var second := Exchange(env, reset.world, endpoint, body, reset.result.value);
    DeliverRenewedStep(cred, env, w, endpoint, body, session);
    ResetSessionRecord(cred, env, first.world, endpoint);
    var resetEvs := reset.world.events[|first.world.events|..];
    RecordSplit(w.events, post, first.world.events, reset.world.events);
    assert first.world.events[|w.events| + 1..] == [];
    assert reset.world.events[|w.events|..] == [post] + resetEvs;
    RecordConcat(w.events, reset.world.events, second.world.events);
    assert second.world.events[|reset.world.events|..] == [again];
    assert second.world.events[|w.events|..] == [post] + resetEvs + [again];
    RenewedShape(endpoint, post, resetEvs, again);
  }

  /** After a successful reset, the renewed session is stamped now and the second reply decides. */
  lemma ReauthRenewedVerdict(cred: Credentials, env: Env, w: World, endpoint: string, body: string, session: Session)
    requires env.reply(|w.events|, endpoint) == Status(401)
    requires ResetSession(cred, env, Exchange(env, w, endpoint, body, session).world, endpoint).result.Some?
    ensures var reset := ResetSession(cred, env, Exchange(env, w, endpoint, body, session).world, endpoint);
      var s := Deliver(cred, env, w, endpoint, body, session);
      && reset.result.value.establishedAt == env.clock(w.ticks)
      && |s.world.events| == |reset.world.events| + 1
      && s.result == Verdict(env.reply(|reset.world.events|, endpoint), endpoint)
  {
    DeliverRenewedStep(cred, env, w, endpoint, body, session);
  }

  /** The record of a 401 whose reset failed: the POST, then the reset's own record. */
  lemma LostShape(endpoint: string, post: Event, resetEvs: seq<Event>)
    requires post.Post? && post.url == endpoint
    requires |resetEvs| >= 1 && AddressedTo(resetEvs, {endpoint})
    requires Count(resetEvs, Resets) == 1 && Count(resetEvs, Posts) == 0
    requires Count(resetEvs, Sends) == 0 && Count(resetEvs, Backoffs) == 0
    ensures var evs := [post] + resetEvs;
      && |evs| >= 2 && evs[0] == post && AddressedTo(evs, {endpoint})
      && Count(evs, Resets) == 1 && Count(evs, Sends) == 0 && Count(evs, Backoffs) == 0 && Count(evs, Posts) == 1
  {
    assert AddressedTo([post], {endpoint});
    AddressedToAppend([post], resetEvs, {endpoint});
    forall k: Kind ensures Count([post] + resetEvs, k) == Count([post], k) + Count(resetEvs, k) {
      CountAppend([post], resetEvs, k);
    }
    CountSingle(post, Sends); CountSingle(post, Backoffs); CountSingle(post, Posts); CountSingle(post, Resets);
  }

  /** The record of a 401 whose reset succeeded: the POST, the reset's record, the second POST. */
  lemma RenewedShape(endpoint: string, post: Event, resetEvs: seq<Event>, again: Event)
    requires post.Post? && post.url == endpoint && again.Post? && again.url == endpoint
    requires |resetEvs| >= 1 && resetEvs[|resetEvs| - 1] == Reset(endpoint, Some(again.session))
    requires AddressedTo(resetEvs, {endpoint})
    requires Count(resetEvs, Resets) == 1 && Count(resetEvs, Posts) == 0
    requires Count(resetEvs, Sends) == 0 && Count(resetEvs, Backoffs) == 0
    ensures var evs := [post] + resetEvs + [again];
      && |evs| >= 3 && evs[0] == post && evs[|evs| - 2] == resetEvs[|resetEvs| - 1] && evs[|evs| - 1] == again
      && (forall i :: 0 < i < |evs| - 1 ==> !evs[i].Post?)
      && AddressedTo(evs, {endpoint})
      && Count(evs, Resets) == 1 && Count(evs, Sends) == 0 && Count(evs, Backoffs) == 0 && Count(evs, Posts) == 2
  {
    var evs := [post] + resetEvs + [again];
    assert evs[|evs| - 2] == resetEvs[|resetEvs| - 1];
    assert AddressedTo([post], {endpoint});
    assert AddressedTo([again], {endpoint});
    AddressedToAppend([post], resetEvs, {endpoint});
    AddressedToAppend([post] + resetEvs, [again], {endpoint});
    CountZero(resetEvs, Posts);
    forall i | 0 < i < |evs| - 1 ensures !evs[i].Post? {
      assert evs[i] == resetEvs[i - 1];
    }
    forall k: Kind ensures Count(evs, k) == Count([post], k) + Count(resetEvs, k) + Count([again], k) {
      CountAppend([post], resetEvs, k);
      CountAppend([post] + resetEvs, [again], k);
    }
    CountSingle(post, Sends); CountSingle(post, Backoffs); CountSingle(post, Posts); CountSingle(post, Resets);
    CountSingle(again, Sends); CountSingle(again, Backoffs); CountSingle(again, Posts); CountSingle(again, Resets);
  }

  /** Every POST in `evs` carries a session that is not stale at `now`. */
  predicate PostsFresh(evs: seq<Event>, now: int) {
    forall i :: 0 <= i < |evs| && evs[i].Post? ==> !IsStale(evs[i].session, now)
  }

  lemma PostsFreshAppend(a: seq<Event>, b: seq<Event>, now: int)
    ensures PostsFresh(a + b, now) <==> PostsFresh(a, now) && PostsFresh(b, now)
  {
    if PostsFresh(a + b, now) {
      forall i | 0 <= i < |a| && a[i].Post? ensures !IsStale(a[i].session, now) {
        assert a[i] == (a + b)[i];
      }
      forall i | 0 <= i < |b| && b[i].Post? ensures !IsStale(b[i].session, now) {
        assert b[i] == (a + b)[|a| + i];
      }
    }
  }

  /**
   * Whatever the reply, delivering a batch makes one or two POSTs and at most one reset,
   * all of them about the same endpoint, and never sends elsewhere or backs off.
   */
  lemma DeliverCounts(cred: Credentials, env: Env, w: World, endpoint: string, body: string, session: Session)
    ensures var s := Deliver(cred, env, w, endpoint, body, session);
      var evs := s.world.events[|w.events|..];
      && |evs| >= 1 && evs[0] == Post(endpoint, body, session)
      && AddressedTo(evs, {endpoint})
      && Count(evs, Sends) == 0 && Count(evs, Backoffs) == 0
      && 1 <= Count(evs, Posts) <= 2 && Count(evs, Resets) <= 1
  {
    var post := Post(endpoint, body, session);
    if env.reply(|w.events|, endpoint) != Status(401) {
      DeliverFinal(cred, env, w, endpoint, body, session);
      CountSingle(post, Sends); CountSingle(post, Backoffs); CountSingle(post, Posts); CountSingle(post, Resets);
    } else {
      DeliverUnauthorized(cred, env, w, endpoint, body, session);
    }
  }

  /**
   * Every POST made while delivering carries a session that is fresh at `now`: the one
   * handed in, or the one a 401 made the client re-establish, which is stamped no
   * earlier than `now`.
   */
  lemma DeliverFresh(cred: Credentials, env: Env, w: World, endpoint: string, body: string, session: Session, now: int)
    requires !IsStale(session, now) && now <= env.clock(w.ticks)
    ensures PostsFresh(Deliver(cred, env, w, endpoint, body, session).world.events[|w.events|..], now)
  {
    if env.reply(|w.events|, endpoint) != Status(401) {
      DeliverFinal(cred, env, w, endpoint, body, session);
    } else {
      DeliverUnauthorized(cred, env, w, endpoint, body, session);
    }
  }

  /**
   * postJsonToPipeline: read the clock, make sure a fresh session is held (failing with
   * IllegalStateException if it cannot be re-established), then deliver.
   */
  function PostJson(cred: Credentials, env: Env, w: World, endpoint: string, body: string): (s: Step<Option<Failure>>)
    ensures Evolves(w, s.world)
    ensures s.world.sessions - {endpoint} == w.sessions - {endpoint}
  {
    var w2 := w.(events := w.events + [Send(endpoint)], ticks := w.ticks + 1);
    EvolvesByRecord(w, Send(endpoint));
    var held := Refresh(cred, env, w2, endpoint, env.clock(w.ticks));
    EvolvesTrans(w, w2, held.world);
    EvolvesTrans(w, held.world, AfterRefresh(cred, env, held, endpoint, body).world);
    AfterRefresh(cred, env, held, endpoint, body)
  }

  /** The rest of a send once the refresh is over: fail if the session was lost, else deliver. */
  function AfterRefresh(cred: Credentials, env: Env, held: Step<Option<Session>>, endpoint: string, body: string): (s: Step<Option<Failure>>)
    ensures Evolves(held.world, s.world)
    ensures s.world.sessions - {endpoint} == held.world.sessions - {endpoint}
  {
    match held.result
    case None =>
      assert held.world.events[|held.world.events|..] == [];
      Step(Some(EndpointLost(endpoint)), held.world)
    case Some(session) =>
      DeliverEvolves(cred, env, held.world, endpoint, body, session);
      Deliver(cred, env, held.world, endpoint, body, session)
  }

  /** The two stages of a send: the refresh under the clock reading, then the delivery. */
  lemma PostJsonStages(cred: Credentials, env: Env, w: World, endpoint: string, body: string)
    ensures var w2 := w.(events := w.events + [Send(endpoint)], ticks := w.ticks + 1);
      var held := Refresh(cred, env, w2, endpoint, env.clock(w.ticks));
      var s := PostJson(cred, env, w, endpoint, body);
      && Evolves(w2, held.world)
      && (held.result.None? ==> s == Step(Some(EndpointLost(endpoint)), held.world))
      && (held.result.Some? ==> s == Deliver(cred, env, held.world, endpoint, body, held.result.value))
      && s.world.events[|w.events|..] == [Send(endpoint)] + held.world.events[|w2.events|..] + s.world.events[|held.world.events|..]
  {
    PostJsonLost(cred, env, w, endpoint, body);
    PostJsonDelivered(cred, env, w, endpoint, body);
    PostJsonSplit(cred, env, w, endpoint, body);
  }

  /** A send's record is its Send, then what the refresh recorded, then what the delivery recorded. */
  lemma PostJsonSplit(cred: Credentials, env: Env, w: World, endpoint: string, body: string)
    ensures var w2 := w.(events := w.events + [Send(endpoint)], ticks := w.ticks + 1);
      var held := Refresh(cred, env, w2, endpoint, env.clock(w.ticks));
      var s := PostJson(cred, env, w, endpoint, body);
      s.world.events[|w.events|..] == [Send(endpoint)] + held.world.events[|w2.events|..] + s.world.events[|held.world.events|..]
  {
    var w2 := w.(events := w.events + [Send(endpoint)], ticks := w.ticks + 1);
    var held := Refresh(cred, env, w2, endpoint, env.clock(w.ticks));
    var s := PostJson(cred, env, w, endpoint, body);
    if held.result.None? {
      PostJsonLost(cred, env, w, endpoint, body);
    } else {
      PostJsonDelivered(cred, env, w, endpoint, body);
      DeliverEvolves(cred, env, held.world, endpoint, body, held.result.value);
    }
    assert held.world.events <= s.world.events;
    RecordSplit(w.events, Send(endpoint), held.world.events, s.world.events);
    assert w2.events == w.events + [Send(endpoint)];
  }

  lemma PostJsonLost(cred: Credentials, env: Env, w: World, endpoint: string, body: string)
    ensures var w2 := w.(events := w.events + [Send(endpoint)], ticks := w.ticks + 1);
      var held := Refresh(cred, env, w2, endpoint, env.clock(w.ticks));
      held.result.None? ==> PostJson(cred, env, w, endpoint, body) == Step(Some(EndpointLost(endpoint)), held.world)
  {
    PostJsonUnfold(cred, env, w, endpoint, body);
  }

  lemma PostJsonDelivered(cred: Credentials, env: Env, w: World, endpoint: string, body: string)
    ensures var w2 := w.(events := w.events + [Send(endpoint)], ticks := w.ticks + 1);
      var held := Refresh(cred, env, w2, endpoint, env.clock(w.ticks));
      held.result.Some? ==> PostJson(cred, env, w, endpoint, body) == Deliver(cred, env, held.world, endpoint, body, held.result.value)
  {
    var w2 := w.(events := w.events + [Send(endpoint)], ticks := w.ticks + 1);
    var held := Refresh(cred, env, w2, endpoint, env.clock(w.ticks));
    PostJsonUnfold(cred, env, w, endpoint, body);
    if held.result.Some? {
      AfterRefreshDelivers(cred, env, held, endpoint, body);
    }
  }

  lemma PostJsonUnfold(cred: Credentials, env: Env, w: World, endpoint: string, body: string)
    ensures var w2 := w.(events := w.events + [Send(endpoint)], ticks := w.ticks + 1);
      PostJson(cred, env, w, endpoint, body) == AfterRefresh(cred, env, Refresh(cred, env, w2, endpoint, env.clock(w.ticks)), endpoint, body)
  {
  }

  lemma AfterRefreshDelivers(cred: Credentials, env: Env, held: Step<Option<Session>>, endpoint: string, body: string)
    requires held.result.Some?
    ensures AfterRefresh(cred, env, held, endpoint, body) == Deliver(cred, env, held.world, endpoint, body, held.result.value)
  {
  }

  /** The refresh records nothing for a fresh session, and exactly one reset otherwise. */
  lemma RefreshRecord(cred: Credentials, env: Env, w: World, endpoint: string, now: int)
    ensures var s := Refresh(cred, env, w, endpoint, now);
      var evs := s.world.events[|w.events|..];
      && AddressedTo(evs, {endpoint})
      && Count(evs, Posts) == 0 && Count(evs, Sends) == 0 && Count(evs, Backoffs) == 0 && Count(evs, Resets) <= 1
      && (endpoint in w.sessions && !IsStale(w.sessions[endpoint], now) ==> s == Step(Some(w.sessions[endpoint]), w))
      && (!(endpoint in w.sessions && !IsStale(w.sessions[endpoint], now)) ==>
            && 1 <= |evs| <= 2 && evs[|evs| - 1] == Reset(endpoint, s.result) && (|evs| == 2 ==> evs[0].Login?)
            && (s.result.Some? ==> s.result.value == Session(w.contexts, env.clock(w.ticks))))
  {
    if !(endpoint in w.sessions && !IsStale(w.sessions[endpoint], now)) {
      ResetSessionRecord(cred, env, w, endpoint);
    } else {
      assert w.events[|w.events|..] == [];
    }
  }

  /**
   * One call of postJsonToPipeline is one top-level send: it makes at most two POSTs and
   * two resets, all about its endpoint, and it succeeds only after a POST.
   */
  lemma PostJsonCounts(cred: Credentials, env: Env, w: World, endpoint: string, body: string)
    ensures var s := PostJson(cred, env, w, endpoint, body);
      var evs := s.world.events[|w.events|..];
      && |evs| >= 1 && evs[0] == Send(endpoint)
      && AddressedTo(evs, {endpoint})
      && Count(evs, Sends) == 1 && Count(evs, Backoffs) == 0
      && Count(evs, Posts) <= 2 && Count(evs, Resets) <= 2
      && (Count(evs, Posts) == 0 ==> s.result == Some(EndpointLost(endpoint)))
  {
    var w2 := w.(events := w.events + [Send(endpoint)], ticks := w.ticks + 1);
    var held := Refresh(cred, env, w2, endpoint, env.clock(w.ticks));
    var s := PostJson(cred, env, w, endpoint, body);
    PostJsonStages(cred, env, w, endpoint, body);
    RefreshRecord(cred, env, w2, endpoint, env.clock(w.ticks));
    var mid := held.world.events[|w2.events|..];
    var tail := s.world.events[|held.world.events|..];
    if held.result.Some? {
      DeliverCounts(cred, env, held.world, endpoint, body, held.result.value);
    } else {
      assert tail == [];
    }
    SendCounts(endpoint, mid, tail);
  }

  /** The counts of a send made of its own event, a refresh `mid` and a delivery `tail`. */
  lemma SendCounts(endpoint: string, mid: seq<Event>, tail: seq<Event>)
    requires AddressedTo(mid, {endpoint}) && AddressedTo(tail, {endpoint})
    requires Count(mid, Sends) == 0 && Count(mid, Backoffs) == 0 && Count(mid, Posts) == 0 && Count(mid, Resets) <= 1
    requires Count(tail, Sends) == 0 && Count(tail, Backoffs) == 0 && Count(tail, Posts) <= 2 && Count(tail, Resets) <= 1
    ensures var evs := [Send(endpoint)] + mid + tail;
      && evs[0] == Send(endpoint) && AddressedTo(evs, {endpoint})
      && Count(evs, Sends) == 1 && Count(evs, Backoffs) == 0
      && Count(evs, Posts) == Count(tail, Posts) && Count(evs, Resets) <= 2
  {
    var send := [Send(endpoint)];
    AddressedToAppend(send, mid, {endpoint});
    AddressedToAppend(send + mid, tail, {endpoint});
    forall k: Kind ensures Count(send + mid + tail, k) == Count(send, k) + Count(mid, k) + Count(tail, k) {
      CountAppend(send, mid, k);
      CountAppend(send + mid, tail, k);
    }
    CountSingle(Send(endpoint), Sends); CountSingle(Send(endpoint), Backoffs);
    CountSingle(Send(endpoint), Posts); CountSingle(Send(endpoint), Resets);
  }

  /**
   * The staleness decision before a POST, with `now` the clock reading taken at the start
   * of the send. A present session that is not stale is used as it is: the POST follows
   * the send directly. Otherwise the session is reset first (after its login exchange,
   * if any): a failed reset ends the send with EndpointLost and no POST; a successful
   * one is followed by a POST with the new session.
   */
  lemma PostJsonRefresh(cred: Credentials, env: Env, w: World, endpoint: string, body: string)
    ensures var s := PostJson(cred, env, w, endpoint, body);
      var evs := s.world.events[|w.events|..];
      var now := env.clock(w.ticks);
      && (endpoint in w.sessions && !IsStale(w.sessions[endpoint], now) ==>
            |evs| >= 2 && evs[1] == Post(endpoint, body, w.sessions[endpoint]))
      && (!(endpoint in w.sessions && !IsStale(w.sessions[endpoint], now)) ==>
            && |evs| >= 2
            && var j := if evs[1].Login? then 2 else 1;
            && j < |evs| && evs[j].Reset? && evs[j].endpoint == endpoint
            && (evs[j].outcome.None? ==> s.result == Some(EndpointLost(endpoint)) && |evs| == j + 1)
            && (evs[j].outcome.Some? ==> j + 1 < |evs| && evs[j + 1] == Post(endpoint, body, evs[j].outcome.value)))
  {
    if endpoint in w.sessions && !IsStale(w.sessions[endpoint], env.clock(w.ticks)) {
      PostJsonReuses(cred, env, w, endpoint, body);
    } else {
      PostJsonResets(cred, env, w, endpoint, body);
    }
  }

  lemma PostJsonReuses(cred: Credentials, env: Env, w: World, endpoint: string, body: string)
    requires endpoint in w.sessions && !IsStale(w.sessions[endpoint], env.clock(w.ticks))
    ensures var evs := PostJson(cred, env, w, endpoint, body).world.events[|w.events|..];
      |evs| >= 2 && evs[1] == Post(endpoint, body, w.sessions[endpoint])
  {
    var w2 := w.(events := w.events + [Send(endpoint)], ticks := w.ticks + 1);
    var held := Refresh(cred, env, w2, endpoint, env.clock(w.ticks));
    var s := PostJson(cred, env, w, endpoint, body);
    PostJsonStages(cred, env, w, endpoint, body);
    RefreshRecord(cred, env, w2, endpoint, env.clock(w.ticks));
    DeliverCounts(cred, env, held.world, endpoint, body, held.result.value);
    var tail := s.world.events[|held.world.events|..];
    assert held.world.events[|w2.events|..] == [];
    assert s.world.events[|w.events|..] == [Send(endpoint)] + tail;
  }

  lemma PostJsonResets(cred: Credentials, env: Env, w: World, endpoint: string, body: string)
    requires !(endpoint in w.sessions && !IsStale(w.sessions[endpoint], env.clock(w.ticks)))
    ensures var s := PostJson(cred, env, w, endpoint, body);
      var evs := s.world.events[|w.events|..];
      && |evs| >= 2
      && var j := if evs[1].Login? then 2 else 1;
      && j < |evs| && evs[j].Reset? && evs[j].endpoint == endpoint
      && (evs[j].outcome.None? ==> s.result == Some(EndpointLost(endpoint)) && |evs| == j + 1)
      && (evs[j].outcome.Some? ==> j + 1 < |evs| && evs[j + 1] == Post(endpoint, body, evs[j].outcome.value))
  {
    var w2 := w.(events := w.events + [Send(endpoint)], ticks := w.ticks + 1);
    var held := Refresh(cred, env, w2, endpoint, env.clock(w.ticks));
    var s := PostJson(cred, env, w, endpoint, body);
    PostJsonStages(cred, env, w, endpoint, body);
    RefreshRecord(cred, env, w2, endpoint, env.clock(w.ticks));
    var mid := held.world.events[|w2.events|..];
    var tail := s.world.events[|held.world.events|..];
    if held.result.None? {
      assert tail == [];
    } else {
      DeliverCounts(cred, env, held.world, endpoint, body, held.result.value);
    }
    ResetShape(endpoint, mid, tail, held.result);
  }

  /** Where the reset and the POST after it sit in a send that had to reset its session. */
  lemma ResetShape(endpoint: string, mid: seq<Event>, tail: seq<Event>, outcome: Option<Session>)
    requires 1 <= |mid| <= 2 && mid[|mid| - 1] == Reset(endpoint, outcome) && (|mid| == 2 ==> mid[0].Login?)
    requires outcome.None? ==> tail == []
    requires outcome.Some? ==> |tail| >= 1 && tail[0].Post? && tail[0].session == outcome.value
    ensures var evs := [Send(endpoint)] + mid + tail;
      && |evs| >= 2
      && var j := if evs[1].Login? then 2 else 1;
      && j < |evs| && evs[j] == Reset(endpoint, outcome)
      && (outcome.None? ==> |evs| == j + 1)
      && (outcome.Some? ==> j + 1 < |evs| && evs[j + 1] == tail[0])
  {
    var evs := [Send(endpoint)] + mid + tail;
    assert evs[1] == mid[0];
    assert evs[|mid|] == mid[|mid| - 1];
    if outcome.Some? {
      assert evs[|mid| + 1] == tail[0];
    }
  }

  /**
   * No POST is ever made with a stale session: every session a send POSTs with is fresh
   * at the clock reading taken when the send began (given a clock that does not run
   * backwards).
   */
  lemma PostJsonNeverStale(cred: Credentials, env: Env, w: World, endpoint: string, body: string)
    requires MonotoneClock(env)
    ensures PostsFresh(PostJson(cred, env, w, endpoint, body).world.events[|w.events|..], env.clock(w.ticks))
  {
    var now := env.clock(w.ticks);
    var w2 := w.(events := w.events + [Send(endpoint)], ticks := w.ticks + 1);
    var held := Refresh(cred, env, w2, endpoint, now);
    var s := PostJson(cred, env, w, endpoint, body);
    PostJsonStages(cred, env, w, endpoint, body);
    RefreshRecord(cred, env, w2, endpoint, now);
    var mid := held.world.events[|w2.events|..];
    var tail := s.world.events[|held.world.events|..];
    CountZero(mid, Posts);
    if held.result.Some? {
      RefreshedDeliverFresh(cred, env, w2, endpoint, body, now);
    } else {
      assert tail == [];
    }
    PostsFreshAround(endpoint, mid, tail, now);
  }

  /** A session the refresh hands over is fresh at `now`, and so is every POST delivering with it. */
  lemma RefreshedDeliverFresh(cred: Credentials, env: Env, w: World, endpoint: string, body: string, now: int)
    requires MonotoneClock(env) && now <= env.clock(w.ticks)
    requires Refresh(cred, env, w, endpoint, now).result.Some?
    ensures var held := Refresh(cred, env, w, endpoint, now);
      PostsFresh(Deliver(cred, env, held.world, endpoint, body, held.result.value).world.events[|held.world.events|..], now)
  {
    var held := Refresh(cred, env, w, endpoint, now);
    RefreshRecord(cred, env, w, endpoint, now);
    assert !IsStale(held.result.value, now);
    assert w.ticks <= held.world.ticks;
    assert now <= env.clock(held.world.ticks);
    DeliverFresh(cred, env, held.world, endpoint, body, held.result.value, now);
  }

  /** A send's record is fresh when what the refresh and the delivery recorded is. */
  lemma PostsFreshAround(endpoint: string, mid: seq<Event>, tail: seq<Event>, now: int)
    requires PostsFresh(mid, now) && PostsFresh(tail, now)
    ensures PostsFresh([Send(endpoint)] + mid + tail, now)
  {
    PostsFreshAppend([Send(endpoint)], mid, now);
    PostsFreshAppend([Send(endpoint)] + mid, tail, now);
  }

  /** What postJsonToPipelineWithRetry does with the outcome of a send. */
  datatype RetryOutcome =
    | Delivered             // returned null: the request succeeded
    | FailedOver(cause: Failure)  // returned the exception, having removed the endpoint from the candidates
    | Raised(cause: Failure)      // threw: the backoff retry to the last candidate failed

  datatype RetryStep = RetryStep(outcome: RetryOutcome, candidates: seq<string>, world: World)

  /**
   * postJsonToPipelineWithRetry: on failure with other candidates left, drop the endpoint
   * from the request's copy; with none left, sleep and send once more, letting that
   * retry's exception propagate.
   */
  function PostWithRetry(cred: Credentials, env: Env, w: World, endpoint: string, body: string, candidates: seq<string>): (s: RetryStep)
    ensures Evolves(w, s.world)
    ensures s.world.sessions - {endpoint} == w.sessions - {endpoint}
    ensures s.outcome.FailedOver? ==> |candidates| > 1 && s.candidates == RemoveFirst(candidates, endpoint)
    ensures !s.outcome.FailedOver? ==> s.candidates == candidates
  {
    var first := PostJson(cred, env, w, endpoint, body);
    if first.result.None? then RetryStep(Delivered, candidates, first.world)
    else if |candidates| > 1 then RetryStep(FailedOver(first.result.value), RemoveFirst(candidates, endpoint), first.world)
    else
      var w1 := first.world.(events := first.world.events + [Backoff(endpoint)]);
      EvolvesByRecord(first.world, Backoff(endpoint));
      EvolvesTrans(w, first.world, w1);
      var second := PostJson(cred, env, w1, endpoint, body);
      EvolvesTrans(w, w1, second.world);
      RetryStep(if second.result.None? then Delivered else Raised(second.result.value), candidates, second.world)
  }

  /**
   * What one call of postJsonToPipelineWithRetry records. A failover is decided on the
   * first send alone and leaves the world exactly as that send left it: it changes only
   * the request's candidate list. The backoff retry happens exactly when the first send
   * failed with at most one candidate left, and then exactly once: two sends with the
   * backoff between them, and the retry alone decides: it is delivered iff the retry
   * succeeds, and otherwise raises the retry's own failure. Everything recorded concerns
   * the one endpoint.
   */
  lemma PostWithRetryRecord(cred: Credentials, env: Env, w: World, endpoint: string, body: string, candidates: seq<string>)
    ensures var s := PostWithRetry(cred, env, w, endpoint, body, candidates);
      var first := PostJson(cred, env, w, endpoint, body);
      var evs := s.world.events[|w.events|..];
      && |evs| >= 1 && evs[0] == Send(endpoint)
      && AddressedTo(evs, {endpoint})
      && (Count(evs, Backoffs) == 1 <==> first.result.Some? && |candidates| <= 1)
      && (Count(evs, Backoffs) == 0 <==> !(first.result.Some? && |candidates| <= 1))
      && Count(evs, Sends) == 1 + Count(evs, Backoffs)
      && (first.result.None? ==> s.outcome == Delivered && s.world == first.world)
      && (s.outcome.FailedOver? <==> first.result.Some? && |candidates| > 1)
      && (s.outcome.FailedOver? ==> s.outcome.cause == first.result.value && s.world == first.world)
      && (s.outcome.Raised? ==> Count(evs, Backoffs) == 1)
      && (first.result.Some? && |candidates| <= 1 ==>
            var second := PostJson(cred, env, first.world.(events := first.world.events + [Backoff(endpoint)]), endpoint, body);
            && s.world == second.world
            && s.outcome == (if second.result.None? then Delivered else Raised(second.result.value)))
  {
    var first := PostJson(cred, env, w, endpoint, body);
    PostJsonCounts(cred, env, w, endpoint, body);
    if first.result.Some? && |candidates| <= 1 {
      PostWithRetryBackoff(cred, env, w, endpoint, body, candidates);
    }
  }

  lemma PostWithRetryBackoff(cred: Credentials, env: Env, w: World, endpoint: string, body: string, candidates: seq<string>)
    requires PostJson(cred, env, w, endpoint, body).result.Some? && |candidates| <= 1
    ensures var s := PostWithRetry(cred, env, w, endpoint, body, candidates);
      var evs := s.world.events[|w.events|..];
      && |evs| >= 1 && evs[0] == Send(endpoint)
      && AddressedTo(evs, {endpoint}) && Count(evs, Backoffs) == 1 && Count(evs, Sends) == 2
  {
    var first := PostJson(cred, env, w, endpoint, body);
    var w1 := first.world.(events := first.world.events + [Backoff(endpoint)]);
    var second := PostJson(cred, env, w1, endpoint, body);
    var s := PostWithRetry(cred, env, w, endpoint, body, candidates);
    assert s.world == second.world;
    PostJsonCounts(cred, env, w, endpoint, body);
    PostJsonCounts(cred, env, w1, endpoint, body);
    RecordAround(w.events, first.world.events, Backoff(endpoint), second.world.events);
    assert s.world.events[|w.events|..][0] == first.world.events[|w.events|..][0];
    RetryCounts(endpoint, first.world.events[|w.events|..], second.world.events[|w1.events|..]);
  }

  /** The counting summary of one call of postJsonToPipelineWithRetry. */
  lemma PostWithRetryBound(cred: Credentials, env: Env, w: World, endpoint: string, body: string, candidates: seq<string>)
    ensures var s := PostWithRetry(cred, env, w, endpoint, body, candidates);
      var evs := s.world.events[|w.events|..];
      && |evs| >= 1 && evs[0] == Send(endpoint)
      && AddressedTo(evs, {endpoint})
      && Count(evs, Backoffs) <= 1 && Count(evs, Sends) == 1 + Count(evs, Backoffs)
      && (s.outcome.FailedOver? ==> Count(evs, Backoffs) == 0)
      && (s.outcome.Raised? ==> |candidates| <= 1)
  {
    PostWithRetryRecord(cred, env, w, endpoint, body, candidates);
  }

  /** The counts of two sends to one endpoint with the backoff between them. */
  lemma RetryCounts(endpoint: string, a: seq<Event>, b: seq<Event>)
    requires AddressedTo(a, {endpoint}) && AddressedTo(b, {endpoint})
    requires Count(a, Sends) == 1 && Count(a, Backoffs) == 0 && Count(b, Sends) == 1 && Count(b, Backoffs) == 0
    ensures var evs := a + [Backoff(endpoint)] + b;
      AddressedTo(evs, {endpoint}) && Count(evs, Backoffs) == 1 && Count(evs, Sends) == 2
  {
    var mid := [Backoff(endpoint)];
    AddressedToAppend(a, mid, {endpoint});
    AddressedToAppend(a + mid, b, {endpoint});
    CountAppend(a, mid, Sends); CountAppend(a + mid, b, Sends);
    CountAppend(a, mid, Backoffs); CountAppend(a + mid, b, Backoffs);
    CountSingle(Backoff(endpoint), Sends); CountSingle(Backoff(endpoint), Backoffs);
  }

  /**
   * The multi-endpoint loop of postBatchToPipeline. Its guard `!mutable.isEmpty()`, the
   * null check on the picked endpoint and the rethrow after the loop never fire: the
   * candidate list only shrinks while it has more than one element, which is what the
   * precondition of the recursive call checks.
   */
  function FailoverLoop(cred: Credentials, env: Env, w: World, body: string, candidates: seq<string>): (s: Step<Option<Failure>>)
    requires candidates != []
    ensures Evolves(w, s.world)
    decreases |candidates|
  {
    var pick := Pick(env, w, candidates);
    var endpoint := pick.result.value;
    var attempt := PostWithRetry(cred, env, pick.world, endpoint, body, candidates);
    assert Evolves(w, pick.world) by { assert pick.world.events == w.events; }
    EvolvesTrans(w, pick.world, attempt.world);
    match attempt.outcome
    case Delivered => Step(None, attempt.world)
    case Raised(cause) => Step(Some(cause), attempt.world)
    case FailedOver(_) =>
      var rest := FailoverLoop(cred, env, attempt.world, body, attempt.candidates);
      EvolvesTrans(w, attempt.world, rest.world);
      rest
  }

  /**
   * The failover loop ends within |candidates| iterations (each failover shortens the
   * list, which never becomes empty), so it makes at most |candidates| top-level sends
   * plus the one backoff retry, and it only ever sends to its candidates.
   */
  lemma {:induction false} FailoverLoopBound(cred: Credentials, env: Env, w: World, body: string, candidates: seq<string>)
    requires candidates != []
    ensures var s := FailoverLoop(cred, env, w, body, candidates);
      var evs := s.world.events[|w.events|..];
      && AddressedTo(evs, set x | x in candidates)
      && Count(evs, Backoffs) <= 1
      && Count(evs, Sends) <= |candidates| + Count(evs, Backoffs)
    decreases |candidates|, 1
  {
    var pick := Pick(env, w, candidates);
    if PostWithRetry(cred, env, pick.world, pick.result.value, body, candidates).outcome.FailedOver? {
      FailoverLoopBoundAfterFailover(cred, env, w, body, candidates);
    } else {
      PostWithRetryBound(cred, env, pick.world, pick.result.value, body, candidates);
      FailoverLoopStops(cred, env, w, body, candidates);
    }
  }

  lemma {:induction false} FailoverLoopBoundAfterFailover(cred: Credentials, env: Env, w: World, body: string, candidates: seq<string>)
    requires candidates != []
    requires PostWithRetry(cred, env, Pick(env, w, candidates).world, Pick(env, w, candidates).result.value, body, candidates).outcome.FailedOver?
    ensures var s := FailoverLoop(cred, env, w, body, candidates);
      var evs := s.world.events[|w.events|..];
      && AddressedTo(evs, set x | x in candidates)
      && Count(evs, Backoffs) <= 1
      && Count(evs, Sends) <= |candidates| + Count(evs, Backoffs)
    decreases |candidates|, 0
  {
    var pick := Pick(env, w, candidates);
    var endpoint := pick.result.value;
    var attempt := PostWithRetry(cred, env, pick.world, endpoint, body, candidates);
    var s := FailoverLoop(cred, env, w, body, candidates);
    var targets := set x | x in candidates;
    PostWithRetryBound(cred, env, pick.world, endpoint, body, candidates);
    var here := attempt.world.events[|w.events|..];
    FailoverLoopContinues(cred, env, w, body, candidates);
    FailoverLoopBound(cred, env, attempt.world, body, attempt.candidates);
    var later := s.world.events[|attempt.world.events|..];
    assert pick.world.events == w.events;
    RemoveFirstWithin(candidates, endpoint);
    RecordConcat(w.events, attempt.world.events, s.world.events);
    FailoverCounts(here, later, targets, set x | x in attempt.candidates, |candidates|);
  }

  /** The first attempt of the loop ends it unless it failed over. */
  lemma FailoverLoopStops(cred: Credentials, env: Env, w: World, body: string, candidates: seq<string>)
    requires candidates != []
    ensures var pick := Pick(env, w, candidates);
      var attempt := PostWithRetry(cred, env, pick.world, pick.result.value, body, candidates);
      !attempt.outcome.FailedOver? ==>
        FailoverLoop(cred, env, w, body, candidates)
          == Step(if attempt.outcome.Delivered? then None else Some(attempt.outcome.cause), attempt.world)
  {
  }

  /** After a failover the loop goes on with the shortened list, which is not empty. */
  lemma FailoverLoopContinues(cred: Credentials, env: Env, w: World, body: string, candidates: seq<string>)
    requires candidates != []
    ensures var pick := Pick(env, w, candidates);
      var attempt := PostWithRetry(cred, env, pick.world, pick.result.value, body, candidates);
      attempt.outcome.FailedOver? ==>
        && attempt.candidates != [] && |attempt.candidates| == |candidates| - 1
        && Evolves(w, attempt.world)
        && FailoverLoop(cred, env, w, body, candidates) == FailoverLoop(cred, env, attempt.world, body, attempt.candidates)
        && Evolves(attempt.world, FailoverLoop(cred, env, w, body, candidates).world)
  {
    var pick := Pick(env, w, candidates);
    assert Evolves(w, pick.world) by { assert pick.world.events == w.events; }
  }

  /** The list a failover leaves holds only candidates of the list it started from. */
  lemma RemoveFirstWithin(candidates: seq<string>, x: string)
    ensures (set y | y in RemoveFirst(candidates, x)) <= (set y | y in candidates)
  {
    forall y | y in RemoveFirst(candidates, x) ensures y in candidates {
      assert y in multiset(RemoveFirst(candidates, x));
    }
  }

  /** One failed-over attempt followed by the rest of the loop, counted. */
  lemma FailoverCounts(here: seq<Event>, later: seq<Event>, targets: set<string>, rest: set<string>, n: nat)
    requires rest <= targets && AddressedTo(here, targets) && AddressedTo(later, rest)
    requires Count(here, Sends) == 1 && Count(here, Backoffs) == 0
    requires Count(later, Backoffs) <= 1 && Count(later, Sends) <= n - 1 + Count(later, Backoffs)
    ensures AddressedTo(here + later, targets)
    ensures Count(here + later, Backoffs) <= 1 && Count(here + later, Sends) <= n + Count(here + later, Backoffs)
  {
    AddressedToAppend(here, later, targets);
    CountAppend(here, later, Sends);
    CountAppend(here, later, Backoffs);
  }

  /**
   * The loop gives up only after every candidate has been sent to: a failure is never
   * reported while some candidate is still untried.
   */
  lemma {:induction false} FailoverTriesAll(cred: Credentials, env: Env, w: World, body: string, candidates: seq<string>)
    requires candidates != []
    ensures var s := FailoverLoop(cred, env, w, body, candidates);
      s.result.Some? ==> forall x :: x in candidates ==> Send(x) in s.world.events[|w.events|..]
    decreases |candidates|, 1
  {
    var pick := Pick(env, w, candidates);
    if PostWithRetry(cred, env, pick.world, pick.result.value, body, candidates).outcome.FailedOver? {
      FailoverTriesAllAfterFailover(cred, env, w, body, candidates);
    } else {
      FailoverTriesAllAtStop(cred, env, w, body, candidates);
    }
  }

  lemma FailoverTriesAllAtStop(cred: Credentials, env: Env, w: World, body: string, candidates: seq<string>)
    requires candidates != []
    requires !PostWithRetry(cred, env, Pick(env, w, candidates).world, Pick(env, w, candidates).result.value, body, candidates).outcome.FailedOver?
    ensures var s := FailoverLoop(cred, env, w, body, candidates);
      s.result.Some? ==> forall x :: x in candidates ==> Send(x) in s.world.events[|w.events|..]
  {
    var pick := Pick(env, w, candidates);
    var attempt := PostWithRetry(cred, env, pick.world, pick.result.value, body, candidates);
    PostWithRetryBound(cred, env, pick.world, pick.result.value, body, candidates);
    FailoverLoopStops(cred, env, w, body, candidates);
    var evs := attempt.world.events[|w.events|..];
    if attempt.outcome.Raised? {
      assert candidates == [pick.result.value];
      assert Send(pick.result.value) == evs[0];
    }
  }

  lemma {:induction false} FailoverTriesAllAfterFailover(cred: Credentials, env: Env, w: World, body: string, candidates: seq<string>)
    requires candidates != []
    requires PostWithRetry(cred, env, Pick(env, w, candidates).world, Pick(env, w, candidates).result.value, body, candidates).outcome.FailedOver?
    ensures var s := FailoverLoop(cred, env, w, body, candidates);
      s.result.Some? ==> forall x :: x in candidates ==> Send(x) in s.world.events[|w.events|..]
    decreases |candidates|, 0
  {
    var pick := Pick(env, w, candidates);
    var endpoint := pick.result.value;
    var attempt := PostWithRetry(cred, env, pick.world, endpoint, body, candidates);
    var s := FailoverLoop(cred, env, w, body, candidates);
    PostWithRetryBound(cred, env, pick.world, endpoint, body, candidates);
    FailoverLoopContinues(cred, env, w, body, candidates);
    FailoverTriesAll(cred, env, attempt.world, body, attempt.candidates);
    var here := attempt.world.events[|w.events|..];
    var later := s.world.events[|attempt.world.events|..];
    RecordConcat(w.events, attempt.world.events, s.world.events);
    if s.result.Some? {
      forall x | x in candidates ensures Send(x) in here + later {
        if x == endpoint {
          assert (here + later)[0] == Send(x);
        } else {
          assert x in multiset(candidates);
          assert x in multiset(attempt.candidates);
          assert Send(x) in later;
        }
      }
    }
  }

  /**
   * postBatchToPipeline given the snapshot of the store's keys: fail at once on an empty
   * snapshot, loop over several candidates, or send with a backoff retry to a single one.
   */
  function PostBatch(cred: Credentials, env: Env, w: World, body: string, snapshot: seq<string>): (s: Step<Option<Failure>>)
    ensures Evolves(w, s.world)
    ensures snapshot == [] <==> s.result == Some(NoEndpoints) && s.world == w
  {
    if snapshot == [] then Step(Some(NoEndpoints), w)
    else if |snapshot| > 1 then FailoverLoop(cred, env, w, body, snapshot)
    else
      var pick := Pick(env, w, snapshot);
      var attempt := PostWithRetry(cred, env, pick.world, pick.result.value, body, snapshot);
      Step(if attempt.outcome.Delivered? then None else Some(attempt.outcome.cause), attempt.world)
  }

  /**
   * A batch over N snapshot endpoints makes at most N + 1 top-level sends, backs off at
   * most once, and concerns only the snapshot's endpoints; an empty snapshot sends nothing.
   */
  lemma PostBatchSends(cred: Credentials, env: Env, w: World, body: string, snapshot: seq<string>)
    ensures var s := PostBatch(cred, env, w, body, snapshot);
      var evs := s.world.events[|w.events|..];
      && AddressedTo(evs, set x | x in snapshot)
      && Count(evs, Backoffs) <= 1
      && Count(evs, Sends) <= |snapshot| + 1
      && (snapshot == [] ==> evs == [])
  {
    if snapshot == [] {
      assert w.events[|w.events|..] == [];
    } else if |snapshot| > 1 {
      FailoverLoopBound(cred, env, w, body, snapshot);
    } else {
      PostWithRetryBound(cred, env, w, snapshot[0], body, snapshot);
    }
  }

  /**
   * Failover never edits the store: across a whole batch, every endpoint outside the
   * snapshot keeps its entry, no endpoint outside it is added, and an endpoint leaves the
   * store only through a failed reset of it.
   */
  lemma PostBatchStore(cred: Credentials, env: Env, w: World, body: string, snapshot: seq<string>)
    ensures var s := PostBatch(cred, env, w, body, snapshot);
      var evs := s.world.events[|w.events|..];
      var targets := set x | x in snapshot;
      && s.world.sessions - targets == w.sessions - targets
      && s.world.sessions.Keys <= w.sessions.Keys + targets
      && (forall k :: k in w.sessions && k !in s.world.sessions ==> Reset(k, None) in evs)
      && (forall k :: k in s.world.sessions && (k !in w.sessions || s.world.sessions[k] != w.sessions[k]) ==>
            Reset(k, Some(s.world.sessions[k])) in evs)
  {
    var s := PostBatch(cred, env, w, body, snapshot);
    var evs := s.world.events[|w.events|..];
    PostBatchSends(cred, env, w, body, snapshot);
    ResetsWithin(w.sessions, evs, set x | x in snapshot);
    forall k {
      StoreChangesOnlyByReset(w.sessions, evs, k);
    }
  }

  /**
   * When the snapshot is the store's key set, as postBatchToPipeline takes it, a batch
   * can renew or drop stored sessions but never adds an endpoint.
   */
  lemma PostBatchNeverAdds(cred: Credentials, env: Env, w: World, body: string, snapshot: seq<string>)
    requires forall x :: x in snapshot <==> x in w.sessions
    ensures PostBatch(cred, env, w, body, snapshot).world.sessions.Keys <= w.sessions.Keys
  {
    PostBatchStore(cred, env, w, body, snapshot);
  }

  // ---------------------------------------------------------------------------
  // Success whenever some endpoint works

  /**
   * An endpoint that accepts every batch POST (200 or 204) and, when a realm is
   * configured, has a session resource that accepts every login.
   */
  ghost predicate Healthy(cred: Credentials, env: Env, endpoint: string) {
    && (forall k :: env.reply(k, endpoint).Status? && IngestAccepted(env.reply(k, endpoint).code))
    && (cred.realm.Some? ==>
          && SessionApiUrl(endpoint, cred.realm.value).Some?
          && forall k :: var login := env.reply(k, SessionApiUrl(endpoint, cred.realm.value).value);
               login.Status? && LoginAccepted(login.code))
  }

  /** A send to a healthy endpoint succeeds, whatever state its session is in. */
  lemma HealthySendSucceeds(cred: Credentials, env: Env, w: World, endpoint: string, body: string)
    requires Healthy(cred, env, endpoint)
    ensures PostJson(cred, env, w, endpoint, body).result.None?
  {
    var w2 := w.(events := w.events + [Send(endpoint)], ticks := w.ticks + 1);
    var held := Refresh(cred, env, w2, endpoint, env.clock(w.ticks));
    PostJsonStages(cred, env, w, endpoint, body);
    assert held.result.Some? by {
      if !(endpoint in w2.sessions && !IsStale(w2.sessions[endpoint], env.clock(w.ticks))) {
        assert EstablishSession(cred, env, w2, endpoint).result.Ok?;
      }
    }
    DeliverFinal(cred, env, held.world, endpoint, body, held.result.value);
  }

  /**
   * Whichever endpoints the random draws pick first, the failover loop succeeds as long
   * as one of its candidates is healthy: a failed endpoint is dropped, and the healthy
   * one is never dropped.
   */
  lemma {:induction false} FailoverReachesHealthy(cred: Credentials, env: Env, w: World, body: string, candidates: seq<string>, good: string)
    requires good in candidates && Healthy(cred, env, good)
    ensures FailoverLoop(cred, env, w, body, candidates).result.None?
    decreases |candidates|, 1
  {
    var pick := Pick(env, w, candidates);
    if PostWithRetry(cred, env, pick.world, pick.result.value, body, candidates).outcome.FailedOver? {
      FailoverReachesHealthyAfterFailover(cred, env, w, body, candidates, good);
    } else {
      FailoverReachesHealthyAtStop(cred, env, w, body, candidates, good);
    }
  }

  lemma FailoverReachesHealthyAtStop(cred: Credentials, env: Env, w: World, body: string, candidates: seq<string>, good: string)
    requires good in candidates && Healthy(cred, env, good)
    requires !PostWithRetry(cred, env, Pick(env, w, candidates).world, Pick(env, w, candidates).result.value, body, candidates).outcome.FailedOver?
    ensures FailoverLoop(cred, env, w, body, candidates).result.None?
  {
    var pick := Pick(env, w, candidates);
    var endpoint := pick.result.value;
    PostWithRetryRecord(cred, env, pick.world, endpoint, body, candidates);
    PostWithRetryBound(cred, env, pick.world, endpoint, body, candidates);
    FailoverLoopStops(cred, env, w, body, candidates);
    if endpoint == good {
      HealthySendSucceeds(cred, env, pick.world, endpoint, body);
    } else {
      TwoDistinct(candidates, endpoint, good);
    }
  }

  lemma {:induction false} FailoverReachesHealthyAfterFailover(cred: Credentials, env: Env, w: World, body: string, candidates: seq<string>, good: string)
    requires good in candidates && Healthy(cred, env, good)
    requires PostWithRetry(cred, env, Pick(env, w, candidates).world, Pick(env, w, candidates).result.value, body, candidates).outcome.FailedOver?
    ensures FailoverLoop(cred, env, w, body, candidates).result.None?
    decreases |candidates|, 0
  {
    var pick := Pick(env, w, candidates);
    var endpoint := pick.result.value;
    var attempt := PostWithRetry(cred, env, pick.world, endpoint, body, candidates);
    PostWithRetryRecord(cred, env, pick.world, endpoint, body, candidates);
    HealthySendSucceeds(cred, env, pick.world, good, body);
    assert endpoint != good;
    assert good in attempt.candidates by {
      assert good in multiset(candidates);
      assert good in multiset(attempt.candidates);
    }
    FailoverLoopContinues(cred, env, w, body, candidates);
    FailoverReachesHealthy(cred, env, attempt.world, body, attempt.candidates, good);
  }

  /** Two different elements make a list of at least two. */
  lemma TwoDistinct(list: seq<string>, x: string, y: string)
    requires x in list && y in list && x != y
    ensures |list| >= 2
  {
    var i :| 0 <= i < |list| && list[i] == x;
    var j :| 0 <= j < |list| && list[j] == y;
    assert i != j;
  }

  /**
   * A batch whose snapshot holds a healthy endpoint is delivered, whatever the other
   * endpoints answer and whichever order the random draws try them in.
   */
  lemma PostBatchReachesHealthy(cred: Credentials, env: Env, w: World, body: string, snapshot: seq<string>, good: string)
    requires good in snapshot && Healthy(cred, env, good)
    ensures PostBatch(cred, env, w, body, snapshot).result.None?
  {
    if |snapshot| > 1 {
      FailoverReachesHealthy(cred, env, w, body, snapshot, good);
    } else {
      assert snapshot == [good];
      PostBatchSingle(cred, env, w, body, good);
      PostWithRetryRecord(cred, env, w, good, body, [good]);
      HealthySendSucceeds(cred, env, w, good, body);
    }
  }

  lemma PostBatchSingle(cred: Credentials, env: Env, w: World, body: string, endpoint: string)
    ensures var s := PostBatch(cred, env, w, body, [endpoint]);
      s.result.None? <==> PostWithRetry(cred, env, w, endpoint, body, [endpoint]).outcome.Delivered?
  {
  }
}
