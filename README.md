# FusionPipelineClient: sessions, endpoint selection and failover

This project models the core of `FusionPipelineClient`, the Java client that POSTs
batches of documents to one or more Fusion indexing-pipeline endpoints. It covers three
parts:

- **The session store.** `sessions` maps each endpoint URL to a `FusionSession`: an HTTP
  authentication context and the `System.nanoTime()` at which it was established.
  - `establishSessions` fills the store at construction and tolerates partial failure.
  - `establishSession` logs in when a realm is configured: it POSTs the credentials to
    `<prefix before "/api">/api/session?realmName=<realm>` and accepts 200, 201 or 204.
    It then stamps the time.
  - `resetSession` re-establishes one endpoint's session. If that fails, it removes the
    endpoint from the store.
  - Before each send, a session older than 599 s (`maxNanosOfInactivity`) is reset.
- **The endpoint selector.** `getLbEndpoint` returns null for an empty list and the only
  element of a singleton. Otherwise it returns the element at `random.nextInt(size)`.
- **The retry/failover orchestrator.**
  - `postBatchToPipeline` copies the store's keys into a request-local list. It fails at
    once if the copy is empty; otherwise it loops: pick, send, and on failure drop the
    endpoint from the copy.
  - `postJsonToPipelineWithRetry` makes that drop while more than one candidate remains.
    With one candidate left, it sleeps and sends exactly once more, and an exception
    from that retry propagates.
  - `postJsonToPipeline` refreshes an absent or stale session, POSTs, and answers a 401
    with exactly one forced reset and one re-POST. Only 200 and 204 count as success.

## How the model is built

- **The environment is a set of oracles** (`SessionStore.Env`). The transport's answer to
  the exchange recorded at position `k` of the client's record, sent to `url`, is
  `reply(k, url)`. That answer is a status code or `Refused` (`httpClient.execute`
  threw). The k-th `System.nanoTime()` reading is `clock(k)`. The k-th `random.nextInt(n)`
  is `random(k) % n`.
- **A `World` bundles the client's state with what it has done.** It holds the session
  map, the counters that index the oracles, and a record of events:
  - `Login` and `Post` are physical POSTs;
  - `Reset` is a call of resetSession, with its outcome;
  - `Send` is a call of postJsonToPipeline;
  - `Backoff` is the one-second sleep.

  Counting events turns "how many sends, resets and POSTs" into provable statements.
- **Pure functions describe each operation.** The `SessionStore` and `Orchestrator`
  functions map a world to a result and a new world, and the lemmas are proved about
  them.
- **`Client.FusionPipelineClient` is the imperative form.** It is a class whose fields are
  the store and the counters. Its methods mirror the Java methods statement by statement,
  including the `for` loop of establishSessions and the `while` loop of
  postBatchToPipeline over a `Candidates` list that shrinks in place. Each method is
  proved to produce exactly the result and world of the corresponding function, so every
  lemma about the functions holds of the object.
- **Exceptions are values.** Java's exceptions are `Failure` values:
  - `ServerError(status)`: a SolrException for a rejected status;
  - `TransportFailure(url)`: the I/O exception from `execute`;
  - `MissingApiSegment(url)`: the StringIndexOutOfBoundsException from `substring(0, -1)`;
  - `EndpointLost(endpoint)`: an IllegalStateException after a failed reset;
  - `NoEndpoints`: an IllegalStateException for an empty snapshot;
  - `NoSessions(endpoints)`: the generic construction exception.

  Java's null and exception returns are `Option`/`Result` values.

## Model

| member | source | states |
|---|---|---|
| Protocol.AcceptedStatuses | src/main/java/com/lucidworks/client/FusionPipelineClient.java:158 | every ingestion success code is a login success code; 201 is accepted at login only; 401 is accepted by neither |
| Protocol.LoginAccepted | src/main/java/com/lucidworks/client/FusionPipelineClient.java:158 | the login accepts 200, 201 and 204 (compared with ingestion in AcceptedStatuses) |
| Protocol.IngestAccepted | src/main/java/com/lucidworks/client/FusionPipelineClient.java:356-361 | ingestion accepts 200 and 204 only (compared with login in AcceptedStatuses) |
| Protocol.IndexOf | src/main/java/com/lucidworks/client/FusionPipelineClient.java:148 | `indexOf`: -1 exactly when the pattern does not occur; otherwise an occurrence with none earlier |
| Protocol.SessionApiUrl | src/main/java/com/lucidworks/client/FusionPipelineClient.java:148-150 | no login URL exactly when the endpoint has no "/api"; otherwise the text before the first occurrence of "/api", then "/api/session?realmName=", then the realm |
| Protocol.SessionApiUrlOfBase | src/main/java/com/lucidworks/client/FusionPipelineClient.java:148-150 | for an endpoint `base + "/api" + path` with no "/api" in base, the login URL is `base + "/api/session?realmName=" + realm` |
| Protocol.LoginBodyRoundTrip | src/main/java/com/lucidworks/client/FusionPipelineClient.java:151 | a JSON reader of the login body recovers exactly the given user and password, for credentials that need no JSON escaping (no double quote, backslash or control character) |
| Protocol.LoginBody | src/main/java/com/lucidworks/client/FusionPipelineClient.java:151 | the credentials document, built by concatenation without escaping (what it carries is LoginBodyRoundTrip) |
| Selector.LbEndpoint | src/main/java/com/lucidworks/client/FusionPipelineClient.java:194-200 | null iff the list is empty; the only element for size 1; the element at the draw otherwise; always a list member |
| Selector.EveryCandidateSelectable | src/main/java/com/lucidworks/client/FusionPipelineClient.java:199 | every candidate is the pick for some draw in range |
| Selector.FirstIndex | src/main/java/com/lucidworks/client/FusionPipelineClient.java:278 | the position `remove(Object)` removes at: an occurrence with none before it |
| Selector.RemoveFirst | src/main/java/com/lucidworks/client/FusionPipelineClient.java:278 | `ArrayList.remove(Object)`: when present, the first occurrence is removed and the elements before and after it keep their order; unchanged when absent; the multiset loses exactly one occurrence |
| Selector.RemoveFirstNoDup | src/main/java/com/lucidworks/client/FusionPipelineClient.java:278 | on a list without repetitions (a key-set copy), removal drops exactly that endpoint, keeps all others and keeps the list repetition-free |
| SessionStore.StalenessBoundary | src/main/java/com/lucidworks/client/FusionPipelineClient.java:74 | an age of exactly 599 s is still fresh (strict `>`), one nanosecond more is stale, and a session is never stale before it was stamped |
| SessionStore.IsStale | src/main/java/com/lucidworks/client/FusionPipelineClient.java:314 | a session is stale when its age at the reading strictly exceeds 599 s (its boundary is StalenessBoundary) |
| SessionStore.StoreChangesOnlyByReset | src/main/java/com/lucidworks/client/FusionPipelineClient.java:181-184 | the store loses an endpoint only through a failed reset of it, and gains or replaces a session only through a successful reset recording that session |
| SessionStore.ResetsWithin | src/main/java/com/lucidworks/client/FusionPipelineClient.java:176-188 | events that concern only some endpoints leave every other endpoint's entry as it was and add no other key |
| SessionStore.EstablishSession | src/main/java/com/lucidworks/client/FusionPipelineClient.java:140-174 | a new context each call; no realm: no exchange and success stamped with the clock; realm without "/api": failure and no exchange; otherwise exactly one login POST of the credentials body to the session URL, success iff 200/201/204, refusal and other statuses become failures; the clock is read only on success |
| SessionStore.ResetSession | src/main/java/com/lucidworks/client/FusionPipelineClient.java:176-188 | returns a session iff establishment succeeded, iff the endpoint is then stored, and then the stored session is the returned one, stamped now; every other entry is unchanged |
| SessionStore.ResetSessionRecord | src/main/java/com/lucidworks/client/FusionPipelineClient.java:176-188 | a reset records at most its login and then the reset with its outcome, one reset and no POST, send or backoff, all about that endpoint |
| SessionStore.EstablishSessionsOutcome | src/main/java/com/lucidworks/client/FusionPipelineClient.java:112-138 | the store is untouched; success means a non-empty map whose keys are given endpoints and whose sessions were all created by this call; the generic error is raised iff there were no endpoints; without a realm every endpoint gets a session |
| SessionStore.EstablishSessionsAttempts | src/main/java/com/lucidworks/client/FusionPipelineClient.java:116-131 | partial failure is tolerated: success iff some endpoint's establishSession succeeds; the map's keys are exactly the endpoints whose attempt succeeded, each holding a session one of its attempts returned; when all fail, the error is the last endpoint's |
| SessionStore.AttemptsFrom | src/main/java/com/lucidworks/client/FusionPipelineClient.java:116-124 | the outcome of each endpoint's establishSession in list order, each made in the world the previous attempt left; one outcome per endpoint |
| SessionStore.Attempts | src/main/java/com/lucidworks/client/FusionPipelineClient.java:116-124 | the per-endpoint outcomes of the whole loop, one per endpoint |
| SessionStore.EstablishSessionsFromCollect | src/main/java/com/lucidworks/client/FusionPipelineClient.java:116-131 | the loop's result depends only on the outcomes of its attempts |
| SessionStore.CollectOutcome | src/main/java/com/lucidworks/client/FusionPipelineClient.java:116-131 | the loop succeeds iff something is stored or some attempt succeeds; otherwise it raises the last attempt's error, or the generic error when there was none |
| SessionStore.CollectKeys | src/main/java/com/lucidworks/client/FusionPipelineClient.java:118 | the keys stored are exactly the endpoints whose attempt succeeded |
| SessionStore.CollectValues | src/main/java/com/lucidworks/client/FusionPipelineClient.java:118 | every stored session was returned by an attempt for that endpoint |
| SessionStore.Collect | src/main/java/com/lucidworks/client/FusionPipelineClient.java:115-131 | the loop's bookkeeping on given outcomes: put on success, remember the error on failure, then the map, the last error or the generic error (its properties are the Collect lemmas above) |
| SessionStore.EstablishSessionsFrom | src/main/java/com/lucidworks/client/FusionPipelineClient.java:116-137 | the loop from a given index with the map and last error so far (its properties are EstablishSessionsAttempts and EstablishSessionsOutcome) |
| SessionStore.EstablishSessions | src/main/java/com/lucidworks/client/FusionPipelineClient.java:112-138 | establishSessions from an empty map and no error (its properties are EstablishSessionsAttempts and EstablishSessionsOutcome) |
| SessionStore.EstablishSessionsFromErr | src/main/java/com/lucidworks/client/FusionPipelineClient.java:126-131 | the loop raises the generic error only when it saw no endpoint at all |
| Orchestrator.Pick | src/main/java/com/lucidworks/client/FusionPipelineClient.java:194-200 | getLbEndpoint with its draw: none iff no candidate, always a candidate, the only one for size 1, and a random draw is consumed iff there are at least two |
| Orchestrator.Verdict | src/main/java/com/lucidworks/client/FusionPipelineClient.java:356-363 | an ingestion reply succeeds iff its status is 200 or 204; a refused exchange is a transport failure and any other status a server error carrying it |
| Orchestrator.Exchange | src/main/java/com/lucidworks/client/FusionPipelineClient.java:328 | one POST of the batch with a session's context: records the POST and returns the transport's reply at that position (used by Deliver) |
| Orchestrator.Deliver | src/main/java/com/lucidworks/client/FusionPipelineClient.java:324-363 | the POST and the 401 handling (its properties are DeliverFinal, DeliverUnauthorized, DeliverCounts and DeliverFresh) |
| Orchestrator.DeliverFinal | src/main/java/com/lucidworks/client/FusionPipelineClient.java:326-363 | a reply other than 401 is final: exactly one POST with the session, judged by 200/204, store untouched |
| Orchestrator.DeliverUnauthorized | src/main/java/com/lucidworks/client/FusionPipelineClient.java:331-360 | a 401 costs exactly one reset and no send or backoff; a failed reset gives EndpointLost after the single POST; otherwise exactly one more POST to the same endpoint with the renewed session (stamped at the reset, no POST between), whose reply alone decides |
| Orchestrator.DeliverCounts | src/main/java/com/lucidworks/client/FusionPipelineClient.java:326-363 | a delivery makes one or two POSTs and at most one reset, all about its endpoint |
| Orchestrator.DeliverFresh | src/main/java/com/lucidworks/client/FusionPipelineClient.java:345-353 | both POSTs of a delivery use a session fresh at the send's clock reading |
| Orchestrator.PostJson | src/main/java/com/lucidworks/client/FusionPipelineClient.java:305-376 | a send changes the store only at its own endpoint, and only through recorded resets |
| Orchestrator.Refresh | src/main/java/com/lucidworks/client/FusionPipelineClient.java:310-322 | the session held after the refresh is exactly the one stored for the endpoint, and none is held exactly when the endpoint is no longer stored; nothing else in the store changes |
| Orchestrator.RefreshRecord | src/main/java/com/lucidworks/client/FusionPipelineClient.java:310-322 | a present, non-stale session is kept without any event; otherwise exactly one reset (after its login, if any) whose new session is stamped now |
| Orchestrator.PostJsonCounts | src/main/java/com/lucidworks/client/FusionPipelineClient.java:305-376 | one send: at most two POSTs and two resets, all about the endpoint; a send that ends before any POST failed with EndpointLost |
| Orchestrator.PostJsonRefresh | src/main/java/com/lucidworks/client/FusionPipelineClient.java:309-322 | a present session that is not stale is POSTed with directly; otherwise a reset comes first: if it fails the send ends with EndpointLost and no POST, else the POST uses the new session |
| Orchestrator.PostJsonNeverStale | src/main/java/com/lucidworks/client/FusionPipelineClient.java:309-353 | with a clock that does not run backwards, no POST ever carries a session that is stale at the send's clock reading |
| Orchestrator.PostWithRetry | src/main/java/com/lucidworks/client/FusionPipelineClient.java:263-297 | a failover happens only with more than one candidate and removes exactly the failed endpoint from the request's list; otherwise the list is unchanged; the store changes only at the endpoint |
| Orchestrator.PostWithRetryRecord | src/main/java/com/lucidworks/client/FusionPipelineClient.java:267-296 | success on the first send is final; a failover is decided on the first send alone and leaves the world as that send left it; the backoff happens iff the first send failed with at most one candidate, and then exactly once with exactly two sends; on that path the retry alone decides: delivered iff the retry succeeds, otherwise the retry's own failure propagates |
| Orchestrator.FailoverLoop | src/main/java/com/lucidworks/client/FusionPipelineClient.java:216-250 | the loop over the shrinking list terminates and is called only on non-empty lists, so its null-endpoint branch and post-loop rethrow are unreachable |
| Orchestrator.FailoverLoopBound | src/main/java/com/lucidworks/client/FusionPipelineClient.java:219-244 | at most one send per candidate plus the single backoff retry, and sends only to candidates |
| Orchestrator.FailoverTriesAll | src/main/java/com/lucidworks/client/FusionPipelineClient.java:219-250 | the loop reports a failure only after every candidate has been sent to |
| Orchestrator.FailoverReachesHealthy | src/main/java/com/lucidworks/client/FusionPipelineClient.java:219-244 | for any random draws, the loop succeeds when one candidate accepts every POST (and login) |
| Orchestrator.HealthySendSucceeds | src/main/java/com/lucidworks/client/FusionPipelineClient.java:305-363 | a send to an endpoint that accepts every POST (and login) succeeds whether its session is present, fresh, stale or absent |
| Orchestrator.PostBatch | src/main/java/com/lucidworks/client/FusionPipelineClient.java:202-261 | an empty snapshot fails with NoEndpoints before anything is recorded, and only then |
| Orchestrator.PostBatchSends | src/main/java/com/lucidworks/client/FusionPipelineClient.java:202-261 | a batch over N endpoints makes at most N + 1 top-level sends and at most one backoff, and concerns only the snapshot's endpoints |
| Orchestrator.PostBatchStore | src/main/java/com/lucidworks/client/FusionPipelineClient.java:207-250 | failover never edits the store: entries outside the snapshot are unchanged, no other key appears, an endpoint leaves the store only by a failed reset and gets a new session only by a successful one |
| Orchestrator.PostBatchNeverAdds | src/main/java/com/lucidworks/client/FusionPipelineClient.java:207-210 | with the snapshot being the store's key set, a batch never adds an endpoint to the store |
| Orchestrator.PostBatchReachesHealthy | src/main/java/com/lucidworks/client/FusionPipelineClient.java:202-261 | a batch whose snapshot holds an endpoint that accepts every POST (and login) is delivered, whatever the others answer and in whatever order they are picked |
| Client.Candidates.Remove | src/main/java/com/lucidworks/client/FusionPipelineClient.java:278 | the request's list loses the first occurrence of the endpoint |
| Client.FusionPipelineClient.Init | src/main/java/com/lucidworks/client/FusionPipelineClient.java:76-84 | a client starts with an empty store, an empty record and all counters at zero |
| Client.FusionPipelineClient.Create | src/main/java/com/lucidworks/client/FusionPipelineClient.java:96-104 | construction succeeds iff establishSessions does, and the new client's store is the established map; otherwise it fails with that error and no client exists |
| Client.FusionPipelineClient.NanoTime | src/main/java/com/lucidworks/client/FusionPipelineClient.java:309 | `System.nanoTime()` returns the next clock reading |
| Client.FusionPipelineClient.NextInt | src/main/java/com/lucidworks/client/FusionPipelineClient.java:199 | `random.nextInt(n)` returns the next draw reduced below n |
| Client.FusionPipelineClient.CreateContext | src/main/java/com/lucidworks/client/FusionPipelineClient.java:144 | each `HttpClientContext.create()` is a new context |
| Client.FusionPipelineClient.Execute | src/main/java/com/lucidworks/client/FusionPipelineClient.java:328 | `httpClient.execute` records the POST and returns the transport's reply to it |
| Client.FusionPipelineClient.Sleep | src/main/java/com/lucidworks/client/FusionPipelineClient.java:283-287 | the one-second sleep is recorded as a backoff |
| Client.FusionPipelineClient.EstablishSession | src/main/java/com/lucidworks/client/FusionPipelineClient.java:140-174 | produces exactly the result and world of SessionStore.EstablishSession |
| Client.FusionPipelineClient.EstablishSessions | src/main/java/com/lucidworks/client/FusionPipelineClient.java:112-138 | the for-loop produces exactly the result and world of SessionStore.EstablishSessions |
| Client.FusionPipelineClient.ResetSession | src/main/java/com/lucidworks/client/FusionPipelineClient.java:176-188 | the put/remove on the store produces exactly SessionStore.ResetSession |
| Client.FusionPipelineClient.GetLbEndpoint | src/main/java/com/lucidworks/client/FusionPipelineClient.java:194-200 | produces exactly Orchestrator.Pick |
| Client.FusionPipelineClient.PostJsonToPipeline | src/main/java/com/lucidworks/client/FusionPipelineClient.java:305-376 | the refresh, POST, 401 reset and re-POST produce exactly Orchestrator.PostJson |
| Client.FusionPipelineClient.PostJsonToPipelineWithRetry | src/main/java/com/lucidworks/client/FusionPipelineClient.java:263-297 | the outcome, the shrunk list and the world are exactly Orchestrator.PostWithRetry's |
| Client.FusionPipelineClient.KeySnapshot | src/main/java/com/lucidworks/client/FusionPipelineClient.java:208-210 | the copy of the key set lists every stored endpoint exactly once |
| Client.FusionPipelineClient.PostBatchToPipeline | src/main/java/com/lucidworks/client/FusionPipelineClient.java:202-261 | for a snapshot listing the stored endpoints once each, the while loop over the shrinking list produces exactly Orchestrator.PostBatch, so the loop exits only by returning |

## Left out

- HTTP transport is not modelled. This covers `HttpClientBuilder`, the request config,
  the cookie store, the connection limits and `PreEmptiveBasicAuthenticator`, which are
  library calls. Each physical POST is one oracle reply: a status code, or `Refused` for
  an exception thrown by `execute`.
- Jackson serialisation of the documents is not modelled. The batch is the opaque string
  `body`, serialised once and shared by every attempt.
- `extractResponseBodyText` and `raiseFusionServerException` are not modelled: they
  compose message text. A server error carries only its status code.
- `synchronized` blocks and the `AtomicInteger` request counter are not modelled. The
  model is sequential. The request id appears only in log and exception message text,
  which the model does not carry.
- `Thread.sleep(1000)` is recorded as a `Backoff` event, without timing.
- Logging is left out.
- `shouldRetry` is not modelled. It accepts only connection and socket errors, but the code
  never calls it: it fails over or backs off on any exception, and so does the model.
- The regex `split(",")` of the constructor is not modelled: endpoints arrive as a list.
- `shutdown` is not modelled: it only clears the map and closes the library client.
- `getHttpClient` is not modelled: it is an accessor with no logic.
- Java's `Exception` class hierarchy is not modelled. This covers the constructor's
  wrapping of a checked exception in a RuntimeException. Failures are values, and
  `Create` returns the establishSessions error as it is.
- `EntityUtils.consume` failures are not modelled: the model treats releasing a response
  as always succeeding. postJsonToPipeline swallows such failures. In establishSession the
  call in the `finally` block is unguarded, so the model leaves out two things. An accepted
  login whose release throws fails in the source. A rejected login whose release throws
  raises the I/O error instead of the SolrException.
- `System.nanoTime()` 64-bit wrap-around is not modelled: readings are unbounded
  integers. `PostJsonNeverStale` assumes a clock that does not run backwards.
- Java `HashMap` key order is not modelled: the snapshot is any repetition-free listing
  of the keys.
- The loop variable `lastExc` of postBatchToPipeline is not modelled. It feeds only
  logging and two unreachable throws.
- Protocol.LoginBodyRoundTrip: stated only for credentials that need no JSON escaping:
  no double quote, no backslash and no control character. The source concatenates the
  credentials into the JSON text without escaping. A quote ends the string early. A
  backslash starts an escape, so `x\` as the password swallows the closing quote. A
  control character makes the document invalid. The model's reader refuses such strings
  rather than reading them as JSON would.
- Protocol.ParseLoginBody is a reader for the exact document shape the client builds,
  not a general JSON parser.
