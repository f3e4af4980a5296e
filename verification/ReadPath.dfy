/** One read from OpenBao's response to the cache: Client.ReadSecret, classifyForbidden and
    StaleCache.Read together. */
module ReadPath {
  import opened Text
  import opened Config
  import opened Errors
  import opened JsonHeap
  import opened CacheHistory
  import opened StaleCache

  const SECOND := 1_000_000_000

  /** OpenBao's answer to one read: an error, with how the lookup-self that a 403 triggers ended,
      an answer without data, or data with its lease in seconds. */
  datatype Response = Refused(err: Err, lookup: Option<Err>) | NoPayload | Payload(data: MapCell, leaseSeconds: int)

  function LeaseOf(seconds: int): int {
    if seconds <= 0 then 0 else seconds * SECOND
  }

  /** Client.ReadSecret, and whether it signals the token lifecycle. */
  function ReadSecret(raw: bool, response: Response): (Answer, bool) {
    match response
    case Refused(err, lookup) =>
      var (classified, signalled) := ClassifyForbidden(err, lookup);
      (Failed(classified), signalled)
    case NoPayload => (Failed(if raw then NotFound else NoData), false)
    case Payload(data, leaseSeconds) => (Fetched(data, LeaseOf(leaseSeconds)), false)
  }

  /** How a missing secret and a deleted version reach ReadSecret: a response without data, or, for
      a missing KV secret, the KV client's error around NotFound. */
  predicate SaysMissing(response: Response) {
    response.NoPayload? || (response.Refused? && WrappedAround(response.err, NotFound))
  }

  /** Both are OpenBao's answer, on either backend. */
  lemma MissingIsAuthoritative(raw: bool, response: Response)
    requires SaysMissing(response)
    ensures var (a, signalled) := ReadSecret(raw, response);
            a.Failed? && Authoritative(a.err) && !signalled
  {
    ClassificationByRoot(NotFound);
    ClassificationByRoot(NoData);
    assert Chain(NotFound) == [NotFound] && Chain(NoData) == [NoData];
    if response.Refused? {
      WrappersAreTransparent(response.err, NotFound);
    }
  }

  /** Data comes with the lease OpenBao gave it, in nanoseconds, and none when OpenBao gave none. */
  lemma PayloadIsFetched(raw: bool, data: MapCell, leaseSeconds: int)
    ensures var (a, signalled) := ReadSecret(raw, Payload(data, leaseSeconds));
            && a.Fetched? && a.data == data && !signalled
            && a.lease == if leaseSeconds > 0 then leaseSeconds * 1_000_000_000 else 0
  {
  }

  /** A refused read of a secret the cache could still serve. The remembered data goes exactly
      when lookup-self found the token good, and is served exactly otherwise. */
  method FinishForbidden(cache: Cache, key: SecretRef, atGen: nat, err: Err, lookup: Option<Err>, now: int,
      ghost began: nat, ghost i: nat) returns (r: ReadResult, ghost own: set<object>)
    requires cache.Valid() && cache.InFlight(key, atGen, began)
    requires StatusOf(err) == Some(403) && !HasTokenFault(err)
    requires i < |cache.history| && ServesStale(cache.history, key, now, i)
    modifies cache
    ensures cache.Valid() && i < |cache.history|
    ensures Resident(cache.history, i) <==> lookup.Some?
    ensures key in cache.entries <==> lookup.Some?
    ensures r.Data? <==> lookup.Some?
    ensures r.Data? ==> Shows(MapRef(r.data), old(cache.history)[i].data, own)
    ensures r.Error? ==> r.err == err
  {
    ForbiddenIsTheAnswerIffTokenIsGood(err, lookup);
    ghost var h := cache.history;
    var (answer, _) := ReadSecret(key.raw, Refused(err, lookup));
    r, own := cache.FinishRead(key, atGen, answer, now, began, Scalar(""), {});
    AfterRefusedRead(h, cache.history[|h|], key, now, i);
    EntryIffResident(cache, key, i);
  }

  /** The same for an answer with any other status. The remembered data stays, and is the answer,
      exactly when the status is a server error or throttling. */
  method FinishStatus(cache: Cache, key: SecretRef, atGen: nat, err: Err, code: int, lookup: Option<Err>, now: int,
      ghost began: nat, ghost i: nat) returns (r: ReadResult, ghost own: set<object>)
    requires cache.Valid() && cache.InFlight(key, atGen, began)
    requires StatusOf(err) == Some(code) && code != 403 && !HasTokenFault(err)
    requires i < |cache.history| && ServesStale(cache.history, key, now, i)
    modifies cache
    ensures cache.Valid()
    ensures key in cache.entries <==> code >= 500 || code == 429
    ensures r.Data? <==> code >= 500 || code == 429
    ensures r.Data? ==> Shows(MapRef(r.data), old(cache.history)[i].data, own)
    ensures r.Error? ==> r.err == err
  {
    ForbiddenIsTheAnswerIffTokenIsGood(err, lookup);
    StatusClassification(err, code);
    hide Retryable, Authoritative, HasTokenFault, StatusOf, ServesStale;
    var (answer, _) := ReadSecret(key.raw, Refused(err, lookup));
    assert answer == Failed(err);
    r, own := cache.FinishRead(key, atGen, answer, now, began, Scalar(""), {});
  }

  /** An outage of a secret whose data was kept and is within its limits is answered with that data. */
  method FallbackServes(cache: Cache, key: SecretRef, atGen: nat, err: Err, now: int, ghost began: nat, ghost i: nat)
    returns (r: ReadResult, ghost own: set<object>)
    requires cache.Valid() && cache.InFlight(key, atGen, began) && !Authoritative(err)
    requires i < |cache.history| && KeepsFallback(cache.history, i) && cache.history[i].key == key
    requires WithinLimits(cache.history[i], now, cache.maxAge)
    modifies cache
    ensures cache.Valid() && key in cache.entries && cache.entries == old(cache.entries)
    ensures r.Data? && Shows(MapRef(r.data), old(cache.history)[i].data, own) && own !! cache.held
  {
    FallbackExact(cache.history, key, now, i);
    hide KeepsFallback, WithinLimits, ServesStale;
    r, own := cache.FinishRead(key, atGen, Failed(err), now, began, Scalar(""), {});
  }

  lemma AfterRefusedRead(h: History, e: Event, key: SecretRef, now: int, i: nat)
    requires i < |h| && ServesStale(h, key, now, i)
    requires (e.Refusal? && e.key == key) || (e.Outage? && e.key == key && e.now == now)
    ensures Resident(h + [e], i) <==> e.Outage?
    ensures e.Refusal? ==> forall j :: 0 <= j < |h + [e]| && (h + [e])[j].Success? && (h + [e])[j].key == key ==> !Resident(h + [e], j)
  {
    ResidentAfter(h, e, i);
    var g := h + [e];
    assert g[|h|] == e && g[..|h|] == h;
    forall j | 0 <= j < |g| && g[j].Success? && g[j].key == key && e.Refusal? ensures !Resident(g, j) {
      assert Drops(g, |h|, j);
    }
  }

  lemma EntryIffResident(cache: Cache, key: SecretRef, i: nat)
    requires cache.Valid() && i < |cache.history| && cache.history[i].Success? && cache.history[i].key == key
    ensures Resident(cache.history, i) ==> key in cache.entries
    ensures key in cache.entries ==>
              exists j :: 0 <= j < |cache.history| && cache.history[j].Success? && cache.history[j].key == key && Resident(cache.history, j)
  {
    if key in cache.entries {
      assert Resident(cache.history, cache.source[key]);
      assert Cache.HoldsEvent(cache.entries[key], cache.history[cache.source[key]], cache.held);
    }
  }

  // ----- Nothing a caller does to returned data reaches the cache -----

  /** A success the counter test lets through is what an outage right after it serves. */
  lemma StoredIsServed(h: History, s: Event, key: SecretRef, now: int)
    requires s.Success? && s.key == key && Stored(h + [s], |h|) && !PastLimit(s, now, MaxAge(h))
    ensures ServesStale(h + [s] + [Begin(key)], key, now, |h|)
  {
    var g := h + [s];
    var b := Begin(key);
    ResidentAfter(g, b, |h|);
    assert g[|h|] == s;
    assert Resident(g, |h|);
    assert !Stored(g + [b], |g|) && (g + [b])[|g|] == b;
    LastEvent(h, s);
    LastEvent(g, b);
  }

  /** A caller overwrites the data a fresh read returned. A read that OpenBao then does not
      answer is still served what the first one fetched, in objects of its own. */
  method ServeAfterTampering(cache: Cache, key: SecretRef, atGen: nat, data: MapCell, lease: int, now: int, junk: map<string, Value>,
      err: Err, later: int, ghost began: nat, ghost json: Json, ghost foot: set<object>)
    returns (first: ReadResult, r: ReadResult, ghost own: set<object>)
    requires cache.Valid() && cache.InFlight(key, atGen, began)
    requires Shows(MapRef(data), json, foot) && foot !! cache.held && cache !in foot
    requires cache.maxAge > 0 && cache.gen == atGen && !Authoritative(err)
    requires later - now <= ServableFor(lease, cache.maxAge)
    modifies cache, data
    ensures cache.Valid()
    ensures first == Data(data) && data.entries == junk
    ensures r.Data? && Shows(MapRef(r.data), json, own) && own !! cache.held && data !in own
  {
    hide *;
    ghost var h := cache.history;
    ghost var s := Success(began, key, json, lease, now);
    FreshReadIsServable(cache, key, atGen, json, lease, now, later, began);
    first := FetchThenTamper(cache, key, atGen, data, lease, now, junk, began, json, foot);
    r, own := UnansweredRead(cache, key, err, later, |h|);
    assert (h + [s])[|h|] == s;
  }

  lemma FreshReadIsServable(cache: Cache, key: SecretRef, atGen: nat, json: Json, lease: int, now: int, later: int, began: nat)
    requires cache.Valid() && cache.InFlight(key, atGen, began)
    requires cache.maxAge > 0 && cache.gen == atGen && later - now <= ServableFor(lease, cache.maxAge)
    ensures ServesStale(cache.history + [Success(began, key, json, lease, now)] + [Begin(key)], key, later, |cache.history|)
  {
    var s := Success(began, key, json, lease, now);
    StoredIsCounterTest(cache.history, s, began);
    StoredIsServed(cache.history, s, key, later);
  }

  method FetchThenTamper(cache: Cache, key: SecretRef, atGen: nat, data: MapCell, lease: int, now: int,
      junk: map<string, Value>, ghost began: nat, ghost json: Json, ghost foot: set<object>) returns (first: ReadResult)
    requires cache.Valid() && cache.InFlight(key, atGen, began)
    requires Shows(MapRef(data), json, foot) && foot !! cache.held && cache !in foot
    modifies cache, data
    ensures cache.Valid() && data !in cache.held
    ensures cache.history == old(cache.history) + [Success(began, key, json, lease, now)]
    ensures first == Data(data) && data.entries == junk
  {
    hide WellFormed, Remembers, Refusals, MaxAge, Client, Stored;
    ghost var own;
    assert data in foot;
    first, own := cache.FinishRead(key, atGen, Fetched(data, lease), now, began, json, foot);
    Tamper(cache, data, junk);
  }

  /** A whole Read that OpenBao does not answer. */
  method UnansweredRead(cache: Cache, key: SecretRef, err: Err, now: int, ghost i: nat)
    returns (r: ReadResult, ghost own: set<object>)
    requires cache.Valid() && !Authoritative(err) && i < |cache.history|
    requires ServesStale(cache.history + [Begin(key)], key, now, i)
    modifies cache
    ensures cache.Valid() && own !! cache.held && fresh(own)
    ensures cache.history == old(cache.history) + [Begin(key), Outage(|old(cache.history)|, key, now)]
    ensures old(cache.history)[i].Success? && r.Data? && Shows(MapRef(r.data), old(cache.history)[i].data, own)
  {
    hide WellFormed, Remembers, Refusals, MaxAge, Client, Resident, Shows;
    ghost var h := cache.history;
    var client, atGen; ghost var began;
    client, atGen, began := cache.BeginRead(key);
    assert cache.history[..began] == h;
    assert cache.history[i] == h[i];
    ServedIsSuccess(cache.history, key, now, i);
    r, own := cache.FinishRead(key, atGen, Failed(err), now, began, Scalar(""), {});
  }

  lemma ServedIsSuccess(h: History, key: SecretRef, now: int, i: nat)
    requires i < |h| && ServesStale(h, key, now, i)
    ensures h[i].Success?
  {
  }

  method Tamper(cache: Cache, data: MapCell, junk: map<string, Value>)
    requires cache.Valid() && data !in cache.held
    modifies data
    ensures cache.Valid() && data.entries == junk
  {
    data.entries := junk;
  }
}
