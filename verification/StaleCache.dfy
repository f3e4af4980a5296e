/** StaleCache with its data on the heap. Each method is one critical section of the source: a
    Read is Begin, an answer from OpenBao that takes any time, and Finish, so callers may
    interleave any number of reads with swaps and sweeps in any order. */
module StaleCache {
  import opened Text
  import opened Config
  import opened Errors
  import opened JsonHeap
  import opened CacheHistory

  datatype Entry = Entry(data: MapCell, at: int, lease: int)

  /** What the inner reader answered. */
  datatype Answer = Fetched(data: MapCell, lease: int) | Failed(err: Err)

  datatype ReadResult = Data(data: MapCell) | Error(err: Err)

  class Cache {
    var inner: nat
    var maxAge: int
    var entries: map<SecretRef, Entry>
    var gen: nat
    var stale: nat

    /** Every event so far, and which success each entry came from. */
    ghost var history: History
    ghost var source: map<SecretRef, nat>
    /** The objects that hold the remembered data. */
    ghost var held: set<object>

    ghost predicate Valid()
      reads this, held
    {
      && this !in held
      && WellFormed(history)
      && inner == Client(history) && maxAge == MaxAge(history) && gen == Refusals(history)
      && Remembers(history, source) && entries.Keys == source.Keys
      && forall k :: k in entries ==> HoldsEvent(entries[k], history[source[k]], held)
    }

    static ghost predicate HoldsEvent(e: Entry, from: Event, held: set<object>)
      reads held
    {
      && from.Success? && e.at == from.now && e.lease == from.lease
      && Shows(MapRef(e.data), from.data, held)
    }

    /** NewStaleCache. */
    constructor (client: nat, maxAge: int, now: int)
      ensures Valid() && fresh(held)
      ensures history == [Install(client, maxAge, now)] && entries == map[] && stale == 0
    {
      inner, this.maxAge, entries, gen, stale := client, maxAge, map[], 0, 0;
      history, source, held := [Install(client, maxAge, now)], map[], {};
    }

    predicate Expired(k: SecretRef, now: int, limit: int)
      requires k in entries
      reads this
    {
      now - entries[k].at > ServableFor(entries[k].lease, limit)
    }

    /** Which entries an event drops, in the cache's own terms. */
    ghost predicate DropsEntry(e: Event, k: SecretRef)
      requires k in entries
      reads this
    {
      match e
      case Install(_, limit, now) => limit <= 0 || Expired(k, now, limit)
      case Sweep(now) => Expired(k, now, maxAge)
      case Outage(_, key, now) => key == k && Expired(k, now, maxAge)
      case Refusal(_, key) => key == k
      case _ => false
    }

    lemma DroppedEntry(e: Event, k: SecretRef)
      requires Valid() && k in entries
      ensures source[k] < |history| && history[source[k]].Success?
      ensures Drops(history + [e], |history|, source[k]) <==> DropsEntry(e, k)
    {
      assert (history + [e])[..|history|] == history;
      assert (history + [e])[|history|] == e;
      assert HoldsEvent(entries[k], history[source[k]], held);
    }

    /** The entry of a secret, if any, is what an outage of it is answered from. */
    lemma EntryAnswers(key: SecretRef, now: int, i: nat)
      requires Valid() && i < |history|
      ensures ServesStale(history, key, now, i) <==> key in entries && i == source[key] && !Expired(key, now, maxAge)
    {
      if key in entries {
        assert HoldsEvent(entries[key], history[source[key]], held);
      }
    }

    /** The cache refines its history: it has an entry for a secret exactly when some success for
        it is resident, and the entry is that success, stamped with its finish time. */
    lemma EntriesAreTheResidents(key: SecretRef)
      requires Valid()
      ensures key in entries <==> exists i :: 0 <= i < |history| && Resident(history, i) && history[i].key == key
      ensures forall i :: 0 <= i < |history| && Resident(history, i) && history[i].key == key ==>
                key in entries && entries[key].at == history[i].now && entries[key].lease == history[i].lease
                && Shows(MapRef(entries[key].data), history[i].data, held)
    {
      if key in entries {
        assert Resident(history, source[key]);
        assert HoldsEvent(entries[key], history[source[key]], held);
      }
    }

    /** Nothing stays in memory with the fallback off. */
    lemma DisabledIsEmpty()
      requires Valid() && maxAge <= 0
      ensures entries == map[]
    {
      forall k | k in entries ensures false {
        DisabledRemembersNothing(history, source[k]);
      }
    }

    /** With a sweep or Swap at most d ago on a monotone clock, no entry is older than what it may
        be served for plus d. */
    lemma NothingLingers(now: int, s: nat, d: int, key: SecretRef)
      requires Valid() && ClockIsMonotone(history, now) && key in entries
      requires s < |history| && ChecksAll(history[s]) && now - history[s].now <= d
      ensures now - entries[key].at <= ServableFor(entries[key].lease, maxAge) + d
    {
      assert HoldsEvent(entries[key], history[source[key]], held);
      EntriesAreReclaimed(history, now, s, d, source[key]);
    }

    lemma EntriesAnswer(key: SecretRef, now: int)
      requires Valid()
      ensures key in entries ==> key in source && source[key] < |history|
      ensures forall i: nat :: i < |history| ==>
                (ServesStale(history, key, now, i) <==> key in entries && i == source[key] && !Expired(key, now, maxAge))
    {
      forall i: nat | i < |history|
        ensures ServesStale(history, key, now, i) <==> key in entries && i == source[key] && !Expired(key, now, maxAge)
      {
        EntryAnswers(key, now, i);
      }
    }

    /** What removeExpired leaves. */
    function Unexpired(now: int): (r: map<SecretRef, Entry>)
      reads this
      ensures forall k :: k in r <==> k in entries && !Expired(k, now, maxAge)
      ensures forall k :: k in r ==> r[k] == entries[k]
    {
      map k | k in entries && !Expired(k, now, maxAge) :: entries[k]
    }

    /** One tick of sweepLoop. */
    method SweepExpired(now: int)
      requires Valid()
      modifies this
      ensures Valid() && held == old(held) && stale == old(stale)
      ensures history == old(history) + [Sweep(now)]
      ensures forall k :: k in entries <==>
                k in old(entries) && now - old(entries)[k].at <= maxAge
                && (old(entries)[k].lease > 0 ==> now - old(entries)[k].at <= old(entries)[k].lease)
      ensures forall k :: k in entries ==> entries[k] == old(entries)[k]
      ensures inner == old(inner) && maxAge == old(maxAge) && gen == old(gen)
    {
      var kept := Unexpired(now);
      Advance(Sweep(now), kept);
      entries := kept;
    }

    /** Swap. */
    method Swap(client: nat, newMaxAge: int, now: int)
      requires Valid()
      modifies this
      ensures Valid() && held == old(held) && stale == old(stale)
      ensures history == old(history) + [Install(client, newMaxAge, now)]
      ensures forall k :: k in entries <==>
                k in old(entries) && newMaxAge > 0 && now - old(entries)[k].at <= newMaxAge
                && (old(entries)[k].lease > 0 ==> now - old(entries)[k].at <= old(entries)[k].lease)
      ensures forall k :: k in entries ==> entries[k] == old(entries)[k]
      ensures inner == client && maxAge == newMaxAge && gen == old(gen)
    {
      hide Stored, Remembers, WellFormed, Shows, MaxAge, Client, Refusals;
      ghost var e := Install(client, newMaxAge, now);
      ghost var survivors := map k | k in entries && newMaxAge > 0 && !Expired(k, now, newMaxAge) :: entries[k];
      ghost var before := entries;
      Advance(e, survivors);
      inner := client;
      maxAge := newMaxAge;
      if newMaxAge <= 0 {
        entries := map[];
      } else {
        entries := Unexpired(now);
      }
      assert entries == survivors;
    }

    /** h and s tell what the entries in kept are. */
    static ghost predicate Tells(h: History, s: map<SecretRef, nat>, kept: map<SecretRef, Entry>, held: set<object>)
      reads held
    {
      && WellFormed(h) && Remembers(h, s) && kept.Keys == s.Keys
      && forall k :: k in kept ==> HoldsEvent(kept[k], h[s[k]], held)
    }

    /** The entries an event that stores nothing leaves. */
    lemma KeptEntries(e: Event, kept: map<SecretRef, Entry>)
      requires Valid()
      requires IsFinish(e) ==> e.began < |history| && history[e.began] == Begin(e.key)
      requires e.Success? ==> !Stored(history + [e], |history|)
      requires forall k :: k in kept <==> k in entries && !DropsEntry(e, k)
      requires forall k :: k in kept ==> kept[k] == entries[k]
      ensures forall k :: k in source ==> source[k] < |history| && history[source[k]].Success?
      ensures Tells(history + [e], AfterEvent(history, e, source), kept, held)
    {
      hide Resident, Drops, DropsEntry, Shows, HoldsEvent, Stored, AfterEvent, MaxAge, Client, Refusals;
      RemembersAfter(history, e, source);
      WellFormedMore(history, e);
      OnlySuccessIsStored(history, e);
      AfterUnstored(history, e, source);
      forall k | k in entries ensures Drops(history + [e], |history|, source[k]) <==> DropsEntry(e, k) {
        DroppedEntry(e, k);
      }
      hide Remembers, WellFormed;
    }

    /** Records an event that stores nothing. The caller then sets the fields it changes. */
    ghost method Advance(e: Event, kept: map<SecretRef, Entry>)
      requires Valid()
      requires IsFinish(e) ==> e.began < |history| && history[e.began] == Begin(e.key)
      requires e.Success? ==> !Stored(history + [e], |history|)
      requires forall k :: k in kept <==> k in entries && !DropsEntry(e, k)
      requires forall k :: k in kept ==> kept[k] == entries[k]
      modifies this`history, this`source
      ensures history == old(history) + [e] && Tells(history, source, kept, held)
      ensures MaxAge(history) == if e.Install? then e.newMaxAge else maxAge
      ensures Client(history) == if e.Install? then e.client else inner
      ensures Refusals(history) == gen + if e.Refusal? then 1 else 0
    {
      hide Stored, DropsEntry, Tells, AfterEvent, MaxAge, Client, Refusals, WellFormed, Remembers, HoldsEvent;
      KeptEntries(e, kept);
      LastEvent(history, e);
      source := AfterEvent(history, e, source);
      history := history + [e];
    }

    /** Read up to the call of the inner reader: which client to ask, and the refusals so far. */
    method BeginRead(key: SecretRef) returns (client: nat, atGen: nat, ghost began: nat)
      requires Valid()
      modifies this
      ensures Valid() && held == old(held) && stale == old(stale) && entries == old(entries)
      ensures history == old(history) + [Begin(key)] && began == |old(history)|
      ensures client == inner == old(inner) && atGen == gen == old(gen) && maxAge == old(maxAge)
      ensures client == Client(old(history)) && atGen == Refusals(old(history))
    {
      client, atGen, began := inner, gen, |history|;
      Advance(Begin(key), entries);
    }

    /** The read that began at index began, with atGen refusals before it. */
    ghost predicate InFlight(key: SecretRef, atGen: nat, began: nat)
      reads this
    {
      began < |history| && history[began] == Begin(key) && atGen == Refusals(history[..began])
    }

    /** Read once the inner reader has answered. Data the cache answers with or keeps is never in
        objects a caller has. */
    method FinishRead(key: SecretRef, atGen: nat, answer: Answer, now: int,
        ghost began: nat, ghost json: Json, ghost foot: set<object>)
      returns (r: ReadResult, ghost own: set<object>)
      requires Valid() && InFlight(key, atGen, began)
      requires answer.Fetched? ==> Shows(MapRef(answer.data), json, foot) && foot !! held && this !in foot
      modifies this
      ensures Valid() && fresh(held - old(held)) && own !! held && inner == old(inner) && maxAge == old(maxAge)
      ensures entries - {key} == old(entries) - {key}
      ensures gen == old(gen) + if answer.Failed? && Authoritative(answer.err) then 1 else 0
      ensures key in entries <==>
                if answer.Fetched? then (old(maxAge) > 0 && old(gen) == atGen) || key in old(entries)
                else r.Data?
      ensures answer.Fetched? && old(maxAge) > 0 && old(gen) == atGen ==>
                entries[key].at == now && entries[key].lease == answer.lease
      ensures key in entries && !(answer.Fetched? && old(maxAge) > 0 && old(gen) == atGen) ==> entries == old(entries)
      ensures answer.Fetched? ==>
                && history == old(history) + [Success(began, key, json, answer.lease, now)]
                && r == Data(answer.data) && own == foot && stale == old(stale)
      ensures answer.Failed? && Authoritative(answer.err) ==>
                && history == old(history) + [Refusal(began, key)]
                && r == Error(answer.err) && own == {} && stale == old(stale)
      ensures answer.Failed? && !Authoritative(answer.err) ==>
                && history == old(history) + [Outage(began, key, now)] && fresh(own)
                && (forall i: nat :: i < |old(history)| && ServesStale(old(history), key, now, i) ==>
                      r.Data? && Shows(MapRef(r.data), old(history)[i].data, own) && stale == old(stale) + 1)
                && ((forall i: nat :: i < |old(history)| ==> !ServesStale(old(history), key, now, i)) ==>
                      r == Error(answer.err) && stale == old(stale))
    {
      match answer
      case Fetched(data, lease) =>
        FinishFetched(key, atGen, data, lease, now, began, json, foot);
        r, own := Data(data), foot;
      case Failed(err) =>
        if Authoritative(err) {
          FinishRefused(key, began);
          r, own := Error(err), {};
        } else {
          var found;
          found, own := FinishUnanswered(key, now, began);
          r := if found.Some? then Data(found.value) else Error(err);
        }
    }

    /** The branch of Read for a success. */
    method FinishFetched(key: SecretRef, atGen: nat, data: MapCell, lease: int, now: int,
        ghost began: nat, ghost json: Json, ghost foot: set<object>)
      requires Valid() && InFlight(key, atGen, began)
      requires Shows(MapRef(data), json, foot) && foot !! held && this !in foot
      modifies this
      ensures Valid() && fresh(held - old(held)) && inner == old(inner) && stale == old(stale)
      ensures maxAge == old(maxAge) && gen == old(gen)
      ensures history == old(history) + [Success(began, key, json, lease, now)]
      ensures entries - {key} == old(entries) - {key}
      ensures if old(maxAge) > 0 && old(gen) == atGen
              then key in entries && entries[key].at == now && entries[key].lease == lease
              else entries == old(entries)
    {
      hide Stored, Remembers, WellFormed, Shows, MaxAge, Client, Refusals, AfterEvent, Drops;
      ghost var e := Success(began, key, json, lease, now);
      StoredIsCounterTest(history, e, began);
      if maxAge > 0 && gen == atGen {
        var copy, own := CloneData(data, json, foot);
        AdvanceStored(e, copy, own);
        UpdateElsewhere(entries, key, Entry(copy, now, lease));
        entries := entries[key := Entry(copy, now, lease)];
      } else {
        Advance(e, entries);
      }
    }

    /** The entries after a success that is stored. */
    lemma StoredEntry(e: Event, copy: MapCell, own: set<object>)
      requires Valid() && e.Success? && e.began < |history| && history[e.began] == Begin(e.key)
      requires Stored(history + [e], |history|) && Shows(MapRef(copy), e.data, own)
      ensures forall k :: k in source ==> source[k] < |history| && history[source[k]].Success?
      ensures Tells(history + [e], AfterEvent(history, e, source), entries[e.key := Entry(copy, e.now, e.lease)], held + own)
    {
      hide Resident, Drops, Stored, AfterEvent, MaxAge, Client, Refusals;
      RemembersAfter(history, e, source);
      WellFormedMore(history, e);
      AfterStored(history, e, source);
      forall k | k in entries ensures HoldsEvent(entries[k], history[source[k]], held + own) {
        ShowsInMore(MapRef(entries[k].data), history[source[k]].data, held, held + own);
      }
      ShowsInMore(MapRef(copy), e.data, own, held + own);
      hide Remembers, WellFormed, Shows;
    }

    /** Records a success that is stored. The caller then sets the entry. */
    ghost method AdvanceStored(e: Event, copy: MapCell, own: set<object>)
      requires Valid() && e.Success? && e.began < |history| && history[e.began] == Begin(e.key)
      requires Stored(history + [e], |history|) && Shows(MapRef(copy), e.data, own) && this !in own
      modifies this`history, this`source, this`held
      ensures history == old(history) + [e] && held == old(held) + own
      ensures Tells(history, source, entries[e.key := Entry(copy, e.now, e.lease)], held)
      ensures MaxAge(history) == maxAge && Client(history) == inner && Refusals(history) == gen
    {
      StoredEntry(e, copy, own);
      LastEvent(history, e);
      hide Stored, Tells, AfterEvent, MaxAge, Client, Refusals, WellFormed, Remembers, HoldsEvent, Shows;
      source := AfterEvent(history, e, source);
      held := held + own;
      history := history + [e];
    }

    /** The branch of Read for an authoritative refusal. */
    method FinishRefused(key: SecretRef, ghost began: nat)
      requires Valid() && began < |history| && history[began] == Begin(key)
      modifies this
      ensures Valid() && held == old(held) && inner == old(inner) && stale == old(stale)
      ensures entries == old(entries) - {key} && gen == old(gen) + 1 && maxAge == old(maxAge)
      ensures history == old(history) + [Refusal(began, key)]
    {
      hide Stored, Remembers, WellFormed, Shows, MaxAge, Client, Refusals;
      Advance(Refusal(began, key), entries - {key});
      entries := entries - {key};
      gen := gen + 1;
    }

    /** The branch of Read for an error that says nothing about the secret. */
    method FinishUnanswered(key: SecretRef, now: int, ghost began: nat)
      returns (found: Option<MapCell>, ghost own: set<object>)
      requires Valid() && began < |history| && history[began] == Begin(key)
      modifies this
      ensures Valid() && held == old(held) && inner == old(inner) && fresh(own) && own !! held
      ensures maxAge == old(maxAge) && gen == old(gen)
      ensures entries == if found.Some? then old(entries) else old(entries) - {key}
      ensures found.Some? ==> key in old(entries)
      ensures history == old(history) + [Outage(began, key, now)]
      ensures forall i: nat :: i < |old(history)| && ServesStale(old(history), key, now, i) ==>
                found.Some? && Shows(MapRef(found.value), old(history)[i].data, own) && stale == old(stale) + 1
      ensures (forall i: nat :: i < |old(history)| ==> !ServesStale(old(history), key, now, i)) ==>
                found == None && stale == old(stale)
    {
      hide Valid, ServesStale, Shows, Expired;
      EntriesAnswer(key, now);
      assert key in entries ==> (ServesStale(history, key, now, source[key]) <==> !Expired(key, now, maxAge));
      found, own := ServableCopy(key, now);
      RecordOutage(key, now, began, found.Some?);
    }

    /** Counts a stale answer, or drops the entry when there was none to give. */
    method RecordOutage(key: SecretRef, now: int, ghost began: nat, served: bool)
      requires Valid() && began < |history| && history[began] == Begin(key)
      requires served <==> key in entries && !Expired(key, now, maxAge)
      modifies this
      ensures Valid() && held == old(held) && inner == old(inner)
      ensures maxAge == old(maxAge) && gen == old(gen)
      ensures entries == if served then old(entries) else old(entries) - {key}
      ensures stale == old(stale) + if served then 1 else 0
      ensures history == old(history) + [Outage(began, key, now)]
    {
      hide Stored, Remembers, WellFormed, Shows, MaxAge, Client, Refusals;
      var kept := if served then entries else entries - {key};
      Advance(Outage(began, key, now), kept);
      entries := kept;
      if served {
        stale := stale + 1;
      }
    }

    /** A copy for a caller of the entry that may still be served. */
    method ServableCopy(key: SecretRef, now: int) returns (found: Option<MapCell>, ghost own: set<object>)
      requires Valid()
      ensures found.Some? <==> key in entries && !Expired(key, now, maxAge)
      ensures key in entries ==> key in source && source[key] < |history| && history[source[key]].Success?
      ensures fresh(own) && own !! held
      ensures found.Some? ==> Shows(MapRef(found.value), history[source[key]].data, own)
    {
      hide Remembers, WellFormed, Shows, MaxAge, Client, Refusals;
      found, own := None, {};
      if key in entries {
        DroppedEntry(Outage(0, key, now), key);
        if !Expired(key, now, maxAge) {
          var copy;
          copy, own := CloneData(entries[key].data, history[source[key]].data, held);
          found := Some(copy);
        }
      }
    }
  }

  lemma UpdateElsewhere(m: map<SecretRef, Entry>, k: SecretRef, e: Entry)
    ensures m[k := e] - {k} == m - {k}
  {
  }

  lemma OnlySuccessIsStored(h: History, e: Event)
    ensures Stored(h + [e], |h|) ==> e.Success?
  {
  }

  lemma WellFormedMore(h: History, e: Event)
    requires WellFormed(h)
    requires IsFinish(e) ==> e.began < |h| && h[e.began] == Begin(e.key)
    ensures WellFormed(h + [e])
  {
  }

  lemma LastEvent(h: History, e: Event)
    ensures MaxAge(h + [e]) == if e.Install? then e.newMaxAge else MaxAge(h)
    ensures Client(h + [e]) == if e.Install? then e.client else Client(h)
    ensures Refusals(h + [e]) == Refusals(h) + if e.Refusal? then 1 else 0
  {
    assert (h + [e])[..|h|] == h;
  }

  lemma StoredUnfolds(h: History, e: Event)
    requires e.Success?
    ensures Stored(h + [e], |h|) <==> MaxAge(h) > 0 && forall j :: e.began < j < |h| ==> !h[j].Refusal?
  {
    hide MaxAge;
    assert (h + [e])[..|h|] == h;
  }

  /** The counter test of Read decides what the history calls stored. */
  lemma StoredIsCounterTest(h: History, e: Event, began: nat)
    requires e.Success? && e.began == began < |h| && h[began].Begin?
    ensures Stored(h + [e], |h|) <==> MaxAge(h) > 0 && Refusals(h) == Refusals(h[..began])
  {
    hide Stored, MaxAge, Refusals;
    StoredUnfolds(h, e);
    RefusalsBetween(h, began, |h|);
    assert h[..|h|] == h;
  }
}
