/** What StaleCache should hold and answer, told from the history of events it saw, in the order
    their critical sections ran. No state of the cache is mentioned. */
module CacheHistory {
  import opened Config
  import opened JsonHeap

  /** Times are readings of the cache's clock. began is the index of the Begin of the same read. */
  datatype Event =
    | Install(client: nat, newMaxAge: int, now: int)
    | Begin(key: SecretRef)
    | Success(began: nat, key: SecretRef, data: Json, lease: int, now: int)
    | Refusal(began: nat, key: SecretRef)
    | Outage(began: nat, key: SecretRef, now: int)
    | Sweep(now: int)

  type History = seq<Event>

  predicate IsFinish(e: Event) {
    e.Success? || e.Refusal? || e.Outage?
  }

  /** A cache is created by an Install, and a read finishes after it began. */
  predicate WellFormed(h: History) {
    && h != [] && h[0].Install?
    && forall i :: 0 <= i < |h| && IsFinish(h[i]) ==> h[i].began < i && h[h[i].began] == Begin(h[i].key)
  }

  /** The max age in force after h. */
  function MaxAge(h: History): int {
    if h == [] then 0
    else if h[|h| - 1].Install? then h[|h| - 1].newMaxAge
    else MaxAge(h[..|h| - 1])
  }

  /** The client in force after h. */
  function Client(h: History): nat {
    if h == [] then 0
    else if h[|h| - 1].Install? then h[|h| - 1].client
    else Client(h[..|h| - 1])
  }

  function Refusals(h: History): nat {
    if h == [] then 0 else Refusals(h[..|h| - 1]) + if h[|h| - 1].Refusal? then 1 else 0
  }

  /** servableFor: maxAge, or the lease when that is set and shorter. */
  function ServableFor(lease: int, maxAge: int): int {
    if 0 < lease < maxAge then lease else maxAge
  }

  /** A success is remembered when the fallback is on and no refusal, of any secret, finished
      while it was under way. */
  predicate Stored(h: History, i: nat)
    requires i < |h|
  {
    && h[i].Success? && MaxAge(h[..i]) > 0
    && forall j :: h[i].began < j < i ==> !h[j].Refusal?
  }

  predicate PastLimit(e: Event, now: int, maxAge: int)
    requires e.Success?
  {
    now - e.now > ServableFor(e.lease, maxAge)
  }

  /** Event j drops what success i stored: a refusal of the same secret, an Install that turns
      the fallback off, or a check that finds it past its limit. */
  predicate Drops(h: History, j: nat, i: nat)
    requires j < |h| && i < |h| && h[i].Success?
  {
    match h[j]
    case Install(_, maxAge, now) => maxAge <= 0 || PastLimit(h[i], now, maxAge)
    case Sweep(now) => PastLimit(h[i], now, MaxAge(h[..j]))
    case Outage(_, key, now) => key == h[i].key && PastLimit(h[i], now, MaxAge(h[..j]))
    case Refusal(_, key) => key == h[i].key
    case _ => false
  }

  /** Success i is what the cache remembers for its secret after h: it was stored, no later
      success for the secret was, and nothing dropped it. */
  predicate Resident(h: History, i: nat)
    requires i < |h|
  {
    && Stored(h, i)
    && forall j :: i < j < |h| ==> !(Stored(h, j) && h[j].key == h[i].key) && !Drops(h, j, i)
  }

  /** m says for every secret which success is remembered. */
  ghost predicate Remembers(h: History, m: map<SecretRef, nat>) {
    && (forall k :: k in m ==> m[k] < |h| && Resident(h, m[k]) && h[m[k]].key == k)
    && (forall i :: 0 <= i < |h| && Resident(h, i) ==> h[i].key in m && m[h[i].key] == i)
  }

  // ----- One more event -----

  lemma EarlierJudgements(h: History, e: Event, i: nat, j: nat)
    requires i < |h| && j < |h|
    ensures Stored(h + [e], i) == Stored(h, i)
    ensures h[i].Success? ==> Drops(h + [e], j, i) == Drops(h, j, i)
  {
    assert (h + [e])[..i] == h[..i] && (h + [e])[..j] == h[..j];
  }

  lemma ResidentAfter(h: History, e: Event, i: nat)
    requires i < |h|
    ensures var g := h + [e];
            Resident(g, i) <==> Resident(h, i) && !(Stored(g, |h|) && e.key == h[i].key) && !Drops(g, |h|, i)
  {
    var g := h + [e];
    EarlierJudgements(h, e, i, i);
    forall j | 0 <= j < |h| ensures Stored(g, j) == Stored(h, j) && (h[i].Success? ==> Drops(g, j, i) == Drops(h, j, i)) {
      EarlierJudgements(h, e, i, j);
      EarlierJudgements(h, e, j, j);
    }
    hide Stored, Drops;
    assert forall j :: 0 <= j < |h| ==> g[j] == h[j];
  }

  /** What the event leaves of what was remembered, and what it adds. */
  function AfterEvent(h: History, e: Event, m: map<SecretRef, nat>): (r: map<SecretRef, nat>)
    requires forall k :: k in m ==> m[k] < |h| && h[m[k]].Success?
  {
    var kept := map k | k in m && !Drops(h + [e], |h|, m[k]) :: m[k];
    if Stored(h + [e], |h|) then kept[e.key := |h|] else kept
  }

  lemma AfterUnstored(h: History, e: Event, m: map<SecretRef, nat>)
    requires forall k :: k in m ==> m[k] < |h| && h[m[k]].Success?
    requires !Stored(h + [e], |h|)
    ensures forall k :: k in AfterEvent(h, e, m) <==> k in m && !Drops(h + [e], |h|, m[k])
    ensures forall k :: k in AfterEvent(h, e, m) ==> AfterEvent(h, e, m)[k] == m[k]
  {
  }

  lemma AfterStored(h: History, e: Event, m: map<SecretRef, nat>)
    requires forall k :: k in m ==> m[k] < |h| && h[m[k]].Success?
    requires Stored(h + [e], |h|)
    ensures AfterEvent(h, e, m) == m[e.key := |h|]
  {
    assert (h + [e])[|h|] == e;
  }

  lemma RemembersAfter(h: History, e: Event, m: map<SecretRef, nat>)
    requires Remembers(h, m)
    ensures forall k :: k in m ==> m[k] < |h| && h[m[k]].Success?
    ensures Remembers(h + [e], AfterEvent(h, e, m))
  {
    var g := h + [e];
    var r := AfterEvent(h, e, m);
    assert g[|h|] == e;
    forall i | 0 <= i < |h| ensures g[i] == h[i] && (Resident(g, i) ==> Resident(h, i)) {
      ResidentAfter(h, e, i);
    }
    forall k | k in r ensures r[k] < |g| && Resident(g, r[k]) && g[r[k]].key == k {
      if r[k] < |h| {
        ResidentAfter(h, e, m[k]);
      }
    }
    forall i | 0 <= i < |g| && Resident(g, i) ensures g[i].key in r && r[g[i].key] == i {
      if i < |h| {
        ResidentAfter(h, e, i);
      }
    }
  }

  /** Two refusal counts agree exactly when no refusal lies between. */
  lemma {:induction false} RefusalsBetween(h: History, a: nat, b: nat)
    requires a <= b <= |h|
    ensures Refusals(h[..a]) <= Refusals(h[..b])
    ensures Refusals(h[..a]) == Refusals(h[..b]) <==> forall j :: a <= j < b ==> !h[j].Refusal?
    decreases b - a
  {
    if a < b {
      RefusalsBetween(h, a, b - 1);
      assert h[..b][..b - 1] == h[..b - 1];
    }
  }

  // ----- What every history guarantees -----

  /** The answer an outage of key gives after h: the remembered data, if any is within its limit. */
  predicate ServesStale(h: History, key: SecretRef, now: int, i: nat)
    requires i < |h|
  {
    Resident(h, i) && h[i].key == key && !PastLimit(h[i], now, MaxAge(h))
  }

  /** No resurfacing: what an outage is answered with comes from a read that began after every
      refusal of the same secret that finished before the outage. */
  lemma NoResurfacing(h: History, o: nat, i: nat)
    requires WellFormed(h) && o < |h| && h[o].Outage?
    requires i < o && ServesStale(h[..o], h[o].key, h[o].now, i)
    ensures forall r :: 0 <= r < o && h[r].Refusal? && h[r].key == h[o].key ==> r < h[i].began
  {
    var past := h[..o];
    forall r | 0 <= r < o && h[r].Refusal? && h[r].key == h[o].key ensures r < h[i].began {
      assert past[r] == h[r] && past[i] == h[i];
      assert i < r ==> Drops(past, r, i);
    }
  }

  /** With the fallback off nothing is remembered. */
  lemma {:induction false} DisabledRemembersNothing(h: History, i: nat)
    requires i < |h| && MaxAge(h) <= 0
    ensures !Resident(h, i)
    decreases |h|
  {
    var front, last := h[..|h| - 1], h[|h| - 1];
    assert h == front + [last];
    if i < |h| - 1 {
      ResidentAfter(front, last, i);
      if last.Install? {
        assert h[i].Success? ==> Drops(h, |h| - 1, i);
      } else {
        DisabledRemembersNothing(front, i);
      }
    } else {
      assert h[..i] == front;
    }
  }

  /** A stale answer is at most maxAge old and, when its lease is positive, no older than that. */
  lemma StaleAnswersAreFresh(h: History, key: SecretRef, now: int, i: nat)
    requires i < |h| && ServesStale(h, key, now, i)
    ensures now - h[i].now <= MaxAge(h) && (h[i].lease > 0 ==> now - h[i].now <= h[i].lease)
    ensures MaxAge(h) > 0
  {
    if MaxAge(h) <= 0 {
      DisabledRemembersNothing(h, i);
    }
  }

  // ----- The fallback is complete -----

  /** The max age and the client in force are those of the last Install. */
  lemma {:induction false} LastInstall(h: History, n: nat)
    requires n < |h| && h[n].Install? && forall j :: n < j < |h| ==> !h[j].Install?
    ensures MaxAge(h) == h[n].newMaxAge && Client(h) == h[n].client
    decreases |h|
  {
    if n < |h| - 1 {
      LastInstall(h[..|h| - 1], n);
    }
  }

  /** At the time now the fetched data is no older than the max age, which is positive, and than its
      lease when it has one. */
  predicate WithinLimits(e: Event, now: int, maxAge: int)
    requires e.Success?
  {
    maxAge > 0 && now - e.now <= maxAge && (e.lease > 0 ==> now - e.now <= e.lease)
  }

  /** servableFor allows exactly that. */
  lemma ServableForExact(e: Event, now: int, maxAge: int)
    requires e.Success? && maxAge > 0
    ensures PastLimit(e, now, maxAge) <==> !WithinLimits(e, now, maxAge)
  {
  }

  /** Event j leaves what success i stored: it is no refusal of the secret and no success for it that
      is stored, and if it looks at the data it finds it within its limits. */
  predicate LeavesFallback(h: History, j: nat, i: nat)
    requires j < |h| && i < |h| && h[i].Success?
  {
    match h[j]
    case Install(_, maxAge, now) => WithinLimits(h[i], now, maxAge)
    case Sweep(now) => WithinLimits(h[i], now, MaxAge(h[..j]))
    case Outage(_, key, now) => key == h[i].key ==> WithinLimits(h[i], now, MaxAge(h[..j]))
    case Refusal(_, key) => key != h[i].key
    case Success(began, key, _, _, _) =>
      key == h[i].key ==> MaxAge(h[..j]) <= 0 || exists k :: began < k < j && h[k].Refusal?
    case Begin(_) => true
  }

  /** Success i was fetched with the fallback on and no refusal meanwhile, and everything since left
      it. */
  predicate KeepsFallback(h: History, i: nat)
    requires i < |h|
  {
    && h[i].Success? && MaxAge(h[..i]) > 0 && (forall k :: h[i].began < k < i ==> !h[k].Refusal?)
    && forall j :: i < j < |h| ==> LeavesFallback(h, j, i)
  }

  lemma ResidentBefore(h: History, i: nat, j: nat)
    requires i < j <= |h| && Resident(h, i)
    ensures Resident(h[..j], i)
  {
    var g := h[..j];
    assert g[..i] == h[..i];
    forall k | i < k < j ensures !(Stored(g, k) && g[k].key == g[i].key) && !Drops(g, k, i) {
      assert g[..k] == h[..k] && g[k] == h[k];
      assert Stored(g, k) == Stored(h, k) && Drops(g, k, i) == Drops(h, k, i);
    }
  }

  lemma LeavesExact(h: History, j: nat, i: nat)
    requires i < j < |h| && h[i].Success?
    requires (h[j].Sweep? || (h[j].Outage? && h[j].key == h[i].key)) ==> MaxAge(h[..j]) > 0
    ensures LeavesFallback(h, j, i) <==> !(Stored(h, j) && h[j].key == h[i].key) && !Drops(h, j, i)
  {
    hide MaxAge, ServableFor, PastLimit, WithinLimits;
    match h[j]
    case Install(_, maxAge, now) =>
      if maxAge > 0 {
        ServableForExact(h[i], now, maxAge);
      } else {
        NoLimitsWithoutFallback(h[i], now, maxAge);
      }
    case Sweep(now) => ServableForExact(h[i], now, MaxAge(h[..j]));
    case Outage(_, key, now) =>
      if key == h[i].key {
        ServableForExact(h[i], now, MaxAge(h[..j]));
      }
    case _ =>
  }

  lemma NoLimitsWithoutFallback(e: Event, now: int, maxAge: int)
    requires e.Success? && maxAge <= 0
    ensures !WithinLimits(e, now, maxAge)
  {
  }

  lemma FallbackOnSince(h: History, i: nat, j: nat)
    requires i < j <= |h| && Resident(h, i)
    ensures MaxAge(h[..j]) > 0
  {
    hide Resident, MaxAge;
    ResidentBefore(h, i, j);
    if MaxAge(h[..j]) <= 0 {
      DisabledRemembersNothing(h[..j], i);
    }
  }

  /** The fallback is complete: an outage is answered with success i exactly when the data was kept
      and is within its limits. */
  lemma FallbackExact(h: History, key: SecretRef, now: int, i: nat)
    requires i < |h|
    ensures ServesStale(h, key, now, i) <==>
            KeepsFallback(h, i) && h[i].key == key && WithinLimits(h[i], now, MaxAge(h))
  {
    if ServesStale(h, key, now, i) {
      ServedIsKept(h, i);
      FallbackOnSince(h, i, |h|);
      assert h[..|h|] == h;
      ServableForExact(h[i], now, MaxAge(h));
    } else if KeepsFallback(h, i) && h[i].key == key && WithinLimits(h[i], now, MaxAge(h)) {
      KeptIsResident(h, i);
      ServableForExact(h[i], now, MaxAge(h));
    }
  }

  lemma ServedIsKept(h: History, i: nat)
    requires i < |h| && Resident(h, i)
    ensures KeepsFallback(h, i)
  {
    assert Stored(h, i);
    forall j | i < j < |h| ensures LeavesFallback(h, j, i) {
      FallbackOnSince(h, i, j);
      assert !(Stored(h, j) && h[j].key == h[i].key) && !Drops(h, j, i);
      hide Resident, Stored, Drops, LeavesFallback, MaxAge;
      LeavesExact(h, j, i);
    }
  }

  lemma KeptIsResident(h: History, i: nat)
    requires i < |h| && KeepsFallback(h, i)
    ensures Resident(h, i)
  {
    forall j | i < j < |h| ensures !(Stored(h, j) && h[j].key == h[i].key) && !Drops(h, j, i) {
      assert LeavesFallback(h, j, i);
      LeavesExact(h, j, i);
    }
    hide LeavesFallback, Drops, MaxAge;
  }

  // ----- Residency -----

  predicate ReadsClock(e: Event) {
    e.Install? || e.Success? || e.Outage? || e.Sweep?
  }

  /** The clock never runs backwards, and now is its latest reading. */
  predicate ClockIsMonotone(h: History, now: int) {
    && (forall i, j :: 0 <= i < j < |h| && ReadsClock(h[i]) && ReadsClock(h[j]) ==> h[i].now <= h[j].now)
    && (forall i :: 0 <= i < |h| && ReadsClock(h[i]) ==> h[i].now <= now)
  }

  predicate ChecksAll(e: Event) {
    e.Install? || e.Sweep?
  }

  lemma {:induction false} LastFullCheck(h: History, s: nat) returns (c: nat)
    requires s < |h| && ChecksAll(h[s])
    ensures s <= c < |h| && ChecksAll(h[c]) && forall j :: c < j < |h| ==> !ChecksAll(h[j])
    decreases |h| - s
  {
    if j :| s < j < |h| && ChecksAll(h[j]) {
      c := LastFullCheck(h, j);
    } else {
      c := s;
    }
  }

  /** The max age after a full check is still in force when no Install follows. */
  lemma {:induction false} MaxAgeSince(h: History, c: nat)
    requires c < |h| && forall j :: c < j < |h| ==> !h[j].Install?
    ensures MaxAge(h) == MaxAge(h[..c + 1])
    decreases |h| - c
  {
    if c + 1 < |h| {
      var front := h[..|h| - 1];
      MaxAgeSince(front, c);
      assert front[..c + 1] == h[..c + 1];
    } else {
      assert h[..c + 1] == h;
    }
  }

  lemma ClockOrder(h: History, now: int, i: nat, j: nat)
    requires ClockIsMonotone(h, now) && i <= j < |h| && ReadsClock(h[i]) && ReadsClock(h[j])
    ensures h[i].now <= h[j].now <= now
  {
  }

  /** What is still resident was within its limit at every full check since. */
  lemma SurvivedCheck(h: History, c: nat, i: nat)
    requires i < c < |h| && Resident(h, i) && ChecksAll(h[c])
    ensures h[i].Success?
    ensures MaxAge(h[..c + 1]) > 0 ==> h[c].now - h[i].now <= ServableFor(h[i].lease, MaxAge(h[..c + 1]))
  {
    CheckedAgainst(h, c);
    hide MaxAge, ServableFor;
    assert !Drops(h, c, i);
  }

  /** Residency: when the last sweep or Install is at most d ago, no entry is older than what it
      may be served for plus d, whatever reloads changed in between. */
  lemma EntriesAreReclaimed(h: History, now: int, s: nat, d: int, i: nat)
    requires i < |h| && Resident(h, i) && ClockIsMonotone(h, now)
    requires s < |h| && ChecksAll(h[s]) && now - h[s].now <= d
    ensures now - h[i].now <= ServableFor(h[i].lease, MaxAge(h)) + d
  {
    assert h[i].Success?;
    hide Resident, ClockIsMonotone, MaxAge, ServableFor;
    if MaxAge(h) <= 0 {
      DisabledRemembersNothing(h, i);
    }
    var c := LastFullCheck(h, s);
    ClockOrder(h, now, s, c);
    if i < c {
      MaxAgeSince(h, c);
      SurvivedCheck(h, c, i);
    } else {
      ClockOrder(h, now, c, i);
      ServableForIsPositive(h[i].lease, MaxAge(h));
    }
  }

  lemma ServableForIsPositive(lease: int, maxAge: int)
    requires maxAge > 0
    ensures ServableFor(lease, maxAge) > 0
  {
  }

  lemma CheckedAgainst(h: History, c: nat)
    requires c < |h| && ChecksAll(h[c])
    ensures MaxAge(h[..c + 1]) == if h[c].Install? then h[c].newMaxAge else MaxAge(h[..c])
  {
    assert h[..c + 1][..c] == h[..c];
  }
}
