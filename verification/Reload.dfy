/** A reload beside requests in flight: the server's rules and timeout are swapped first, then the
    cache's client, and the client that was replaced is revoked later. A timed state machine over
    any number of requests and reloads. Generation g is the configuration the g-th successful
    reload installed, with its client and its connection timeout. */
module Reload {
  import opened Numbers

  /** bao.ProbeTimeout, in milliseconds. Only its sign matters below. */
  const PROBE_TIMEOUT: nat := 5_000

  /** What a request does with OpenBao: nothing yet, one read with a client, which has to end by
      until, or the token check a 403 leads to, which has to end by until. */
  datatype Phase =
    | Loaded
    | Armed
    | Reading(client: nat, until: int)
    | Probing(client: nat, until: int)
    | Finished

  /** snapshot is the generation of the serving pointer the request loaded, armedAt the time its
      context got its deadline. */
  datatype Request = Request(snapshot: nat, armedAt: int, phase: Phase)

  datatype State = State(
    now: int,
    timeouts: seq<nat>,
    serving: nat,
    inner: nat,
    replacedAt: seq<int>,
    scheduledAt: seq<int>,
    revoked: set<nat>,
    requests: map<nat, Request>)

  function Init(timeout: nat): State {
    State(0, [timeout], 0, 0, [], [], {}, map[])
  }

  datatype Step =
    | Tick(d: nat)
    | Load(id: nat)
    | Arm(id: nat)
    | Refuse(id: nat)
    | TakeClient(id: nat)
    | ReadEnds(id: nat, forbidden: bool)
    | ProbeEnds(id: nat)
    | SwapServer(timeout: nat)
    | SwapCache
    | ScheduleRevoke
    | Revoke(client: nat)

  /** When the revocation of a replaced client is due. */
  function Due(s: State, g: nat): int
    requires g < |s.scheduledAt| && g + 1 < |s.timeouts|
  {
    s.scheduledAt[g] + Max(s.timeouts[g], s.timeouts[g + 1]) + PROBE_TIMEOUT
  }

  predicate InPhase(s: State, id: nat, armed: bool) {
    id in s.requests && if armed then s.requests[id].phase.Armed? else s.requests[id].phase.Loaded?
  }

  predicate Active(r: Request) {
    r.phase.Reading? || r.phase.Probing?
  }

  /** A read and a probe end by their deadlines, so time cannot pass one that is still active. */
  predicate MayPass(s: State, t: int) {
    forall id :: id in s.requests && Active(s.requests[id]) ==> t <= s.requests[id].phase.until
  }

  predicate Enabled(s: State, step: Step) {
    match step
    case Tick(d) => MayPass(s, s.now + d)
    case Load(id) => id !in s.requests
    case Arm(id) => InPhase(s, id, false)
    case Refuse(id) => id in s.requests && !Active(s.requests[id])
    case TakeClient(id) => InPhase(s, id, true) && s.requests[id].snapshot < |s.timeouts|
    case ReadEnds(id, _) => id in s.requests && s.requests[id].phase.Reading?
    case ProbeEnds(id) => id in s.requests && s.requests[id].phase.Probing?
    case SwapServer(_) => s.serving == s.inner == |s.scheduledAt|
    case SwapCache => s.inner < s.serving
    case ScheduleRevoke => |s.scheduledAt| < s.inner
    case Revoke(g) => g < |s.scheduledAt| && g + 1 < |s.timeouts| && Due(s, g) <= s.now
  }

  function SetPhase(s: State, id: nat, phase: Phase): State
    requires id in s.requests
  {
    s.(requests := s.requests[id := s.requests[id].(phase := phase)])
  }

  /** handle loads serving, arms the deadline from its timeout, and the read takes the cache's
      client whenever it gets there, even past the deadline, when it ends at once. reload swaps
      server and cache one after the other, then schedules the revocation. */
  function Next(s: State, step: Step): State
    requires Enabled(s, step)
  {
    match step
    case Tick(d) => s.(now := s.now + d)
    case Load(id) => s.(requests := s.requests[id := Request(s.serving, s.now, Loaded)])
    case Arm(id) => s.(requests := s.requests[id := s.requests[id].(armedAt := s.now, phase := Armed)])
    case Refuse(id) => SetPhase(s, id, Finished)
    case TakeClient(id) =>
      var r := s.requests[id];
      SetPhase(s, id, Reading(s.inner, Max(r.armedAt + s.timeouts[r.snapshot], s.now)))
    case ReadEnds(id, forbidden) =>
      SetPhase(s, id, if forbidden then Probing(s.requests[id].phase.client, s.now + PROBE_TIMEOUT) else Finished)
    case ProbeEnds(id) => SetPhase(s, id, Finished)
    case SwapServer(timeout) =>
      s.(serving := s.serving + 1, timeouts := s.timeouts + [timeout], replacedAt := s.replacedAt + [s.now])
    case SwapCache => s.(inner := s.inner + 1)
    case ScheduleRevoke => s.(scheduledAt := s.scheduledAt + [s.now])
    case Revoke(g) => s.(revoked := s.revoked + {g})
  }

  /** The steps can be taken one after the other, and end in t. */
  predicate Runs(s: State, steps: seq<Step>, t: State)
    decreases |steps|
  {
    if steps == [] then s == t
    else Enabled(s, steps[0]) && Runs(Next(s, steps[0]), steps[1..], t)
  }

  ghost predicate Reachable(s: State) {
    exists timeout, steps :: Runs(Init(timeout), steps, s)
  }

  /** The request uses client b now. */
  predicate Uses(r: Request, b: nat) {
    Active(r) && r.phase.client == b
  }

  /** The last moment the request may use its client: a read may still end in a 403. */
  function LatestEnd(r: Request): int
    requires Active(r)
  {
    if r.phase.Reading? then r.phase.until + PROBE_TIMEOUT else r.phase.until
  }

  // ----- Invariant -----

  predicate Ordered(s: State) {
    && |s.timeouts| == s.serving + 1 && |s.replacedAt| == s.serving
    && s.inner <= s.serving <= s.inner + 1
    && |s.scheduledAt| <= s.inner <= |s.scheduledAt| + 1
    && (|s.scheduledAt| < s.inner ==> s.serving == s.inner)
    && (forall g :: 0 <= g < |s.replacedAt| ==> s.replacedAt[g] <= s.now)
    && (forall g :: 0 <= g < |s.scheduledAt| ==> s.replacedAt[g] <= s.scheduledAt[g] <= s.now)
    && (forall g :: g in s.revoked ==> g < |s.scheduledAt| && Due(s, g) <= s.now)
  }

  /** A request that uses client b loaded a snapshot no newer than b + 1. It armed its deadline and
      took b before b's revocation was scheduled, so its use ends by the later of its deadline
      and that moment, plus the probe. */
  predicate RequestOk(s: State, r: Request)
    requires |s.timeouts| == s.serving + 1
  {
    && r.snapshot <= s.serving && r.armedAt <= s.now
    && (Active(r) ==>
          && r.phase.client <= s.inner && r.snapshot <= r.phase.client + 1
          && s.now <= r.phase.until
          && (r.phase.Reading? ==> r.armedAt + s.timeouts[r.snapshot] <= r.phase.until)
          && (if r.phase.client < |s.scheduledAt| then
                && r.armedAt <= s.scheduledAt[r.phase.client]
                && LatestEnd(r) <= Max(r.armedAt + s.timeouts[r.snapshot], s.scheduledAt[r.phase.client]) + PROBE_TIMEOUT
              else
                LatestEnd(r) <= Max(r.armedAt + s.timeouts[r.snapshot], s.now) + PROBE_TIMEOUT))
  }

  predicate Inv(s: State) {
    Ordered(s) && forall id :: id in s.requests ==> RequestOk(s, s.requests[id])
  }

  lemma InitInv(timeout: nat)
    ensures Inv(Init(timeout))
  {
  }

  lemma OrderedStep(s: State, step: Step)
    requires Ordered(s) && Enabled(s, step)
    ensures Ordered(Next(s, step))
  {
    var t := Next(s, step);
    forall g | g in t.revoked ensures g < |t.scheduledAt| && Due(t, g) <= t.now {
      assert g in s.revoked ==> Due(t, g) == Due(s, g);
    }
  }

  lemma RequestStep(s: State, step: Step, id: nat)
    requires Inv(s) && Enabled(s, step) && id in Next(s, step).requests
    ensures Ordered(Next(s, step)) && RequestOk(Next(s, step), Next(s, step).requests[id])
  {
    OrderedStep(s, step);
    hide Due;
    if id in s.requests {
      assert RequestOk(s, s.requests[id]);
    }
  }

  lemma InvStep(s: State, step: Step)
    requires Inv(s) && Enabled(s, step)
    ensures Inv(Next(s, step))
  {
    OrderedStep(s, step);
    forall id | id in Next(s, step).requests ensures RequestOk(Next(s, step), Next(s, step).requests[id]) {
      RequestStep(s, step, id);
    }
  }

  lemma {:induction false} InvRuns(s: State, steps: seq<Step>, t: State)
    requires Inv(s) && Runs(s, steps, t)
    ensures Inv(t)
    decreases |steps|
  {
    if steps != [] {
      InvStep(s, steps[0]);
      InvRuns(Next(s, steps[0]), steps[1..], t);
    }
  }

  lemma ReachableInv(s: State)
    requires Reachable(s)
    ensures Inv(s)
  {
    var timeout, steps :| Runs(Init(timeout), steps, s);
    InitInv(timeout);
    InvRuns(Init(timeout), steps, s);
  }

  // ----- No use after revocation -----

  /** The deadline of a request against the wait before client b is revoked. */
  predicate Covered(s: State, r: Request, b: nat)
    requires b < |s.scheduledAt| && b + 1 < |s.timeouts| && r.snapshot < |s.timeouts|
  {
    r.armedAt + s.timeouts[r.snapshot] <= s.scheduledAt[b] + Max(s.timeouts[b], s.timeouts[b + 1])
  }

  /** The reload's wait is for these: a request of the replaced configuration, one that paired the
      new rules with the old client between the swaps, one whose timeout is no longer than the
      wait, and an older one that armed its deadline by the time its configuration was replaced
      and whose timeout is no longer than the wait plus the time since. */
  predicate WaitedFor(s: State, r: Request, b: nat)
    requires Ordered(s) && b < |s.scheduledAt| && r.snapshot <= s.serving
  {
    || r.snapshot == b
    || r.snapshot == b + 1
    || s.timeouts[r.snapshot] <= Max(s.timeouts[b], s.timeouts[b + 1])
    || (r.snapshot < b && r.armedAt <= s.replacedAt[r.snapshot]
        && s.timeouts[r.snapshot] <= Max(s.timeouts[b], s.timeouts[b + 1]) + (s.scheduledAt[b] - s.replacedAt[r.snapshot]))
  }

  lemma WaitedForIsCovered(s: State, id: nat, b: nat)
    requires Inv(s) && id in s.requests && Uses(s.requests[id], b) && b < |s.scheduledAt|
    requires WaitedFor(s, s.requests[id], b)
    ensures Covered(s, s.requests[id], b)
  {
    assert RequestOk(s, s.requests[id]);
  }

  /** A covered request is done with its client when the revocation is due. */
  lemma CoveredUseEndsByDue(s: State, id: nat, b: nat)
    requires Inv(s) && id in s.requests && Uses(s.requests[id], b) && b < |s.scheduledAt|
    requires Covered(s, s.requests[id], b)
    ensures s.now <= LatestEnd(s.requests[id]) <= Due(s, b)
  {
    assert RequestOk(s, s.requests[id]);
  }

  /** No use after revocation, over all timed runs with any number of requests and reloads: a
      request the wait is for never reads with a revoked client, and its token check can only
      meet the revocation at the instant both time out. */
  lemma NoUseAfterRevoke(s: State, id: nat, b: nat)
    requires Reachable(s) && id in s.requests && Uses(s.requests[id], b) && b in s.revoked
    ensures Inv(s) && b < |s.scheduledAt| && s.requests[id].snapshot <= b + 1
    ensures WaitedFor(s, s.requests[id], b) ==>
              s.requests[id].phase.Probing? && s.now == s.requests[id].phase.until == Due(s, b)
  {
    ReachableInv(s);
    assert RequestOk(s, s.requests[id]);
    if WaitedFor(s, s.requests[id], b) {
      WaitedForIsCovered(s, id, b);
      CoveredUseEndsByDue(s, id, b);
    }
  }

  /** A request never holds a configuration more than one generation newer than its client, and
      the serving configuration never gets further ahead of the client than that. */
  lemma SnapshotsAreNearTheirClient(s: State, id: nat)
    requires Reachable(s) && id in s.requests && Active(s.requests[id])
    ensures s.requests[id].snapshot <= s.requests[id].phase.client + 1 && s.inner <= s.serving <= s.inner + 1
  {
    ReachableInv(s);
    assert RequestOk(s, s.requests[id]);
  }

  // ----- Exactly when a client is revoked in use -----

  lemma {:induction false} RunsMore(s: State, steps: seq<Step>, t: State, step: Step)
    requires Runs(s, steps, t) && Enabled(t, step)
    ensures Runs(s, steps + [step], Next(t, step))
    decreases |steps|
  {
    if steps == [] {
      assert [step][1..] == [];
    } else {
      RunsMore(Next(s, steps[0]), steps[1..], t, step);
      assert (steps + [step])[1..] == steps[1..] + [step];
    }
  }

  lemma ReachMore(s: State, step: Step)
    requires Reachable(s) && Enabled(s, step)
    ensures Reachable(Next(s, step))
  {
    var timeout, steps :| Runs(Init(timeout), steps, s);
    RunsMore(Init(timeout), steps, s, step);
  }

  /** Some run leads from s to t. */
  ghost predicate Leads(s: State, t: State) {
    exists steps :: Runs(s, steps, t)
  }

  lemma LeadsNowhere(s: State)
    ensures Leads(s, s)
  {
    assert Runs(s, [], s);
  }

  lemma LeadsMore(s: State, t: State, step: Step)
    requires Leads(s, t) && Enabled(t, step)
    ensures Leads(s, Next(t, step))
  {
    var steps :| Runs(s, steps, t);
    RunsMore(s, steps, t, step);
  }

  lemma {:induction false} ReachRuns(s: State, steps: seq<Step>, t: State)
    requires Reachable(s) && Runs(s, steps, t)
    ensures Reachable(t)
    decreases |steps|
  {
    if steps != [] {
      ReachMore(s, steps[0]);
      ReachRuns(Next(s, steps[0]), steps[1..], t);
    }
  }

  /** Client b is revoked while the request may still go on using it. */
  predicate RevokedInUse(s: State, id: nat, b: nat) {
    && id in s.requests && Uses(s.requests[id], b)
    && b in s.revoked && s.now < LatestEnd(s.requests[id])
  }

  /** The request's use of client b never gets longer, and its revocation stays due when it is. */
  lemma UseStep(s: State, step: Step, id: nat, b: nat)
    requires Inv(s) && Enabled(s, step) && id in s.requests && b < |s.scheduledAt|
    requires Uses(s.requests[id], b) || s.requests[id].phase.Finished?
    ensures Inv(Next(s, step)) && id in Next(s, step).requests
    ensures var t := Next(s, step); var r := t.requests[id];
            && b < |t.scheduledAt| && Due(t, b) == Due(s, b) && s.now <= t.now
            && (Uses(r, b) || r.phase.Finished?)
            && (Uses(r, b) ==> Uses(s.requests[id], b) && LatestEnd(r) <= LatestEnd(s.requests[id]))
  {
    InvStep(s, step);
    assert RequestOk(s, s.requests[id]);
  }

  lemma {:induction false} UseRuns(s: State, steps: seq<Step>, t: State, id: nat, b: nat)
    requires Inv(s) && Runs(s, steps, t) && id in s.requests && b < |s.scheduledAt|
    requires Uses(s.requests[id], b) || s.requests[id].phase.Finished?
    ensures Inv(t) && id in t.requests && b < |t.scheduledAt| && Due(t, b) == Due(s, b) && s.now <= t.now
    ensures Uses(t.requests[id], b) ==> Uses(s.requests[id], b) && LatestEnd(t.requests[id]) <= LatestEnd(s.requests[id])
    decreases |steps|
  {
    if steps != [] {
      UseStep(s, steps[0], id, b);
      hide Inv, Enabled, Next, Due;
      UseRuns(Next(s, steps[0]), steps[1..], t, id, b);
    }
  }

  function OthersActive(s: State, id: nat): set<nat> {
    set x | x in s.requests && x != id && Active(s.requests[x])
  }

  /** Every other request may be done first. */
  lemma {:induction false} OthersEnd(s: State, u: State, id: nat) returns (t: State)
    requires Leads(s, u) && id in u.requests
    ensures Leads(s, t) && t == u.(requests := t.requests)
    ensures id in t.requests && t.requests[id] == u.requests[id] && OthersActive(t, id) == {}
    decreases |OthersActive(u, id)|
  {
    if OthersActive(u, id) == {} {
      t := u;
    } else {
      var x :| x in OthersActive(u, id);
      var step := if u.requests[x].phase.Reading? then ReadEnds(x, false) else ProbeEnds(x);
      LeadsMore(s, u, step);
      assert OthersActive(Next(u, step), id) == OthersActive(u, id) - {x};
      t := OthersEnd(s, Next(u, step), id);
    }
  }

  lemma Passes(s: State, u: State, id: nat, t: int) returns (v: State)
    requires Leads(s, u) && id in u.requests && Active(u.requests[id]) && OthersActive(u, id) == {}
    requires u.now <= t <= u.requests[id].phase.until
    ensures Leads(s, v) && v == u.(now := t)
  {
    forall x | x in u.requests && Active(u.requests[x]) ensures t <= u.requests[x].phase.until {
      assert x != id ==> x in OthersActive(u, id);
    }
    LeadsMore(s, u, Tick(t - u.now));
    v := Next(u, Tick(t - u.now));
  }

  /** Time passes up to the moment client b may be revoked, with the read refused at its deadline
      when that comes first. */
  lemma UntilDue(s: State, u: State, id: nat, b: nat) returns (v: State)
    requires Leads(s, u) && Inv(u) && id in u.requests && Uses(u.requests[id], b) && OthersActive(u, id) == {}
    requires b < |u.scheduledAt| && Max(Due(u, b), u.now) < LatestEnd(u.requests[id])
    ensures Leads(s, v) && id in v.requests && Uses(v.requests[id], b)
    ensures Due(u, b) <= v.now < LatestEnd(v.requests[id])
    ensures v == u.(now := v.now, requests := v.requests)
    ensures v.requests[id] == u.requests[id].(phase := v.requests[id].phase)
  {
    var r := u.requests[id];
    assert RequestOk(u, r);
    var due := Due(u, b);
    if due <= u.now {
      v := u;
    } else if due <= r.phase.until {
      v := Passes(s, u, id, due);
    } else {
      var w := Passes(s, u, id, r.phase.until);
      LeadsMore(s, w, ReadEnds(id, true));
      var x := Next(w, ReadEnds(id, true));
      assert OthersActive(x, id) == OthersActive(w, id);
      v := Passes(s, x, id, due);
    }
  }

  lemma RevocationCatchesUp(s: State, id: nat, b: nat) returns (t: State)
    requires Inv(s) && id in s.requests && Uses(s.requests[id], b) && b < |s.scheduledAt|
    requires Max(Due(s, b), s.now) < LatestEnd(s.requests[id])
    ensures Leads(s, t) && RevokedInUse(t, id, b)
    ensures t.timeouts == s.timeouts && t.replacedAt == s.replacedAt && t.scheduledAt == s.scheduledAt
    ensures t.requests[id].snapshot == s.requests[id].snapshot && t.requests[id].armedAt == s.requests[id].armedAt
  {
    LeadsNowhere(s);
    hide Leads;
    var u := OthersEnd(s, s, id);
    assert RequestOk(s, s.requests[id]);
    QuietInv(s, u, id);
    var v := UntilDue(s, u, id, b);
    LeadsMore(s, v, Revoke(b));
    t := Next(v, Revoke(b));
  }

  lemma QuietInv(s: State, u: State, id: nat)
    requires Inv(s) && Leads(s, u)
    ensures Inv(u)
  {
    var steps :| Runs(s, steps, u);
    InvRuns(s, steps, u);
  }

  /** In every reachable state, some continuation revokes a replaced client under a request that
      uses it exactly when the revocation is due, or overdue, before that use must end. */
  lemma RevocationExact(s: State, id: nat, b: nat)
    requires Reachable(s) && id in s.requests && Uses(s.requests[id], b)
    ensures Inv(s)
    ensures b < |s.scheduledAt| ==>
              ((exists t :: Leads(s, t) && RevokedInUse(t, id, b)) <==> Max(Due(s, b), s.now) < LatestEnd(s.requests[id]))
  {
    ReachableInv(s);
    if b < |s.scheduledAt| {
      if Max(Due(s, b), s.now) < LatestEnd(s.requests[id]) {
        var t := RevocationCatchesUp(s, id, b);
      } else {
        forall t | Leads(s, t) && RevokedInUse(t, id, b) ensures false {
          var steps :| Runs(s, steps, t);
          UseRuns(s, steps, t, id, b);
        }
      }
    }
  }

  /** For a request still reading, that is when its deadline is not inside the wait. */
  lemma ReadingIsCoveredExact(s: State, id: nat, b: nat)
    requires Reachable(s) && id in s.requests && Uses(s.requests[id], b) && s.requests[id].phase.Reading?
    ensures Inv(s)
    ensures b < |s.scheduledAt| ==>
              ((exists t :: Leads(s, t) && RevokedInUse(t, id, b)) <==> !Covered(s, s.requests[id], b))
  {
    RevocationExact(s, id, b);
    assert RequestOk(s, s.requests[id]);
  }

  // ----- Exactly which configurations let it happen -----

  /** A run of these timeouts in turn revokes client b under a request of generation g. */
  ghost predicate RevokedUnder(s: State, id: nat, timeouts: seq<nat>, g: nat, b: nat) {
    && Reachable(s) && s.timeouts == timeouts && RevokedInUse(s, id, b) && s.requests[id].snapshot == g
    && Inv(s) && b < |s.scheduledAt|
  }

  /** No reload is under way. */
  predicate Settled(s: State, timeouts: seq<nat>, k: nat) {
    && k < |timeouts| && s.timeouts == timeouts[..k + 1]
    && s.serving == s.inner == |s.scheduledAt| == |s.replacedAt| == k
  }

  lemma ReloadOnce(s: State, timeouts: seq<nat>, k: nat) returns (t: State)
    requires Reachable(s) && Settled(s, timeouts, k) && k + 1 < |timeouts|
    ensures Reachable(t) && Settled(t, timeouts, k + 1)
    ensures t.now == s.now && t.requests == s.requests && t.revoked == s.revoked
    ensures t.replacedAt == s.replacedAt + [s.now] && t.scheduledAt == s.scheduledAt + [s.now]
  {
    hide Reachable;
    assert timeouts[..k + 2] == timeouts[..k + 1] + [timeouts[k + 1]];
    ReachMore(s, SwapServer(timeouts[k + 1]));
    t := Next(s, SwapServer(timeouts[k + 1]));
    ReachMore(t, SwapCache);
    t := Next(t, SwapCache);
    ReachMore(t, ScheduleRevoke);
    t := Next(t, ScheduleRevoke);
  }

  /** The reloads up to generation m, all at once. */
  lemma {:induction false} ReloadTo(s: State, timeouts: seq<nat>, k: nat, m: nat) returns (t: State)
    requires Reachable(s) && Settled(s, timeouts, k) && k <= m < |timeouts|
    ensures Reachable(t) && Settled(t, timeouts, m)
    ensures t.now == s.now && t.requests == s.requests && t.revoked == s.revoked
    ensures forall i :: 0 <= i < k ==> t.replacedAt[i] == s.replacedAt[i] && t.scheduledAt[i] == s.scheduledAt[i]
    ensures forall i :: k <= i < m ==> t.replacedAt[i] == s.now && t.scheduledAt[i] == s.now
    decreases m - k
  {
    hide Reachable;
    if k == m {
      t := s;
    } else {
      var u := ReloadOnce(s, timeouts, k);
      t := ReloadTo(u, timeouts, k + 1, m);
    }
  }

  lemma ReachTick(s: State, t: int) returns (u: State)
    requires Reachable(s) && s.now <= t && MayPass(s, t)
    ensures Reachable(u) && u == s.(now := t)
  {
    ReachMore(s, Tick(t - s.now));
    u := Next(s, Tick(t - s.now));
  }

  /** Request 0 loads generation g, which is replaced at p, and arms its deadline at a. Generation b
      is in force by the later of the two. */
  lemma ArmedRequest(timeouts: seq<nat>, g: nat, b: nat, p: nat, a: nat) returns (s: State)
    requires g < b < |timeouts|
    ensures Reachable(s) && Settled(s, timeouts, b)
    ensures s.now == Max(a, p) && s.requests == map[0 := Request(g, a, Armed)]
    ensures s.replacedAt[g] == p
  {
    assert Runs(Init(timeouts[0]), [], Init(timeouts[0]));
    hide Reachable, Runs;
    s := ReloadTo(Init(timeouts[0]), timeouts, 0, g);
    ReachMore(s, Load(0));
    s := Next(s, Load(0));
    if a <= p {
      s := ReachTick(s, a);
      ReachMore(s, Arm(0));
      s := Next(s, Arm(0));
      s := ReachTick(s, p);
      s := ReloadTo(s, timeouts, g, b);
    } else {
      s := ReachTick(s, p);
      s := ReloadTo(s, timeouts, g, b);
      s := ReachTick(s, a);
      ReachMore(s, Arm(0));
      s := Next(s, Arm(0));
    }
  }

  /** It takes client b, which is replaced at c while it reads. */
  lemma ReplacedWhileReading(timeouts: seq<nat>, g: nat, b: nat, p: nat, a: nat, c: nat) returns (s: State)
    requires g < b && b + 1 < |timeouts| && p <= c && a <= c <= a + timeouts[g]
    ensures Reachable(s) && Settled(s, timeouts, |timeouts| - 1) && s.timeouts == timeouts
    ensures 0 in s.requests && s.requests[0] == Request(g, a, Reading(b, a + timeouts[g]))
    ensures s.replacedAt[g] == p && s.scheduledAt[b] == c
  {
    hide Reachable;
    s := ArmedRequest(timeouts, g, b, p, a);
    ReachMore(s, TakeClient(0));
    s := Next(s, TakeClient(0));
    s := ReachTick(s, c);
    s := ReloadTo(s, timeouts, b, |timeouts| - 1);
  }

  /** Given when the request armed its deadline and when the revocation was scheduled, with any
      reloads around: client b is revoked under a request of an older generation g in some run
      exactly when the deadline is past the wait. When g was replaced does not matter. */
  lemma RevokedByTimesExact(timeouts: seq<nat>, g: nat, b: nat, p: nat, a: nat, c: nat)
    requires g < b && b + 1 < |timeouts| && p <= c && a <= c
    ensures (exists s, id :: RevokedUnder(s, id, timeouts, g, b) && s.replacedAt[g] == p
                             && s.requests[id].armedAt == a && s.scheduledAt[b] == c)
            <==> a + timeouts[g] > c + Max(timeouts[b], timeouts[b + 1])
  {
    if a + timeouts[g] > c + Max(timeouts[b], timeouts[b + 1]) {
      var s := RevokedByTimes(timeouts, g, b, p, a, c);
    } else {
      forall s, id | RevokedUnder(s, id, timeouts, g, b) && s.requests[id].armedAt == a && s.scheduledAt[b] == c
        ensures false
      {
        RevokedIsNotCovered(s, id, timeouts, g, b);
      }
    }
  }

  lemma RevokedByTimes(timeouts: seq<nat>, g: nat, b: nat, p: nat, a: nat, c: nat) returns (t: State)
    requires g < b && b + 1 < |timeouts| && p <= c && a <= c
    requires a + timeouts[g] > c + Max(timeouts[b], timeouts[b + 1])
    ensures RevokedUnder(t, 0, timeouts, g, b) && t.replacedAt[g] == p
    ensures t.requests[0].armedAt == a && t.scheduledAt[b] == c
  {
    var s := ReplacedWhileReading(timeouts, g, b, p, a, c);
    ReachableInv(s);
    t := RevocationCatchesUp(s, 0, b);
    var steps :| Runs(s, steps, t);
    ReachRuns(s, steps, t);
    ReachableInv(t);
  }

  lemma RevokedIsNotCovered(s: State, id: nat, timeouts: seq<nat>, g: nat, b: nat)
    requires RevokedUnder(s, id, timeouts, g, b)
    ensures b + 1 < |timeouts| && g < |timeouts| && s.requests[id].armedAt <= s.scheduledAt[b]
    ensures s.requests[id].armedAt + timeouts[g] > s.scheduledAt[b] + Max(timeouts[b], timeouts[b + 1])
    ensures g < b
  {
    assert RequestOk(s, s.requests[id]);
    if Covered(s, s.requests[id], b) {
      CoveredUseEndsByDue(s, id, b);
    }
  }

  /** With no word on times: client b is revoked in use under a generation it can meet in some run
      exactly when that generation's timeout exceeds both that the wait compares. */
  lemma RevokedByTimeoutsExact(timeouts: seq<nat>, g: nat, b: nat)
    requires b + 1 < |timeouts| && g <= b + 1
    ensures (exists s, id :: RevokedUnder(s, id, timeouts, g, b))
            <==> timeouts[g] > Max(timeouts[b], timeouts[b + 1])
  {
    if timeouts[g] > Max(timeouts[b], timeouts[b + 1]) {
      var s := RevokedByTimes(timeouts, g, b, 0, 0, 0);
    } else {
      forall s, id | RevokedUnder(s, id, timeouts, g, b) ensures false {
        RevokedIsNotCovered(s, id, timeouts, g, b);
      }
    }
  }

  /** Requests that armed their deadline by the time their configuration was replaced, as all do
      that are not held up between loading it and arming. For these the time between the
      replacement and the scheduling counts too. */
  lemma PromptlyArmedExact(timeouts: seq<nat>, g: nat, b: nat, p: nat, c: nat)
    requires g < b && b + 1 < |timeouts| && p <= c
    ensures (exists s, id :: RevokedUnder(s, id, timeouts, g, b) && s.replacedAt[g] == p
                             && s.requests[id].armedAt <= p && s.scheduledAt[b] == c)
            <==> timeouts[g] > (c - p) + Max(timeouts[b], timeouts[b + 1])
  {
    if timeouts[g] > (c - p) + Max(timeouts[b], timeouts[b + 1]) {
      var s := RevokedByTimes(timeouts, g, b, p, p, c);
    } else {
      forall s, id | RevokedUnder(s, id, timeouts, g, b) && s.replacedAt[g] == p
                     && s.requests[id].armedAt <= p && s.scheduledAt[b] == c
        ensures false
      {
        RevokedIsNotCovered(s, id, timeouts, g, b);
      }
    }
  }

  /** Generation g may have requests that outlast the wait before client b is revoked. */
  predicate Outlasts(timeouts: seq<nat>, g: nat, b: nat) {
    g < b && b + 1 < |timeouts| && timeouts[g] > Max(timeouts[b], timeouts[b + 1])
  }

  /** No run of these timeouts in turn revokes any client under any request. */
  ghost predicate NeverRevokedInUse(timeouts: seq<nat>) {
    forall s, id, b :: Reachable(s) && s.timeouts == timeouts ==> !RevokedInUse(s, id, b)
  }

  /** The timeouts of the configurations alone decide it: no earlier one may exceed both of a later
      pair of neighbours. */
  lemma SafeTimeoutsExact(timeouts: seq<nat>)
    ensures NeverRevokedInUse(timeouts) <==> forall g: nat, b: nat :: !Outlasts(timeouts, g, b)
  {
    forall g: nat, b: nat | Outlasts(timeouts, g, b) ensures !NeverRevokedInUse(timeouts) {
      hide Reachable;
      var s := RevokedByTimes(timeouts, g, b, 0, 0, 0);
    }
    forall s, id, b | Reachable(s) && s.timeouts == timeouts && RevokedInUse(s, id, b)
      ensures exists g: nat :: Outlasts(timeouts, g, b)
    {
      RevokedOutlasts(s, id, b);
    }
  }

  lemma RevokedOutlasts(s: State, id: nat, b: nat)
    requires Reachable(s) && RevokedInUse(s, id, b)
    ensures Outlasts(s.timeouts, s.requests[id].snapshot, b)
  {
    ReachableInv(s);
    hide Reachable;
    RevokedIsNotCovered(s, id, s.timeouts, s.requests[id].snapshot, b);
  }
}
