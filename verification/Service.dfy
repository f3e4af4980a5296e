/** The service state a reload replaces, and who owns each OpenBao client. run is the reload state
    machine beside it, with the requests in flight. */
module Service {
  import opened Text
  import opened Numbers
  import opened Reload

  /** The [openbao] section, as far as two of them can differ. */
  datatype OpenBao = OpenBao(address: string, method_: string, serveStaleFor: int)

  datatype Configuration = Configuration(openbao: OpenBao, connectionTimeout: nat, rules: seq<string>)

  /** bao.Client: the section it was built from, whether its token renewal was stopped, and whether
      its token was revoked. */
  class BaoClient {
    const section: OpenBao
    var stopped: bool
    var revoked: bool

    constructor (section: OpenBao)
      ensures this.section == section && !stopped && !revoked
    {
      this.section, stopped, revoked := section, false, false;
    }
  }

  /** How bao.New ends. */
  datatype Login = LoggedIn | LoginFailed

  /** The client is gone for good. */
  ghost predicate Discarded(c: BaoClient)
    reads c
  {
    c.stopped && c.revoked
  }

  /** The client is in use, waits for its revocation, or is gone. */
  ghost predicate Accounted(c: BaoClient, inUse: BaoClient, timers: map<BaoClient, int>)
    reads c
  {
    c == inUse || (c in timers && c.stopped) || Discarded(c)
  }

  // ----- authenticate -----

  /** One turn of the loop: how the login ended, and what the file holds after it. */
  datatype Turn = Turn(login: Login, reread: Option<Configuration>)

  datatype Startup = Started(cfg: Configuration, client: BaoClient) | StartFailed | StillTrying

  /** The configuration read last, cfg having been read at startup. */
  function Latest(cfg: Configuration, turns: seq<Turn>): Configuration {
    if turns == [] then cfg
    else if turns[|turns| - 1].reread.Some? then turns[|turns| - 1].reread.value
    else Latest(cfg, turns[..|turns| - 1])
  }

  /** Turn n logs in and reads a file whose [openbao] section is not the one it logged in with, so
      the client is thrown away and another turn follows. */
  predicate GoesOn(cfg: Configuration, turns: seq<Turn>, n: nat)
    requires n < |turns|
  {
    && turns[n].login == LoggedIn && turns[n].reread.Some?
    && turns[n].reread.value.openbao != Latest(cfg, turns[..n]).openbao
  }

  /** authenticate over as many turns as the file keeps changing: the number of turns it takes is
      used. The last of them decides, and all before it go on. */
  method Authenticate(cfg: Configuration, turns: seq<Turn>) returns (r: Startup, used: nat, ghost made: set<BaoClient>)
    ensures fresh(made) && used <= |turns|
    ensures forall n: nat :: n + 1 < used ==> GoesOn(cfg, turns, n)
    ensures match r
            case StillTrying => used == |turns| == |made| && (forall n: nat :: n < |turns| ==> GoesOn(cfg, turns, n))
            case StartFailed => 0 < used == |made| + 1 && turns[used - 1].login == LoginFailed
            case Started(_, _) => 0 < used == |made| && turns[used - 1].login == LoggedIn && !GoesOn(cfg, turns, used - 1)
    ensures r.Started? ==>
              && r.client in made && !r.client.stopped && !r.client.revoked
              && r.cfg == Latest(cfg, turns[..used]) && r.client.section == r.cfg.openbao
    ensures forall c :: c in made && !(r.Started? && c == r.client) ==> Discarded(c)
  {
    made := {};
    used := 0;
    var current := cfg;
    while used < |turns|
      invariant used <= |turns| && fresh(made) && |made| == used && current == Latest(cfg, turns[..used])
      invariant forall n: nat :: n < used ==> GoesOn(cfg, turns, n)
      invariant forall c :: c in made ==> Discarded(c)
    {
      var turn := turns[used];
      assert turns[..used + 1] == turns[..used] + [turn];
      used := used + 1;
      if turn.login == LoginFailed {
        return StartFailed, used, made;
      }
      var client := new BaoClient(current.openbao);
      made := made + {client};
      match turn.reread {
        case None =>
          return Started(current, client), used, made;
        case Some(next) =>
          if next.openbao == current.openbao {
            return Started(next, client), used, made;
          }
          client.stopped := true;
          client.revoked := true;
          current := next;
      }
    }
    r := StillTrying;
  }

  // ----- reload -----

  /** What requests and the clock do by themselves. */
  predicate ByItself(step: Step) {
    !(step.SwapServer? || step.SwapCache? || step.ScheduleRevoke? || step.Revoke?)
  }

  predicate ByThemselves(steps: seq<Step>) {
    forall i :: 0 <= i < |steps| ==> ByItself(steps[i])
  }

  /** The configurations, clients and revocations of the two states are the same. */
  predicate SameService(s: State, t: State) {
    && s.timeouts == t.timeouts && s.serving == t.serving && s.inner == t.inner
    && s.scheduledAt == t.scheduledAt && s.revoked == t.revoked && s.now <= t.now
  }

  lemma {:induction false} MeanwhileSame(s: State, steps: seq<Step>, t: State)
    requires Runs(s, steps, t) && ByThemselves(steps)
    ensures SameService(s, t)
    decreases |steps|
  {
    if steps != [] {
      MeanwhileSame(Next(s, steps[0]), steps[1..], t);
    }
  }

  /** Where the three steps of a reload lead when requests go on between them. */
  ghost predicate ReloadRuns(s: State, timeout: nat, a: State, b: State, t: State) {
    && Enabled(s, SwapServer(timeout))
    && (exists steps :: ByThemselves(steps) && Runs(Next(s, SwapServer(timeout)), steps, a))
    && Enabled(a, SwapCache)
    && (exists steps :: ByThemselves(steps) && Runs(Next(a, SwapCache), steps, b))
    && Enabled(b, ScheduleRevoke)
    && t == Next(b, ScheduleRevoke)
  }

  lemma ReloadReaches(s: State, timeout: nat, a: State, b: State, t: State)
    requires Reachable(s) && ReloadRuns(s, timeout, a, b, t)
    ensures Reachable(t)
    ensures SameService(Next(s, SwapServer(timeout)), a) && SameService(Next(a, SwapCache), b)
  {
    hide Enabled, Next, Reachable, SameService, ByThemselves, Runs;
    var first :| ByThemselves(first) && Runs(Next(s, SwapServer(timeout)), first, a);
    var second :| ByThemselves(second) && Runs(Next(a, SwapCache), second, b);
    MeanwhileSame(Next(s, SwapServer(timeout)), first, a);
    MeanwhileSame(Next(a, SwapCache), second, b);
    ReachMore(s, SwapServer(timeout));
    ReachRuns(Next(s, SwapServer(timeout)), first, a);
    ReachMore(a, SwapCache);
    ReachRuns(Next(a, SwapCache), second, b);
    ReachMore(b, ScheduleRevoke);
  }

  /** What a reload leaves of the service's part of the state. */
  lemma ReloadEffect(s: State, timeout: nat, a: State, b: State, t: State)
    requires Reachable(s) && ReloadRuns(s, timeout, a, b, t)
    ensures Reachable(t) && Ordered(s) && Ordered(t)
    ensures t.serving == t.inner == |t.scheduledAt| == s.serving + 1 && s.serving == s.inner == |s.scheduledAt|
    ensures t.timeouts == s.timeouts + [timeout] && t.revoked == s.revoked && s.now <= t.now
    ensures t.scheduledAt == s.scheduledAt + [t.now] && |t.timeouts| == t.serving + 1
    ensures forall g :: 0 <= g < |s.scheduledAt| ==> Due(t, g) == Due(s, g)
    ensures Due(t, |s.scheduledAt|) == t.now + Max(s.timeouts[s.serving], timeout) + PROBE_TIMEOUT
  {
    ReloadReaches(s, timeout, a, b, t);
    ReachableInv(s);
    ReachableInv(t);
    hide Reachable, Runs, RequestOk, Inv, MayPass, ByThemselves;
  }

  /** Generation g's client is adopted[g], and the timers are the revocations that are still due. */
  ghost predicate Tracks(run: State, adopted: seq<BaoClient>, timers: map<BaoClient, int>) {
    && Reachable(run) && Ordered(run)
    && run.serving == run.inner == |run.scheduledAt| == |adopted| - 1
    && (forall g, h :: 0 <= g < h < |adopted| ==> adopted[g] != adopted[h])
    && (forall g :: 0 <= g < |run.scheduledAt| && g !in run.revoked ==>
          adopted[g] in timers && timers[adopted[g]] == Due(run, g))
    && (forall c :: c in timers ==> exists g :: 0 <= g < |run.scheduledAt| && adopted[g] == c && g !in run.revoked)
  }

  /** A reload adopts client c and leaves the revocation of the one before it to a timer. */
  lemma TracksReload(s: State, adopted: seq<BaoClient>, timers: map<BaoClient, int>, timeout: nat, c: BaoClient,
      a: State, b: State, t: State)
    requires Tracks(s, adopted, timers) && c !in adopted && ReloadRuns(s, timeout, a, b, t)
    ensures |adopted| > 0 && s.serving < |s.timeouts|
    ensures var due := t.now + Max(s.timeouts[s.serving], timeout) + PROBE_TIMEOUT;
            Tracks(t, adopted + [c], timers[adopted[|adopted| - 1] := due])
    ensures t.serving == t.inner == |t.scheduledAt| == |adopted|
    ensures t.timeouts == s.timeouts + [timeout] && t.revoked == s.revoked
    ensures |t.timeouts| == |adopted| + 1 && forall g :: g in s.revoked ==> g < |adopted| - 1
  {
    ReloadEffect(s, timeout, a, b, t);
    assert forall g :: g in s.revoked ==> g < |s.scheduledAt|;
    hide Reachable, Ordered, ReloadRuns, Due, Max, Runs, Enabled;
    var n := |s.scheduledAt|;
    var timers' := timers[adopted[n] := t.now + Max(s.timeouts[s.serving], timeout) + PROBE_TIMEOUT];
    forall x | x in timers'
      ensures exists g :: 0 <= g < |t.scheduledAt| && (adopted + [c])[g] == x && g !in t.revoked
    {
      if x == adopted[n] {
        assert (adopted + [c])[n] == x;
      } else {
        var g :| 0 <= g < n && adopted[g] == x && g !in s.revoked;
        assert (adopted + [c])[g] == x;
      }
    }
  }

  lemma RevokeEffect(s: State, g: nat)
    requires Reachable(s) && Ordered(s) && g < |s.scheduledAt| && Due(s, g) <= s.now
    ensures Enabled(s, Revoke(g)) && Next(s, Revoke(g)) == s.(revoked := s.revoked + {g})
    ensures var t := Next(s, Revoke(g));
            Reachable(t) && Ordered(t) && forall h :: 0 <= h < |s.scheduledAt| ==> Due(t, h) == Due(s, h)
  {
    ReachMore(s, Revoke(g));
    hide Reachable;
    OrderedStep(s, Revoke(g));
  }

  /** A timer belongs to the generation whose client it revokes. */
  lemma TracksRevoke(s: State, adopted: seq<BaoClient>, timers: map<BaoClient, int>, c: BaoClient, g: nat)
    requires Tracks(s, adopted, timers) && c in timers && timers[c] <= s.now
    requires g < |adopted| && adopted[g] == c
    ensures g < |s.scheduledAt| && g !in s.revoked && Enabled(s, Revoke(g))
    ensures Next(s, Revoke(g)) == s.(revoked := s.revoked + {g})
    ensures Tracks(Next(s, Revoke(g)), adopted, timers - {c})
    ensures forall h :: 0 <= h < |adopted| && h != g ==> adopted[h] != c
  {
    hide Ordered, Enabled, Next, Due, Reachable;
    var h :| 0 <= h < |s.scheduledAt| && adopted[h] == c && h !in s.revoked;
    assert h == g;
    RevokeEffect(s, g);
    var t := Next(s, Revoke(g));
    forall x | x in timers - {c} ensures exists h :: 0 <= h < |t.scheduledAt| && adopted[h] == x && h !in t.revoked {
      var h :| 0 <= h < |s.scheduledAt| && adopted[h] == x && h !in s.revoked;
      assert h != g;
    }
  }

  class Service {
    var cfg: Configuration
    var client: BaoClient
    /** What the server and the cache hold. */
    var rules: seq<string>
    var timeout: nat
    var inner: BaoClient
    var maxAge: int
    /** The revocations scheduled and not yet done. */
    var timers: map<BaoClient, int>

    /** Every client the service ever made, those it adopted in turn, and the machine's state. */
    ghost var made: set<BaoClient>
    ghost var adopted: seq<BaoClient>
    ghost var run: State

    /** The server, the cache and the service agree on one configuration and its live client. */
    ghost predicate Consistent()
      reads this, client
    {
      && rules == cfg.rules && timeout == cfg.connectionTimeout
      && inner == client && maxAge == cfg.openbao.serveStaleFor
      && client.section == cfg.openbao && !client.stopped
    }

    /** The revoked clients are the ones the machine revoked. */
    ghost predicate Marked()
      reads this`adopted, this`made, this`run, made`revoked
    {
      forall g :: 0 <= g < |adopted| ==> adopted[g] in made && (adopted[g].revoked <==> g in run.revoked)
    }

    /** The service is in the state the machine is in: generation g's client is adopted[g]. */
    ghost predicate Follows()
      reads this, made
    {
      && Tracks(run, adopted, timers)
      && timeout == run.timeouts[run.serving] && client == adopted[run.inner]
      && Marked()
    }

    /** No client is lost: each one made is the one in use, waits for its revocation, or is gone. */
    ghost predicate NoneLost()
      reads this, made
    {
      && client in made && client !in timers && timers.Keys <= made
      && forall c :: c in made ==> Accounted(c, client, timers)
    }

    ghost predicate Valid()
      reads this, made, client
    {
      Consistent() && Follows() && NoneLost()
    }

    constructor (cfg: Configuration, client: BaoClient)
      requires client.section == cfg.openbao && !client.stopped && !client.revoked
      ensures Valid() && this.cfg == cfg && this.client == client && made == {client} && timers == map[]
    {
      this.cfg, this.client := cfg, client;
      rules, timeout := cfg.rules, cfg.connectionTimeout;
      inner, maxAge := client, cfg.openbao.serveStaleFor;
      timers, made, adopted, run := map[], {client}, [client], Init(cfg.connectionTimeout);
      new;
      assert Runs(Init(cfg.connectionTimeout), [], run);
    }

    /** reload. fired says that the give-up timer went off before it could be stopped. The new
        configuration is adopted whole or not at all. Requests may take any steps between the
        two swaps and before the revocation is scheduled: a, b and t are where they got. */
    method Reload(loaded: Option<Configuration>, login: Login, fired: bool, now: int, ghost a: State, ghost b: State, ghost t: State)
      returns (ok: bool)
      requires Valid()
      requires loaded.Some? ==> ReloadRuns(run, loaded.value.connectionTimeout, a, b, t) && t.now == now
      modifies this, client`stopped
      ensures Valid() && old(made) <= made && fresh(made - old(made))
      ensures ok <==> loaded.Some? && login == LoggedIn && !fired
      ensures ok ==>
                && cfg == loaded.value && fresh(client) && made == old(made) + {client}
                && run == t && adopted == old(adopted) + [client]
                && timers == old(timers)[old(client) := now + Max(old(cfg).connectionTimeout, cfg.connectionTimeout) + 5_000]
      ensures !ok ==>
                && cfg == old(cfg) && client == old(client) && inner == old(inner) && rules == old(rules)
                && timeout == old(timeout) && maxAge == old(maxAge)
                && timers == old(timers) && run == old(run) && adopted == old(adopted)
                && forall c :: c in made - old(made) ==> Discarded(c)
    {
      hide Consistent, Follows, NoneLost, ReloadRuns, Max;
      if loaded == None {
        return false;
      }
      if login == LoginFailed {
        return false;
      }
      var next := new BaoClient(loaded.value.openbao);
      MadeIsAllocated();
      if fired {
        next.stopped := true;
        next.revoked := true;
        Record(next);
        return false;
      }
      Adopt(loaded.value, next, now, a, b, t);
      ok := true;
    }

    lemma MadeIsAllocated()
      requires Valid()
      ensures client in made
    {
    }

    /** Books a client that was thrown away. */
    ghost method Record(c: BaoClient)
      requires Valid() && c !in made && Discarded(c)
      modifies this`made
      ensures Valid() && made == old(made) + {c}
    {
      hide Tracks;
      made := made + {c};
    }

    lemma Parts()
      requires Valid()
      ensures Tracks(run, adopted, timers) && run.serving < |run.timeouts| && run.inner == |adopted| - 1
      ensures timeout == cfg.connectionTimeout == run.timeouts[run.serving] && client == adopted[run.inner] && client in made
      ensures Marked()
      ensures timers.Keys <= made
      ensures forall c :: c in made ==> Accounted(c, client, timers)
    {
    }

    /** The rest of reload once the new client is there. */
    method Adopt(next: Configuration, c: BaoClient, now: int, ghost a: State, ghost b: State, ghost t: State)
      requires Valid() && c !in made && c.section == next.openbao && !c.stopped && !c.revoked
      requires ReloadRuns(run, next.connectionTimeout, a, b, t) && t.now == now
      modifies this, client`stopped
      ensures Valid() && cfg == next && client == c && made == old(made) + {c}
      ensures run == t && adopted == old(adopted) + [c]
      ensures timers == old(timers)[old(client) := now + Max(old(cfg).connectionTimeout, cfg.connectionTimeout) + PROBE_TIMEOUT]
    {
      hide *;
      Parts();
      ghost var before, was := timers, client;
      Install(next, c, now);
      InUseIsAccounted(was, before);
      Book(was, before, a, b, t);
    }

    lemma InUseIsAccounted(c: BaoClient, timers: map<BaoClient, int>)
      ensures Accounted(c, c, timers)
    {
    }

    /** The assignments of reload. */
    method Install(next: Configuration, c: BaoClient, now: int)
      requires c != client && c.section == next.openbao && !c.stopped
      modifies this`cfg, this`client, this`rules, this`timeout, this`inner, this`maxAge, this`timers, client`stopped
      ensures cfg == next && client == c && old(client).stopped && Consistent()
      ensures timers == old(timers)[old(client) := now + Max(old(cfg).connectionTimeout, next.connectionTimeout) + PROBE_TIMEOUT]
    {
      rules, timeout := next.rules, next.connectionTimeout;
      inner, maxAge := c, next.openbao.serveStaleFor;
      client.stopped := true;
      timers := timers[client := now + Max(cfg.connectionTimeout, next.connectionTimeout) + PROBE_TIMEOUT];
      client, cfg := c, next;
    }

    /** Books the client that was adopted over was, with the timers there were before. */
    ghost method Book(was: BaoClient, before: map<BaoClient, int>, a: State, b: State, t: State)
      requires Consistent() && Tracks(run, adopted, before) && ReloadRuns(run, timeout, a, b, t)
      requires was == adopted[run.inner] && client !in made && !client.revoked && was in made && was.stopped
      requires run.serving < |run.timeouts| && run.inner == |adopted| - 1
      requires timers == before[was := t.now + Max(run.timeouts[run.serving], timeout) + PROBE_TIMEOUT]
      requires Marked()
      requires before.Keys <= made && forall c :: c in made ==> Accounted(c, was, before)
      modifies this`made, this`adopted, this`run
      ensures Valid() && made == old(made) + {client} && adopted == old(adopted) + [client] && run == t
    {
      hide Tracks, ReloadRuns, Max, Reachable, Ordered, Due, Runs, Enabled, Next, Accounted, Discarded;
      TracksReload(run, adopted, before, timeout, client, a, b, t);
      ReplacedIsAccounted(was, before);
      made, adopted, run := made + {client}, adopted + [client], t;
    }

    lemma ReplacedIsAccounted(was: BaoClient, before: map<BaoClient, int>)
      requires was.stopped && was in timers && timers == before[was := timers[was]]
      requires forall c :: c in made ==> Accounted(c, was, before)
      ensures forall c :: c in made + {client} ==> Accounted(c, client, timers)
    {
    }

    /** A revocation timer goes off. */
    method RevokeDue(c: BaoClient, ghost g: nat)
      requires Valid() && c in timers && timers[c] <= run.now
      requires g < |adopted| && adopted[g] == c
      modifies this, c`revoked
      ensures Valid() && timers == old(timers) - {c} && c.revoked
      ensures cfg == old(cfg) && client == old(client) && made == old(made) && adopted == old(adopted)
      ensures Enabled(old(run), Revoke(g)) && run == Next(old(run), Revoke(g))
    {
      TracksRevoke(run, adopted, timers, c, g);
      hide Tracks, Enabled, Next, Max, Due, Ordered, Reachable, Runs;
      c.revoked := true;
      timers := timers - {c};
      run := Next(run, Revoke(g));
    }

    /** A request the reload waits for finds its client unrevoked, up to the instant its token
        check times out. */
    lemma ClientsInUseAreLive(id: nat, g: nat)
      requires Valid() && g < |adopted| && id in run.requests && Uses(run.requests[id], g)
      ensures Inv(run) && g < |run.timeouts|
      ensures g == |adopted| - 1 ==> !adopted[g].revoked && !adopted[g].stopped
      ensures g < |adopted| - 1 && adopted[g].revoked && WaitedFor(run, run.requests[id], g) ==>
                run.requests[id].phase.Probing? && run.now == run.requests[id].phase.until
    {
      ReachableInv(run);
      assert RequestOk(run, run.requests[id]);
      if g in run.revoked {
        NoUseAfterRevoke(run, id, g);
      }
    }

    /** Requests and the clock go on. */
    ghost method Meanwhile(steps: seq<Step>, t: State)
      requires Valid() && ByThemselves(steps) && Runs(run, steps, t)
      modifies this`run
      ensures Valid() && run == t
    {
      MeanwhileSame(run, steps, t);
      ReachRuns(run, steps, t);
      ReachableInv(t);
      hide Reachable;
      run := t;
    }
  }
}
