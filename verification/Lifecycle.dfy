/** The token lifecycle beside any number of readers: the one-slot reauth channel, the waits, the
    drain, re-login, and the backoff after renewal failures. */
module Lifecycle {
  import opened Text
  import opened Backoff

  /** What the current token allows: no expiry, renewal until it ends, or a fixed lease. */
  datatype TokenKind = NoExpiry | Renewable | FixedLease

  datatype Pc =
    | Top
    | Waiting
    | Sleeping(retryable: bool)
    | Deciding(retryFailed: bool, rejected: bool)
    | Drained
    | LoggingIn
    | Stopped

  datatype State = State(
    canRelogin: bool,
    kind: TokenKind,
    pc: Pc,
    pending: bool,
    backoff: nat,
    canceled: bool)

  function Init(canRelogin: bool, kind: TokenKind): State {
    State(canRelogin, kind, Top, false, BACKOFF_START, false)
  }

  datatype Step =
    | Signal
    | Cancel
    | Enter
    | WaitElapsed
    | WaitRejected
    | WaitFailed(retryable: bool)
    | WaitCanceled
    | SleepEnds
    | SleepCanceled
    | Decide
    | Drain
    | LoginBegins
    | LoginCanceled
    | LoginSucceeds(kind: TokenKind)

  predicate Enabled(s: State, step: Step) {
    match step
    case Signal => true
    case Cancel => true
    case Enter => s.pc.Top?
    case WaitElapsed => s.pc.Waiting? && !s.kind.NoExpiry? && !s.canceled
    case WaitRejected => s.pc.Waiting? && s.pending && !s.canceled
    case WaitFailed(_) => s.pc.Waiting? && s.kind.Renewable? && !s.canceled
    case WaitCanceled => s.pc.Waiting? && s.canceled
    case SleepEnds => s.pc.Sleeping?
    case SleepCanceled => s.pc.Sleeping? && s.canceled
    case Decide => s.pc.Deciding? && !s.canRelogin
    case Drain => s.pc.Deciding? && s.canRelogin
    case LoginBegins => s.pc.Drained?
    case LoginCanceled => s.pc.LoggingIn? && s.canceled
    case LoginSucceeds(_) => s.pc.LoggingIn?
  }

  /** Readers signal at any time, and a signal into the full slot is dropped. The wait consumes
      the slot, the drain empties it, and a login follows before the loop waits again. */
  function Next(s: State, step: Step): State
    requires Enabled(s, step)
  {
    match step
    case Signal => s.(pending := true)
    case Cancel => s.(canceled := true)
    case Enter => s.(pc := if s.kind.NoExpiry? && !s.canRelogin then Stopped else Waiting)
    case WaitElapsed => s.(pc := Deciding(false, false), backoff := BACKOFF_START)
    case WaitRejected => s.(pc := Deciding(false, true), pending := false, backoff := BACKOFF_START)
    case WaitFailed(retryable) => s.(pc := Sleeping(retryable))
    case WaitCanceled => s.(pc := Stopped)
    case SleepEnds => s.(pc := Deciding(s.pc.retryable, false), backoff := NextBackoff(s.backoff))
    case SleepCanceled => s.(pc := Stopped)
    case Decide => s.(pc := if s.pc.retryFailed then Top else Stopped)
    case Drain => s.(pc := Drained, pending := false)
    case LoginBegins => s.(pc := LoggingIn)
    case LoginCanceled => s.(pc := Stopped)
    case LoginSucceeds(kind) => s.(pc := Top, kind := kind)
  }

  /** The state after the steps, if each can be taken. */
  function After(s: State, steps: seq<Step>): Option<State> {
    if steps == [] then Some(s)
    else
      var last := steps[|steps| - 1];
      match After(s, steps[..|steps| - 1])
      case None => None
      case Some(u) => if Enabled(u, last) then Some(Next(u, last)) else None
  }

  predicate Runs(canRelogin: bool, kind: TokenKind, steps: seq<Step>, s: State) {
    After(Init(canRelogin, kind), steps) == Some(s)
  }

  /** A run without its last step. */
  lemma Before(canRelogin: bool, kind: TokenKind, steps: seq<Step>, s: State) returns (u: State)
    requires Runs(canRelogin, kind, steps, s) && steps != []
    ensures Runs(canRelogin, kind, steps[..|steps| - 1], u)
    ensures Enabled(u, steps[|steps| - 1]) && s == Next(u, steps[|steps| - 1])
  {
    u := After(Init(canRelogin, kind), steps[..|steps| - 1]).value;
  }

  // ----- The slot holds exactly the signals nothing has taken up -----

  predicate EmptiesSlot(step: Step) {
    step.Drain? || step.WaitRejected?
  }

  /** Signal i is still in the slot after the steps, alone or with later ones. */
  predicate Outstanding(steps: seq<Step>, i: nat) {
    i < |steps| && steps[i].Signal? && forall j :: i < j < |steps| ==> !EmptiesSlot(steps[j])
  }

  /** The slot is full exactly when a signal was sent since it was last emptied. */
  lemma {:induction false} PendingIsOutstanding(canRelogin: bool, kind: TokenKind, steps: seq<Step>, s: State)
    requires Runs(canRelogin, kind, steps, s)
    ensures s.pending <==> exists i :: 0 <= i < |steps| && Outstanding(steps, i)
    decreases |steps|
  {
    if steps != [] {
      var u := Before(canRelogin, kind, steps, s);
      var front, last := steps[..|steps| - 1], steps[|steps| - 1];
      PendingIsOutstanding(canRelogin, kind, front, u);
      assert forall i :: 0 <= i < |front| ==> (Outstanding(steps, i) <==> Outstanding(front, i) && !EmptiesSlot(last));
      assert Outstanding(steps, |front|) <==> last.Signal?;
    }
  }

  // ----- No signal is lost -----

  /** The loop is past its wait and logs in before it waits again. */
  predicate MustLogIn(s: State) {
    s.canRelogin && (s.pc.Deciding? || s.pc.Drained?)
  }

  /** A login began after step i. */
  predicate LoggedInAfter(steps: seq<Step>, i: nat) {
    exists j :: i < j < |steps| && steps[j].LoginBegins?
  }

  /** No lost re-authentication: beside a lifecycle that can log in, every signal is still in the
      slot, or a login began after it, or one must begin before the next wait, unless the client's
      context was canceled. */
  lemma {:induction false} NoLostSignal(kind: TokenKind, steps: seq<Step>, s: State, i: nat)
    requires Runs(true, kind, steps, s) && i < |steps| && steps[i].Signal?
    ensures s.pending || LoggedInAfter(steps, i) || MustLogIn(s) || (s.pc.Stopped? && s.canceled)
    ensures s.canRelogin
    decreases |steps|
  {
    var u := Before(true, kind, steps, s);
    var front, last := steps[..|steps| - 1], steps[|steps| - 1];
    KeepsCanRelogin(true, kind, steps, s);
    if i < |front| {
      NoLostSignal(kind, front, u, i);
      if LoggedInAfter(front, i) {
        var j :| i < j < |front| && front[j].LoginBegins?;
        assert steps[j].LoginBegins?;
      }
      if last.LoginBegins? {
        assert steps[|front|].LoginBegins?;
      }
    }
  }

  lemma {:induction false} KeepsCanRelogin(canRelogin: bool, kind: TokenKind, steps: seq<Step>, s: State)
    requires Runs(canRelogin, kind, steps, s)
    ensures s.canRelogin == canRelogin
    ensures canRelogin && s.pc.Stopped? ==> s.canceled
    decreases |steps|
  {
    if steps != [] {
      var u := Before(canRelogin, kind, steps, s);
      KeepsCanRelogin(canRelogin, kind, steps[..|steps| - 1], u);
    }
  }

  /** What MustLogIn promises: from such a state the loop reaches no wait without a login. */
  lemma {:induction false} LoginBeforeNextWait(s: State, steps: seq<Step>, t: State)
    requires MustLogIn(s) && After(s, steps) == Some(t)
    requires forall step :: step in steps ==> !step.LoginBegins?
    ensures MustLogIn(t)
    decreases |steps|
  {
    if steps != [] {
      var front := steps[..|steps| - 1];
      LoginBeforeNextWait(s, front, After(s, front).value);
      assert steps[|steps| - 1] in steps;
    }
  }

  // ----- Rejections are paid for by signals -----

  function Count(steps: seq<Step>, what: Step -> bool): nat {
    if steps == [] then 0
    else Count(steps[..|steps| - 1], what) + if what(steps[|steps| - 1]) then 1 else 0
  }

  function Signals(steps: seq<Step>): nat { Count(steps, (x: Step) => x.Signal?) }
  function Rejections(steps: seq<Step>): nat { Count(steps, (x: Step) => x.WaitRejected?) }
  function Logins(steps: seq<Step>): nat { Count(steps, (x: Step) => x.LoginBegins?) }
  function WaitsEnded(steps: seq<Step>): nat {
    Count(steps, (x: Step) => x.WaitRejected? || x.WaitElapsed? || x.WaitFailed?)
  }

  /** Each rejection the loop acts on takes a signal of its own out of the slot. */
  lemma {:induction false} RejectionsNeedSignals(canRelogin: bool, kind: TokenKind, steps: seq<Step>, s: State)
    requires Runs(canRelogin, kind, steps, s)
    ensures Rejections(steps) + (if s.pending then 1 else 0) <= Signals(steps)
    decreases |steps|
  {
    if steps != [] {
      var u := Before(canRelogin, kind, steps, s);
      RejectionsNeedSignals(canRelogin, kind, steps[..|steps| - 1], u);
    }
  }

  /** The last wait that ended, ended with a rejection. */
  predicate LastEndRejected(steps: seq<Step>) {
    if steps == [] then false
    else
      var last := steps[|steps| - 1];
      if last.WaitRejected? then true
      else if last.WaitElapsed? || last.WaitFailed? then false
      else LastEndRejected(steps[..|steps| - 1])
  }

  /** The logins whose wait ended with a rejection. */
  function RejectionLogins(steps: seq<Step>): nat {
    if steps == [] then 0
    else
      var front := steps[..|steps| - 1];
      RejectionLogins(front) + if steps[|steps| - 1].LoginBegins? && LastEndRejected(front) then 1 else 0
  }

  /** The logins that rejections lead to never exceed the signals sent. */
  lemma {:induction false} RejectionLoginsNeedSignals(canRelogin: bool, kind: TokenKind, steps: seq<Step>, s: State)
    requires Runs(canRelogin, kind, steps, s)
    ensures RejectionLogins(steps) + (if s.pending then 1 else 0) + (if RejectionDue(s, steps) then 1 else 0) <= Signals(steps)
    ensures s.pc.Sleeping? ==> !LastEndRejected(steps)
    decreases |steps|
  {
    if steps != [] {
      var u := Before(canRelogin, kind, steps, s);
      RejectionLoginsNeedSignals(canRelogin, kind, steps[..|steps| - 1], u);
    }
  }

  /** A rejection is on its way to a login. */
  predicate RejectionDue(s: State, steps: seq<Step>) {
    (s.pc.Deciding? || s.pc.Drained?) && LastEndRejected(steps)
  }

  /** The loop logs in at most once for every wait that ended, so a burst of refusals while it
      waits costs one login. Static tokens are never logged in for. */
  lemma {:induction false} OneLoginPerWait(canRelogin: bool, kind: TokenKind, steps: seq<Step>, s: State)
    requires Runs(canRelogin, kind, steps, s)
    ensures Logins(steps) + (if s.pc.Sleeping? || s.pc.Deciding? || s.pc.Drained? then 1 else 0) <= WaitsEnded(steps)
    ensures !canRelogin ==> Logins(steps) == 0 && !s.pc.Drained? && !s.pc.LoggingIn?
    decreases |steps|
  {
    if steps != [] {
      var u := Before(canRelogin, kind, steps, s);
      OneLoginPerWait(canRelogin, kind, steps[..|steps| - 1], u);
      KeepsCanRelogin(canRelogin, kind, steps, s);
    }
  }

  /** The signal a rejection acts on was sent after the last drain, so a refusal that was signalled
      on the way to a login does not throw the new token away. */
  lemma RejectionIsAboutTheTimeSinceTheDrain(canRelogin: bool, kind: TokenKind, steps: seq<Step>, s: State, d: nat)
    requires Runs(canRelogin, kind, steps, s) && steps != [] && steps[|steps| - 1].WaitRejected?
    requires d < |steps| && steps[d].Drain?
    ensures exists i :: d < i < |steps| && steps[i].Signal?
  {
    var u := Before(canRelogin, kind, steps, s);
    var front := steps[..|steps| - 1];
    PendingIsOutstanding(canRelogin, kind, front, u);
    var i :| 0 <= i < |front| && Outstanding(front, i);
    assert front[d].Drain?;
    assert steps[i].Signal?;
  }

  lemma AfterMore(s0: State, steps: seq<Step>, s: State, x: Step) returns (more: seq<Step>, t: State)
    requires After(s0, steps) == Some(s) && Enabled(s, x)
    ensures more == steps + [x] && t == Next(s, x) && After(s0, more) == Some(t)
  {
    more, t := steps + [x], Next(s, x);
    assert more[..|steps|] == steps;
  }

  /** A signal between the drain and the new token does still cost one more login. */
  lemma LateSignalCostsALogin() returns (steps: seq<Step>, s: State)
    ensures steps == [Enter, Signal, WaitRejected, Drain, Signal, LoginBegins] +
                     [LoginSucceeds(FixedLease), Enter, WaitRejected, Drain, LoginBegins]
    ensures Runs(true, FixedLease, steps, s) && s.pc.LoggingIn?
  {
    hide After;
    var first, u := SignalDuringLogin();
    steps, s := AfterMore(Init(true, FixedLease), first, u, LoginSucceeds(FixedLease));
    steps, s := AfterMore(Init(true, FixedLease), steps, s, Enter);
    steps, s := AfterMore(Init(true, FixedLease), steps, s, WaitRejected);
    steps, s := AfterMore(Init(true, FixedLease), steps, s, Drain);
    steps, s := AfterMore(Init(true, FixedLease), steps, s, LoginBegins);
  }

  lemma SignalDuringLogin() returns (steps: seq<Step>, s: State)
    ensures steps == [Enter, Signal, WaitRejected, Drain, Signal, LoginBegins]
    ensures Runs(true, FixedLease, steps, s)
    ensures s == State(true, FixedLease, LoggingIn, true, BACKOFF_START, false)
  {
    NoSteps(Init(true, FixedLease));
    hide After;
    steps, s := AfterMore(Init(true, FixedLease), [], Init(true, FixedLease), Enter);
    steps, s := AfterMore(Init(true, FixedLease), steps, s, Signal);
    steps, s := AfterMore(Init(true, FixedLease), steps, s, WaitRejected);
    steps, s := AfterMore(Init(true, FixedLease), steps, s, Drain);
    steps, s := AfterMore(Init(true, FixedLease), steps, s, Signal);
    steps, s := AfterMore(Init(true, FixedLease), steps, s, LoginBegins);
  }

  lemma NoSteps(s: State)
    ensures After(s, []) == Some(s)
  {
  }

  // ----- Backoff -----

  /** Renewal failures since the last wait that did not fail. */
  function FailuresInARow(steps: seq<Step>): nat {
    if steps == [] then 0
    else
      var last := steps[|steps| - 1];
      if last.WaitElapsed? || last.WaitRejected? then 0
      else FailuresInARow(steps[..|steps| - 1]) + if last.SleepEnds? then 1 else 0
  }

  /** The loop sleeps on the shared schedule: after n renewal failures in a row the next sleep is
      the schedule's n-th, between one second and a minute, and any other end of a wait starts
      the schedule again. */
  lemma {:induction false} BackoffFollowsFailures(canRelogin: bool, kind: TokenKind, steps: seq<Step>, s: State)
    requires Runs(canRelogin, kind, steps, s)
    ensures s.backoff == BackoffAt(FailuresInARow(steps)) && BACKOFF_START <= s.backoff <= BACKOFF_MAX
    decreases |steps|
  {
    if steps != [] {
      var u := Before(canRelogin, kind, steps, s);
      BackoffFollowsFailures(canRelogin, kind, steps[..|steps| - 1], u);
      BackoffClosedForm(FailuresInARow(steps));
    }
  }
}
