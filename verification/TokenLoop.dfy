/** The lifecycle loop itself, on the client's fields. It takes only steps of the lifecycle state
    machine, so what holds of every run there holds of it. */
module TokenLoop {
  import opened Backoff
  import opened Lifecycle

  /** How a wait for the token ends. */
  datatype WaitEnd = Elapsed | Rejected | Failed(retryable: bool) | Stop

  class TokenClient {
    const canRelogin: bool
    const first: TokenKind
    var kind: TokenKind
    /** The one-slot channel holds a signal. */
    var reauth: bool
    var backoff: nat

    /** The steps so far, and what the state machine knows besides the fields. */
    ghost var run: seq<Step>
    ghost var pc: Pc
    ghost var canceled: bool

    ghost function Machine(): State
      reads this
    {
      State(canRelogin, kind, pc, reauth, backoff, canceled)
    }

    ghost predicate Valid()
      reads this
    {
      Runs(canRelogin, first, run, Machine())
    }

    constructor (canRelogin: bool, kind: TokenKind)
      ensures Valid() && pc.Top? && run == [] && this.canRelogin == canRelogin && this.kind == kind && !reauth
    {
      this.canRelogin, first, this.kind := canRelogin, kind, kind;
      reauth, backoff, run, pc, canceled := false, BACKOFF_START, [], Top, false;
    }

    /** Notes that step x took the machine from u to where the fields now are. */
    ghost method Record(u: State, x: Step)
      requires Runs(canRelogin, first, run, u) && Enabled(u, x)
      requires var t := Next(u, x); t.canRelogin == canRelogin && t.kind == kind && t.pending == reauth && t.backoff == backoff
      modifies this`run, this`pc, this`canceled
      ensures Valid() && run == old(run) + [x] && Machine() == Next(u, x)
    {
      hide After;
      var more, t := AfterMore(Init(canRelogin, first), run, u, x);
      run, pc, canceled := more, t.pc, t.canceled;
    }

    /** signalReauth: a send into the slot that is dropped when the slot is full. */
    method SignalReauth()
      requires Valid()
      modifies this`reauth, this`run, this`pc, this`canceled
      ensures Valid() && reauth && run == old(run) + [Signal] && pc == old(pc) && canceled == old(canceled)
    {
      hide Runs;
      ghost var u := Machine();
      if !reauth {
        reauth := true;
      }
      Record(u, Signal);
    }

    /** drainReauth. */
    method DrainReauth()
      requires Valid() && pc.Deciding? && canRelogin
      modifies this`reauth, this`run, this`pc, this`canceled
      ensures Valid() && !reauth && run == old(run) + [Drain] && pc.Drained? && canceled == old(canceled)
    {
      hide Runs;
      ghost var u := Machine();
      if reauth {
        reauth := false;
      }
      Record(u, Drain);
    }

    /** Readers signal while the loop is where it is, n times, and the client may be canceled. */
    method Meanwhile(n: nat, cancel: bool)
      requires Valid()
      modifies this`reauth, this`run, this`pc, this`canceled
      ensures Valid() && pc == old(pc) && old(run) <= run
      ensures reauth == (old(reauth) || n > 0) && canceled == (old(canceled) || cancel)
    {
      hide Runs;
      for i := 0 to n
        invariant Valid() && pc == old(pc) && canceled == old(canceled) && old(run) <= run
        invariant reauth == (old(reauth) || i > 0)
      {
        SignalReauth();
      }
      if cancel {
        ghost var u := Machine();
        Record(u, Cancel);
      }
    }

    /** What ends the wait can end it: a signal that is there, a lease that runs out, a renewal. */
    ghost predicate CanEnd(end: WaitEnd, pending: bool, cancel: bool) {
      match end
      case Elapsed => !cancel
      case Rejected => pending && !cancel
      case Failed(_) => !cancel
      case Stop => cancel
    }

    /** The waiting part of one turn of manageTokenLifecycle, up to the decision about a login.
        signals and cancel say what happens during the wait, asleep and cancelAsleep what happens
        during the backoff after a renewal failure. */
    method Wait(end: WaitEnd, signals: nat, cancel: bool, asleep: nat, cancelAsleep: bool) returns (on: bool)
      requires Valid() && pc.Top? && !canceled && !(kind.NoExpiry? && !canRelogin)
      requires end.Elapsed? ==> !kind.NoExpiry?
      requires end.Failed? ==> kind.Renewable?
      requires CanEnd(end, reauth || signals > 0, cancel)
      modifies this`reauth, this`run, this`pc, this`canceled, this`backoff
      ensures Valid() && old(run) < run && canceled == (cancel || (end.Failed? && cancelAsleep))
      ensures on == !canceled
      ensures !on ==> pc.Stopped? && backoff == old(backoff)
      ensures on ==> pc == (match end
                            case Failed(retryable) => Deciding(retryable, false)
                            case _ => Deciding(false, end.Rejected?))
      ensures on ==> backoff == if end.Failed? then NextBackoff(old(backoff)) else BACKOFF_START
    {
      hide Runs, NextBackoff;
      ghost var u := Machine();
      Record(u, Enter);
      Meanwhile(signals, cancel);
      on := EndWait(end, asleep, cancelAsleep);
    }

    /** What the end of a wait leads to. */
    method EndWait(end: WaitEnd, asleep: nat, cancelAsleep: bool) returns (on: bool)
      requires Valid() && pc.Waiting? && CanEnd(end, reauth, canceled)
      requires end.Elapsed? ==> !kind.NoExpiry?
      requires end.Failed? ==> kind.Renewable?
      modifies this`reauth, this`run, this`pc, this`canceled, this`backoff
      ensures Valid() && old(run) < run && canceled == (old(canceled) || (end.Failed? && cancelAsleep))
      ensures on == !canceled
      ensures !on ==> pc.Stopped? && backoff == old(backoff)
      ensures on ==> pc == (match end
                            case Failed(retryable) => Deciding(retryable, false)
                            case _ => Deciding(false, end.Rejected?))
      ensures on ==> backoff == if end.Failed? then NextBackoff(old(backoff)) else BACKOFF_START
    {
      hide Runs, NextBackoff;
      ghost var u := Machine();
      match end {
        case Stop =>
          Record(u, WaitCanceled);
          return false;
        case Failed(retryable) =>
          Record(u, WaitFailed(retryable));
          Meanwhile(asleep, cancelAsleep);
          u := Machine();
          if cancelAsleep {
            Record(u, SleepCanceled);
            return false;
          }
          backoff := NextBackoff(backoff);
          Record(u, SleepEnds);
        case Rejected =>
          reauth, backoff := false, BACKOFF_START;
          Record(u, WaitRejected);
        case Elapsed =>
          backoff := BACKOFF_START;
          Record(u, WaitElapsed);
      }
      on := true;
    }

    /** The rest of the turn: the login, which only ends without a token when the client is
        canceled, with the signals sent before the drain and between it and the new token. */
    method LogIn(before: nat, late: nat, cancel: bool, next: TokenKind) returns (on: bool)
      requires Valid() && pc.Deciding? && canRelogin && !canceled
      modifies this`reauth, this`run, this`pc, this`canceled, this`kind
      ensures Valid() && old(run) < run && on == !cancel && canceled == cancel
      ensures on ==> pc.Top? && kind == next && !canceled && reauth == (late > 0)
      ensures !on ==> pc.Stopped? && kind == old(kind)
    {
      hide Runs;
      Meanwhile(before, false);
      DrainReauth();
      ghost var u := Machine();
      Record(u, LoginBegins);
      Meanwhile(late, cancel);
      u := Machine();
      if cancel {
        Record(u, LoginCanceled);
        return false;
      }
      kind := next;
      Record(u, LoginSucceeds(next));
      on := true;
    }

    /** One turn of manageTokenLifecycle. Another follows unless the client was canceled, or its
        token is a static one that has no expiry, that was rejected, or that cannot be renewed any
        longer. A turn that goes on has a new token, and only a signal sent after the drain is
        left in the slot, or it keeps a static token whose renewal is to be tried again. */
    method Turn(end: WaitEnd, signals: nat, cancel: bool, asleep: nat, cancelAsleep: bool, before: nat, late: nat,
        cancelLogin: bool, next: TokenKind) returns (again: bool)
      requires Valid() && pc.Top? && !canceled
      requires end.Elapsed? ==> !kind.NoExpiry?
      requires end.Failed? ==> kind.Renewable?
      requires CanEnd(end, reauth || signals > 0, cancel)
      modifies this`reauth, this`run, this`pc, this`canceled, this`kind, this`backoff
      ensures Valid() && old(run) < run
      ensures again ==> pc.Top? && !canceled && backoff == if end.Failed? then NextBackoff(old(backoff)) else BACKOFF_START
      ensures !again ==> pc.Stopped?
      ensures canRelogin ==> (again <==> !canceled)
      ensures canRelogin && again ==> kind == next && reauth == (late > 0)
      ensures !canRelogin ==> kind == old(kind) && (again <==> end.Failed? && end.retryable && !cancelAsleep)
    {
      hide Runs;
      if kind.NoExpiry? && !canRelogin {
        ghost var u := Machine();
        Record(u, Enter);
        return false;
      }
      again := Wait(end, signals, cancel, asleep, cancelAsleep);
      if !again {
        return;
      }
      if !canRelogin {
        ghost var u := Machine();
        Record(u, Decide);
        return end.Failed? && end.retryable;
      }
      again := LogIn(before, late, cancelLogin, next);
    }
  }
}
