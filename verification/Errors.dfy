/** Package bao's error classification over chains of wrapped errors. */
module Errors {
  import opened Text

  /** An error and what it wraps. Status, TooLarge, Downgrade, Deadline, Canceled, NotFound, NoData
      and Other wrap nothing. Wrapped is any wrapper the classification knows nothing about. */
  datatype Err =
    | Status(code: int)
    | TooLarge
    | Downgrade
    | Deadline
    | Canceled
    | NotFound
    | NoData
    | Other
    | Url(inner: Err)
    | Certificate(inner: Err)
    | TokenFault(inner: Err)
    | Wrapped(inner: Err)

  predicate Wraps(e: Err) {
    e.Url? || e.Certificate? || e.TokenFault? || e.Wrapped?
  }

  /** The chain errors.As and errors.Is walk. */
  function Chain(e: Err): (es: seq<Err>)
    ensures |es| >= 1 && es[0] == e
  {
    if Wraps(e) then [e] + Chain(e.inner) else [e]
  }

  predicate HasTokenFault(e: Err) { exists x :: x in Chain(e) && x.TokenFault? }
  predicate HasUrl(e: Err) { exists x :: x in Chain(e) && x.Url? }
  predicate HasCertificate(e: Err) { exists x :: x in Chain(e) && x.Certificate? }

  /** errors.As for *api.ResponseError: the first status of the chain. */
  function StatusOf(e: Err): Option<int> {
    match e
    case Status(code) => Some(code)
    case Url(inner) => StatusOf(inner)
    case Certificate(inner) => StatusOf(inner)
    case TokenFault(inner) => StatusOf(inner)
    case Wrapped(inner) => StatusOf(inner)
    case _ => None
  }

  predicate IsTransientStatus(code: int) {
    code >= 500 || code == 429
  }

  predicate Retryable(e: Err) {
    if HasTokenFault(e) then true
    else if TooLarge in Chain(e) then false
    else if Downgrade in Chain(e) then false
    else if StatusOf(e).Some? then IsTransientStatus(StatusOf(e).value)
    else if HasUrl(e) then true
    else Deadline in Chain(e) || Canceled in Chain(e)
  }

  predicate Authoritative(e: Err) {
    if Retryable(e) then false
    else if TooLarge in Chain(e) then true
    else if StatusOf(e).Some? then true
    else NotFound in Chain(e) || NoData in Chain(e)
  }

  predicate LoginRetryable(e: Err) {
    !HasCertificate(e) && Retryable(e)
  }

  /** The error at the end of the chain. */
  function Root(e: Err): (r: Err)
    ensures !Wraps(r)
  {
    if Wraps(e) then Root(e.inner) else e
  }

  lemma {:induction false} ChainMembers(e: Err, x: Err)
    requires !Wraps(x)
    ensures x in Chain(e) <==> Root(e) == x
  {
    if Wraps(e) {
      ChainMembers(e.inner, x);
      assert Chain(e) == [e] + Chain(e.inner);
    }
  }

  lemma {:induction false} StatusIsRoot(e: Err)
    ensures StatusOf(e) == if Root(e).Status? then Some(Root(e).code) else None
  {
    if Wraps(e) {
      StatusIsRoot(e.inner);
    }
  }

  /** The classification in closed form: it looks at the root of the chain, and at whether a
      token fault or a url.Error is wrapped around it. */
  lemma ClassificationByRoot(e: Err)
    ensures Retryable(e) <==>
            HasTokenFault(e) ||
            match Root(e)
            case TooLarge => false
            case Downgrade => false
            case Status(code) => IsTransientStatus(code)
            case Deadline => true
            case Canceled => true
            case _ => HasUrl(e)
    ensures Authoritative(e) <==>
            !HasTokenFault(e) &&
            match Root(e)
            case TooLarge => true
            case Status(code) => !IsTransientStatus(code)
            case NotFound => !HasUrl(e)
            case NoData => !HasUrl(e)
            case _ => false
  {
    StatusIsRoot(e);
    ChainMembers(e, TooLarge);
    ChainMembers(e, Downgrade);
    ChainMembers(e, Deadline);
    ChainMembers(e, Canceled);
    ChainMembers(e, NotFound);
    ChainMembers(e, NoData);
  }

  /** The classification of an answer with a status: server errors and throttling are worth a retry and
      say nothing about the secret, every other status is OpenBao's answer. */
  lemma StatusClassification(e: Err, code: int)
    requires !HasTokenFault(e) && StatusOf(e) == Some(code)
    ensures Retryable(e) <==> code >= 500 || code == 429
    ensures Authoritative(e) <==> code < 500 && code != 429
  {
    ClassificationByRoot(e);
    StatusIsRoot(e);
  }

  /** A login is retried like anything else, but never over a certificate, whatever is around it. */
  lemma LoginClassification(e: Err)
    ensures (exists x :: x in Chain(e) && x.Certificate?) ==> !LoginRetryable(e)
    ensures !(exists x :: x in Chain(e) && x.Certificate?) ==> LoginRetryable(e) == Retryable(e)
    ensures Retryable(Url(Certificate(Other))) && !LoginRetryable(Url(Certificate(Other)))
  {
    var c := Url(Certificate(Other));
    ClassificationByRoot(c);
    assert Chain(c) == [c, Certificate(Other), Other];
    assert c in Chain(c) && Certificate(Other) in Chain(c);
    hide Retryable;
    if HasTokenFault(c) {
      var x :| x in Chain(c) && x.TokenFault?;
    }
  }

  /** e below any number of wrappers. */
  predicate WrappedAround(outer: Err, e: Err) {
    outer == e || (outer.Wrapped? && WrappedAround(outer.inner, e))
  }

  /** Wrapping with fmt.Errorf changes no classification. */
  lemma {:induction false} WrappersAreTransparent(outer: Err, e: Err)
    requires WrappedAround(outer, e)
    ensures Retryable(outer) == Retryable(e) && Authoritative(outer) == Authoritative(e)
    ensures LoginRetryable(outer) == LoginRetryable(e) && StatusOf(outer) == StatusOf(e)
  {
    if outer != e {
      WrappersAreTransparent(outer.inner, e);
      OneWrapper(outer.inner);
    }
  }

  lemma OneWrapper(e: Err)
    ensures Retryable(Wrapped(e)) == Retryable(e) && Authoritative(Wrapped(e)) == Authoritative(e)
    ensures LoginRetryable(Wrapped(e)) == LoginRetryable(e) && StatusOf(Wrapped(e)) == StatusOf(e)
  {
    var w := Wrapped(e);
    assert Chain(w) == [w] + Chain(e);
    assert forall x :: x in Chain(w) <==> x == w || x in Chain(e);
    ClassificationByRoot(w);
    ClassificationByRoot(e);
  }

  /** No error is both worth a retry and OpenBao's answer about the secret. Those that are neither
      are the refused redirects and what no case names, such as a proxy's error page. */
  lemma RetryableOrAuthoritative(e: Err)
    ensures !(Retryable(e) && Authoritative(e))
    ensures !Retryable(e) && !Authoritative(e) <==>
            !HasTokenFault(e) && (Root(e).Downgrade? || (Root(e).Other? && !HasUrl(e)))
  {
    ClassificationByRoot(e);
    hide Retryable, Authoritative;
  }

  // ----- classifyForbidden -----

  const FORBIDDEN := 403

  /** What classifyForbidden hands back for a failed read, given how its lookup-self ended, and
      whether it signals the token lifecycle. */
  function ClassifyForbidden(e: Err, lookup: Option<Err>): (r: (Err, bool)) {
    if StatusOf(e) != Some(FORBIDDEN) then (e, false)
    else
      match lookup
      case None => (e, false)
      case Some(lookupErr) => (TokenFault(e), StatusOf(lookupErr) == Some(FORBIDDEN))
  }

  /** A 403 counts as OpenBao's answer about the secret exactly when lookup-self succeeded. The
      lifecycle is signalled exactly when lookup-self was refused too. Other errors keep their
      classification. */
  lemma ForbiddenIsTheAnswerIffTokenIsGood(e: Err, lookup: Option<Err>)
    requires !HasTokenFault(e)
    ensures var (r, signalled) := ClassifyForbidden(e, lookup);
            if StatusOf(e) == Some(403) then
              && (Authoritative(r) <==> lookup.None?)
              && (Retryable(r) <==> lookup.Some?)
              && (signalled <==> lookup.Some? && StatusOf(lookup.value) == Some(403))
            else r == e && !signalled
  {
    ClassificationByRoot(e);
    StatusIsRoot(e);
    var t := TokenFault(e);
    assert t in Chain(t);
  }
}
