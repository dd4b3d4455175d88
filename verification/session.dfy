/** The login session of the retriever: `log_in` and the expiry check at the
    start of `download_data`. Times are whole seconds counted from
    1900-01-01 00:00:00, the value `last_login` starts with. */
module Session {
  import opened Text

  const SecondsPerDay: nat := 86400

  /** Re-login happens once more than this many seconds have passed
      (90 minutes, below the service's two-hour session lifetime). */
  const ExpirySeconds: nat := 5400

  /** The marker whose presence in the login response means rejection. */
  const FailureMarker := "Failed"

  datatype Session = Session(lastLogin: int)

  /** `datetime(year=1900, month=1, day=1)`: second 0 of the time line. */
  const Initial := Session(0)

  /** What the login POST produces: one of the two exceptions the method
      catches, or the decoded response body. */
  datatype LoginResponse = LoginHttpError | LoginUrlError | LoginBody(text: string)

  datatype LoginResult = LoginResult(ok: bool, session: Session)

  /** A response that counts as a successful login. */
  predicate Accepted(resp: LoginResponse)
  {
    resp.LoginBody? && !Contains(resp.text, FailureMarker)
  }

  /** `log_in` at time `now`: succeeds only for a body without the failure
      marker, and only a success moves `last_login`, to `now`. */
  function LogIn(s: Session, now: int, resp: LoginResponse): (r: LoginResult)
    ensures r.ok <==> resp.LoginBody? && forall i :: !OccursAt(resp.text, FailureMarker, i)
    ensures r.ok ==> r.session == Session(now)
    ensures !r.ok ==> r.session == s
  {
    ContainsIff(if resp.LoginBody? then resp.text else "", FailureMarker);
    match resp
    case LoginHttpError => LoginResult(false, s)
    case LoginUrlError => LoginResult(false, s)
    case LoginBody(text) =>
      if Contains(text, FailureMarker) then LoginResult(false, s)
      else LoginResult(true, Session(now))
  }

  /** `timedelta.seconds` of a difference of `elapsed` seconds: the part left
      after taking out whole days (rounded down), always in 0..86399. */
  function WithinDaySeconds(elapsed: int): (r: int)
    ensures 0 <= r < SecondsPerDay
    ensures (elapsed - r) % SecondsPerDay == 0
  {
    elapsed % SecondsPerDay
  }

  /** `(now - last_login).seconds > 5400`. */
  predicate LoginExpired(s: Session, now: int)
  {
    WithinDaySeconds(now - s.lastLogin) > ExpirySeconds
  }

  /** The check looks only at the time of day elapsed: adding or removing
      whole days between the login and now never changes its answer. */
  lemma ExpiryIgnoresWholeDays(s: Session, now: int, days: int)
    ensures LoginExpired(s, now + days * SecondsPerDay) == LoginExpired(s, now)
  {
  }

  /** Within 90 minutes after a login, and on the same time of day any
      number of days later, no re-login is due. */
  lemma FreshAfterLogin(s: Session, now: int, later: int, resp: LoginResponse, days: nat)
    requires LogIn(s, now, resp).ok
    requires 0 <= later - now <= ExpirySeconds
    ensures !LoginExpired(LogIn(s, now, resp).session, later)
    ensures !LoginExpired(LogIn(s, now, resp).session, later + days * SecondsPerDay)
  {
    ExpiryIgnoresWholeDays(LogIn(s, now, resp).session, later, days);
  }

  /** A session logged in a day and a minute ago is still taken as fresh,
      although far more than 90 minutes have passed. */
  lemma StaleByDaysNotRenewed()
    ensures !LoginExpired(Session(0), SecondsPerDay + 60)
  {
  }

  /** With `last_login` still at its initial value, whether a re-login
      happens depends only on the time of day: it does from 01:30:01 on. */
  lemma InitialSessionExpiry(now: int)
    ensures LoginExpired(Initial, now) <==> now % SecondsPerDay > ExpirySeconds
  {
  }

  /** A session whose last login lies between 90 minutes and a day in the
      past is expired. */
  lemma ExpiredWithinDay(s: Session, now: int)
    requires ExpirySeconds < now - s.lastLogin < SecondsPerDay
    ensures LoginExpired(s, now)
  {
  }

  /** A series of login attempts, each at its own time. */
  datatype Attempt = Attempt(time: int, resp: LoginResponse)

  /** The attempts applied one after another, in order. */
  function LogInAll(s: Session, attempts: seq<Attempt>): Session
    decreases |attempts|
  {
    if |attempts| == 0 then s
    else
      var last := attempts[|attempts| - 1];
      LogIn(LogInAll(s, attempts[..|attempts| - 1]), last.time, last.resp).session
  }

  /** Attempt `k` is accepted and no later one is. */
  predicate LastAccepted(attempts: seq<Attempt>, k: int)
  {
    && 0 <= k < |attempts|
    && Accepted(attempts[k].resp)
    && forall j :: k < j < |attempts| ==> !Accepted(attempts[j].resp)
  }

  /** After a series of attempts none of which was accepted, `last_login`
      is unchanged. */
  lemma {:induction false} NoSuccessKeepsLastLogin(s: Session, attempts: seq<Attempt>)
    requires forall k :: 0 <= k < |attempts| ==> !Accepted(attempts[k].resp)
    ensures LogInAll(s, attempts) == s
    decreases |attempts|
  {
    if |attempts| > 0 {
      var n := |attempts| - 1;
      var init := attempts[..n];
      assert forall j :: 0 <= j < n ==> init[j] == attempts[j];
      NoSuccessKeepsLastLogin(s, init);
    }
  }

  /** After a series of attempts, `last_login` is the time of the last
      accepted one. */
  lemma {:induction false} LastLoginIsLastSuccess(s: Session, attempts: seq<Attempt>, k: int)
    requires LastAccepted(attempts, k)
    ensures LogInAll(s, attempts) == Session(attempts[k].time)
    decreases |attempts|
  {
    var n := |attempts| - 1;
    if k < n {
      var init := attempts[..n];
      assert forall j :: 0 <= j < n ==> init[j] == attempts[j];
      assert LastAccepted(init, k);
      LastLoginIsLastSuccess(s, init, k);
    }
  }
}
