/**
 * The password-reset routes (`forgot_password`, `enter_otp`, `reset_password`)
 * as a state machine over the OTP keys of the session, and `toggle_theme`.
 * "now" is a parameter (microseconds), as are the outcome of sending the OTP
 * mail, the OTP that `generate_otp` drew and the bcrypt hash of a new password.
 */
module Account {
  import opened Wrappers
  import opened Text
  import opened Store

  /** The session keys the reset flow reads and writes: 'otp', 'otp_email', 'otp_time'. */
  datatype Session = Session(otp: Option<nat>, otpEmail: Option<string>, otpTime: Option<int>)

  /** A session in which no reset has been requested. */
  const Fresh := Session(None, None, None)

  /** `timedelta(minutes=5)` in microseconds. */
  const OtpLifetime: int := 300_000_000

  /** Where each handler redirects. */
  datatype Page = HomePage | ForgotPage | EnterOtpPage | ResetPage

  /**
   * `forgot_password` (POST): a known email whose OTP mail went out stores the
   * OTP, the email and the time, and moves on to OTP entry; an unknown email or
   * a failed mail leaves the session alone and stays on the form.
   */
  function ForgotPassword(s: Session, db: Db, email: string, sent: bool, otp: nat, now: int): (r: (Session, Page))
    ensures r.1 == EnterOtpPage <==> FindUser(db, email).Some? && sent
    ensures r.1 == EnterOtpPage ==> r.0 == Session(Some(otp), Some(email), Some(now))
    ensures r.1 != EnterOtpPage ==> r == (s, ForgotPage)
  {
    if FindUser(db, email).Some? && sent then (Session(Some(otp), Some(email), Some(now)), EnterOtpPage)
    else (s, ForgotPage)
  }

  /** Every key `enter_otp` needs is present. */
  predicate HasOtp(s: Session) {
    s.otp.Some? && s.otpEmail.Some? && s.otpTime.Some?
  }

  /** The submitted text equals `str(otp)` and strictly less than five minutes have passed. */
  predicate OtpAccepted(s: Session, input: Option<string>, now: int) {
    HasOtp(s) && input == Some(NatToString(s.otp.value)) && now - s.otpTime.value < OtpLifetime
  }

  /**
   * `enter_otp` (POST). It never changes the session; it only decides where to
   * go: missing keys or an expired code go back to `forgot_password`, a
   * mismatch back to `enter_otp`, and only an exact, timely code to `reset_password`.
   */
  function EnterOtp(s: Session, input: Option<string>, now: int): (r: (Session, Page))
    ensures r.0 == s
    ensures r.1 == ResetPage <==> OtpAccepted(s, input, now)
    ensures r.1 == EnterOtpPage <==> HasOtp(s) && input != Some(NatToString(s.otp.value))
    ensures r.1 == ForgotPage <==> !HasOtp(s) || (input == Some(NatToString(s.otp.value)) && now - s.otpTime.value >= OtpLifetime)
  {
    if !HasOtp(s) then (s, ForgotPage)
    else if Some(NatToString(s.otp.value)) == input then
      if now - s.otpTime.value < OtpLifetime then (s, ResetPage) else (s, ForgotPage)
    else (s, EnterOtpPage)
  }

  /** An accepted code is a string of decimal digits whose value is the stored OTP. */
  lemma AcceptedCodeIsTheOtp(s: Session, code: string, now: int)
    requires OtpAccepted(s, Some(code), now)
    ensures AllDigits(code) && ParseNat(code) == s.otp.value
  {
    ParseNatToString(s.otp.value);
  }

  /**
   * `reset_password`, as written: the only guard is that 'otp_email' is in the
   * session. A missing or empty new password stays on the form; otherwise the
   * stored hash of that email becomes `hash`, the three OTP keys are removed
   * and the user lands on the home page.
   */
  function ResetPassword(s: Session, db: Db, newPassword: Option<string>, hash: string): (r: (Session, Db, Page))
    ensures s.otpEmail.None? ==> r == (s, db, ForgotPage)
    ensures s.otpEmail.Some? && (newPassword.None? || newPassword == Some("")) ==> r == (s, db, ResetPage)
    ensures r.2 == HomePage <==> s.otpEmail.Some? && newPassword.Some? && newPassword.value != ""
    ensures r.2 == HomePage ==> r.0 == Fresh
    ensures r.2 == HomePage ==>
              FindUser(r.1, s.otpEmail.value) ==
              (if FindUser(db, s.otpEmail.value).Some? then Some(FindUser(db, s.otpEmail.value).value.(passwordHash := hash)) else None)
    ensures r.1.rows == db.rows && r.1.nextId == db.nextId
    ensures forall e :: s.otpEmail != Some(e) ==> FindUser(r.1, e) == FindUser(db, e)
  {
    match s.otpEmail
    case None => (s, db, ForgotPage)
    case Some(email) =>
      if newPassword.None? || newPassword.value == "" then (s, db, ResetPage)
      else (Fresh, SetPassword(db, email, hash), HomePage)
  }

  /**
   * The weakness of the flow as written: right after `forgot_password` has
   * mailed a code, `reset_password` already changes the password, although no
   * code was ever entered.
   */
  lemma OtpBypass(db: Db, email: string, otp: nat, now: int, password: string, hash: string)
    requires FindUser(db, email).Some? && password != ""
    ensures var s1 := ForgotPassword(Fresh, db, email, true, otp, now).0;
            ResetPassword(s1, db, Some(password), hash).2 == HomePage
            && FindUser(ResetPassword(s1, db, Some(password), hash).1, email) == Some(FindUser(db, email).value.(passwordHash := hash))
  {
    var s1 := ForgotPassword(Fresh, db, email, true, otp, now).0;
    assert s1.otpEmail == Some(email);
  }

  /**
   * The corrected flow: the session also remembers whether the current code
   * was verified. `forgot_password` clears the mark, a successful
   * `enter_otp` sets it, and `reset_password` refuses to act without it.
   */
  datatype Guarded = Guarded(keys: Session, verified: bool)

  function ForgotPasswordGuarded(g: Guarded, db: Db, email: string, sent: bool, otp: nat, now: int): (r: (Guarded, Page))
    ensures r.1 == ForgotPassword(g.keys, db, email, sent, otp, now).1
    ensures r.1 == EnterOtpPage ==> !r.0.verified
    ensures r.1 != EnterOtpPage ==> r.0 == g
  {
    var (s, p) := ForgotPassword(g.keys, db, email, sent, otp, now);
    (Guarded(s, if p == EnterOtpPage then false else g.verified), p)
  }

  function EnterOtpGuarded(g: Guarded, input: Option<string>, now: int): (r: (Guarded, Page))
    ensures r.1 == EnterOtp(g.keys, input, now).1
    ensures r.0.keys == g.keys
    ensures r.0.verified <==> g.verified || OtpAccepted(g.keys, input, now)
  {
    var (s, p) := EnterOtp(g.keys, input, now);
    (Guarded(s, g.verified || p == ResetPage), p)
  }

  function ResetPasswordGuarded(g: Guarded, db: Db, newPassword: Option<string>, hash: string): (r: (Guarded, Db, Page))
    ensures !g.verified ==> r == (g, db, ForgotPage)
    ensures g.verified ==> r.1 == ResetPassword(g.keys, db, newPassword, hash).1
    ensures r.2 == HomePage ==> r.0 == Guarded(Fresh, false)
  {
    if !g.verified then (g, db, ForgotPage)
    else
      var (s, db', p) := ResetPassword(g.keys, db, newPassword, hash);
      (Guarded(s, p != HomePage), db', p)
  }

  /** One POST to one of the three routes. */
  datatype Event =
    | Forgot(email: string, sent: bool, otp: nat, at: int)
    | Enter(input: Option<string>, at: int)
    | Reset(password: Option<string>, hash: string)

  function Step(g: Guarded, db: Db, e: Event): (Guarded, Db) {
    match e
    case Forgot(email, sent, otp, at) => (ForgotPasswordGuarded(g, db, email, sent, otp, at).0, db)
    case Enter(input, at) => (EnterOtpGuarded(g, input, at).0, db)
    case Reset(password, hash) =>
      var r := ResetPasswordGuarded(g, db, password, hash);
      (r.0, r.1)
  }

  function Run(g: Guarded, db: Db, events: seq<Event>): (r: (Guarded, Db))
    decreases |events|
  {
    if |events| == 0 then (g, db)
    else
      var next := Step(g, db, events[0]);
      Run(next.0, next.1, events[1..])
  }

  /** No `enter_otp` POST along the run accepts the code held at that moment. */
  predicate NoCodeAccepted(g: Guarded, db: Db, events: seq<Event>)
    decreases |events|
  {
    |events| == 0 ||
    (!(events[0].Enter? && OtpAccepted(g.keys, events[0].input, events[0].at))
     && var next := Step(g, db, events[0]);
        NoCodeAccepted(next.0, next.1, events[1..]))
  }

  /**
   * In the corrected flow, starting unverified, no sequence of requests in
   * which no code is ever accepted changes the store.
   */
  lemma {:induction false} GuardedResetNeedsOtp(g: Guarded, db: Db, events: seq<Event>)
    requires !g.verified && NoCodeAccepted(g, db, events)
    ensures Run(g, db, events).1 == db
    decreases |events|
  {
    if |events| > 0 {
      var next := Step(g, db, events[0]);
      assert !next.0.verified && next.1 == db;
      GuardedResetNeedsOtp(next.0, next.1, events[1..]);
    }
  }

  /** The corrected flow still lets the owner of the mailbox reset the password. */
  lemma GuardedHonestReset(db: Db, email: string, otp: nat, now: int, later: int, password: string, hash: string)
    requires FindUser(db, email).Some? && password != ""
    requires later - now < OtpLifetime
    ensures var events := [Forgot(email, true, otp, now), Enter(Some(NatToString(otp)), later), Reset(Some(password), hash)];
            var r := Run(Guarded(Fresh, false), db, events);
            r.0 == Guarded(Fresh, false)
            && FindUser(r.1, email) == Some(FindUser(db, email).value.(passwordHash := hash))
  {
    var events := [Forgot(email, true, otp, now), Enter(Some(NatToString(otp)), later), Reset(Some(password), hash)];
    var g0 := Guarded(Fresh, false);
    var g1 := Guarded(Session(Some(otp), Some(email), Some(now)), false);
    var g2 := g1.(verified := true);
    assert Step(g0, db, events[0]) == (g1, db);
    assert Step(g1, db, events[1]) == (g2, db);
    assert events[1..][1..][1..] == [];
    assert Run(g0, db, events) == Run(g2, db, events[1..][1..]);
  }

  /**
   * `toggle_theme`: 'dark' when the stored theme is 'light', otherwise 'light';
   * the new theme is written back and also returned for the session. For an
   * unknown email the store cannot change, so the stored theme stays 'light'
   * while the session says 'dark'.
   */
  function ToggleTheme(db: Db, email: string): (r: (Db, string))
    ensures r.1 == "dark" <==> GetUserTheme(db, email) == "light"
    ensures r.1 == "light" <==> GetUserTheme(db, email) != "light"
    ensures GetUserTheme(r.0, email) == if FindUser(db, email).Some? then r.1 else DefaultTheme
    ensures FindUser(r.0, email) == if FindUser(db, email).Some? then Some(FindUser(db, email).value.(theme := r.1)) else None
    ensures r.0.rows == db.rows && r.0.nextId == db.nextId
    ensures forall e :: e != email ==> FindUser(r.0, e) == FindUser(db, e)
  {
    var next := if GetUserTheme(db, email) == "light" then "dark" else "light";
    (UpdateTheme(db, email, next).0, next)
  }

  /** Toggling twice restores a registered user's theme when it was 'light' or 'dark'. */
  lemma ToggleTwice(db: Db, email: string)
    requires FindUser(db, email).Some?
    requires GetUserTheme(db, email) == "light" || GetUserTheme(db, email) == "dark"
    ensures GetUserTheme(ToggleTheme(ToggleTheme(db, email).0, email).0, email) == GetUserTheme(db, email)
  {
  }
}
