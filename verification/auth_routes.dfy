/** The account routes of backend/routes/auth.js: register, verify-email, login and resend-otp.
    Each runs the request validators, then a chain of early-return checks on the user that
    `findOne({ email })` finds, then changes that user and saves it.

    Outside inputs become parameters:
    - `emailOk` is the verdict of the `isEmail()` validator;
    - `now` is `Date.now()` in milliseconds;
    - `draw` is `Math.floor(Math.random() * 900000)`;
    - `emailSent` is what `sendOTPEmail` reports.
    A signed token is represented by the identity it is signed for. */
module AuthRoutes {
  import opened Common
  import opened Text
  import opened EmailFormat
  import opened UserModel
  import opened Db
  import opened Replies

  /** The JSON bodies of the successful replies. */
  datatype AuthBody =
    | Welcome(message: Message, otp: string)
    | SignedIn(id: UserId, name: string, email: string)

  /** The store after a request, and the reply sent. */
  datatype Outcome = Outcome(state: State, reply: Reply<AuthBody>)

  // ----- register -----

  /** The register validators, in order: a name that is not blank, an email, a password of at
      least six characters. */
  function RegisterErrors(name: string, emailOk: bool, password: string): (errors: seq<Message>)
    ensures errors == [] <==> Trim(name) != [] && emailOk && |password| >= 6
    ensures |errors| <= 3
  {
    Check(Trim(name) != [], NameRequired)
      + Check(emailOk, EnterValidEmail)
      + Check(|password| >= 6, PasswordTooShort)
  }

  /** The user register builds: `new User({ name, email, password })` followed by `generateOTP()`.
      It is unverified, with every counter at 0, and holds the code for `draw`, expiring ten
      minutes after `now`. */
  function Registrant(name: string, email: string, password: string, now: int, draw: nat): (u: User)
    requires draw < 900000
    ensures u.name == Trim(name) && u.email == NormalizeEmail(email) && u.password == password
    ensures !u.isVerified && u.HasPendingOtp() && u.otp.value == Otp(OtpCode(draw), now + OtpLifetimeMs)
    ensures u.questionsAsked == 0 && u.questionsAnswered == 0 && u.reputation == 0
  {
    NewUser(name, email, password).(otp := Some(Otp(OtpCode(draw), now + OtpLifetimeMs)))
  }

  /** POST /register (auth.js:18-51). The user is built with the trimmed name, the email in
      stored form and the defaults, given a fresh OTP, and saved; saving fails with a 500 when the
      stored email breaks the institutional rule. */
  ghost function Register(s: State, name: string, email: string, password: string, emailOk: bool,
                          now: int, draw: nat): (o: Outcome)
    requires draw < 900000
    ensures o.reply.Ok? || o.state == s
    ensures o.reply.Ok? ==> o.state.questions == s.questions && o.state.answers == s.answers
  {
    var errors := RegisterErrors(name, emailOk, password);
    var key := NormalizeEmail(email);
    if errors != [] then Outcome(s, Invalid(errors))
    else if EmailTaken(s.users, key) then Outcome(s, Fail(400, UserExists))
    else if !IsStudentEmail(key) then Outcome(s, Fail(500, EmailRejected(key)))
    else
      var u := Registrant(name, email, password, now, draw);
      Outcome(s.(users := s.users[s.nextId := u], nextId := s.nextId + 1),
              Ok(201, Welcome(Registered, OtpCode(draw))))
  }

  /** Registration succeeds exactly when the validators pass, no user has the email in stored form
      and that form satisfies the institutional rule. It then adds one user under a fresh id and
      changes no other: the user is unverified, with every counter at 0, and holds a pending OTP
      that expires ten minutes after `now` and is the six-digit code the reply carries. */
  lemma RegisterOutcome(s: State, name: string, email: string, password: string, emailOk: bool,
                        now: int, draw: nat)
    requires ValidState(s) && draw < 900000
    ensures var o := Register(s, name, email, password, emailOk, now, draw);
      var key := NormalizeEmail(email);
      && (o.reply.Ok? <==> RegisterErrors(name, emailOk, password) == [] && !EmailTaken(s.users, key) && IsStudentEmail(key))
      && (o.reply.Ok? ==>
            var id := s.nextId;
            && id !in s.users
            && o.state.users.Keys == s.users.Keys + {id}
            && (forall k :: k in s.users ==> o.state.users[k] == s.users[k])
            && o.state.users[id].email == key && o.state.users[id].name == Trim(name)
            && !o.state.users[id].isVerified && o.state.users[id].HasPendingOtp()
            && o.state.users[id].questionsAsked == 0 && o.state.users[id].questionsAnswered == 0
            && o.state.users[id].reputation == 0
            && o.reply == Ok(201, Welcome(Registered, o.state.users[id].otp.value.code))
            && |o.reply.body.otp| == 6 && AllDigits(o.reply.body.otp)
            && o.state.users[id].otp.value.expiresAt == now + OtpLifetimeMs)
  {
  }

  /** An email already on file, in whatever case or surrounding spaces it is submitted, is refused
      with "User already exists" and the store is left as it was. */
  lemma RegisterExistingRefused(s: State, id: UserId, name: string, email: string, password: string,
                                now: int, draw: nat)
    requires draw < 900000 && id in s.users && s.users[id].email == NormalizeEmail(email)
    requires Trim(name) != [] && |password| >= 6
    ensures Register(s, name, email, password, true, now, draw) == Outcome(s, Fail(400, UserExists))
  {
  }

  /** Registration keeps the store invariant. */
  lemma RegisterKeepsValid(s: State, name: string, email: string, password: string, emailOk: bool,
                           now: int, draw: nat)
    requires ValidState(s) && draw < 900000
    ensures ValidState(Register(s, name, email, password, emailOk, now, draw).state)
  {
    var o := Register(s, name, email, password, emailOk, now, draw);
    if o.reply.Ok? {
      RegisterAddsOneUser(s, name, email, password, emailOk, now, draw);
      AddUserKeepsValid(s, o.state.users[s.nextId]);
    }
  }

  /** A successful registration stores one user, under the next id, with an email nobody had. */
  lemma RegisterAddsOneUser(s: State, name: string, email: string, password: string, emailOk: bool,
                            now: int, draw: nat)
    requires draw < 900000
    ensures var o := Register(s, name, email, password, emailOk, now, draw);
      o.reply.Ok? ==>
        var u := o.state.users[s.nextId];
        && !EmailTaken(s.users, u.email)
        && o.state == s.(users := s.users[s.nextId := u], nextId := s.nextId + 1)
  {
  }

  method PostRegister(db: Store, name: string, email: string, password: string, emailOk: bool,
                      now: int, draw: nat) returns (r: Reply<AuthBody>)
    requires db.Valid() && draw < 900000
    modifies db
    ensures Outcome(db.Current(), r) == Register(old(db.Current()), name, email, password, emailOk, now, draw)
    ensures db.Valid()
  {
    RegisterKeepsValid(db.Current(), name, email, password, emailOk, now, draw);
    var errors := RegisterErrors(name, emailOk, password);
    if errors != [] {
      return Invalid(errors);
    }
    var key := NormalizeEmail(email);
    var found := db.FindByEmail(key);
    FoundIsOwner(db.Current(), key, found);
    if found.Some? {
      return Fail(400, UserExists);
    }
    ghost var s := db.Current();
    r := SaveNewUser(db, name, email, password, now, draw);
    if IsStudentEmail(key) {
      RegisterSaves(s, name, email, password, emailOk, now, draw);
    } else {
      RegisterRejects(s, name, email, password, emailOk, now, draw);
    }
  }

  /** The part of register after the lookup found nobody: build the user, generate its OTP, and
      save, which the schema's rule may refuse. */
  method SaveNewUser(db: Store, name: string, email: string, password: string, now: int, draw: nat)
      returns (r: Reply<AuthBody>)
    requires draw < 900000
    modifies db
    ensures var key := NormalizeEmail(email);
      && (IsStudentEmail(key) ==>
            && db.Current() == old(db.Current()).(users := old(db.users)[old(db.nextId) := Registrant(name, email, password, now, draw)],
                                                  nextId := old(db.nextId) + 1)
            && r == Ok(201, Welcome(Registered, OtpCode(draw))))
      && (!IsStudentEmail(key) ==> db.Current() == old(db.Current()) && r == Fail(500, EmailRejected(key)))
  {
    var doc := new UserDoc.New(name, email, password);
    var code := doc.GenerateOtp(now, draw);
    var u := doc.Record();
    assert u == Registrant(name, email, password, now, draw);
    if !IsStudentEmail(u.email) {
      return Fail(500, EmailRejected(u.email));
    }
    var id := db.NewId();
    db.users := db.users[id := u];
    r := Ok(201, Welcome(Registered, code));
  }

  /** Register's rejection by the schema's rule, stated on its own. */
  lemma RegisterRejects(s: State, name: string, email: string, password: string, emailOk: bool,
                        now: int, draw: nat)
    requires draw < 900000 && RegisterErrors(name, emailOk, password) == []
    requires !EmailTaken(s.users, NormalizeEmail(email)) && !IsStudentEmail(NormalizeEmail(email))
    ensures Register(s, name, email, password, emailOk, now, draw)
        == Outcome(s, Fail(500, EmailRejected(NormalizeEmail(email))))
  {
  }

  /** The success branch of register, stated on its own. */
  lemma RegisterSaves(s: State, name: string, email: string, password: string, emailOk: bool,
                      now: int, draw: nat)
    requires draw < 900000 && RegisterErrors(name, emailOk, password) == []
    requires !EmailTaken(s.users, NormalizeEmail(email)) && IsStudentEmail(NormalizeEmail(email))
    ensures var u := Registrant(name, email, password, now, draw);
      Register(s, name, email, password, emailOk, now, draw)
        == Outcome(s.(users := s.users[s.nextId := u], nextId := s.nextId + 1), Ok(201, Welcome(Registered, OtpCode(draw))))
  {
  }

  // ----- verify-email -----

  /** The verify-email validators, in order: an email, and an OTP of exactly six characters. */
  function VerifyErrors(emailOk: bool, otp: string): (errors: seq<Message>)
    ensures errors == [] <==> emailOk && |otp| == 6
  {
    Check(emailOk, EnterValidEmail) + Check(|otp| == 6, InvalidOtp)
  }

  /** POST /verify-email (auth.js:61-108). After the validators: the user must exist, must have an
      OTP on file, the codes must be equal, and the OTP must not have expired; expiry is strict, so
      an OTP is still good at the very millisecond `expiresAt`. Success marks the user verified,
      clears the OTP and signs the user in. */
  ghost function VerifyEmail(s: State, email: string, otp: string, emailOk: bool, now: int): (o: Outcome)
    ensures o.reply.Ok? || o.state == s
    ensures o.state.users.Keys == s.users.Keys
    ensures o.state.questions == s.questions && o.state.answers == s.answers && o.state.nextId == s.nextId
  {
    var errors := VerifyErrors(emailOk, otp);
    if errors != [] then Outcome(s, Invalid(errors))
    else match Owner(s.users, NormalizeEmail(email))
      case None => Outcome(s, Fail(400, UserNotFound))
      case Some(id) =>
        var u := s.users[id];
        if !u.HasPendingOtp() then Outcome(s, Fail(400, NoOtp))
        else if u.otp.value.code != otp then Outcome(s, Fail(400, InvalidOtp))
        else if u.otp.value.expiresAt < now then Outcome(s, Fail(400, OtpExpired))
        else Outcome(s.(users := s.users[id := u.(isVerified := true, otp := None)]),
                     Ok(200, SignedIn(id, u.name, u.email)))
  }

  /** The order of the checks, and what success does: each failure names the first check that
      fails, and success changes exactly one thing, the found user's verification and OTP. */
  lemma VerifyEmailOutcome(s: State, email: string, otp: string, now: int)
    requires ValidState(s) && |otp| == 6
    ensures var o := VerifyEmail(s, email, otp, true, now);
      var owner := Owner(s.users, NormalizeEmail(email));
      && (owner.None? ==> o.reply == Fail(400, UserNotFound))
      && (owner.Some? ==>
            var u := s.users[owner.value];
            && (!u.HasPendingOtp() ==> o.reply == Fail(400, NoOtp))
            && (u.HasPendingOtp() && u.otp.value.code != otp ==> o.reply == Fail(400, InvalidOtp))
            && (u.HasPendingOtp() && u.otp.value.code == otp && u.otp.value.expiresAt < now ==>
                  o.reply == Fail(400, OtpExpired))
            && (o.reply.Ok? <==> u.HasPendingOtp() && u.otp.value.code == otp && now <= u.otp.value.expiresAt)
            && (o.reply.Ok? ==>
                  && o.state.users[owner.value].isVerified
                  && o.state.users[owner.value].otp.None?
                  && o.state.users[owner.value] == u.(isVerified := true, otp := None)
                  && (forall k :: k in s.users && k != owner.value ==> o.state.users[k] == s.users[k])))
  {
  }

  /** A pending OTP is accepted up to and including the millisecond it expires, and refused one
      millisecond later. */
  lemma VerifyExpiryIsStrict(s: State, id: UserId, email: string)
    requires ValidState(s) && id in s.users && s.users[id].email == NormalizeEmail(email)
    requires s.users[id].HasPendingOtp() && |s.users[id].otp.value.code| == 6
    ensures var t := s.users[id].otp.value.expiresAt;
      var code := s.users[id].otp.value.code;
      && VerifyEmail(s, email, code, true, t).reply.Ok?
      && VerifyEmail(s, email, code, true, t + 1).reply == Fail(400, OtpExpired)
  {
    OwnerUnique(s.users, NormalizeEmail(email), id);
  }

  /** Verify-email keeps the store invariant. */
  lemma VerifyEmailKeepsValid(s: State, email: string, otp: string, emailOk: bool, now: int)
    requires ValidState(s)
    ensures ValidState(VerifyEmail(s, email, otp, emailOk, now).state)
  {
    var o := VerifyEmail(s, email, otp, emailOk, now);
    if o.reply.Ok? {
      var id := Owner(s.users, NormalizeEmail(email)).value;
      SameEmailsKeepValid(s, o.state.users);
    }
  }

  /** A successful verification uses the OTP up: verifying again, with the same code, is refused
      with "No OTP found" and changes nothing. */
  lemma VerifyTwice(s: State, email: string, otp: string, now: int, later: int)
    requires ValidState(s) && VerifyEmail(s, email, otp, true, now).reply.Ok?
    ensures var s1 := VerifyEmail(s, email, otp, true, now).state;
      VerifyEmail(s1, email, otp, true, later) == Outcome(s1, Fail(400, NoOtp))
  {
    var s1 := VerifyEmail(s, email, otp, true, now).state;
    var key := NormalizeEmail(email);
    var id := Owner(s.users, key).value;
    VerifyEmailKeepsValid(s, email, otp, true, now);
    OwnerUnique(s1.users, key, id);
  }

  method PostVerifyEmail(db: Store, email: string, otp: string, emailOk: bool, now: int)
    returns (r: Reply<AuthBody>)
    requires db.Valid()
    modifies db
    ensures Outcome(db.Current(), r) == VerifyEmail(old(db.Current()), email, otp, emailOk, now)
    ensures db.Valid()
  {
    VerifyEmailKeepsValid(db.Current(), email, otp, emailOk, now);
    var errors := VerifyErrors(emailOk, otp);
    if errors != [] {
      return Invalid(errors);
    }
    var key := NormalizeEmail(email);
    var found := db.FindByEmail(key);
    FoundIsOwner(db.Current(), key, found);
    if found.None? {
      return Fail(400, UserNotFound);
    }
    var id := found.value;
    var doc := new UserDoc.Load(db.users[id]);
    if doc.otp.None? || doc.otp.value.code == [] {
      return Fail(400, NoOtp);
    }
    if doc.otp.value.code != otp {
      return Fail(400, InvalidOtp);
    }
    if doc.otp.value.expiresAt < now {
      return Fail(400, OtpExpired);
    }
    doc.isVerified := true;
    doc.otp := None;
    db.users := db.users[id := doc.Record()];
    r := Ok(200, SignedIn(id, doc.name, doc.email));
  }

  // ----- login -----

  /** The login validators, in order: an email, and a non-empty password. */
  function LoginErrors(emailOk: bool, password: string): (errors: seq<Message>)
    ensures errors == [] <==> emailOk && password != []
  {
    Check(emailOk, EnterValidEmail) + Check(password != [], PasswordRequired)
  }

  /** POST /login (auth.js:118-158): an unknown email and a wrong password get the same reply; the
      password is checked before verification, so only the right password learns that the account
      is unverified. Login changes nothing. */
  ghost function Login(s: State, email: string, password: string, emailOk: bool): (r: Reply<AuthBody>)
    ensures r.Ok? ==>
      && r.status == 200 && r.body.SignedIn? && r.body.id in s.users
      && s.users[r.body.id].isVerified && s.users[r.body.id].password == password
  {
    var errors := LoginErrors(emailOk, password);
    if errors != [] then Invalid(errors)
    else match Owner(s.users, NormalizeEmail(email))
      case None => Fail(400, InvalidCredentials)
      case Some(id) =>
        var u := s.users[id];
        if u.password != password then Fail(400, InvalidCredentials)
        else if !u.isVerified then Fail(401, VerifyFirst)
        else Ok(200, SignedIn(id, u.name, u.email))
  }

  /** The three outcomes of a well-formed login request, each in both directions. */
  lemma LoginOutcome(s: State, email: string, password: string)
    requires password != []
    ensures var r := Login(s, email, password, true);
      var owner := Owner(s.users, NormalizeEmail(email));
      && (r == Fail(400, InvalidCredentials) <==>
            owner.None? || s.users[owner.value].password != password)
      && (r == Fail(401, VerifyFirst) <==>
            owner.Some? && s.users[owner.value].password == password && !s.users[owner.value].isVerified)
      && (r.Ok? <==>
            owner.Some? && s.users[owner.value].password == password && s.users[owner.value].isVerified)
  {
  }

  method PostLogin(db: Store, email: string, password: string, emailOk: bool) returns (r: Reply<AuthBody>)
    requires db.Valid()
    ensures r == Login(db.Current(), email, password, emailOk)
  {
    var errors := LoginErrors(emailOk, password);
    if errors != [] {
      return Invalid(errors);
    }
    var key := NormalizeEmail(email);
    var found := db.FindByEmail(key);
    FoundIsOwner(db.Current(), key, found);
    if found.None? {
      return Fail(400, InvalidCredentials);
    }
    var u := db.users[found.value];
    if u.password != password {
      return Fail(400, InvalidCredentials);
    }
    if !u.isVerified {
      return Fail(401, VerifyFirst);
    }
    r := Ok(200, SignedIn(found.value, u.name, u.email));
  }

  // ----- resend-otp -----

  /** POST /resend-otp (auth.js:165-198). The user must exist and be unverified. A new OTP is
      generated, but saved only once the email has gone out; the reply never carries the code. */
  ghost function ResendOtp(s: State, email: string, emailOk: bool, now: int, draw: nat, emailSent: bool): (o: Outcome)
    requires draw < 900000
    ensures o.reply.Done? || o.state == s
    ensures !emailSent ==> o.state == s
    ensures o.state.users.Keys == s.users.Keys
    ensures o.state.questions == s.questions && o.state.answers == s.answers && o.state.nextId == s.nextId
  {
    var errors := Check(emailOk, EnterValidEmail);
    if errors != [] then Outcome(s, Invalid(errors))
    else match Owner(s.users, NormalizeEmail(email))
      case None => Outcome(s, Fail(400, UserNotFound))
      case Some(id) =>
        var u := s.users[id];
        if u.isVerified then Outcome(s, Fail(400, AlreadyVerified))
        else if !emailSent then Outcome(s, Fail(500, SendFailed))
        else Outcome(s.(users := s.users[id := u.(otp := Some(Otp(OtpCode(draw), now + OtpLifetimeMs)))]),
                     Done(OtpSent))
  }

  /** The order of the checks, and what success does: an invalid email, an unknown user, an
      already verified user and a failed delivery are refused in that order, each leaving the store
      as it was; otherwise exactly that user's OTP is replaced by a fresh ten-minute one. */
  lemma ResendOtpOutcome(s: State, email: string, emailOk: bool, now: int, draw: nat, emailSent: bool)
    requires draw < 900000
    ensures var o := ResendOtp(s, email, emailOk, now, draw, emailSent);
      var owner := Owner(s.users, NormalizeEmail(email));
      && (!emailOk ==> o == Outcome(s, Invalid([EnterValidEmail])))
      && (emailOk && owner.None? ==> o == Outcome(s, Fail(400, UserNotFound)))
      && (emailOk && owner.Some? ==>
            var u := s.users[owner.value];
            && (u.isVerified ==> o == Outcome(s, Fail(400, AlreadyVerified)))
            && (!u.isVerified && !emailSent ==> o == Outcome(s, Fail(500, SendFailed)))
            && (o.reply.Done? <==> !u.isVerified && emailSent)
            && (o.reply.Done? ==>
                  && o.reply == Done(OtpSent)
                  && o.state.users[owner.value] == u.(otp := Some(Otp(OtpCode(draw), now + OtpLifetimeMs)))
                  && (forall k :: k in s.users && k != owner.value ==> o.state.users[k] == s.users[k])))
      && (o.reply.Done? <==> emailOk && owner.Some? && !s.users[owner.value].isVerified && emailSent)
  {
  }

  /** A resent OTP replaces the old one: afterwards the new code verifies until it expires, and any
      other code, the previous one included, is refused as invalid. */
  lemma ResendReplacesOtp(s: State, email: string, now: int, draw: nat, other: string, at: int)
    requires ValidState(s) && draw < 900000
    requires ResendOtp(s, email, true, now, draw, true).reply.Done?
    requires |other| == 6 && other != OtpCode(draw)
    ensures var s1 := ResendOtp(s, email, true, now, draw, true).state;
      && (at <= now + OtpLifetimeMs ==> VerifyEmail(s1, email, OtpCode(draw), true, at).reply.Ok?)
      && VerifyEmail(s1, email, other, true, at).reply == Fail(400, InvalidOtp)
  {
    var s1 := ResendOtp(s, email, true, now, draw, true).state;
    var key := NormalizeEmail(email);
    var id := Owner(s.users, key).value;
    ResendOtpKeepsValid(s, email, true, now, draw, true);
    OwnerUnique(s1.users, key, id);
  }

  /** Resend-otp keeps the store invariant. */
  lemma ResendOtpKeepsValid(s: State, email: string, emailOk: bool, now: int, draw: nat, emailSent: bool)
    requires ValidState(s) && draw < 900000
    ensures ValidState(ResendOtp(s, email, emailOk, now, draw, emailSent).state)
  {
    var o := ResendOtp(s, email, emailOk, now, draw, emailSent);
    if o.reply.Done? {
      SameEmailsKeepValid(s, o.state.users);
    }
  }

  method PostResendOtp(db: Store, email: string, emailOk: bool, now: int, draw: nat, emailSent: bool)
    returns (r: Reply<AuthBody>)
    requires db.Valid() && draw < 900000
    modifies db
    ensures Outcome(db.Current(), r) == ResendOtp(old(db.Current()), email, emailOk, now, draw, emailSent)
    ensures db.Valid()
  {
    ResendOtpKeepsValid(db.Current(), email, emailOk, now, draw, emailSent);
    var errors := Check(emailOk, EnterValidEmail);
    if errors != [] {
      return Invalid(errors);
    }
    var key := NormalizeEmail(email);
    var found := db.FindByEmail(key);
    FoundIsOwner(db.Current(), key, found);
    if found.None? {
      return Fail(400, UserNotFound);
    }
    var id := found.value;
    var doc := new UserDoc.Load(db.users[id]);
    if doc.isVerified {
      return Fail(400, AlreadyVerified);
    }
    var code := doc.GenerateOtp(now, draw);
    if !emailSent {
      return Fail(500, SendFailed);
    }
    db.users := db.users[id := doc.Record()];
    r := Done(OtpSent);
  }

  // ----- the sign-up flow -----

  /** Register, then log in before verifying (refused with 401), then verify with the code from the
      reply within ten minutes (accepted), then log in (accepted, as the new user). */
  lemma SignUpFlow(s: State, name: string, email: string, password: string, now: int, draw: nat, at: int)
    requires ValidState(s) && draw < 900000
    requires Register(s, name, email, password, true, now, draw).reply.Ok?
    requires at <= now + OtpLifetimeMs
    ensures var o1 := Register(s, name, email, password, true, now, draw);
      var o2 := VerifyEmail(o1.state, email, o1.reply.body.otp, true, at);
      && Login(o1.state, email, password, true) == Fail(401, VerifyFirst)
      && o2.reply == Ok(200, SignedIn(s.nextId, Trim(name), NormalizeEmail(email)))
      && Login(o2.state, email, password, true) == Ok(200, SignedIn(s.nextId, Trim(name), NormalizeEmail(email)))
  {
    RegisteredUser(s, name, email, password, now, draw);
    var o1 := Register(s, name, email, password, true, now, draw);
    PendingUserVerifies(o1.state, s.nextId, email, password, OtpCode(draw), at);
  }

  /** A user who has not verified cannot log in; the right code, entered no later than its expiry,
      verifies the user, who can then log in with the same password. */
  lemma PendingUserVerifies(t: State, id: UserId, email: string, password: string, code: string, at: int)
    requires ValidState(t) && id in t.users && t.users[id].email == NormalizeEmail(email)
    requires t.users[id].password == password && password != [] && !t.users[id].isVerified
    requires t.users[id].HasPendingOtp() && t.users[id].otp.value.code == code && |code| == 6
    requires at <= t.users[id].otp.value.expiresAt
    ensures Login(t, email, password, true) == Fail(401, VerifyFirst)
    ensures var o2 := VerifyEmail(t, email, code, true, at);
      && o2.reply == Ok(200, SignedIn(id, t.users[id].name, t.users[id].email))
      && Login(o2.state, email, password, true) == Ok(200, SignedIn(id, t.users[id].name, t.users[id].email))
  {
    var key := NormalizeEmail(email);
    OwnerUnique(t.users, key, id);
    var o2 := VerifyEmail(t, email, code, true, at);
    VerifyEmailKeepsValid(t, email, code, true, at);
    OwnerUnique(o2.state.users, key, id);
  }

  /** After a successful registration the stored email belongs to the new user alone, who holds
      the code the reply carries. */
  lemma RegisteredUser(s: State, name: string, email: string, password: string, now: int, draw: nat)
    requires ValidState(s) && draw < 900000
    requires Register(s, name, email, password, true, now, draw).reply.Ok?
    ensures var o1 := Register(s, name, email, password, true, now, draw);
      && ValidState(o1.state)
      && Owner(o1.state.users, NormalizeEmail(email)) == Some(s.nextId)
      && o1.state.users[s.nextId] == Registrant(name, email, password, now, draw)
      && o1.reply.body.otp == OtpCode(draw)
  {
    var o1 := Register(s, name, email, password, true, now, draw);
    RegisterKeepsValid(s, name, email, password, true, now, draw);
    OwnerUnique(o1.state.users, NormalizeEmail(email), s.nextId);
  }
}
