/** The User document (backend/models/User.js): its fields and defaults, the setters applied to
    `name` and `email`, and `generateOTP`. Password hashing is outside the model: the stored
    password stands for its hash, and comparing passwords is equality. */
module UserModel {
  import opened Common
  import opened Text
  import opened EmailFormat

  /** A pending one-time password; `expiresAt` is in milliseconds since the epoch. */
  datatype Otp = Otp(code: string, expiresAt: int)

  /** The three counters that the content routes move with `$inc`. */
  datatype Counter = QuestionsAsked | QuestionsAnswered | Reputation

  /** A user as the collection stores it. The creation timestamp is not modelled. */
  datatype User = User(
    name: string,
    email: string,
    password: string,
    isVerified: bool,
    otp: Option<Otp>,
    questionsAsked: int,
    questionsAnswered: int,
    reputation: int)
  {
    /** verify-email's test that an OTP is on file: the `otp` object is present with a non-empty code. */
    predicate HasPendingOtp()
    {
      otp.Some? && otp.value.code != []
    }

    function Get(c: Counter): int
    {
      match c
      case QuestionsAsked => questionsAsked
      case QuestionsAnswered => questionsAnswered
      case Reputation => reputation
    }

    /** Everything about the user except the counters. */
    function Profile(): User
    {
      this.(questionsAsked := 0, questionsAnswered := 0, reputation := 0)
    }

    /** `$inc: { c: d }` applied to this user: counter c moves by exactly d and nothing else changes. */
    function Inc(c: Counter, d: int): (r: User)
      ensures r.Get(c) == Get(c) + d
      ensures forall c' :: c' != c ==> r.Get(c') == Get(c')
      ensures r.Profile() == Profile()
    {
      match c
      case QuestionsAsked => this.(questionsAsked := questionsAsked + d)
      case QuestionsAnswered => this.(questionsAnswered := questionsAnswered + d)
      case Reputation => this.(reputation := reputation + d)
    }
  }

  /** The lifetime of an OTP: ten minutes. */
  const OtpLifetimeMs: int := 10 * 60 * 1000

  /** `new User({ name, email, password })`: the schema trims the name, trims and lower-cases the
      email, and fills in the defaults: unverified, no OTP, every counter 0. */
  function NewUser(name: string, email: string, password: string): (u: User)
    ensures u.name == Trim(name) && u.email == NormalizeEmail(email) && u.password == password
    ensures !u.isVerified && u.otp.None? && !u.HasPendingOtp()
    ensures u.questionsAsked == 0 && u.questionsAnswered == 0 && u.reputation == 0
  {
    User(Trim(name), NormalizeEmail(email), password, false, None, 0, 0, 0)
  }

  /** The code `generateOTP` draws: `Math.floor(100000 + Math.random() * 900000)` printed in decimal,
      with `draw` standing for `Math.floor(Math.random() * 900000)`. It is always six decimal
      digits, from 100000 to 999999, and reads back as 100000 + draw. */
  function OtpCode(draw: nat): (code: string)
    requires draw < 900000
    ensures |code| == 6 && AllDigits(code)
    ensures DecimalValue(code) == 100000 + draw
    ensures 100000 <= DecimalValue(code) <= 999999
  {
    DecimalLength(100000 + draw, 6);
    DecimalRoundTrip(100000 + draw);
    DecimalString(100000 + draw)
  }

  /** Two different draws never give the same code. */
  lemma OtpCodeInjective(d1: nat, d2: nat)
    requires d1 < 900000 && d2 < 900000 && OtpCode(d1) == OtpCode(d2)
    ensures d1 == d2
  {
    assert DecimalValue(OtpCode(d1)) == DecimalValue(OtpCode(d2));
  }

  /** A loaded or newly built User document, whose fields the auth routes change in place. */
  class UserDoc {
    var name: string
    var email: string
    var password: string
    var isVerified: bool
    var otp: Option<Otp>
    var questionsAsked: int
    var questionsAnswered: int
    var reputation: int

    constructor Load(u: User)
      ensures Record() == u
    {
      name, email, password := u.name, u.email, u.password;
      isVerified, otp := u.isVerified, u.otp;
      questionsAsked, questionsAnswered, reputation := u.questionsAsked, u.questionsAnswered, u.reputation;
    }

    /** `new User({ name, email, password })`, with the schema's setters and defaults. */
    constructor New(name0: string, email0: string, password0: string)
      ensures Record() == NewUser(name0, email0, password0)
    {
      name, email, password := Trim(name0), NormalizeEmail(email0), password0;
      isVerified, otp := false, None;
      questionsAsked, questionsAnswered, reputation := 0, 0, 0;
    }

    /** What `save()` writes back. */
    function Record(): User
      reads this
    {
      User(name, email, password, isVerified, otp, questionsAsked, questionsAnswered, reputation)
    }

    /** `generateOTP()` (User.js:73-80): replaces any earlier OTP with a new one that expires
        exactly ten minutes after `now`, and returns the same code it stored. */
    method GenerateOtp(now: int, draw: nat) returns (code: string)
      requires draw < 900000
      modifies this
      ensures code == OtpCode(draw) && |code| == 6
      ensures otp == Some(Otp(code, now + OtpLifetimeMs))
      ensures Record() == old(Record()).(otp := otp)
    {
      code := DecimalString(100000 + draw);
      otp := Some(Otp(code, now + 10 * 60 * 1000));
    }
  }
}
