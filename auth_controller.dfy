/**
 * The account store behind the register, login, forgot-password, reset-password and
 * current-user handlers, including the life cycle of a password-reset challenge:
 * absent, pending until its expiry, and absent again after a successful reset.
 *
 * Inputs the handlers read from the request body are strings, with a missing field
 * modelled as "" (both are falsy to the `!x` checks). The random reset token, the bcrypt
 * salt, the clock and whether the reset email could be sent are parameters.
 */
module AuthController {
  import opened Common
  import opened UserModel

  /** Lifetime of a reset challenge: one hour in milliseconds. */
  const ResetWindowMs: nat := 3_600_000

  /** The answer `forgotPassword` gives whether or not the email belongs to an account. */
  const ResetLinkSent := "If an account with that email exists, a password reset link has been sent"

  /** The profile `getCurrentUser` returns: every stored field except the password hash. */
  datatype PublicUser = PublicUser(
    id: UserId,
    fullName: string,
    institution: string,
    email: string,
    requiredHours: int,
    resetPasswordToken: Option<Digest>,
    resetPasswordExpires: Option<nat>)

  /** `findOne({ email })`: the first account whose stored email equals `email`. */
  function FindByEmail(accounts: seq<Account>, email: string): (r: Option<nat>)
    ensures r.Some? ==> r.value < |accounts| && accounts[r.value].email == email
    ensures r.None? ==> forall k :: 0 <= k < |accounts| ==> accounts[k].email != email
  {
    if accounts == [] then None
    else if accounts[0].email == email then Some(0)
    else match FindByEmail(accounts[1..], email)
      case None => None
      case Some(k) => Some(k + 1)
  }

  /** `findById(id)`. */
  function FindById(accounts: seq<Account>, id: UserId): (r: Option<nat>)
    ensures r.Some? ==> r.value < |accounts| && accounts[r.value].id == id
    ensures r.None? ==> forall k :: 0 <= k < |accounts| ==> accounts[k].id != id
  {
    if accounts == [] then None
    else if accounts[0].id == id then Some(0)
    else match FindById(accounts[1..], id)
      case None => None
      case Some(k) => Some(k + 1)
  }

  /** The query `{ resetPasswordToken: digest, resetPasswordExpires: { $gt: now } }` on one account. */
  predicate ChallengeAccepts(a: Account, digest: Digest, now: nat)
  {
    a.resetPasswordToken == Some(digest) && a.resetPasswordExpires.Some? && a.resetPasswordExpires.value > now
  }

  /** `findOne` with that query: the first account holding `digest` with an expiry strictly after `now`. */
  function FindByChallenge(accounts: seq<Account>, digest: Digest, now: nat): (r: Option<nat>)
    ensures r.Some? ==> r.value < |accounts| && ChallengeAccepts(accounts[r.value], digest, now)
    ensures r.None? ==> forall k :: 0 <= k < |accounts| ==> !ChallengeAccepts(accounts[k], digest, now)
  {
    if accounts == [] then None
    else if ChallengeAccepts(accounts[0], digest, now) then Some(0)
    else match FindByChallenge(accounts[1..], digest, now)
      case None => None
      case Some(k) => Some(k + 1)
  }

  /** The checks `register` makes before it reads the store, in the order it makes them. */
  function CheckRegistration(fullName: string, institution: string, email: string, password: string)
    : (r: Option<Reply<UserId>>)
    ensures r.None? <==> fullName != "" && institution != "" && email != "" && |password| >= MinPasswordLength
    ensures r.Some? ==> r.value.Rejected? && r.value.status == 400
    ensures fullName == "" || institution == "" || email == "" || password == "" ==>
              r == Some(Rejected(400, "All required fields must be filled"))
  {
    if fullName == "" || institution == "" || email == "" || password == "" then
      Some(Rejected(400, "All required fields must be filled"))
    else if |password| < MinPasswordLength then
      Some(Rejected(400, "Password must be at least 6 characters"))
    else
      None
  }

  /** The checks `resetPassword` makes before it looks at any account. */
  function CheckResetInput(token: string, newPassword: string): (r: Option<Reply<string>>)
    ensures r.None? <==> token != "" && |newPassword| >= MinPasswordLength
    ensures r.Some? ==> r.value.Rejected? && r.value.status == 400
  {
    if token == "" || newPassword == "" then Some(Rejected(400, "Token and password are required"))
    else if |newPassword| < MinPasswordLength then Some(Rejected(400, "Password must be at least 6 characters"))
    else None
  }

  /** What `forgotPassword` writes to the account: the digest of the token and an expiry one hour on. */
  function IssueChallenge(a: Account, token: string, now: nat): (r: Account)
    ensures ChallengeAccepts(r, Sha256(token), now)
    ensures r.(resetPasswordToken := a.resetPasswordToken, resetPasswordExpires := a.resetPasswordExpires) == a
  {
    a.(resetPasswordToken := Some(Sha256(token)), resetPasswordExpires := Some(now + ResetWindowMs))
  }

  /** What a successful `resetPassword` writes: the new hash, and both challenge fields cleared. */
  function CompleteReset(a: Account, newPassword: string, salt: nat): (r: Account)
    ensures forall d, t :: !ChallengeAccepts(r, d, t)
    ensures BcryptCompare(newPassword, r.password)
    ensures r.(password := a.password, resetPasswordToken := a.resetPasswordToken,
               resetPasswordExpires := a.resetPasswordExpires) == a
  {
    a.(password := Bcrypt(newPassword, salt), resetPasswordToken := None, resetPasswordExpires := None)
  }

  /**
   * A challenge issued at `issuedAt` is accepted for its token at any time before the hour
   * is up; when no other account holds the same digest, the account found is the one issued to.
   */
  lemma ChallengeAcceptedWithinWindow(accounts: seq<Account>, i: nat, token: string, issuedAt: nat, presentedAt: nat)
    requires i < |accounts|
    requires presentedAt < issuedAt + ResetWindowMs
    ensures FindByChallenge(accounts[i := IssueChallenge(accounts[i], token, issuedAt)], Sha256(token), presentedAt).Some?
    ensures (forall j :: 0 <= j < |accounts| && j != i ==> accounts[j].resetPasswordToken != Some(Sha256(token))) ==>
              FindByChallenge(accounts[i := IssueChallenge(accounts[i], token, issuedAt)], Sha256(token), presentedAt) == Some(i)
  {
    var after := accounts[i := IssueChallenge(accounts[i], token, issuedAt)];
    assert ChallengeAccepts(after[i], Sha256(token), presentedAt);
    var f := FindByChallenge(after, Sha256(token), presentedAt);
    assert f.value != i ==> after[f.value] == accounts[f.value];
  }

  /** From the end of the hour on, the issued challenge is refused, however valid the token. */
  lemma ChallengeRefusedAfterWindow(a: Account, token: string, issuedAt: nat, presentedAt: nat)
    requires presentedAt >= issuedAt + ResetWindowMs
    ensures !ChallengeAccepts(IssueChallenge(a, token, issuedAt), Sha256(token), presentedAt)
  {
  }

  /** A token other than the one issued is refused: the digests differ. */
  lemma OtherTokenRefused(a: Account, token: string, other: string, issuedAt: nat, presentedAt: nat)
    requires other != token
    ensures !ChallengeAccepts(IssueChallenge(a, token, issuedAt), Sha256(other), presentedAt)
  {
  }

  /**
   * Single use: once the account that held a token's digest has been reset, and no other
   * account holds that digest, presenting the token again finds no account at any time.
   */
  lemma ResetTokenSingleUse(accounts: seq<Account>, i: nat, token: string, newPassword: string, salt: nat, later: nat)
    requires i < |accounts|
    requires forall j :: 0 <= j < |accounts| && j != i ==> accounts[j].resetPasswordToken != Some(Sha256(token))
    ensures FindByChallenge(accounts[i := CompleteReset(accounts[i], newPassword, salt)], Sha256(token), later).None?
  {
    var after := accounts[i := CompleteReset(accounts[i], newPassword, salt)];
    forall k | 0 <= k < |after| ensures !ChallengeAccepts(after[k], Sha256(token), later) {
      if k != i { assert after[k] == accounts[k]; }
    }
  }

  /** Accounts in stored form, with ids below `nextId`, and no id or email used twice. */
  ghost predicate ValidAccounts(s: seq<Account>, nextId: UserId)
  {
    && (forall i :: 0 <= i < |s| ==> StoredForm(s[i]) && s[i].id < nextId)
    && (forall i, j :: 0 <= i < j < |s| ==> s[i].id != s[j].id && s[i].email != s[j].email)
  }

  /** Rewriting one account in place, keeping its id and email, keeps the store valid. */
  lemma ReplaceKeepsValid(s: seq<Account>, nextId: UserId, i: nat, a: Account)
    requires ValidAccounts(s, nextId) && i < |s|
    requires StoredForm(a) && a.id == s[i].id && a.email == s[i].email
    ensures ValidAccounts(s[i := a], nextId)
  {
    var t := s[i := a];
    forall k | 0 <= k < |t| ensures StoredForm(t[k]) && t[k].id < nextId {
      if k == i { assert t[k] == a; } else { assert t[k] == s[k]; }
    }
    forall k, j | 0 <= k < j < |t| ensures t[k].id != t[j].id && t[k].email != t[j].email {
      assert s[k].id != s[j].id && s[k].email != s[j].email;
      if k == i {
        assert t[j] == s[j];
      } else if j == i {
        assert t[k] == s[k];
      } else {
        assert t[k] == s[k] && t[j] == s[j];
      }
    }
  }

  /** An account rewritten with the same profile and a whole (or no) reset challenge stays in stored form. */
  lemma SameProfileStoredForm(before: Account, after: Account)
    requires StoredForm(before)
    requires after.fullName == before.fullName && after.institution == before.institution
    requires after.email == before.email
    requires after.resetPasswordToken.Some? <==> after.resetPasswordExpires.Some?
    ensures StoredForm(after)
  {
  }

  /** Appending an account with a fresh id and an unused email keeps the store valid. */
  lemma AppendKeepsValid(s: seq<Account>, nextId: UserId, a: Account)
    requires ValidAccounts(s, nextId)
    requires StoredForm(a) && a.id == nextId
    requires forall k :: 0 <= k < |s| ==> s[k].email != a.email
    ensures ValidAccounts(s + [a], nextId + 1)
  {
    var t := s + [a];
    forall k, j | 0 <= k < j < |t| ensures t[k].id != t[j].id && t[k].email != t[j].email {
      if j == |s| { assert t[k] == s[k]; }
    }
  }

  /** An email no earlier account uses is found at the account appended with it. */
  lemma {:induction false} FindByEmailAppended(s: seq<Account>, a: Account)
    requires forall k :: 0 <= k < |s| ==> s[k].email != a.email
    ensures FindByEmail(s + [a], a.email) == Some(|s|)
  {
    if s != [] {
      assert (s + [a])[1..] == s[1..] + [a];
      FindByEmailAppended(s[1..], a);
    }
  }

  /** The user store: the User collection, and the source of fresh ids. */
  class AccountStore {
    var accounts: seq<Account>
    var nextId: UserId

    ghost predicate Valid()
      reads this
    {
      ValidAccounts(accounts, nextId)
    }

    constructor ()
      ensures Valid() && accounts == [] && nextId == 0
    {
      accounts := [];
      nextId := 0;
    }

    /**
     * `register`: validates before touching the store, refuses a registered email with 409,
     * and stores the account with a bcrypt hash of the password and a goal of 400 when none
     * was given. A field that trims to nothing passes the handler's own check but fails the
     * schema's `required` validator, which the handler answers with 500.
     */
    method Register(fullName: string, institution: string, email: string, password: string,
                    requiredHours: Option<int>, salt: nat) returns (r: Reply<UserId>)
      requires Valid()
      modifies this
      ensures Valid()
      ensures r.Ok? ==> Login(email, password) == Ok(200, r.value)
      ensures CheckRegistration(fullName, institution, email, password).Some? ==>
                r == CheckRegistration(fullName, institution, email, password).value && unchanged(this)
      ensures CheckRegistration(fullName, institution, email, password).None? &&
              FindByEmail(old(accounts), NormalizeEmail(email)).Some? ==>
                r == Rejected(409, "Email already registered") && unchanged(this)
      ensures CheckRegistration(fullName, institution, email, password).None? &&
              FindByEmail(old(accounts), NormalizeEmail(email)).None? &&
              !SchemaAccepts(NewAccount(old(nextId), fullName, institution, email, Bcrypt(password, salt), requiredHours)) ==>
                r == Rejected(500, "Registration failed") && unchanged(this)
      ensures CheckRegistration(fullName, institution, email, password).None? &&
              FindByEmail(old(accounts), NormalizeEmail(email)).None? &&
              SchemaAccepts(NewAccount(old(nextId), fullName, institution, email, Bcrypt(password, salt), requiredHours)) ==>
                && r == Ok(201, old(nextId))
                && accounts == old(accounts) + [NewAccount(old(nextId), fullName, institution, email, Bcrypt(password, salt), requiredHours)]
                && nextId == old(nextId) + 1
    {
      var invalid := CheckRegistration(fullName, institution, email, password);
      var key := NormalizeEmail(email);
      var existing := FindByEmail(accounts, key);
      var user := NewAccount(nextId, fullName, institution, email, Bcrypt(password, salt), requiredHours);
      if invalid.Some? {
        r := invalid.value;
      } else if existing.Some? {
        r := Rejected(409, "Email already registered");
      } else if !SchemaAccepts(user) {
        r := Rejected(500, "Registration failed");
      } else {
        NewAccountStoredForm(nextId, fullName, institution, email, Bcrypt(password, salt), requiredHours);
        assert user.email == key;
        var before := accounts;
        Append(user);
        assert FindByEmail(accounts, key) == Some(|before|);
        assert accounts[|before|] == user;
        assert BcryptCompare(password, user.password);
        r := Ok(201, user.id);
        assert Login(email, password) == Ok(200, user.id);
      }
    }

    /** `User.create` on a document with a fresh id and an unused email. */
    method Append(a: Account)
      requires Valid() && StoredForm(a) && a.id == nextId
      requires forall k :: 0 <= k < |accounts| ==> accounts[k].email != a.email
      modifies this
      ensures Valid()
      ensures accounts == old(accounts) + [a] && nextId == old(nextId) + 1
      ensures FindByEmail(accounts, a.email) == Some(|old(accounts)|)
    {
      var s, n := accounts, nextId;
      AppendKeepsValid(s, n, a);
      FindByEmailAppended(s, a);
      accounts, nextId := s + [a], n + 1;
      assert ValidAccounts(accounts, nextId);
    }

    /** `user.save()` on account `i` after its reset fields or its password changed. */
    method Save(i: nat, a: Account)
      requires Valid() && i < |accounts|
      requires a.id == accounts[i].id && a.fullName == accounts[i].fullName
      requires a.institution == accounts[i].institution && a.email == accounts[i].email
      requires a.resetPasswordToken.Some? <==> a.resetPasswordExpires.Some?
      modifies this
      ensures Valid()
      ensures accounts == old(accounts)[i := a] && nextId == old(nextId)
    {
      var s := accounts;
      SameProfileStoredForm(s[i], a);
      ReplaceKeepsValid(s, nextId, i, a);
      accounts := s[i := a];
    }

    /**
     * `login`: an unknown email and a wrong password get the same 401 answer,
     * and success means the stored hash matches the password.
     */
    function Login(email: string, password: string): (r: Reply<UserId>)
      reads this
      ensures email == "" || password == "" ==> r == Rejected(400, "Email and password are required")
      ensures email != "" && password != "" && r.Rejected? ==> r == Rejected(401, "Invalid credentials")
      ensures r.Ok? ==> (r.status == 200 &&
                exists i :: 0 <= i < |accounts| && accounts[i].id == r.value &&
                  accounts[i].email == NormalizeEmail(email) && BcryptCompare(password, accounts[i].password))
      ensures email != "" && password != "" && FindByEmail(accounts, NormalizeEmail(email)).None? ==> r.Rejected?
    {
      if email == "" || password == "" then Rejected(400, "Email and password are required")
      else match FindByEmail(accounts, NormalizeEmail(email))
        case None => Rejected(401, "Invalid credentials")
        case Some(i) =>
          if !BcryptCompare(password, accounts[i].password) then Rejected(401, "Invalid credentials")
          else Ok(200, accounts[i].id)
    }

    /** With emails unique, login succeeds exactly when some account has that email and password. */
    lemma LoginSucceedsIff(email: string, password: string)
      requires Valid()
      requires email != "" && password != ""
      ensures Login(email, password).Ok? <==>
                exists i :: 0 <= i < |accounts| &&
                  accounts[i].email == NormalizeEmail(email) && BcryptCompare(password, accounts[i].password)
    {
      var e := NormalizeEmail(email);
      if i :| 0 <= i < |accounts| && accounts[i].email == e && BcryptCompare(password, accounts[i].password) {
        var f := FindByEmail(accounts, e);
        assert f.Some?;
        var k := f.value;
        assert accounts[k].email == accounts[i].email;
        assert k == i;
        assert Login(email, password) == Ok(200, accounts[i].id);
      }
    }

    /** `getCurrentUser`: the caller's account without its password hash, or 404. */
    function GetCurrentUser(userId: UserId): (r: Reply<PublicUser>)
      reads this
      ensures r.Rejected? <==> forall k :: 0 <= k < |accounts| ==> accounts[k].id != userId
      ensures r.Rejected? ==> r == Rejected(404, "User not found")
      ensures r.Ok? ==> (r.status == 200 && r.value.id == userId &&
                exists k :: 0 <= k < |accounts| && accounts[k].id == userId &&
                  r.value == PublicUser(accounts[k].id, accounts[k].fullName, accounts[k].institution,
                                        accounts[k].email, accounts[k].requiredHours,
                                        accounts[k].resetPasswordToken, accounts[k].resetPasswordExpires))
    {
      match FindById(accounts, userId)
      case None => Rejected(404, "User not found")
      case Some(k) =>
        var a := accounts[k];
        Ok(200, PublicUser(a.id, a.fullName, a.institution, a.email, a.requiredHours,
                           a.resetPasswordToken, a.resetPasswordExpires))
    }

    /**
     * `forgotPassword`: for a known email, stores the token's digest (never the token) with an
     * expiry one hour on, replacing any earlier challenge. The answer does not reveal whether
     * the email is known; if the reset email cannot be sent the answer is 500, but the
     * challenge has already been saved.
     */
    method ForgotPassword(email: string, token: string, now: nat, mailSent: bool) returns (r: Reply<string>)
      requires Valid()
      modifies this
      ensures Valid()
      ensures nextId == old(nextId)
      ensures email == "" ==> r == Rejected(400, "Email is required") && unchanged(this)
      ensures email != "" && FindByEmail(old(accounts), NormalizeEmail(email)).None? ==>
                r == Ok(200, ResetLinkSent) && unchanged(this)
      ensures email != "" && FindByEmail(old(accounts), NormalizeEmail(email)).Some? ==>
                var i := FindByEmail(old(accounts), NormalizeEmail(email)).value;
                && accounts == old(accounts)[i := IssueChallenge(old(accounts)[i], token, now)]
                && r == (if mailSent then Ok(200, ResetLinkSent)
                         else Rejected(500, "Error processing forgot password request"))
      ensures email != "" && mailSent ==> r == Ok(200, ResetLinkSent)
    {
      if email == "" {
        r := Rejected(400, "Email is required");
      } else {
        var found := FindByEmail(accounts, NormalizeEmail(email));
        if found.None? {
          r := Ok(200, ResetLinkSent);
        } else {
          var i := found.value;
          Save(i, IssueChallenge(accounts[i], token, now));
          r := if mailSent then Ok(200, ResetLinkSent) else Rejected(500, "Error processing forgot password request");
        }
      }
    }

    /**
     * `resetPassword`: checks the new password's length before any lookup, then accepts only
     * an account holding the token's digest with an expiry strictly after `now`. On success the
     * password hash is replaced and both challenge fields are cleared; nothing else changes.
     */
    method ResetPassword(token: string, newPassword: string, now: nat, salt: nat) returns (r: Reply<string>)
      requires Valid()
      modifies this
      ensures Valid()
      ensures nextId == old(nextId)
      ensures CheckResetInput(token, newPassword).Some? ==>
                r == CheckResetInput(token, newPassword).value && unchanged(this)
      ensures CheckResetInput(token, newPassword).None? && FindByChallenge(old(accounts), Sha256(token), now).None? ==>
                r == Rejected(400, "Invalid or expired reset token") && unchanged(this)
      ensures CheckResetInput(token, newPassword).None? && FindByChallenge(old(accounts), Sha256(token), now).Some? ==>
                var i := FindByChallenge(old(accounts), Sha256(token), now).value;
                && accounts == old(accounts)[i := CompleteReset(old(accounts)[i], newPassword, salt)]
                && r == Ok(200, "Password reset successful. Please log in with your new password")
    {
      var invalid := CheckResetInput(token, newPassword);
      if invalid.Some? {
        return invalid.value;
      }
      var found := FindByChallenge(accounts, Sha256(token), now);
      if found.None? {
        return Rejected(400, "Invalid or expired reset token");
      }
      var i := found.value;
      Save(i, CompleteReset(accounts[i], newPassword, salt));
      r := Ok(200, "Password reset successful. Please log in with your new password");
    }
  }
}
