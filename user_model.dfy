/**
 * The account record of the back end's User schema, and the value conversions
 * the schema applies when a document is stored or queried: `trim` on the name,
 * institution and email, `lowercase` on the email, and the default goal of 400 hours.
 *
 * The two hash functions the controllers call are modelled symbolically: a sha256
 * digest is the free constructor `Sha256` (so equal digests have equal preimages),
 * and a bcrypt hash is `Bcrypt(secret, salt)`, which `bcrypt.compare` checks by the secret.
 */
module UserModel {
  import opened Common

  /** Shortest password the controllers and the schema accept. */
  const MinPasswordLength: nat := 6
  /** Goal used when registration, or the profile the client fetches, supplies none. */
  const DefaultRequiredHours: int := 400

  /** A sha256 hex digest; the model never looks inside it. */
  datatype Digest = Sha256(preimage: string)

  /** A bcrypt hash of `secret` under `salt`. */
  datatype PasswordHash = Bcrypt(secret: string, salt: nat)

  /** `bcrypt.compare(password, hash)`. */
  function BcryptCompare(password: string, hash: PasswordHash): bool
  {
    hash.secret == password
  }

  /**
   * A stored account. `password` only ever holds a hash; `resetPasswordToken` holds the
   * digest of an outstanding reset token and `resetPasswordExpires` its expiry in ms.
   */
  datatype Account = Account(
    id: UserId,
    fullName: string,
    institution: string,
    email: string,
    password: PasswordHash,
    requiredHours: int,
    resetPasswordToken: Option<Digest>,
    resetPasswordExpires: Option<nat>)

  /** The characters `String.prototype.trim` removes: white space and line terminators. */
  predicate IsSpace(c: char)
  {
    var n := c as int;
    n == 0x09 || n == 0x0A || n == 0x0B || n == 0x0C || n == 0x0D || n == 0x20 || n == 0xA0
    || n == 0x1680 || (0x2000 <= n <= 0x200A) || n == 0x2028 || n == 0x2029 || n == 0x202F
    || n == 0x205F || n == 0x3000 || n == 0xFEFF
  }

  /** Drops leading white space. */
  function TrimStart(s: string): (r: string)
    ensures |r| <= |s| && r == s[|s| - |r|..]
    ensures forall i :: 0 <= i < |s| - |r| ==> IsSpace(s[i])
    ensures r == [] || !IsSpace(r[0])
  {
    if s != [] && IsSpace(s[0]) then
      var r := TrimStart(s[1..]);
      assert forall i :: 1 <= i < |s| ==> s[i] == s[1..][i - 1];
      r
    else s
  }

  /** Drops trailing white space. */
  function TrimEnd(s: string): (r: string)
    ensures |r| <= |s| && r == s[..|r|]
    ensures forall i :: |r| <= i < |s| ==> IsSpace(s[i])
    ensures r == [] || !IsSpace(r[|r| - 1])
  {
    if s != [] && IsSpace(s[|s| - 1]) then
      var r := TrimEnd(s[..|s| - 1]);
      assert forall i :: 0 <= i < |s| - 1 ==> s[i] == s[..|s| - 1][i];
      r
    else s
  }

  /** The schema's `trim` setter. */
  function Trim(s: string): (r: string)
    ensures r == [] || (!IsSpace(r[0]) && !IsSpace(r[|r| - 1]))
  {
    TrimEnd(TrimStart(s))
  }

  /** A string trims to nothing exactly when it is all white space. */
  lemma TrimEmptyIff(s: string)
    ensures Trim(s) == [] <==> forall i :: 0 <= i < |s| ==> IsSpace(s[i])
  {
    var t := TrimStart(s);
    assert t != [] ==> t[0] == s[|s| - |t|] && !IsSpace(t[0]);
    assert t != [] ==> TrimEnd(t) != [];
  }

  /** Trimming twice is trimming once. */
  lemma TrimIdempotent(s: string)
    ensures Trim(Trim(s)) == Trim(s)
  {
    var t := Trim(s);
    assert TrimStart(t) == t;
    assert TrimEnd(t) == t;
  }

  /** The schema's `lowercase` setter on one character (letters A to Z). */
  function LowerChar(c: char): char
  {
    if 'A' <= c <= 'Z' then (c as int + 32) as char else c
  }

  /** The schema's `lowercase` setter. */
  function ToLower(s: string): (r: string)
    ensures |r| == |s|
    ensures forall i :: 0 <= i < |s| ==> r[i] == LowerChar(s[i]) && !('A' <= r[i] <= 'Z')
  {
    seq(|s|, i requires 0 <= i < |s| => LowerChar(s[i]))
  }

  /** Lower-casing leaves white space alone, so it commutes with dropping leading white space. */
  lemma {:induction false} ToLowerTrimStart(s: string)
    ensures ToLower(TrimStart(s)) == TrimStart(ToLower(s))
  {
    if s != [] {
      var l := ToLower(s);
      assert l[1..] == ToLower(s[1..]);
      LowerCharKeepsSpace(s[0]);
      if IsSpace(s[0]) {
        assert TrimStart(s) == TrimStart(s[1..]);
        assert TrimStart(l) == TrimStart(l[1..]);
        ToLowerTrimStart(s[1..]);
      } else {
        assert TrimStart(s) == s;
        assert TrimStart(l) == l;
      }
    }
  }

  /** Lower-casing commutes with dropping trailing white space. */
  lemma {:induction false} ToLowerTrimEnd(s: string)
    ensures ToLower(TrimEnd(s)) == TrimEnd(ToLower(s))
  {
    if s != [] {
      var l := ToLower(s);
      assert l[..|s| - 1] == ToLower(s[..|s| - 1]);
      LowerCharKeepsSpace(s[|s| - 1]);
      if IsSpace(s[|s| - 1]) {
        assert TrimEnd(s) == TrimEnd(s[..|s| - 1]);
        assert TrimEnd(l) == TrimEnd(l[..|s| - 1]);
        ToLowerTrimEnd(s[..|s| - 1]);
      } else {
        assert TrimEnd(s) == s;
        assert TrimEnd(l) == l;
      }
    }
  }

  /** The stored form of an email: the `lowercase` setter, then the `trim` setter. */
  function NormalizeEmail(s: string): string
  {
    Trim(ToLower(s))
  }

  /** No character of `s` is an upper-case letter. */
  predicate NoUpper(s: string)
  {
    forall i :: 0 <= i < |s| ==> !('A' <= s[i] <= 'Z')
  }

  /** A slice of a string without upper-case letters has none either. */
  lemma NoUpperSlice(s: string, lo: nat, hi: nat)
    requires lo <= hi <= |s| && NoUpper(s)
    ensures NoUpper(s[lo..hi])
  {
    forall i | 0 <= i < hi - lo ensures !('A' <= s[lo..hi][i] <= 'Z') {
      assert s[lo..hi][i] == s[lo + i];
    }
  }

  /** A stored email has no upper-case letter and no white space at either end. */
  lemma NormalizeEmailForm(s: string)
    ensures NoUpper(NormalizeEmail(s))
    ensures NormalizeEmail(s) == [] || (!IsSpace(NormalizeEmail(s)[0]) && !IsSpace(NormalizeEmail(s)[|NormalizeEmail(s)| - 1]))
  {
    var l := ToLower(s);
    var t := TrimStart(l);
    var r := TrimEnd(t);
    NoUpperSlice(l, |l| - |t|, |l|);
    NoUpperSlice(t, 0, |r|);
    assert r == NormalizeEmail(s);
  }

  /** Every character of `s` is white space (so `s` trims to nothing). */
  predicate AllSpace(s: string)
  {
    forall i :: 0 <= i < |s| ==> IsSpace(s[i])
  }

  /** An email already in stored form is left unchanged by the setters, so a stored email matches itself. */
  lemma NormalizeEmailIdempotent(s: string)
    ensures NormalizeEmail(NormalizeEmail(s)) == NormalizeEmail(s)
  {
    var l := ToLower(s);
    assert ToLower(l) == l;
    ToLowerTrimStart(l);
    ToLowerTrimEnd(TrimStart(l));
    assert ToLower(Trim(l)) == Trim(l);
    TrimIdempotent(l);
  }

  /** `requiredHours || 400`: an absent or zero goal becomes the default. */
  function RequiredHoursOrDefault(requiredHours: Option<int>): (r: int)
    ensures r != 0
    ensures requiredHours.Some? && requiredHours.value != 0 ==> r == requiredHours.value
    ensures requiredHours.None? || requiredHours.value == 0 ==> r == DefaultRequiredHours
  {
    match requiredHours
    case Some(h) => if h != 0 then h else DefaultRequiredHours
    case None => DefaultRequiredHours
  }

  /** The document `User.create` builds from the registration fields, after its setters ran. */
  function NewAccount(id: UserId, fullName: string, institution: string, email: string,
                      hash: PasswordHash, requiredHours: Option<int>): (r: Account)
    ensures r.id == id && r.password == hash
    ensures r.requiredHours != 0
    ensures requiredHours.None? ==> r.requiredHours == DefaultRequiredHours
    ensures requiredHours.Some? && requiredHours.value == 0 ==> r.requiredHours == DefaultRequiredHours
    ensures requiredHours.Some? && requiredHours.value != 0 ==> r.requiredHours == requiredHours.value
    ensures r.resetPasswordToken.None? && r.resetPasswordExpires.None?
  {
    Account(id, Trim(fullName), Trim(institution), NormalizeEmail(email), hash,
            RequiredHoursOrDefault(requiredHours), None, None)
  }

  /** The schema's `required` validators, which reject an empty string after trimming. */
  predicate SchemaAccepts(a: Account)
  {
    a.fullName != "" && a.institution != "" && a.email != ""
  }

  /**
   * The schema refuses the registration document exactly when one of the three
   * required strings is nothing but white space.
   */
  lemma NewAccountRejectedIff(id: UserId, fullName: string, institution: string, email: string,
                              hash: PasswordHash, requiredHours: Option<int>)
    ensures !SchemaAccepts(NewAccount(id, fullName, institution, email, hash, requiredHours))
            <==> AllSpace(fullName) || AllSpace(institution) || AllSpace(email)
  {
    TrimEmptyIff(fullName);
    TrimEmptyIff(institution);
    NormalizeEmailEmptyIff(email);
  }

  /** An email normalises to nothing exactly when it is all white space. */
  lemma NormalizeEmailEmptyIff(email: string)
    ensures NormalizeEmail(email) == [] <==> AllSpace(email)
  {
    var l := ToLower(email);
    TrimEmptyIff(l);
    forall i | 0 <= i < |email| ensures IsSpace(l[i]) == IsSpace(email[i]) {
      LowerCharKeepsSpace(email[i]);
    }
  }

  /** Lower-casing neither makes nor unmakes white space. */
  lemma LowerCharKeepsSpace(c: char)
    ensures IsSpace(LowerChar(c)) == IsSpace(c)
  {
    if 'A' <= c <= 'Z' {
      assert 'a' as int <= LowerChar(c) as int <= 'z' as int;
    }
  }

  /** A stored account: setters applied, required fields present, and a reset challenge stored whole or not at all. */
  ghost predicate StoredForm(a: Account)
  {
    && SchemaAccepts(a)
    && a.fullName == Trim(a.fullName)
    && a.institution == Trim(a.institution)
    && a.email == NormalizeEmail(a.email)
    && (a.resetPasswordToken.Some? <==> a.resetPasswordExpires.Some?)
  }

  /** Every account the registration path builds and the schema accepts is in stored form. */
  lemma NewAccountStoredForm(id: UserId, fullName: string, institution: string, email: string,
                             hash: PasswordHash, requiredHours: Option<int>)
    requires SchemaAccepts(NewAccount(id, fullName, institution, email, hash, requiredHours))
    ensures StoredForm(NewAccount(id, fullName, institution, email, hash, requiredHours))
  {
    TrimIdempotent(fullName);
    TrimIdempotent(institution);
    NormalizeEmailIdempotent(email);
  }
}
