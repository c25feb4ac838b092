/** Users of the booking system: the field validators, the user record with
    its password check and in-place updates, and the registry keyed by
    email. Password hashing is a function handed in by the caller. */
module Users {
  import opened Common
  import opened Text

  /** Characters allowed before the `@` of an email. */
  predicate IsLocalChar(c: char) {
    IsLetter(c) || IsDigit(c) || c == '.' || c == '_' || c == '%' || c == '+' || c == '-'
  }

  /** Characters allowed in the domain of an email. */
  predicate IsDomainChar(c: char) {
    IsLetter(c) || IsDigit(c) || c == '.' || c == '-'
  }

  /** `e` reads as a non-empty local part, `@` at index `i`, a non-empty
      domain, `.` at index `j` and at least two letters up to the end. */
  predicate EmailSplit(e: string, i: int, j: int) {
    && 0 < i && i + 1 < j && j + 3 <= |e|
    && e[i] == '@' && e[j] == '.'
    && (forall k :: 0 <= k < i ==> IsLocalChar(e[k]))
    && (forall k :: i < k < j ==> IsDomainChar(e[k]))
    && (forall k :: j < k < |e| ==> IsLetter(e[k]))
  }

  /** The email check: the only candidate split is at the first `@` and the
      last `.`. */
  predicate ValidEmail(e: string) {
    EmailSplit(e, IndexOf(e, '@'), LastIndexOf(e, '.'))
  }

  /** The email check accepts exactly the strings that split as the email
      pattern describes: local part, `@`, domain, `.`, two or more letters. */
  lemma ValidEmailIffSplit(e: string)
    ensures ValidEmail(e) <==> exists i, j :: EmailSplit(e, i, j)
  {
    IndexOfIsFirst(e, '@');
    LastIndexOfIsLast(e, '.');
    if exists i, j :: EmailSplit(e, i, j) {
      var i, j :| EmailSplit(e, i, j);
      assert forall k :: 0 <= k < i ==> e[k] != '@';
      assert forall k :: j < k < |e| ==> e[k] != '.';
      assert IndexOf(e, '@') == i;
      assert LastIndexOf(e, '.') == j;
    }
  }

  /** `p` is an optional `+` followed by the digits `d`, 9 to 15 of them. */
  predicate PhoneSpelling(p: string, d: string) {
    (p == d || p == "+" + d) && 9 <= |d| <= 15 && AllDigits(d)
  }

  /** The phone check: drop one leading `+`, then 9 to 15 digits. */
  predicate ValidPhone(p: string) {
    var d := if |p| > 0 && p[0] == '+' then p[1..] else p;
    9 <= |d| <= 15 && AllDigits(d)
  }

  /** The phone check accepts exactly the optional `+` and 9 to 15 digits. */
  lemma ValidPhoneIffSpelling(p: string)
    ensures ValidPhone(p) <==> exists d :: PhoneSpelling(p, d)
  {
    if |p| > 0 && p[0] == '+' {
      assert p == "+" + p[1..];
      if ValidPhone(p) {
        assert PhoneSpelling(p, p[1..]);
      }
      forall d | PhoneSpelling(p, d) ensures d == p[1..] {
        assert p != d by {
          assert !IsDigit(p[0]);
        }
      }
    } else {
      if ValidPhone(p) {
        assert PhoneSpelling(p, p);
      }
      forall d | PhoneSpelling(p, d) ensures d == p {
        assert p != "+" + d by {
          assert ("+" + d)[0] == '+';
        }
      }
    }
  }

  /** The password rule: at least 8 characters, with a letter and a digit. */
  function ValidatePassword(password: string): (o: Outcome)
    ensures o.Pass? <==> |password| >= 8 && HasLetter(password) && HasDigit(password)
    ensures o.Fail? ==> o.error == WeakPassword
  {
    if |password| < 8 then Fail(WeakPassword)
    else if !(HasLetter(password) && HasDigit(password)) then Fail(WeakPassword)
    else Pass
  }

  /** The editable personal data of a user. */
  datatype Profile = Profile(firstName: string, lastName: string, email: string, phone: string)

  /** What every stored user satisfies: stripped, non-empty names without
      digits, a first name of at most 100 characters, an accepted email and
      an accepted phone number. */
  predicate ValidProfile(p: Profile) {
    && Trimmed(p.firstName) && Trimmed(p.lastName) && Trimmed(p.email) && Trimmed(p.phone)
    && p.firstName != [] && p.lastName != []
    && !HasDigit(p.firstName) && !HasDigit(p.lastName)
    && |p.firstName| <= 100
    && ValidEmail(p.email) && ValidPhone(p.phone)
  }

  /** The fields of a new user as stored: names, email and phone stripped. */
  function Stripped(firstName: string, lastName: string, email: string, phone: string): (d: Profile)
    ensures Trimmed(d.firstName) && Trimmed(d.lastName) && Trimmed(d.email) && Trimmed(d.phone)
  {
    Profile(Strip(firstName), Strip(lastName), Strip(email), Strip(phone))
  }

  /** The checks run on the stripped fields of a new user, in their order:
      every field and the password present, no digit in either name, first
      name length, email, phone, password rule. */
  function CheckFields(d: Profile, password: string): (r: Result<Profile>)
    ensures r.Success? ==> r.value == d
  {
    if d.firstName == [] || d.lastName == [] || d.email == [] || d.phone == [] || password == [] then
      Failure(MissingField)
    else if HasDigit(d.firstName) || HasDigit(d.lastName) then Failure(NameHasDigit)
    else if |d.firstName| > 100 then Failure(NameTooLong)
    else if !ValidEmail(d.email) then Failure(BadEmail)
    else if !ValidPhone(d.phone) then Failure(BadPhone)
    else if ValidatePassword(password).Fail? then Failure(WeakPassword)
    else Success(d)
  }

  /** The validation a new user goes through: the names, email and phone
      are stripped (the password never is) and then checked. */
  function CheckNewUser(firstName: string, lastName: string, email: string, phone: string,
                        password: string): (r: Result<Profile>)
    ensures r.Success? ==> r.value == Stripped(firstName, lastName, email, phone)
  {
    CheckFields(Stripped(firstName, lastName, email, phone), password)
  }

  /** The checks accept exactly a stripped record that is a valid profile
      with a password that passes the password rule; a missing field is
      reported before anything else. */
  lemma CheckFieldsAccepts(d: Profile, password: string)
    requires Trimmed(d.firstName) && Trimmed(d.lastName) && Trimmed(d.email) && Trimmed(d.phone)
    ensures var r := CheckFields(d, password);
      && (r.Success? <==> ValidProfile(d) && ValidatePassword(password).Pass?)
      && (r == Failure(MissingField) <==>
          d.firstName == [] || d.lastName == [] || d.email == [] || d.phone == [] || password == [])
  {
    if ValidEmail(d.email) {
      assert d.email != [];
    }
  }

  /** The checks report the first failing one, in the order missing field,
      digit in a name, first-name length, email, phone, password. */
  lemma CheckFieldsReportsFirstFailure(d: Profile, password: string)
    ensures var missing := d.firstName == [] || d.lastName == [] || d.email == [] || d.phone == [] || password == [];
      var digits := HasDigit(d.firstName) || HasDigit(d.lastName);
      var names := !missing && !digits && |d.firstName| <= 100;
      var r := CheckFields(d, password);
      && (missing ==> r == Failure(MissingField))
      && (!missing && digits ==> r == Failure(NameHasDigit))
      && (!missing && !digits && |d.firstName| > 100 ==> r == Failure(NameTooLong))
      && (names && !ValidEmail(d.email) ==> r == Failure(BadEmail))
      && (names && ValidEmail(d.email) && !ValidPhone(d.phone) ==> r == Failure(BadPhone))
      && (names && ValidEmail(d.email) && ValidPhone(d.phone) && ValidatePassword(password).Fail? ==>
            r == Failure(WeakPassword))
  {
  }

  /** Creation accepts exactly the input whose stripped fields form a valid
      profile and whose password passes the password rule, and then keeps
      the stripped fields; a missing field is reported before anything else. */
  lemma CheckNewUserAccepts(firstName: string, lastName: string, email: string, phone: string,
                            password: string)
    ensures var r := CheckNewUser(firstName, lastName, email, phone, password);
      var d := Stripped(firstName, lastName, email, phone);
      && (r.Success? <==> ValidProfile(d) && ValidatePassword(password).Pass?)
      && (r.Success? ==> r.value == d)
      && (r == Failure(MissingField) <==>
          d.firstName == [] || d.lastName == [] || d.email == [] || d.phone == [] || password == [])
  {
    CheckFieldsAccepts(Stripped(firstName, lastName, email, phone), password);
  }

  /** Creation strips the email itself, so stripping it beforehand changes
      nothing. */
  lemma CheckNewUserStripsEmail(firstName: string, lastName: string, email: string, phone: string,
                                password: string)
    ensures CheckNewUser(firstName, lastName, Strip(email), phone, password)
         == CheckNewUser(firstName, lastName, email, phone, password)
  {
    StripIdempotent(email);
    assert Stripped(firstName, lastName, Strip(email), phone) == Stripped(firstName, lastName, email, phone);
  }

  /** Which fields an update touches; absent fields are left alone. */
  datatype Patch = Patch(email: Option<string>, firstName: Option<string>,
                         lastName: Option<string>, phone: Option<string>)

  /** Whether each present field of a patch passes its own check. */
  predicate EmailOk(p: Patch) { p.email.None? || ValidEmail(Strip(p.email.value)) }
  predicate FirstNameOk(p: Patch) {
    p.firstName.None? ||
      (var f := Strip(p.firstName.value); f != [] && !HasDigit(f) && |f| <= 100)
  }
  predicate LastNameOk(p: Patch) {
    p.lastName.None? || (var l := Strip(p.lastName.value); l != [] && !HasDigit(l))
  }
  predicate PhoneOk(p: Patch) { p.phone.None? || ValidPhone(Strip(p.phone.value)) }

  /** One step of an update: the email, when present, is stripped and
      checked, and stored if it passes. */
  function EmailStep(d: Profile, v: Option<string>): (r: Result<Profile>)
    ensures r.Success? <==> v.None? || ValidEmail(Strip(v.value))
    ensures r.Failure? ==> r.error == BadEmail
    ensures r.Success? ==> r.value == if v.Some? then d.(email := Strip(v.value)) else d
  {
    if v.None? then Success(d)
    else
      var e := Strip(v.value);
      if !ValidEmail(e) then Failure(BadEmail) else Success(d.(email := e))
  }

  /** The first-name step: present, it must be non-empty once stripped,
      digit-free and at most 100 characters long. */
  function FirstNameStep(d: Profile, v: Option<string>): (r: Result<Profile>)
    ensures r.Success? <==> v.None? || (var f := Strip(v.value); f != [] && !HasDigit(f) && |f| <= 100)
    ensures r.Failure? ==> v.Some? && var f := Strip(v.value);
      r.error == if f == [] then MissingField else if HasDigit(f) then NameHasDigit else NameTooLong
    ensures r.Success? ==> r.value == if v.Some? then d.(firstName := Strip(v.value)) else d
  {
    if v.None? then Success(d)
    else
      var f := Strip(v.value);
      if f == [] then Failure(MissingField)
      else if HasDigit(f) then Failure(NameHasDigit)
      else if |f| > 100 then Failure(NameTooLong)
      else Success(d.(firstName := f))
  }

  /** The last-name step: present, it must be non-empty once stripped and
      digit-free (no length limit applies). */
  function LastNameStep(d: Profile, v: Option<string>): (r: Result<Profile>)
    ensures r.Success? <==> v.None? || (var l := Strip(v.value); l != [] && !HasDigit(l))
    ensures r.Failure? ==> v.Some? && r.error == if Strip(v.value) == [] then MissingField else NameHasDigit
    ensures r.Success? ==> r.value == if v.Some? then d.(lastName := Strip(v.value)) else d
  {
    if v.None? then Success(d)
    else
      var l := Strip(v.value);
      if l == [] then Failure(MissingField)
      else if HasDigit(l) then Failure(NameHasDigit)
      else Success(d.(lastName := l))
  }

  /** The phone step: present, it must pass the phone check once stripped. */
  function PhoneStep(d: Profile, v: Option<string>): (r: Result<Profile>)
    ensures r.Success? <==> v.None? || ValidPhone(Strip(v.value))
    ensures r.Failure? ==> r.error == BadPhone
    ensures r.Success? ==> r.value == if v.Some? then d.(phone := Strip(v.value)) else d
  {
    if v.None? then Success(d)
    else
      var ph := Strip(v.value);
      if !ValidPhone(ph) then Failure(BadPhone) else Success(d.(phone := ph))
  }

  /** An update, field by field in the order email, first name, last name,
      phone: each present field is stripped, checked and stored before the
      next is looked at, and the first failing check stops the update. */
  function ApplyPatch(d: Profile, p: Patch): (Profile, Outcome) {
    match EmailStep(d, p.email)
    case Failure(err) => (d, Fail(err))
    case Success(d1) =>
      match FirstNameStep(d1, p.firstName)
      case Failure(err) => (d1, Fail(err))
      case Success(d2) =>
        match LastNameStep(d2, p.lastName)
        case Failure(err) => (d2, Fail(err))
        case Success(d3) =>
          match PhoneStep(d3, p.phone)
          case Failure(err) => (d3, Fail(err))
          case Success(d4) => (d4, Pass)
  }

  /** What an update leaves behind: a field takes its new value exactly when
      it and every field before it passed; the update succeeds exactly when
      every present field passes. A failure thus leaves the failing field and
      all later ones as they were. */
  lemma UpdateFieldByField(d: Profile, p: Patch)
    ensures var (d', o) := ApplyPatch(d, p);
      && (o.Pass? <==> EmailOk(p) && FirstNameOk(p) && LastNameOk(p) && PhoneOk(p))
      && d'.email == (if p.email.Some? && EmailOk(p) then Strip(p.email.value) else d.email)
      && d'.firstName == (if p.firstName.Some? && EmailOk(p) && FirstNameOk(p)
                          then Strip(p.firstName.value) else d.firstName)
      && d'.lastName == (if p.lastName.Some? && EmailOk(p) && FirstNameOk(p) && LastNameOk(p)
                         then Strip(p.lastName.value) else d.lastName)
      && d'.phone == (if p.phone.Some? && EmailOk(p) && FirstNameOk(p) && LastNameOk(p) && PhoneOk(p)
                      then Strip(p.phone.value) else d.phone)
  {
    var r1 := EmailStep(d, p.email);
    if r1.Failure? {
      assert ApplyPatch(d, p) == (d, Fail(r1.error));
      return;
    }
    var d1 := r1.value;
    var r2 := FirstNameStep(d1, p.firstName);
    if r2.Failure? {
      assert ApplyPatch(d, p) == (d1, Fail(r2.error));
      return;
    }
    var d2 := r2.value;
    var r3 := LastNameStep(d2, p.lastName);
    if r3.Failure? {
      assert ApplyPatch(d, p) == (d2, Fail(r3.error));
      return;
    }
    var d3 := r3.value;
    var r4 := PhoneStep(d3, p.phone);
    if r4.Failure? {
      assert ApplyPatch(d, p) == (d3, Fail(r4.error));
      return;
    }
    assert ApplyPatch(d, p) == (r4.value, Pass);
  }

  /** An update, successful or not, keeps a valid profile valid: every field
      it stores has passed the same check as at creation. */
  lemma UpdateKeepsProfileValid(d: Profile, p: Patch)
    requires ValidProfile(d)
    ensures ValidProfile(ApplyPatch(d, p).0)
  {
    var r1 := EmailStep(d, p.email);
    if r1.Failure? {
      assert ApplyPatch(d, p).0 == d;
      return;
    }
    EmailStepKeepsValid(d, p.email);
    var d1 := r1.value;
    var r2 := FirstNameStep(d1, p.firstName);
    if r2.Failure? {
      assert ApplyPatch(d, p).0 == d1;
      return;
    }
    FirstNameStepKeepsValid(d1, p.firstName);
    var d2 := r2.value;
    var r3 := LastNameStep(d2, p.lastName);
    if r3.Failure? {
      assert ApplyPatch(d, p).0 == d2;
      return;
    }
    LastNameStepKeepsValid(d2, p.lastName);
    var d3 := r3.value;
    var r4 := PhoneStep(d3, p.phone);
    if r4.Failure? {
      assert ApplyPatch(d, p).0 == d3;
      return;
    }
    PhoneStepKeepsValid(d3, p.phone);
    assert ApplyPatch(d, p).0 == r4.value;
  }

  lemma EmailStepKeepsValid(d: Profile, v: Option<string>)
    requires ValidProfile(d) && EmailStep(d, v).Success?
    ensures ValidProfile(EmailStep(d, v).value)
  {
    if v.Some? {
      var e := Strip(v.value);
      assert ValidEmail(e);
      assert e != [];
    }
  }

  lemma FirstNameStepKeepsValid(d: Profile, v: Option<string>)
    requires ValidProfile(d) && FirstNameStep(d, v).Success?
    ensures ValidProfile(FirstNameStep(d, v).value)
  {
  }

  lemma LastNameStepKeepsValid(d: Profile, v: Option<string>)
    requires ValidProfile(d) && LastNameStep(d, v).Success?
    ensures ValidProfile(LastNameStep(d, v).value)
  {
  }

  lemma PhoneStepKeepsValid(d: Profile, v: Option<string>)
    requires ValidProfile(d) && PhoneStep(d, v).Success?
    ensures ValidProfile(PhoneStep(d, v).value)
  {
    if v.Some? {
      var ph := Strip(v.value);
      assert ValidPhone(ph);
      assert ph != [];
    }
  }

  class User {
    const userId: string
    /** The one-way password hash; verification compares its outputs. */
    const hasher: string -> string
    var firstName: string
    var lastName: string
    var email: string
    var phone: string
    var passwordHash: string

    function Data(): Profile
      reads this
    {
      Profile(firstName, lastName, email, phone)
    }

    constructor (userId: string, hasher: string -> string, data: Profile, passwordHash: string)
      ensures this.userId == userId && this.hasher == hasher
      ensures Data() == data && this.passwordHash == passwordHash
    {
      this.userId := userId;
      this.hasher := hasher;
      firstName := data.firstName;
      lastName := data.lastName;
      email := data.email;
      phone := data.phone;
      this.passwordHash := passwordHash;
    }

    /** `password` hashes to the stored hash. */
    predicate VerifyPassword(password: string): (ok: bool)
      reads this
      ensures ok <==> hasher(password) == passwordHash
    {
      hasher(password) == passwordHash
    }

    /** Updates the fields a patch names, in the order email, first name,
        last name, phone, stopping at the first field that fails its check. */
    method UpdateData(p: Patch) returns (o: Outcome)
      modifies this
      ensures (Data(), o) == ApplyPatch(old(Data()), p)
      ensures old(ValidProfile(Data())) ==> ValidProfile(Data())
      ensures passwordHash == old(passwordHash)
    {
      ghost var d0 := Data();
      if ValidProfile(d0) {
        UpdateKeepsProfileValid(d0, p);
      }
      o := UpdateEmail(p.email);
      if o.Fail? {
        return;
      }
      o := UpdateFirstName(p.firstName);
      if o.Fail? {
        return;
      }
      o := UpdateLastName(p.lastName);
      if o.Fail? {
        return;
      }
      o := UpdatePhone(p.phone);
    }

    /** The email part of an update. */
    method UpdateEmail(v: Option<string>) returns (o: Outcome)
      modifies this
      ensures var r := EmailStep(old(Data()), v);
        if r.Success? then o == Pass && Data() == r.value
        else o == Fail(r.error) && Data() == old(Data())
      ensures passwordHash == old(passwordHash)
    {
      ghost var d := Data();
      if v.Some? {
        var e := Strip(v.value);
        if !ValidEmail(e) {
          assert EmailStep(d, v) == Failure(BadEmail);
          return Fail(BadEmail);
        }
        email := e;
        assert EmailStep(d, v) == Success(d.(email := e));
        assert Data() == d.(email := e);
      } else {
        assert EmailStep(d, v) == Success(d);
      }
      return Pass;
    }

    /** The first-name part of an update. */
    method UpdateFirstName(v: Option<string>) returns (o: Outcome)
      modifies this
      ensures var r := FirstNameStep(old(Data()), v);
        if r.Success? then o == Pass && Data() == r.value
        else o == Fail(r.error) && Data() == old(Data())
      ensures passwordHash == old(passwordHash)
    {
      if v.Some? {
        var f := Strip(v.value);
        if f == [] {
          return Fail(MissingField);
        }
        if HasDigit(f) {
          return Fail(NameHasDigit);
        }
        if |f| > 100 {
          return Fail(NameTooLong);
        }
        firstName := f;
      }
      return Pass;
    }

    /** The last-name part of an update. */
    method UpdateLastName(v: Option<string>) returns (o: Outcome)
      modifies this
      ensures var r := LastNameStep(old(Data()), v);
        if r.Success? then o == Pass && Data() == r.value
        else o == Fail(r.error) && Data() == old(Data())
      ensures passwordHash == old(passwordHash)
    {
      if v.Some? {
        var l := Strip(v.value);
        if l == [] {
          return Fail(MissingField);
        }
        if HasDigit(l) {
          return Fail(NameHasDigit);
        }
        lastName := l;
      }
      return Pass;
    }

    /** The phone part of an update. */
    method UpdatePhone(v: Option<string>) returns (o: Outcome)
      modifies this
      ensures var r := PhoneStep(old(Data()), v);
        if r.Success? then o == Pass && Data() == r.value
        else o == Fail(r.error) && Data() == old(Data())
      ensures passwordHash == old(passwordHash)
    {
      if v.Some? {
        var ph := Strip(v.value);
        if !ValidPhone(ph) {
          return Fail(BadPhone);
        }
        phone := ph;
      }
      return Pass;
    }

    /** Replaces the password after checking the old one and the password
        rule; on any failure the stored hash is kept. */
    method ChangePassword(oldPassword: string, newPassword: string) returns (o: Outcome)
      modifies this
      ensures Data() == old(Data())
      ensures !old(VerifyPassword(oldPassword)) ==> o == Fail(WrongPassword)
      ensures old(VerifyPassword(oldPassword)) && ValidatePassword(newPassword).Fail? ==>
        o == Fail(WeakPassword)
      ensures o.Fail? ==> passwordHash == old(passwordHash)
      ensures o.Pass? <==> old(VerifyPassword(oldPassword)) && ValidatePassword(newPassword).Pass?
      ensures o.Pass? ==> passwordHash == hasher(newPassword) && VerifyPassword(newPassword)
    {
      if !VerifyPassword(oldPassword) {
        return Fail(WrongPassword);
      }
      var check := ValidatePassword(newPassword);
      if check.Fail? {
        return check;
      }
      passwordHash := hasher(newPassword);
      return Pass;
    }
  }

  /** Creates a user from raw input: runs the creation checks and, when they
      pass, stores the stripped fields and the hash of the password under the
      given fresh id. */
  method NewUser(firstName: string, lastName: string, email: string, phone: string,
                 password: string, userId: string, hasher: string -> string)
    returns (r: Result<User>)
    ensures var check := CheckNewUser(firstName, lastName, email, phone, password);
      && (r.Failure? <==> check.Failure?)
      && (r.Failure? ==> r.error == check.error)
      && (r.Success? ==> fresh(r.value) && r.value.Data() == check.value)
    ensures r.Success? ==> r.value.userId == userId && r.value.hasher == hasher
    ensures r.Success? ==> r.value.passwordHash == hasher(password) && r.value.VerifyPassword(password)
  {
    var check := CheckNewUser(firstName, lastName, email, phone, password);
    if check.Failure? {
      return Failure(check.error);
    }
    var user := new User(userId, hasher, check.value, hasher(password));
    return Success(user);
  }

  class UserManager {
    const hasher: string -> string
    /** Users by id, and user ids by the (stripped) email they registered with. */
    var users: map<string, User>
    var emailToId: map<string, string>

    ghost predicate Valid()
      reads this
    {
      && (forall id :: id in users ==> id != "" && users[id].userId == id && users[id].hasher == hasher)
      && (forall e :: e in emailToId ==> emailToId[e] in users)
    }

    constructor (hasher: string -> string)
      ensures this.hasher == hasher && users == map[] && emailToId == map[] && Valid()
    {
      this.hasher := hasher;
      users := map[];
      emailToId := map[];
    }

    /** Registers a user under the fresh id `userId`. The email is stripped
        before the duplicate check; a taken email or a failed creation check
        leaves the registry as it was. */
    method RegisterUser(firstName: string, lastName: string, email: string, phone: string,
                        password: string, userId: string)
      returns (r: Result<User>)
      requires Valid() && userId != "" && userId !in users
      modifies this
      ensures Valid()
      ensures Strip(email) in old(emailToId) ==> r == Failure(EmailTaken)
      ensures Strip(email) !in old(emailToId) ==>
        var check := CheckNewUser(firstName, lastName, email, phone, password);
        check.Failure? ==> r == Failure(check.error)
      ensures Strip(email) !in old(emailToId) ==>
        CheckNewUser(firstName, lastName, email, phone, password).Success? ==> r.Success?
      ensures r.Failure? ==> users == old(users) && emailToId == old(emailToId)
      ensures r.Success? ==>
        && Strip(email) !in old(emailToId)
        && CheckNewUser(firstName, lastName, email, phone, password).Success?
        && fresh(r.value)
        && r.value.userId == userId
        && r.value.Data() == CheckNewUser(firstName, lastName, email, phone, password).value
        && users == old(users)[userId := r.value]
        && emailToId == old(emailToId)[Strip(email) := userId]
        && r.value.email == Strip(email)
        && r.value.hasher == hasher
        && r.value.passwordHash == hasher(password)
        && r.value.VerifyPassword(password)
    {
      var key := Strip(email);
      if key in emailToId {
        return Failure(EmailTaken);
      }
      CheckNewUserStripsEmail(firstName, lastName, email, phone, password);
      r := Enrol(firstName, lastName, key, phone, password, userId);
      if r.Success? {
        assert r.value.email == Strip(email);
      }
    }

    /** Creates a user whose email is already stripped and, if creation
        succeeds, stores it under `userId` and indexes it by that email. */
    method Enrol(firstName: string, lastName: string, key: string, phone: string,
                 password: string, userId: string)
      returns (r: Result<User>)
      requires Valid() && userId != "" && userId !in users
      modifies this
      ensures Valid()
      ensures var check := CheckNewUser(firstName, lastName, key, phone, password);
        && (r.Failure? <==> check.Failure?)
        && (r.Failure? ==> r.error == check.error && users == old(users) && emailToId == old(emailToId))
        && (r.Success? ==>
              && fresh(r.value)
              && r.value.userId == userId
              && r.value.Data() == check.value
              && users == old(users)[userId := r.value]
              && emailToId == old(emailToId)[key := userId]
              && r.value.hasher == hasher
              && r.value.passwordHash == hasher(password)
              && r.value.VerifyPassword(password))
    {
      var created := NewUser(firstName, lastName, key, phone, password, userId, hasher);
      if created.Failure? {
        return Failure(created.error);
      }
      var user := created.value;
      Insert(user, key);
      return Success(user);
    }

    /** Stores `user` under its id and indexes it by `key`. */
    method Insert(user: User, key: string)
      requires Valid() && user.userId != "" && user.userId !in users && user.hasher == hasher
      modifies this
      ensures Valid()
      ensures users == old(users)[user.userId := user]
      ensures emailToId == old(emailToId)[key := user.userId]
    {
      users := users[user.userId := user];
      emailToId := emailToId[key := user.userId];
    }

    /** The user with id `id`, if there is one. */
    function GetUser(id: string): (r: Option<User>)
      requires Valid()
      reads this
      ensures r.Some? <==> id in users
      ensures r.Some? ==> r.value == users[id] && r.value.userId == id
    {
      if id in users then Some(users[id]) else None
    }

    /** The user registered with `email` once stripped; the match is
        case-sensitive. */
    function GetUserByEmail(email: string): (r: Option<User>)
      requires Valid()
      reads this
      ensures r.Some? <==> Strip(email) in emailToId
      ensures r.Some? ==> r.value == users[emailToId[Strip(email)]]
    {
      var key := Strip(email);
      if key in emailToId && emailToId[key] != "" then GetUser(emailToId[key]) else None
    }

    /** The user registered with `email` once stripped, provided `password`
        verifies against that user's hash. */
    function Authenticate(email: string, password: string): (r: Option<User>)
      requires Valid()
      reads this, users.Values
      ensures r.Some? <==>
        Strip(email) in emailToId && users[emailToId[Strip(email)]].VerifyPassword(password)
      ensures r.Some? ==> r.value == users[emailToId[Strip(email)]]
    {
      StripIdempotent(email);
      var user := GetUserByEmail(Strip(email));
      if user.Some? && user.value.VerifyPassword(password) then user else None
    }

    /** Whitespace around the email given at login does not matter. */
    lemma AuthenticateIgnoresPadding(a: string, email: string, b: string, password: string)
      requires Valid() && AllSpace(a) && AllSpace(b)
      ensures Authenticate(a + email + b, password) == Authenticate(email, password)
    {
      StripPadding(a, email, b);
    }

    /** Once the user registered with `email` stores the hash of `password`,
        as registration leaves it, logging in with `q` succeeds exactly when
        `q` hashes to the same value: a wrong password is refused. */
    lemma AuthenticateAfterRegistration(email: string, password: string, q: string)
      requires Valid() && Strip(email) in emailToId
      requires users[emailToId[Strip(email)]].passwordHash == hasher(password)
      ensures Authenticate(email, q).Some? <==> hasher(q) == hasher(password)
    {
    }
  }
}
