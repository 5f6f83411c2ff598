/**
 The registration page: the form validator, the submit handler's decision
 to send the request, and the password strength meter.
 */
module RegisterForm {
  import opened Wrappers
  import opened Text
  import Auth
  import UserModel

  const MsgTooShort: string := "Password must be at least 6 characters"
  const MsgMismatch: string := "Passwords do not match"

  /**
   validateForm: the two checks write the same error slot in turn, so when
   both fail the later one, the mismatch, is the message shown.
   */
  function ValidateForm(password: string, confirmPassword: string): (error: Option<string>)
    ensures error.None? <==> |password| >= 6 && password == confirmPassword
    ensures password != confirmPassword ==> error == Some(MsgMismatch)
    ensures password == confirmPassword && |password| < 6 ==> error == Some(MsgTooShort)
  {
    var afterLength := if |password| < 6 then Some(MsgTooShort) else None;
    var afterMatch := if password != confirmPassword then Some(MsgMismatch) else afterLength;
    afterMatch
  }

  /** The body handleRegister posts to /api/Auth/register. */
  datatype RegisterRequest = RegisterRequest(username: string, password: string)

  /** handleRegister: a request is sent only when the form validates, and it carries the typed username and password. */
  function HandleRegister(username: string, password: string, confirmPassword: string): (sent: Option<RegisterRequest>)
    ensures sent.Some? <==> |password| >= 6 && password == confirmPassword
    ensures sent.Some? ==> sent.value == RegisterRequest(username, password)
  {
    if ValidateForm(password, confirmPassword).Some? then None
    else Some(RegisterRequest(username, password))
  }

  /** The request body as the backend binds it: the page sends only the username and the password properties. */
  function AsBody(req: RegisterRequest): UserModel.UserBody {
    UserModel.Bind(UserModel.JsonUser(None, UserModel.Present(req.username), UserModel.Present(req.password),
                                      UserModel.Absent, UserModel.Absent))
  }

  /**
   The form's check does not cover the backend's: six spaces pass the
   form, and the backend still rejects the request as missing a password.
   */
  lemma BlankPasswordPassesForm(c: Auth.Crypto, st: Auth.Store, username: string, salt: Auth.Salt)
    ensures HandleRegister(username, "      ", "      ") == Some(RegisterRequest(username, "      "))
    ensures Auth.Register(c, st, AsBody(RegisterRequest(username, "      ")), salt) == (Auth.BadRequest(Auth.MsgRequired), st)
  {
  }

  /** The bar the strength meter draws: its width and colour class. */
  datatype Meter = Meter(width: string, color: string)

  const Empty: Meter := Meter("0%", "bg-gray-200")
  const Weak: Meter := Meter("33%", "bg-red-500")
  const Fair: Meter := Meter("66%", "bg-yellow-500")
  const Good: Meter := Meter("85%", "bg-green-500")
  const Strong: Meter := Meter("100%", "bg-green-600")

  /** The meter's special class: any character that is neither an ASCII letter nor an ASCII digit. */
  predicate IsSpecial(c: char) {
    !IsAsciiUpper(c) && !IsAsciiLower(c) && !IsAsciiDigit(c)
  }

  predicate HasUpper(p: string) { exists i | 0 <= i < |p| :: IsAsciiUpper(p[i]) }
  predicate HasLower(p: string) { exists i | 0 <= i < |p| :: IsAsciiLower(p[i]) }
  predicate HasDigit(p: string) { exists i | 0 <= i < |p| :: IsAsciiDigit(p[i]) }
  predicate HasSpecial(p: string) { exists i | 0 <= i < |p| :: IsSpecial(p[i]) }

  function Indicator(b: bool): nat { if b then 1 else 0 }

  /**
   The meter's strength score: how many of the four class flags (upper case,
   lower case, digit, special) are set.
   */
  function ClassCount(p: string): (n: nat)
    ensures n <= 4
    ensures n == 0 <==> |p| == 0
  {
    assert |p| > 0 ==> HasUpper(p) || HasLower(p) || HasDigit(p) || HasSpecial(p) by {
      if |p| > 0 {
        assert IsAsciiUpper(p[0]) || IsAsciiLower(p[0]) || IsAsciiDigit(p[0]) || IsSpecial(p[0]);
      }
    }
    Indicator(HasUpper(p)) + Indicator(HasLower(p)) + Indicator(HasDigit(p)) + Indicator(HasSpecial(p))
  }

  /** passwordStrength */
  function PasswordStrength(p: string): (m: Meter)
    ensures m in {Empty, Weak, Fair, Good, Strong}
  {
    if |p| == 0 then Empty
    else if |p| < 6 then Weak
    else if |p| < 8 then Fair
    else
      var strength := ClassCount(p);
      if strength == 1 then Weak
      else if strength == 2 then Fair
      else if strength == 3 then Good
      else Strong
  }

  /** The four character classes of the meter; every character belongs to exactly one. */
  datatype CharClass = UpperCase | LowerCase | DigitChar | SpecialChar

  function ClassOf(c: char): CharClass {
    if IsAsciiUpper(c) then UpperCase
    else if IsAsciiLower(c) then LowerCase
    else if IsAsciiDigit(c) then DigitChar
    else SpecialChar
  }

  /** The classes the password's characters fall into. */
  function ClassesPresent(p: string): set<CharClass> {
    set i | 0 <= i < |p| :: ClassOf(p[i])
  }

  /** A class is present exactly when the meter's matching regular expression finds a character of it. */
  lemma ClassesPresentFlags(p: string)
    ensures UpperCase in ClassesPresent(p) <==> HasUpper(p)
    ensures LowerCase in ClassesPresent(p) <==> HasLower(p)
    ensures DigitChar in ClassesPresent(p) <==> HasDigit(p)
    ensures SpecialChar in ClassesPresent(p) <==> HasSpecial(p)
  {
  }

  /** The set of classes whose flag is set. */
  function FlagSet(u: bool, l: bool, d: bool, x: bool): set<CharClass> {
    (if u then {UpperCase} else {}) + (if l then {LowerCase} else {})
    + (if d then {DigitChar} else {}) + (if x then {SpecialChar} else {})
  }

  lemma FlagSetSize(u: bool, l: bool, d: bool, x: bool)
    ensures |FlagSet(u, l, d, x)| == Indicator(u) + Indicator(l) + Indicator(d) + Indicator(x)
  {
  }

  /** The meter's count of true flags is the number of distinct classes among the characters. */
  lemma ClassCountIsClassesPresent(p: string)
    ensures ClassCount(p) == |ClassesPresent(p)|
  {
    ClassesPresentFlags(p);
    var f := FlagSet(HasUpper(p), HasLower(p), HasDigit(p), HasSpecial(p));
    forall k ensures k in ClassesPresent(p) <==> k in f {
      match k
      case UpperCase =>
      case LowerCase =>
      case DigitChar =>
      case SpecialChar =>
    }
    assert ClassesPresent(p) == f;
    FlagSetSize(HasUpper(p), HasLower(p), HasDigit(p), HasSpecial(p));
  }

  /** Every non-empty password has at least one class, so the count is between one and four. */
  lemma ClassCountPositive(p: string)
    requires |p| > 0
    ensures 1 <= ClassCount(p) <= 4
  {
    ClassCountIsClassesPresent(p);
    assert ClassOf(p[0]) in ClassesPresent(p);
  }

  /** Below eight characters the meter depends on the length alone. */
  lemma StrengthByLength(p: string)
    requires |p| < 8
    ensures |p| == 0 ==> PasswordStrength(p) == Meter("0%", "bg-gray-200")
    ensures 1 <= |p| < 6 ==> PasswordStrength(p) == Meter("33%", "bg-red-500")
    ensures 6 <= |p| < 8 ==> PasswordStrength(p) == Meter("66%", "bg-yellow-500")
  {
  }

  /** From eight characters on, the meter is set by how many character classes occur. */
  lemma StrengthByClasses(p: string)
    requires |p| >= 8
    ensures |ClassesPresent(p)| == 1 ==> PasswordStrength(p) == Meter("33%", "bg-red-500")
    ensures |ClassesPresent(p)| == 2 ==> PasswordStrength(p) == Meter("66%", "bg-yellow-500")
    ensures |ClassesPresent(p)| == 3 ==> PasswordStrength(p) == Meter("85%", "bg-green-500")
    ensures |ClassesPresent(p)| == 4 ==> PasswordStrength(p) == Meter("100%", "bg-green-600")
  {
    ClassCountIsClassesPresent(p);
  }

  /** The full bar is reached exactly by passwords of eight or more characters using all four classes. */
  lemma StrongIff(p: string)
    ensures PasswordStrength(p) == Strong <==> |p| >= 8 && ClassesPresent(p) == {UpperCase, LowerCase, DigitChar, SpecialChar}
  {
    ClassCountIsClassesPresent(p);
    var all := {UpperCase, LowerCase, DigitChar, SpecialChar};
    assert ClassesPresent(p) <= all;
    ClassesPresentFlags(p);
    if |p| > 0 {
      ClassCountPositive(p);
    }
  }

  /** Typing an eighth character can lower the meter: seven letters show "66%", eight show "33%". */
  lemma StrengthDropsAtEight()
    ensures PasswordStrength("abcdefg") == Fair
    ensures PasswordStrength("abcdefgh") == Weak
  {
    var p := "abcdefgh";
    assert IsAsciiLower(p[0]);
    assert !HasUpper(p) && !HasDigit(p) && !HasSpecial(p);
  }
}
