/** Registration input rules. `main.py` and `login.py` return the list of broken
    rules, one problem per rule in a fixed order; `cli.py` returns a bare verdict. */
module Validators {
  import opened Wrappers
  import opened Text
  import opened Numbers

  datatype Problem =
    | NotAlphabetic | NameTooShort
    | AgeNotNumber | AgeTooYoung | AgeTooOld
    | BadEmail
    | PasswordTooShort | NoLetter | NoDigit | NoSymbol
  {
    /** The message printed for the problem. */
    function Message(): string
    {
      match this
      case NotAlphabetic => "Name must contain only alphabets."
      case NameTooShort => "Name must be at least 3 characters long."
      case AgeNotNumber => "Age must be a number."
      case AgeTooYoung => "User must be at least 15 years old."
      case AgeTooOld => "Age cannot be more than 80."
      case BadEmail => "Invalid email format. Example: name@example.com"
      case PasswordTooShort => "Password must be at least 8 characters."
      case NoLetter => "Password must contain at least one letter."
      case NoDigit => "Password must contain at least one digit."
      case NoSymbol => "Password must contain at least one special symbol."
    }
  }

  const MinNameLength := 3
  const MinAge := 15
  const MinAgeCli := 18
  const MaxAge := 80
  const MinPasswordLength := 8

  /** `is_valid_name` of main.py and login.py. */
  function NameProblems(name: string): (r: seq<Problem>)
    ensures r == [] <==> IsAlpha(name) && |name| >= MinNameLength
    ensures NotAlphabetic in r <==> !IsAlpha(name)
    ensures NameTooShort in r <==> |name| < MinNameLength
    ensures |r| == 2 ==> r == [NotAlphabetic, NameTooShort]
  {
    (if IsAlpha(name) then [] else [NotAlphabetic]) + (if |name| < MinNameLength then [NameTooShort] else [])
  }

  /** `is_valid_age` of main.py and login.py: the range is checked only for digit strings. */
  function AgeProblems(age: string): (r: seq<Problem>)
    ensures !IsDigits(age) ==> r == [AgeNotNumber]
    ensures IsDigits(age) ==> (r == [] <==> MinAge <= DigitsValue(age) <= MaxAge)
    ensures IsDigits(age) ==> (AgeTooYoung in r <==> DigitsValue(age) < MinAge)
    ensures IsDigits(age) ==> (AgeTooOld in r <==> DigitsValue(age) > MaxAge)
    ensures |r| <= 1
  {
    if !IsDigits(age) then [AgeNotNumber]
    else
      (if DigitsValue(age) < MinAge then [AgeTooYoung] else [])
      + (if DigitsValue(age) > MaxAge then [AgeTooOld] else [])
  }

  predicate IsLocalChar(c: char)
  {
    IsLetter(c) || IsDigit(c) || c == '.' || c == '_' || c == '%' || c == '+' || c == '-'
  }

  predicate IsDomainChar(c: char)
  {
    IsLetter(c) || IsDigit(c) || c == '.' || c == '-'
  }

  predicate AllLocal(s: string) { forall i | 0 <= i < |s| :: IsLocalChar(s[i]) }

  predicate AllDomain(s: string) { forall i | 0 <= i < |s| :: IsDomainChar(s[i]) }

  /** `[a-zA-Z0-9._%+-]+@[a-zA-Z0-9.-]+\.[a-zA-Z]{2,}` matching the whole string,
      read as the regular expression reads it: some split into local part, '@',
      domain, '.', and two or more letters. */
  ghost predicate EmailShape(s: string)
  {
    exists at, dot | 0 < at && at + 2 <= dot && dot + 3 <= |s| ::
      && s[at] == '@' && s[dot] == '.'
      && AllLocal(s[..at]) && AllDomain(s[at + 1..dot]) && AllLetters(s[dot + 1..])
  }

  /** The same match computed: the first '@' ends the local part, and the last
      '.' of the rest starts the top-level part. */
  function MatchesWhole(s: string): bool
  {
    match IndexOf(s, '@')
    case None => false
    case Some(at) =>
      var rest := s[at + 1..];
      && at > 0 && AllLocal(s[..at]) && AllDomain(rest)
      && match LastIndexOf(rest, '.')
         case None => false
         case Some(k) => k >= 1 && |rest| - k - 1 >= 2 && AllLetters(rest[k + 1..])
  }

  /** Every string the computed match accepts has the shape of the pattern. */
  lemma MatchesWholeHasShape(s: string)
    requires MatchesWhole(s)
    ensures EmailShape(s)
  {
    var at := IndexOf(s, '@').value;
    var rest := s[at + 1..];
    var k := LastIndexOf(rest, '.').value;
    var dot := at + 1 + k;
    DomainPrefix(rest, k);
    assert s[at + 1..dot] == rest[..k];
    assert s[dot + 1..] == rest[k + 1..];
    ShapeWitness(s, at, dot);
  }

  lemma DomainPrefix(s: string, k: nat)
    requires AllDomain(s) && k <= |s|
    ensures AllDomain(s[..k])
  {
    forall i | 0 <= i < k ensures IsDomainChar(s[..k][i]) {
      assert s[..k][i] == s[i];
    }
  }

  lemma ShapeWitness(s: string, at: nat, dot: nat)
    requires 0 < at && at + 2 <= dot && dot + 3 <= |s|
    requires s[at] == '@' && s[dot] == '.'
    requires AllLocal(s[..at]) && AllDomain(s[at + 1..dot]) && AllLetters(s[dot + 1..])
    ensures EmailShape(s)
  {
  }

  /** A local part, being free of '@', places the first '@' right after it. */
  lemma FirstAt(s: string, at: nat)
    requires at < |s| && s[at] == '@' && AllLocal(s[..at])
    ensures IndexOf(s, '@') == Some(at)
  {
    assert '@' !in s[..at] by {
      forall i | 0 <= i < at ensures s[..at][i] != '@' {
        assert IsLocalChar(s[..at][i]);
      }
    }
    assert s == s[..at] + ['@'] + s[at + 1..];
    IndexOfAfterPrefix(s[..at], '@', s[at + 1..]);
  }

  /** A '.' followed only by letters is the last '.' of a domain. */
  lemma LastDot(rest: string, k: nat)
    requires k < |rest| && rest[k] == '.' && AllDomain(rest[..k]) && AllLetters(rest[k + 1..])
    ensures AllDomain(rest)
    ensures LastIndexOf(rest, '.') == Some(k)
  {
    forall i | 0 <= i < |rest| ensures IsDomainChar(rest[i]) {
      if i < k {
        assert rest[i] == rest[..k][i];
      } else if i > k {
        assert rest[i] == rest[k + 1..][i - k - 1];
      }
    }
  }

  /** A split of the pattern's shape is the one the computed match finds. */
  lemma SplitMatchesWhole(s: string, at: nat, dot: nat)
    requires 0 < at && at + 2 <= dot && dot + 3 <= |s|
    requires s[at] == '@' && s[dot] == '.'
    requires AllLocal(s[..at]) && AllDomain(s[at + 1..dot]) && AllLetters(s[dot + 1..])
    ensures MatchesWhole(s)
  {
    FirstAt(s, at);
    var rest := s[at + 1..];
    var k := dot - at - 1;
    assert rest[..k] == s[at + 1..dot];
    assert rest[k + 1..] == s[dot + 1..];
    LastDot(rest, k);
  }

  /** Every string of the shape of the pattern is accepted by the computed match. */
  lemma ShapeMatchesWhole(s: string)
    requires EmailShape(s)
    ensures MatchesWhole(s)
  {
    var at, dot :| 0 < at && at + 2 <= dot && dot + 3 <= |s|
      && s[at] == '@' && s[dot] == '.'
      && AllLocal(s[..at]) && AllDomain(s[at + 1..dot]) && AllLetters(s[dot + 1..]);
    SplitMatchesWhole(s, at, dot);
  }

  /** The computed match accepts exactly the strings of the pattern. */
  lemma MatchesWholeIsShape(s: string)
    ensures MatchesWhole(s) <==> EmailShape(s)
  {
    if MatchesWhole(s) {
      MatchesWholeHasShape(s);
    }
    if EmailShape(s) {
      ShapeMatchesWhole(s);
    }
  }

  /** `re.match` with the pattern anchored by `$`, which also matches right
      before a final newline. */
  function IsValidEmail(email: string): (ok: bool)
    ensures ok <==> EmailShape(email) || (|email| > 0 && email[|email| - 1] == '\n' && EmailShape(email[..|email| - 1]))
  {
    MatchesWholeIsShape(email);
    MatchesWholeIsShape(if |email| > 0 then email[..|email| - 1] else email);
    MatchesWhole(email) || (|email| > 0 && email[|email| - 1] == '\n' && MatchesWhole(email[..|email| - 1]))
  }

  /** `is_valid_email` of main.py and login.py. */
  function EmailProblems(email: string): (r: seq<Problem>)
    ensures r == [] <==> IsValidEmail(email)
    ensures r != [] ==> r == [BadEmail]
  {
    if IsValidEmail(email) then [] else [BadEmail]
  }

  /** The characters of the class `[!@#$%^&*(),.?\":{}|<>]`. */
  predicate IsSymbol(c: char) { c in "!@#$%^&*(),.?\":{}|<>" }

  predicate HasLetter(s: string) { exists i | 0 <= i < |s| :: IsLetter(s[i]) }

  predicate HasDigit(s: string) { exists i | 0 <= i < |s| :: IsDigit(s[i]) }

  predicate HasSymbol(s: string) { exists i | 0 <= i < |s| :: IsSymbol(s[i]) }

  /** Position of a password problem in the order the rules are checked. */
  function PasswordRank(p: Problem): nat
  {
    match p
    case PasswordTooShort => 0
    case NoLetter => 1
    case NoDigit => 2
    case _ => 3
  }

  /** `is_valid_password`. */
  function PasswordProblems(password: string): (r: seq<Problem>)
    ensures r == [] <==> |password| >= MinPasswordLength && HasLetter(password) && HasDigit(password) && HasSymbol(password)
    ensures PasswordTooShort in r <==> |password| < MinPasswordLength
    ensures NoLetter in r <==> !HasLetter(password)
    ensures NoDigit in r <==> !HasDigit(password)
    ensures NoSymbol in r <==> !HasSymbol(password)
  {
    (if |password| < MinPasswordLength then [PasswordTooShort] else [])
    + (if HasLetter(password) then [] else [NoLetter])
    + (if HasDigit(password) then [] else [NoDigit])
    + (if HasSymbol(password) then [] else [NoSymbol])
  }

  /** The problems come in the order the rules are checked, each at most once. */
  lemma PasswordProblemsOrdered(password: string)
    ensures var r := PasswordProblems(password);
      forall i, j | 0 <= i < j < |r| :: PasswordRank(r[i]) < PasswordRank(r[j])
  {
  }

  /** `is_valid_name` of cli.py. */
  function IsValidNameCli(name: string): (ok: bool)
    ensures ok <==> NameProblems(name) == []
    ensures ok ==> |name| > 0
  {
    IsAlpha(name) && |name| >= MinNameLength
  }

  /** `is_valid_age` of cli.py: digits only, then 18 to 80. */
  function IsValidAgeCli(age: string): (ok: bool)
    ensures (exists i | 0 <= i < |age| :: !IsDigit(age[i])) ==> !ok
    ensures ok <==> AgeProblems(age) == [] && DigitsValue(age) >= MinAgeCli
  {
    IsDigits(age) && MinAgeCli <= DigitsValue(age) <= MaxAge
  }

  /** `is_valid_email` of cli.py. */
  function IsValidEmailCli(email: string): (ok: bool)
    ensures ok <==> EmailProblems(email) == []
  {
    IsValidEmail(email)
  }
}
