/**
 * The change-password page: the strength meter recomputed whenever the new
 * password changes, its colour, and the validation run on submit.
 */
module Password {
  import opened Common

  /** The character classes the page tests for. */
  datatype CharClass = LowerCase | UpperCase | Digit | Symbol

  predicate InClass(c: char, cls: CharClass) {
    match cls
    case LowerCase => IsLower(c)
    case UpperCase => IsUpper(c)
    case Digit => IsDigit(c)
    case Symbol => !IsAlnum(c)
  }

  /** `/[a-z]/`, `/[A-Z]/`, `/\d/` and `/[^a-zA-Z0-9]/` run against the password. */
  predicate HasClass(p: string, cls: CharClass) {
    exists i :: 0 <= i < |p| && InClass(p[i], cls)
  }

  /** A character found in the password is still found after more are appended. */
  lemma HasClassAppend(p: string, q: string, cls: CharClass)
    requires HasClass(p, cls)
    ensures HasClass(p + q, cls)
  {
    var i :| 0 <= i < |p| && InClass(p[i], cls);
    assert (p + q)[i] == p[i];
  }

  /** The meter's points, before the cap at 100. */
  function Points(p: string): nat {
    (if |p| >= 8 then 25 else 0) + (if |p| >= 12 then 15 else 0)
    + (if HasClass(p, LowerCase) && HasClass(p, UpperCase) then 20 else 0)
    + (if HasClass(p, Digit) then 20 else 0)
    + (if HasClass(p, Symbol) then 20 else 0)
  }

  /** The strength of a password: 0 when it is empty, its points capped at 100 otherwise. */
  function Strength(p: string): (r: nat)
    ensures r <= 100
    ensures p == [] ==> r == 0
  {
    if p == [] then 0 else if Points(p) < 100 then Points(p) else 100
  }

  /** The strength effect: points added one rule at a time into a local counter. */
  method ComputeStrength(newPassword: string) returns (passwordStrength: nat)
    ensures passwordStrength == Strength(newPassword)
  {
    if newPassword == [] {
      return 0;
    }
    var strength := 0;
    if |newPassword| >= 8 {
      strength := strength + 25;
    }
    if |newPassword| >= 12 {
      strength := strength + 15;
    }
    var lower := HasClassLoop(newPassword, LowerCase);
    var upper := HasClassLoop(newPassword, UpperCase);
    if lower && upper {
      strength := strength + 20;
    }
    var digit := HasClassLoop(newPassword, Digit);
    if digit {
      strength := strength + 20;
    }
    var symbol := HasClassLoop(newPassword, Symbol);
    if symbol {
      strength := strength + 20;
    }
    passwordStrength := if strength < 100 then strength else 100;
  }

  /** A scan for a character of the class, as a regular-expression test does. */
  method HasClassLoop(p: string, cls: CharClass) returns (found: bool)
    ensures found == HasClass(p, cls)
  {
    for i := 0 to |p|
      invariant forall j | 0 <= j < i :: !InClass(p[j], cls)
    {
      if InClass(p[i], cls) {
        return true;
      }
    }
    return false;
  }

  /** Appending characters to a non-empty password never lowers its strength. */
  lemma StrengthMonotone(p: string, q: string)
    requires p != []
    ensures Strength(p) <= Strength(p + q)
  {
    if HasClass(p, LowerCase) { HasClassAppend(p, q, LowerCase); }
    if HasClass(p, UpperCase) { HasClassAppend(p, q, UpperCase); }
    if HasClass(p, Digit) { HasClassAppend(p, q, Digit); }
    if HasClass(p, Symbol) { HasClassAppend(p, q, Symbol); }
  }

  datatype Color = Red | Yellow | Green

  /** `getStrengthColor`. */
  function StrengthColor(strength: nat): (c: Color)
    ensures c == Red <==> strength < 40
    ensures c == Green <==> strength >= 70
  {
    if strength < 40 then Red else if strength < 70 then Yellow else Green
  }

  const LengthError := "Password must be at least 8 characters"
  const LowerError := "Password must contain at least one lowercase letter"
  const UpperError := "Password must contain at least one uppercase letter"
  const DigitError := "Password must contain at least one number"
  const SymbolError := "Password must contain at least one symbol"

  /** The new-password rule that fails first, in the order length, lowercase, uppercase, digit, symbol. */
  function NewPasswordError(p: string): (e: Option<string>)
    ensures e == Some(LengthError) <==> |p| < 8
    ensures e == Some(LowerError) <==> |p| >= 8 && !HasClass(p, LowerCase)
    ensures e == Some(UpperError) <==> |p| >= 8 && HasClass(p, LowerCase) && !HasClass(p, UpperCase)
    ensures e == Some(DigitError) <==> |p| >= 8 && HasClass(p, LowerCase) && HasClass(p, UpperCase) && !HasClass(p, Digit)
    ensures e == None <==> |p| >= 8 && HasClass(p, LowerCase) && HasClass(p, UpperCase) && HasClass(p, Digit) && HasClass(p, Symbol)
  {
    if |p| < 8 then Some(LengthError)
    else if !HasClass(p, LowerCase) then Some(LowerError)
    else if !HasClass(p, UpperCase) then Some(UpperError)
    else if !HasClass(p, Digit) then Some(DigitError)
    else if !HasClass(p, Symbol) then Some(SymbolError)
    else None
  }

  /** `validatePassword`: the error map filled one check at a time, and whether it stayed empty. */
  method ValidatePassword(oldPassword: string, newPassword: string, confirmPassword: string)
    returns (errors: map<string, string>, valid: bool)
    ensures errors.Keys <= {"oldPassword", "newPassword", "confirmPassword"}
    ensures "oldPassword" in errors <==> oldPassword == []
    ensures "newPassword" in errors <==> NewPasswordError(newPassword).Some?
    ensures "newPassword" in errors ==> errors["newPassword"] == NewPasswordError(newPassword).value
    ensures "confirmPassword" in errors <==> newPassword != confirmPassword
    ensures valid <==> errors == map[]
  {
    errors := map[];
    if oldPassword == [] {
      errors := errors["oldPassword" := "Old password is required"];
    }
    var lower := HasClassLoop(newPassword, LowerCase);
    var upper := HasClassLoop(newPassword, UpperCase);
    var digit := HasClassLoop(newPassword, Digit);
    var symbol := HasClassLoop(newPassword, Symbol);
    if |newPassword| < 8 {
      errors := errors["newPassword" := LengthError];
    } else if !lower {
      errors := errors["newPassword" := LowerError];
    } else if !upper {
      errors := errors["newPassword" := UpperError];
    } else if !digit {
      errors := errors["newPassword" := DigitError];
    } else if !symbol {
      errors := errors["newPassword" := SymbolError];
    }
    if newPassword != confirmPassword {
      errors := errors["confirmPassword" := "Passwords do not match"];
    }
    valid := |errors.Keys| == 0;
    if !valid {
      assert errors.Keys != {};
    }
  }

  /** A new password that passes every rule has strength at least 85, so its meter is green. */
  lemma AcceptedIsStrong(p: string)
    requires NewPasswordError(p).None?
    ensures Strength(p) >= 85 && StrengthColor(Strength(p)) == Green
  {
  }
}
