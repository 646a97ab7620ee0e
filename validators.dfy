/**
 * The two form validators. Each runs every one of its checks, collects the
 * failures in one map from field name to message, and throws that map when
 * it is not empty; here the throw is the `Fail` outcome.
 */
module Validators {
  import opened Wrappers
  import opened Text
  import opened Numeric
  import opened Dates

  /** A submitted form: field name to its text; a field not sent has no entry. */
  type Form = map<string, string>

  /** PHP's `empty($data[$key])` on a form field: not sent, "" or "0". */
  predicate IsEmpty(data: Form, key: string)
  {
    key !in data || data[key] == "" || data[key] == "0"
  }

  /** `in_array($s, $xs)`: membership under PHP's loose `==`. */
  predicate InArray(s: string, xs: seq<string>)
  {
    exists i :: 0 <= i < |xs| && LooseEquals(s, xs[i])
  }

  /** The error map with `key` set to the message of a failed check, untouched otherwise. */
  function WithError(errors: map<string, string>, key: string, e: Option<string>): map<string, string>
  {
    if e.Some? then errors[key := e.value] else errors
  }

  /** The outcome of a validation: thrown exactly when some check failed. */
  function Verdict(errors: map<string, string>): Outcome<map<string, string>>
  {
    if errors == map[] then Pass else Fail(errors)
  }

  // ---------------------------------------------------------------- expenses

  const DateRequired := "Date is required."
  const DateFormat := "Date must be in format YYYY-MM-DD HH:MM:SS."
  const DateInFuture := "Date cannot be in the future."
  const CategoryMissing := "Category must be selected."
  const CategoryInvalid := "Invalid category."
  const AmountInvalid := "Amount must be a number greater than zero."
  const DescriptionMissing := "Description cannot be empty."

  /**
   * The date check. `readDay` is `createFromFormat('Y-m-d', ...)`: the instant
   * it yields for a text (that day, at the current time of day), or `None`
   * where it returns false; `now` is the current instant.
   */
  function DateError(data: Form, now: Instant, readDay: string -> Option<Instant>): Option<string>
  {
    if IsEmpty(data, "date") then Some(DateRequired)
    else match readDay(data["date"])
      case None => Some(DateFormat)
      case Some(d) => if Before(now, d) then Some(DateInFuture) else None
  }

  /** The category check against the configured categories. */
  function CategoryError(data: Form, categories: seq<string>): Option<string>
  {
    if IsEmpty(data, "category") then Some(CategoryMissing)
    else if !InArray(data["category"], categories) then Some(CategoryInvalid)
    else None
  }

  /** The amount check: sent, numeric, and above zero as a number. */
  function AmountError(data: Form): Option<string>
  {
    if "amount" !in data || !IsNumeric(data["amount"]) || FloatValue(data["amount"]) <= 0.0 then Some(AmountInvalid)
    else None
  }

  /** The description check: not PHP-empty and not blank after `trim`. */
  function DescriptionError(data: Form): Option<string>
  {
    if IsEmpty(data, "description") || Trim(data["description"]) == "" then Some(DescriptionMissing)
    else None
  }

  /** Every failure of the four expense checks, keyed by field. */
  function ExpenseErrors(data: Form, categories: seq<string>, now: Instant, readDay: string -> Option<Instant>): map<string, string>
  {
    var e1 := WithError(map[], "date", DateError(data, now, readDay));
    var e2 := WithError(e1, "category", CategoryError(data, categories));
    var e3 := WithError(e2, "amount", AmountError(data));
    WithError(e3, "description", DescriptionError(data))
  }

  /** `ExpenseValidator::validate`: the four checks one after the other, each
      adding its message on failure, then a throw when any failed. */
  method ValidateExpense(data: Form, categories: seq<string>, now: Instant, readDay: string -> Option<Instant>)
    returns (r: Outcome<map<string, string>>)
    ensures r == Verdict(ExpenseErrors(data, categories, now, readDay))
  {
    var errors: map<string, string> := map[];
    if IsEmpty(data, "date") {
      errors := errors["date" := DateRequired];
    } else {
      var date := readDay(data["date"]);
      if date.None? {
        errors := errors["date" := DateFormat];
      } else if Before(now, date.value) {
        errors := errors["date" := DateInFuture];
      }
    }
    if IsEmpty(data, "category") {
      errors := errors["category" := CategoryMissing];
    } else if !InArray(data["category"], categories) {
      errors := errors["category" := CategoryInvalid];
    }
    if "amount" !in data || !IsNumeric(data["amount"]) || FloatValue(data["amount"]) <= 0.0 {
      errors := errors["amount" := AmountInvalid];
    }
    if IsEmpty(data, "description") || Trim(data["description"]) == "" {
      errors := errors["description" := DescriptionMissing];
    }
    if errors != map[] {
      r := Fail(errors);
    } else {
      r := Pass;
    }
  }

  /** The checks are independent: each field's entry is exactly that field's
      own check, and no other key is ever set. */
  lemma ExpenseErrorsKeys(data: Form, categories: seq<string>, now: Instant, readDay: string -> Option<Instant>)
    ensures var errors := ExpenseErrors(data, categories, now, readDay);
      && errors.Keys <= {"date", "category", "amount", "description"}
      && ("date" in errors <==> DateError(data, now, readDay).Some?)
      && ("category" in errors <==> CategoryError(data, categories).Some?)
      && ("amount" in errors <==> AmountError(data).Some?)
      && ("description" in errors <==> DescriptionError(data).Some?)
      && ("date" in errors ==> errors["date"] == DateError(data, now, readDay).value)
      && ("category" in errors ==> errors["category"] == CategoryError(data, categories).value)
      && ("amount" in errors ==> errors["amount"] == AmountError(data).value)
      && ("description" in errors ==> errors["description"] == DescriptionError(data).value)
  {
  }

  /** An expense form passes exactly when the date is sent, read, and not after
      now; the category is sent and one of the configured ones; the amount is a
      number above zero; and the description is neither "0" nor blank. */
  lemma ExpenseAccepted(data: Form, categories: seq<string>, now: Instant, readDay: string -> Option<Instant>)
    ensures Verdict(ExpenseErrors(data, categories, now, readDay)).Pass? <==>
      && "date" in data && data["date"] != "" && data["date"] != "0"
      && readDay(data["date"]).Some? && !Before(now, readDay(data["date"]).value)
      && "category" in data && data["category"] != "" && data["category"] != "0"
      && InArray(data["category"], categories)
      && "amount" in data && IsNumeric(data["amount"]) && FloatValue(data["amount"]) > 0.0
      && "description" in data && data["description"] != "0" && Trim(data["description"]) != ""
  {
    ExpenseErrorsKeys(data, categories, now, readDay);
    var errors := ExpenseErrors(data, categories, now, readDay);
    if errors != map[] {
      var k :| k in errors;
    }
    if DescriptionError(data).None? {
      assert data["description"] != "" by {
        assert Trim(data["description"]) != "";
      }
    }
  }

  /** A numeric amount passes exactly when the number carries no minus sign and
      some non-zero digit: "0", "0.00" and "-5" are refused. */
  lemma AmountSign(data: Form)
    requires "amount" in data && IsNumeric(data["amount"])
    ensures AmountError(data).None? <==>
      !ScanNumber(data["amount"]).value.0.negative && ScanNumber(data["amount"]).value.0.Mantissa() > 0
  {
    NumberPositive(ScanNumber(data["amount"]).value.0);
  }

  // ---------------------------------------------------------------- registration

  const UsernameShort := "Username should be at least 4 characters long"
  const PasswordShort := "Password should have at least 8 characters long"
  const PasswordNoDigit := "Password should contain at least a digit."
  const PasswordsDiffer := "Passwords don't match."

  /** The username check: PHP-empty or under 4 characters. */
  function UsernameError(data: Form): Option<string>
  {
    if IsEmpty(data, "username") || |data["username"]| < 4 then Some(UsernameShort) else None
  }

  /** The password check: too short first, otherwise no digit; one message at most. */
  function PasswordError(data: Form): Option<string>
  {
    if IsEmpty(data, "password") || |data["password"]| < 8 then Some(PasswordShort)
    else if !HasDigit(data["password"]) then Some(PasswordNoDigit)
    else None
  }

  /** The confirmation check: sent and identical to the password (a password
      not sent reads as null, which no text is identical to). */
  function ConfirmError(data: Form): Option<string>
  {
    if "password_confirm" !in data || "password" !in data || data["password_confirm"] != data["password"] then
      Some(PasswordsDiffer)
    else None
  }

  /** Every failure of the three registration checks, keyed by field. */
  function RegisterErrors(data: Form): map<string, string>
  {
    var e1 := WithError(map[], "username", UsernameError(data));
    var e2 := WithError(e1, "password", PasswordError(data));
    WithError(e2, "password_confirm", ConfirmError(data))
  }

  /** `RegisterValidator::validate`: the three checks in turn, then a throw when any failed. */
  method ValidateRegistration(data: Form) returns (r: Outcome<map<string, string>>)
    ensures r == Verdict(RegisterErrors(data))
  {
    var errors: map<string, string> := map[];
    if IsEmpty(data, "username") || |data["username"]| < 4 {
      errors := errors["username" := UsernameShort];
    }
    if IsEmpty(data, "password") || |data["password"]| < 8 {
      errors := errors["password" := PasswordShort];
    } else if !HasDigit(data["password"]) {
      errors := errors["password" := PasswordNoDigit];
    }
    if "password_confirm" !in data || "password" !in data || data["password_confirm"] != data["password"] {
      errors := errors["password_confirm" := PasswordsDiffer];
    }
    if errors != map[] {
      r := Fail(errors);
    } else {
      r := Pass;
    }
  }

  /** Each registration field's entry is exactly that field's own check, and no
      other key is ever set. */
  lemma RegisterErrorsKeys(data: Form)
    ensures var errors := RegisterErrors(data);
      && errors.Keys <= {"username", "password", "password_confirm"}
      && ("username" in errors <==> UsernameError(data).Some?)
      && ("password" in errors <==> PasswordError(data).Some?)
      && ("password_confirm" in errors <==> ConfirmError(data).Some?)
      && ("username" in errors ==> errors["username"] == UsernameError(data).value)
      && ("password" in errors ==> errors["password"] == PasswordError(data).value)
      && ("password_confirm" in errors ==> errors["password_confirm"] == ConfirmError(data).value)
  {
  }

  /** A registration passes exactly when the username has at least 4
      characters, the password at least 8 with a digit among them, and the
      confirmation is the password. (PHP's "0" is too short to matter.) */
  lemma RegistrationAccepted(data: Form)
    ensures Verdict(RegisterErrors(data)).Pass? <==>
      && "username" in data && |data["username"]| >= 4
      && "password" in data && |data["password"]| >= 8 && HasDigit(data["password"])
      && "password_confirm" in data && data["password_confirm"] == data["password"]
  {
    RegisterErrorsKeys(data);
    var errors := RegisterErrors(data);
    if errors != map[] {
      var k :| k in errors;
    }
  }
}
