/** The request gates of middleware/validation/user.validator.js. */
module UserValidator {
  import opened Wrappers
  import opened Json
  import opened Http
  import opened ResponseHandler

  /** One failing check: the body field it examined and its `withMessage` text. */
  datatype FieldError = FieldError(path: string, msg: string)

  /** The gate either hands the request on (`next()`) or answers it. */
  datatype Gate = Next | Respond(reply: Reply)

  const InvalidEmail := "Invalid email address"
  const ShortPassword := "Password must be at least 1 characters long"
  const ShortUsername := "Username must be at least 1 characters long"
  const MissingFields := "Missing required fields"

  /** The validators read an absent field as the empty string. */
  function Value(field: Option<string>): string
  {
    if field.Some? then field.value else ""
  }

  /** U+FE0E and U+FE0F, the variation selectors that `isLength` leaves out of its count. */
  predicate IsPresentationSelector(c: char)
  {
    c == '\U{FE0E}' || c == '\U{FE0F}'
  }

  /** The length `isLength` measures: code points (a surrogate pair counts once), less the
      variation selectors. */
  function MeasuredLength(s: string): (n: nat)
    ensures n <= |s|
    ensures n == 0 <==> forall i :: 0 <= i < |s| ==> IsPresentationSelector(s[i])
  {
    if s == [] then 0
    else
      assert forall i :: 1 <= i < |s| ==> s[i] == s[1..][i - 1];
      MeasuredLength(s[1..]) + if IsPresentationSelector(s[0]) then 0 else 1
  }

  /** `isLength({ min })`. */
  predicate IsLength(s: string, min: nat)
  {
    MeasuredLength(s) >= min
  }

  /** The error of `check(path)` when its test fails, else nothing. */
  function CheckField(passes: bool, path: string, msg: string): seq<FieldError>
  {
    if passes then [] else [FieldError(path, msg)]
  }

  /** `validationResult(req)` after the registration chain: email, password, username. */
  function RegistrationErrors(body: Body, isEmail: string -> bool): (errs: seq<FieldError>)
    ensures FieldError("email", InvalidEmail) in errs <==> !isEmail(Value(body.email))
    ensures FieldError("password", ShortPassword) in errs <==> !IsLength(Value(body.password), 1)
    ensures FieldError("username", ShortUsername) in errs <==> !IsLength(Value(body.username), 1)
    ensures forall e :: e in errs ==>
      e in {FieldError("email", InvalidEmail), FieldError("password", ShortPassword), FieldError("username", ShortUsername)}
    // one error per failing check, so none appears twice
    ensures |errs| == (if isEmail(Value(body.email)) then 0 else 1)
                    + (if IsLength(Value(body.password), 1) then 0 else 1)
                    + (if IsLength(Value(body.username), 1) then 0 else 1)
    ensures errs == [] <==> isEmail(Value(body.email)) && IsLength(Value(body.password), 1) && IsLength(Value(body.username), 1)
  {
    CheckField(isEmail(Value(body.email)), "email", InvalidEmail)
    + CheckField(IsLength(Value(body.password), 1), "password", ShortPassword)
    + CheckField(IsLength(Value(body.username), 1), "username", ShortUsername)
  }

  /** `validationResult(req)` after the login chain: email, password. */
  function LoginErrors(body: Body, isEmail: string -> bool): (errs: seq<FieldError>)
    ensures FieldError("email", InvalidEmail) in errs <==> !isEmail(Value(body.email))
    ensures FieldError("password", ShortPassword) in errs <==> !IsLength(Value(body.password), 1)
    ensures forall e :: e in errs ==> e in {FieldError("email", InvalidEmail), FieldError("password", ShortPassword)}
    ensures |errs| == (if isEmail(Value(body.email)) then 0 else 1)
                    + (if IsLength(Value(body.password), 1) then 0 else 1)
    ensures errs == [] <==> isEmail(Value(body.email)) && IsLength(Value(body.password), 1)
  {
    CheckField(isEmail(Value(body.email)), "email", InvalidEmail)
    + CheckField(IsLength(Value(body.password), 1), "password", ShortPassword)
  }

  function ErrorJson(e: FieldError): Json
  {
    JObj(map["path" := JStr(e.path), "msg" := JStr(e.msg)])
  }

  function ErrorsJson(errs: seq<FieldError>): (j: Json)
    ensures j.JArr? && |j.items| == |errs|
    ensures forall i :: 0 <= i < |errs| ==> j.items[i] == ErrorJson(errs[i])
  {
    JArr(seq(|errs|, i requires 0 <= i < |errs| => ErrorJson(errs[i])))
  }

  /** The final middleware of a chain: answer 400 with the errors, or call `next()`. */
  function Conclude(errs: seq<FieldError>): (g: Gate)
    ensures g.Next? <==> errs == []
    ensures g.Respond? ==>
      g.reply == Reply(400, JObj(CreateResponse(false, MissingFields, ErrorsJson(errs), JNull)))
  {
    if errs != [] then Respond(Reply(400, JObj(CreateResponse(false, MissingFields, ErrorsJson(errs), JNull))))
    else Next
  }

  /** `validateUserRegistration`: passes exactly when the email is accepted by `isEmail`
      and password and username each have a measured length of at least 1. */
  function ValidateUserRegistration(body: Body, isEmail: string -> bool): (g: Gate)
    ensures g.Next? <==> isEmail(Value(body.email)) && IsLength(Value(body.password), 1) && IsLength(Value(body.username), 1)
    // a passing field holds a character other than a variation selector, so it is non-empty
    ensures g.Next? ==> Value(body.password) != "" && Value(body.username) != ""
    ensures g.Respond? ==> g.reply.status == 400
  {
    Conclude(RegistrationErrors(body, isEmail))
  }

  /** `validateUserLogin`: passes exactly when the email is accepted and the password has a
      measured length of at least 1. */
  function ValidateUserLogin(body: Body, isEmail: string -> bool): (g: Gate)
    ensures g.Next? <==> isEmail(Value(body.email)) && IsLength(Value(body.password), 1)
    ensures g.Next? ==> Value(body.password) != ""
    ensures g.Respond? ==> g.reply.status == 400
  {
    Conclude(LoginErrors(body, isEmail))
  }

  /** A rejection carries `success: false`, the fixed message and one error per failed
      check, even when only the email is at fault. */
  lemma RejectionBody(body: Body, isEmail: string -> bool)
    requires ValidateUserRegistration(body, isEmail).Respond?
    ensures var fields := ValidateUserRegistration(body, isEmail).reply.body.fields;
      && fields.Keys == {"success", "message", "data"}
      && fields["success"] == JBool(false)
      && fields["message"] == JStr(MissingFields)
      && fields["data"] == ErrorsJson(RegistrationErrors(body, isEmail))
  {
    var errs := RegistrationErrors(body, isEmail);
    assert ErrorsJson(errs) != JNull;
  }

  /** Only `email` makes a difference: an invalid address alone is reported with the
      same 400 "Missing required fields" envelope and a single error naming the email. */
  lemma OnlyEmailInvalid(body: Body, isEmail: string -> bool)
    requires !isEmail(Value(body.email)) && IsLength(Value(body.password), 1) && IsLength(Value(body.username), 1)
    ensures RegistrationErrors(body, isEmail) == [FieldError("email", InvalidEmail)]
    ensures ValidateUserRegistration(body, isEmail)
         == Respond(Reply(400, JObj(CreateResponse(false, MissingFields, ErrorsJson([FieldError("email", InvalidEmail)]), JNull))))
  {
  }

  /** A password made only of a variation selector is non-empty, yet `isLength` gives it
      length 0: the gate rejects it, and the password error is reported with the email's. */
  lemma {:induction false} SelectorOnlyPasswordRejected(isEmail: string -> bool)
    ensures var body := Body(Some("a@b.c"), Some("Jane"), Some("\U{FE0F}"));
      && Value(body.password) != ""
      && FieldError("password", ShortPassword) in RegistrationErrors(body, isEmail)
      && ValidateUserRegistration(body, isEmail).Respond?
      && ValidateUserLogin(body, isEmail).Respond?
  {
    assert MeasuredLength("\U{FE0F}") == 0 by {
      assert "\U{FE0F}"[1..] == [];
    }
  }

  /** The login gate does not look at `username`. */
  lemma LoginIgnoresUsername(body: Body, isEmail: string -> bool, username: Option<string>)
    ensures ValidateUserLogin(body.(username := username), isEmail) == ValidateUserLogin(body, isEmail)
  {
  }
}
