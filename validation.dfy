/**
 * The request-body rules of the authentication API. Each rule of a field's chain runs, and each one
 * that fails adds its own error, in chain order. Whether a string is an e-mail address is decided by
 * a library predicate, passed in as `isEmail`.
 */
module Validation {

  /** One entry of `validationResult(req).array()`: the field and the rule's message. */
  datatype FieldError = FieldError(field: string, msg: string)

  const UsernameLength := "Username must be between 3 and 30 characters"
  const UsernameChars := "Username can only contain letters, numbers, and underscores"
  const EmailInvalid := "Please provide a valid email"
  const PasswordLength := "Password must be at least 6 characters long"
  const PasswordMix := "Password must contain at least one uppercase letter, one lowercase letter, and one number"
  const PasswordRequired := "Password is required"

  /** The code points `isLength` does not count: the text and emoji presentation selectors. */
  predicate Selector(c: char) {
    c == '\U{FE0E}' || c == '\U{FE0F}'
  }

  /** The length `isLength` measures: code points, less the presentation selectors. */
  function Length(s: string): (n: nat)
    ensures n <= |s|
  {
    if s == [] then 0 else (if Selector(s[0]) then 0 else 1) + Length(s[1..])
  }

  predicate Lowercase(c: char) { 'a' <= c <= 'z' }
  predicate Uppercase(c: char) { 'A' <= c <= 'Z' }
  predicate Digit(c: char) { '0' <= c <= '9' }
  predicate WordChar(c: char) { Lowercase(c) || Uppercase(c) || Digit(c) || c == '_' }

  /** The characters `.` in a regular expression does not match. */
  predicate LineTerminator(c: char) {
    c == '\n' || c == '\r' || c == '\U{2028}' || c == '\U{2029}'
  }

  /** The text before the first line terminator: what a look-ahead `.*` at `^` can scan. */
  function FirstLine(s: string): (r: string)
    ensures |r| <= |s| && r == s[..|r|]
    ensures forall k :: 0 <= k < |r| ==> !LineTerminator(r[k])
    ensures |r| < |s| ==> LineTerminator(s[|r|])
  {
    if s == [] || LineTerminator(s[0]) then []
    else [s[0]] + FirstLine(s[1..])
  }

  /**
   * `/^[a-zA-Z0-9_]+$/`, matched as the pattern reads: one word character, then either the end or
   * another match. It holds exactly when there is at least one character and every one is a letter,
   * digit or underscore.
   */
  predicate UsernameMatches(s: string): (b: bool)
    ensures b <==> |s| >= 1 && forall k :: 0 <= k < |s| ==> WordChar(s[k])
  {
    |s| >= 1 && WordChar(s[0]) && (|s| == 1 || UsernameMatches(s[1..]))
  }

  /**
   * `(?=.*p)` at the start: `.` runs over the text up to the first line terminator, looking for a
   * character with p. It holds exactly when the first line has one.
   */
  predicate Ahead(s: string, p: char -> bool): (b: bool)
    ensures b <==> exists k :: 0 <= k < |FirstLine(s)| && p(FirstLine(s)[k])
  {
    if s == [] || LineTerminator(s[0]) then false
    else
      var line := FirstLine(s);
      assert line == [s[0]] + FirstLine(s[1..]);
      assert forall k :: 1 <= k < |line| ==> line[k] == FirstLine(s[1..])[k - 1];
      p(s[0]) || Ahead(s[1..], p)
  }

  /**
   * `/^(?=.*[a-z])(?=.*[A-Z])(?=.*\d)/`: the three look-aheads from the start. It holds exactly when the
   * first line has a lowercase letter, a capital and a digit.
   */
  predicate PasswordMatches(s: string): (b: bool)
    ensures b <==> var line := FirstLine(s);
      (exists k :: 0 <= k < |line| && Lowercase(line[k]))
      && (exists k :: 0 <= k < |line| && Uppercase(line[k]))
      && (exists k :: 0 <= k < |line| && Digit(line[k]))
  {
    Ahead(s, Lowercase) && Ahead(s, Uppercase) && Ahead(s, Digit)
  }

  function Check(ok: bool, field: string, msg: string): (r: seq<FieldError>)
    ensures |r| <= 1 && forall e :: e in r <==> !ok && e == FieldError(field, msg)
  {
    if ok then [] else [FieldError(field, msg)]
  }

  /** The errors of the registration rules, in rule order; each failed rule contributes its own message. */
  function RegisterErrors(username: string, email: string, password: string, isEmail: string -> bool): (r: seq<FieldError>)
    ensures FieldError("username", UsernameLength) in r <==> !(3 <= Length(username) <= 30)
    ensures FieldError("username", UsernameChars) in r <==> !UsernameMatches(username)
    ensures FieldError("email", EmailInvalid) in r <==> !isEmail(email)
    ensures FieldError("password", PasswordLength) in r <==> Length(password) < 6
    ensures FieldError("password", PasswordMix) in r <==> !PasswordMatches(password)
    ensures |r| <= 5
  {
    var a := Check(3 <= Length(username) <= 30, "username", UsernameLength);
    var b := Check(UsernameMatches(username), "username", UsernameChars);
    var c := Check(isEmail(email), "email", EmailInvalid);
    var d := Check(Length(password) >= 6, "password", PasswordLength);
    var e := Check(PasswordMatches(password), "password", PasswordMix);
    MessagesDistinct();
    InFive(FieldError("username", UsernameLength), a, b, c, d, e);
    InFive(FieldError("username", UsernameChars), a, b, c, d, e);
    InFive(FieldError("email", EmailInvalid), a, b, c, d, e);
    InFive(FieldError("password", PasswordLength), a, b, c, d, e);
    InFive(FieldError("password", PasswordMix), a, b, c, d, e);
    a + b + c + d + e
  }

  /** An element of five lists in a row is an element of one of them. */
  lemma InFive<T>(x: T, a: seq<T>, b: seq<T>, c: seq<T>, d: seq<T>, e: seq<T>)
    ensures x in a + b + c + d + e <==> x in a || x in b || x in c || x in d || x in e
  {
  }

  /** The five registration errors are told apart: their messages differ in length. */
  lemma MessagesDistinct()
    ensures FieldError("username", UsernameLength) != FieldError("username", UsernameChars)
    ensures FieldError("password", PasswordLength) != FieldError("password", PasswordMix)
    ensures "username" != "email" && "username" != "password" && "email" != "password"
  {
    assert |UsernameLength| == 44 && |UsernameChars| == 59;
    assert |PasswordLength| == 43 && |PasswordMix| == 89;
    assert "username"[0] != "password"[0];
  }

  /** The errors of the login rules: the e-mail rule, and a password that must not be empty. */
  function LoginErrors(email: string, password: string, isEmail: string -> bool): (r: seq<FieldError>)
    ensures FieldError("email", EmailInvalid) in r <==> !isEmail(email)
    ensures FieldError("password", PasswordRequired) in r <==> password == []
    ensures |r| <= 2
  {
    Check(isEmail(email), "email", EmailInvalid) + Check(password != [], "password", PasswordRequired)
  }

  /** A registration passes exactly when the username is 3 to 30 word characters and the password is strong. */
  lemma RegisterAccepts(username: string, email: string, password: string, isEmail: string -> bool)
    ensures RegisterErrors(username, email, password, isEmail) == [] <==>
      3 <= Length(username) <= 30 && UsernameMatches(username) && isEmail(email)
      && Length(password) >= 6 && PasswordMatches(password)
  {
  }

  /** A login passes with any non-empty password, whatever its length or characters. */
  lemma LoginAccepts(email: string, password: string, isEmail: string -> bool)
    ensures LoginErrors(email, password, isEmail) == [] <==> isEmail(email) && password != []
  {
  }

  /** Every password the registration accepts is long enough and non-empty, so login accepts it too. */
  lemma {:induction false} StrongPasswordLong(password: string, email: string, isEmail: string -> bool)
    requires Length(password) >= 6 && PasswordMatches(password)
    ensures |password| >= 6
    ensures isEmail(email) ==> LoginErrors(email, password, isEmail) == []
  {
  }

  /** A username the rules accept is between 3 and 30 code points long and has no selector in it. */
  lemma {:induction false} UsernameLengthExact(username: string)
    requires UsernameMatches(username)
    ensures Length(username) == |username|
  {
    if username != [] {
      assert UsernameMatches(username[1..]) || username[1..] == [];
      if username[1..] != [] {
        UsernameLengthExact(username[1..]);
      }
    }
  }
}
