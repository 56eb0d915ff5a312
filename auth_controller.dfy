/**
 * The response decisions of the authentication controller: registration, which adds a user to the
 * store, and login and the profile lookup, which only read it. The database's save outcome, the
 * password check, the password hash and the token signer are outside the model and are passed in.
 */
module AuthController {
  import opened Validation

  datatype Option<T> = None | Some(value: T)

  /** A stored user; `password` holds whatever the store keeps for it (the hash). */
  datatype Account = Account(id: int, username: string, email: string, password: string)

  /** The user as the responses show it: id, username and e-mail, and no password. */
  datatype PublicUser = PublicUser(id: int, username: string, email: string)

  function Public(a: Account): PublicUser {
    PublicUser(a.id, a.username, a.email)
  }

  /** A JSON response: status, `success`, `message`, validation `errors`, and the `user`/`token` data. */
  datatype Response = Response(status: int, success: bool, message: string, errors: seq<FieldError>,
                               user: Option<PublicUser>, token: Option<string>)

  function Failure(status: int, message: string): Response {
    Response(status, false, message, [], None, None)
  }

  function ValidationFailed(errors: seq<FieldError>): Response {
    Response(400, false, "Validation errors", errors, None, None)
  }

  const InvalidCredentials := Failure(401, "Invalid credentials")
  const ServerError := Failure(500, "Internal server error")

  /** What the database's `save` did: stored under an id, hit a unique index on a field, or failed. */
  datatype SaveOutcome = Saved(id: int) | DuplicateKey(field: string) | SaveFailed

  /** `field.charAt(0).toUpperCase() + field.slice(1)` on ASCII letters. */
  function Capitalize(field: string): (r: string)
    ensures |r| == |field|
    ensures |field| > 0 ==> r[1..] == field[1..] && r[0] == (if 'a' <= field[0] <= 'z' then (field[0] as int - 32) as char else field[0])
  {
    if field == [] then [] else [if 'a' <= field[0] <= 'z' then (field[0] as int - 32) as char else field[0]] + field[1..]
  }

  /** What a lookup asks for: the e-mail of `findOne({ email })` or the id of `findById`. */
  datatype Key = ByEmail(email: string) | ById(id: int)

  predicate Matches(a: Account, key: Key) {
    match key
    case ByEmail(email) => a.email == email
    case ById(id) => a.id == id
  }

  /** The first stored user matching the key, or nothing when no stored user does. */
  function FindUser(users: seq<Account>, key: Key): (r: Option<Account>)
    ensures r.Some? ==> r.value in users && Matches(r.value, key)
    ensures r.None? ==> forall k :: 0 <= k < |users| ==> !Matches(users[k], key)
  {
    if users == [] then None
    else if Matches(users[0], key) then Some(users[0])
    else FindUser(users[1..], key)
  }

  class UserStore {
    var users: seq<Account>

    constructor(initial: seq<Account>)
      ensures users == initial
    {
      users := initial;
    }

    /**
     * Validation errors answer 400 before anything is written. A save that succeeds stores exactly
     * one new user and answers 201 with its public fields and its token; a duplicate key answers 400
     * naming the field; any other failure answers 500. Only a successful save changes the store.
     */
    method Register(errors: seq<FieldError>, username: string, email: string, password: string,
                    save: SaveOutcome, hash: string -> string, sign: int -> string)
      returns (r: Response)
      modifies this
      ensures errors != [] ==> r == ValidationFailed(errors) && users == old(users)
      ensures errors == [] && save.Saved? ==>
        users == old(users) + [Account(save.id, username, email, hash(password))]
        && r == Response(201, true, "User registered successfully", [], Some(PublicUser(save.id, username, email)), Some(sign(save.id)))
      ensures errors == [] && save.DuplicateKey? ==>
        users == old(users) && r == Failure(400, Capitalize(save.field) + " already exists")
      ensures errors == [] && save.SaveFailed? ==> users == old(users) && r == ServerError
    {
      if errors != [] {
        return ValidationFailed(errors);
      }
      match save
      case Saved(id) =>
        var account := Account(id, username, email, hash(password));
        users := users + [account];
        r := Response(201, true, "User registered successfully", [], Some(Public(account)), Some(sign(account.id)));
      case DuplicateKey(field) =>
        r := Failure(400, Capitalize(field) + " already exists");
      case SaveFailed =>
        r := ServerError;
    }
  }

  /**
   * Validation errors answer 400 before any lookup; a failing lookup answers 500; an unknown e-mail
   * or a wrong password answers 401; a match answers 200 with the public fields and a token.
   */
  function Login(users: seq<Account>, errors: seq<FieldError>, email: string, password: string, fault: bool,
                 verify: (Account, string) -> bool, sign: int -> string): (r: Response)
    ensures errors != [] ==> r == ValidationFailed(errors)
    ensures r.status == 200 <==> errors == [] && !fault && FindUser(users, ByEmail(email)).Some?
                                 && verify(FindUser(users, ByEmail(email)).value, password)
    ensures r.status == 200 ==>
      r == Response(200, true, "Login successful", [], Some(Public(FindUser(users, ByEmail(email)).value)),
                    Some(sign(FindUser(users, ByEmail(email)).value.id)))
    ensures r.status == 401 ==> r == InvalidCredentials
    ensures errors == [] && fault ==> r == ServerError
    ensures errors == [] && !fault && FindUser(users, ByEmail(email)).None? ==> r == InvalidCredentials
    ensures (errors == [] && !fault && FindUser(users, ByEmail(email)).Some?
             && !verify(FindUser(users, ByEmail(email)).value, password)) ==> r == InvalidCredentials
  {
    if errors != [] then ValidationFailed(errors)
    else if fault then ServerError
    else match FindUser(users, ByEmail(email))
      case None => InvalidCredentials
      case Some(user) =>
        if !verify(user, password) then InvalidCredentials
        else Response(200, true, "Login successful", [], Some(Public(user)), Some(sign(user.id)))
  }

  /** An absent id answers 404, a failing lookup 500, and a stored user 200 with its public fields. */
  function GetProfile(users: seq<Account>, userId: int, fault: bool): (r: Response)
    ensures fault ==> r == ServerError
    ensures !fault && FindUser(users, ById(userId)).None? ==> r == Failure(404, "User not found")
    ensures !fault && FindUser(users, ById(userId)).Some? ==>
      r.status == 200 && r.success && r.user == Some(Public(FindUser(users, ById(userId)).value))
  {
    if fault then ServerError
    else match FindUser(users, ById(userId))
      case None => Failure(404, "User not found")
      case Some(user) => Response(200, true, "", [], Some(Public(user)), None)
  }

  /** An unknown e-mail and a wrong password give the same answer, so neither can be told apart. */
  lemma SameRejection(unknown: seq<Account>, known: seq<Account>, email: string, password: string,
                      verify: (Account, string) -> bool, sign: int -> string)
    requires FindUser(unknown, ByEmail(email)).None?
    requires FindUser(known, ByEmail(email)).Some? && !verify(FindUser(known, ByEmail(email)).value, password)
    ensures Login(unknown, [], email, password, false, verify, sign) == Login(known, [], email, password, false, verify, sign)
    ensures Login(unknown, [], email, password, false, verify, sign).status == 401
  {
  }

  /** Registration and then login with the same e-mail succeeds when the hash comparison accepts the stored hash of the password. */
  lemma RegisterThenLogin(users: seq<Account>, id: int, username: string, email: string, password: string,
                          hash: string -> string, verify: (Account, string) -> bool, sign: int -> string)
    requires FindUser(users, ByEmail(email)).None?
    requires verify(Account(id, username, email, hash(password)), password)
    ensures Login(users + [Account(id, username, email, hash(password))], [], email, password, false, verify, sign)
      == Response(200, true, "Login successful", [], Some(PublicUser(id, username, email)), Some(sign(id)))
  {
    var a := Account(id, username, email, hash(password));
    FindAppend(users, a, email);
  }

  lemma {:induction false} FindAppend(users: seq<Account>, a: Account, email: string)
    requires FindUser(users, ByEmail(email)).None? && a.email == email
    ensures FindUser(users + [a], ByEmail(email)) == Some(a)
  {
    if users == [] {
      assert users + [a] == [a];
    } else {
      assert (users + [a])[1..] == users[1..] + [a];
      FindAppend(users[1..], a, email);
    }
  }
}
