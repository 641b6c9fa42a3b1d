/**
 * The signed-in user as the client keeps it: the `User` record with its defaults, restoring it
 * from the string kept in local storage, the avatar fallback and the authenticated check.
 *
 * `JSON.parse` is a parameter that classifies the stored text.
 */
module Users {
  import opened Wrappers
  import opened Text

  /** The fields a stored user object may carry (`None` when absent or `null`). */
  datatype RawUser = RawUser(id: Option<string>, nickname: Option<string>, email: Option<string>,
                             avatar: Option<string>, isAdmin: Option<bool>)

  datatype User = User(id: string, nickname: string, email: string, avatar: string, isAdmin: bool)

  /** What `JSON.parse` gives for the stored text. */
  datatype Parsed = Unparsable | JsonNull | JsonObject(raw: RawUser) | JsonPrimitive

  const SignedOut: string := "未登录用户"
  const DefaultAvatar: string := "/defaults/avatar.png"

  const NoFields: RawUser := RawUser(None, None, None, None, None)

  /** `new User(raw)`. */
  function NewUser(raw: RawUser): User {
    User(OrElse(raw.id, ""), OrElse(raw.nickname, SignedOut), OrElse(raw.email, ""),
         OrElse(raw.avatar, DefaultAvatar), raw.isAdmin == Some(true))
  }

  /** A user written back as a stored object. */
  function ToRaw(u: User): RawUser {
    RawUser(Some(u.id), Some(u.nickname), Some(u.email), Some(u.avatar), Some(u.isAdmin))
  }

  /** `getSafeAvatar`. */
  function SafeAvatar(u: User): string {
    if u.avatar != [] then u.avatar else DefaultAvatar
  }

  /** `isAuthenticated`. */
  predicate IsAuthenticated(u: User) {
    u.id != []
  }

  /**
   * `User.fromStorage`: nothing for an empty or missing value, for text that does not parse,
   * and for a stored `null` (reading its fields throws inside the `try`); any other JSON value
   * that is not an object has no fields, and gives the default user.
   */
  function FromStorage(data: Option<string>, parse: string -> Parsed): Option<User> {
    if !Truthy(data) then None
    else match parse(data.value)
      case Unparsable => None
      case JsonNull => None
      case JsonObject(raw) => Some(NewUser(raw))
      case JsonPrimitive => Some(NewUser(NoFields))
  }

  /** The defaults, and a user is authenticated exactly when the stored id was a non-empty string. */
  lemma NewUserFacts(raw: RawUser)
    ensures var u := NewUser(raw);
      && (IsAuthenticated(u) <==> Truthy(raw.id))
      && u.nickname == (if Truthy(raw.nickname) then raw.nickname.value else SignedOut)
      && u.avatar == (if Truthy(raw.avatar) then raw.avatar.value else DefaultAvatar)
      && (u.isAdmin <==> raw.isAdmin == Some(true))
      && u.nickname != [] && u.avatar != []
      && SafeAvatar(u) == u.avatar
  {
  }

  /** Rebuilding a user from its own stored object gives it back. */
  lemma NewUserIdempotent(raw: RawUser)
    ensures NewUser(ToRaw(NewUser(raw))) == NewUser(raw)
  {
  }

  /** A stored user that parses back to its own object is restored exactly; missing, empty, unparsable or `null` values restore nothing. */
  lemma FromStorageFacts(data: Option<string>, parse: string -> Parsed, u: User)
    ensures !Truthy(data) ==> FromStorage(data, parse) == None
    ensures Truthy(data) && (parse(data.value) == Unparsable || parse(data.value) == JsonNull) ==> FromStorage(data, parse) == None
    ensures Truthy(data) && parse(data.value) == JsonPrimitive ==> FromStorage(data, parse) == Some(User("", SignedOut, "", DefaultAvatar, false))
    ensures Truthy(data) && parse(data.value) == JsonObject(ToRaw(u)) && u.nickname != [] && u.avatar != [] ==> FromStorage(data, parse) == Some(u)
  {
  }
}
