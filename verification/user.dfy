/**
 The User entity: the persisted row and the request body the JSON binder
 fills in from a registration or login request.
 */
module UserModel {
  import opened Wrappers
  import opened Ints

  /** The role every user gets; also the initializer default of the Role property. */
  const DefaultRole: string := "User"

  /**
   A row of the Users table. Id is the primary key (assigned by the database), a C# `int`.
   The plaintext Password is not mapped to a column, so a row has no field
   for it: only the optional PasswordHash is stored.
   */
  datatype User = User(id: int32, username: string, passwordHash: Option<string>, role: string)

  /**
   The User object a request body is bound to. The binder writes JSON null
   into any string property, so every string field is optional here.
   */
  datatype UserBody = UserBody(
    id: int32,
    username: Option<string>,
    password: Option<string>,
    passwordHash: Option<string>,
    role: Option<string>)

  /** One property of a JSON object: left out, written as null, or given a value. */
  datatype Field<T> = Absent | Null | Present(value: T)

  datatype JsonUser = JsonUser(
    id: Option<int32>,
    username: Field<string>,
    password: Field<string>,
    passwordHash: Field<string>,
    role: Field<string>)

  function BindText(f: Field<string>, default: Option<string>): Option<string> {
    match f
    case Absent => default
    case Null => None
    case Present(s) => Some(s)
  }

  /**
   Binds a JSON body to a User object: a property the JSON leaves out keeps
   its initializer value, one written as null becomes null.
   */
  function Bind(j: JsonUser): (u: UserBody)
    ensures j.id.None? ==> u.id == 0
    ensures j.username.Absent? ==> u.username == Some("")
    ensures j.password.Absent? ==> u.password == Some("")
    ensures j.passwordHash.Absent? ==> u.passwordHash.None?
    ensures j.role.Absent? ==> u.role == Some(DefaultRole)
    ensures j.username.Present? ==> u.username == Some(j.username.value)
    ensures j.password.Present? ==> u.password == Some(j.password.value)
  {
    UserBody(
      j.id.GetOr(0),
      BindText(j.username, Some("")),
      BindText(j.password, Some("")),
      BindText(j.passwordHash, None),
      BindText(j.role, Some(DefaultRole)))
  }
}
