/**
 * The rows of the relational store the provisioning connector works on, the
 * values it exchanges with its caller, and its outcomes and log events.
 */
module Rows {

  /** A nullable value: `None` stands for SQL NULL or a C# null reference. */
  datatype Option<T> = None | Some(value: T)

  /** A row of the `"User"` table, written only by the connector's own `UserToCreate` overload. */
  datatype UserRow = UserRow(login: string, fullName: string, phoneNumber: string, isLead: bool)

  /**
   * A row of the `Users` table. `login` is the column written by `CreateUser` and read by
   * every existence check except `IsUserExists`; `userLogin` is the `user_login` column that
   * `IsUserExists` filters on, which this core never writes (NULL on every row it inserts).
   */
  datatype UsersRow = UsersRow(
    login: string,
    userLogin: Option<string>,
    lastName: string,
    firstName: string,
    middleName: string,
    telephoneNumber: string,
    isLead: bool)

  /** A row of the `Passwords` table. */
  datatype PasswordRow = PasswordRow(login: string, passwordHash: string)

  /** A row of the `Properties` catalog. */
  datatype PropertyRow = PropertyRow(id: int, name: string, description: string)

  /**
   * A row of `UserProperties`. Reading joins on `propertyId`; updating filters on
   * `propertyName`: the two operations use different columns.
   */
  datatype UserPropertyRow = UserPropertyRow(userLogin: string, propertyId: int, propertyName: string, value: string)

  /** A row of the `Permissions` catalog. */
  datatype PermissionRow = PermissionRow(id: string, name: string, description: string)

  /** A row of the `UserRequestRight` link table. Nothing keeps these rows unique. */
  datatype GrantRow = GrantRow(userLogin: string, rightId: string)

  /** Values returned to the caller. */
  datatype Property = Property(name: string, description: string)
  datatype UserProperty = UserProperty(name: string, value: string)
  datatype Permission = Permission(id: string, name: string, description: string)

  /** The connector's own user record: full name, nullable login. */
  datatype LocalUserToCreate = LocalUserToCreate(login: Option<string>, fullName: string, phoneNumber: string, isLead: bool)

  /** The provisioning framework's user record: name parts and a password hash. */
  datatype UserToCreate = UserToCreate(
    login: string,
    lastName: string,
    firstName: string,
    middleName: string,
    telephoneNumber: string,
    isLead: bool,
    passwordHash: string)

  /** The exceptions the connector raises. */
  datatype Failure =
    | NullArgument                    // ArgumentNullException for a null user
    | EmptyLogin                      // ArgumentException for a null or empty login
    | NullReference                   // dereferencing a null user inside the try block
    | AlreadyExists(login: string)    // "User with login ... already exists."
    | UserNotFound(login: string)     // "User with login ... does not exist."
    | StoreError                      // a statement the store rejected

  datatype Outcome = Pass | Fail(failure: Failure)

  datatype Result<T> = Ok(value: T) | Err(failure: Failure)

  /** Which operation a catch block reports an error for. */
  datatype Operation =
    | CreatingUser
    | UpdatingProperties
    | AddingPermissions
    | RemovingPermissions
    | RetrievingPermissions

  /** What the connector sends to its optional logger, without the message text. */
  datatype LogEvent =
    | UserCreated(login: string)
    | UserAlreadyExistsLogged(login: string)
    | UserDoesNotExist(login: string)
    | PermissionDoesNotExist(id: string)
    | OperationError(op: Operation)
}
