/**
 * The repository port (`IUserRepository`) as data: the calls the service can make on it, and
 * a script of what each call answers.
 */
module Repository {
  import opened Outcomes
  import opened Users

  /**
   * One call the service made on the repository, with its argument. A create or update call
   * also keeps the field values the user object held when it was handed over.
   */
  datatype RepoCall =
    | GetAllCall
    | GetByIdCall(id: int)
    | NameIsExistsCall(name: string)
    | CreateCall(user: User, sent: UserFields)
    | DeleteCall(user: User)
    | UpdateCall(user: User, sent: UserFields)

  /**
   * What every repository operation answers, for every argument. `GetByIdAsync(id)` finds
   * `users[id]`, or nothing when the store has no such id, unless `getByIdFault` scripts a fault
   * for that id; every other operation's answer is scripted outright. A user argument is told
   * apart by reference, as an argument matcher on the object itself would.
   */
  datatype RepositoryStub = RepositoryStub(
    users: map<int, User>,
    getByIdFault: int -> Option<Fault>,
    getAll: Outcome<seq<User>>,
    nameIsExists: string -> Outcome<bool>,
    create: User -> Outcome<bool>,
    delete: User -> Outcome<bool>,
    update: User -> Outcome<bool>)
  {
    /** The answer of `GetByIdAsync(id)`: a fault, the stored user, or null. */
    function GetById(id: int): Outcome<User?>
    {
      match getByIdFault(id)
      case Some(f) => Threw(f)
      case None => Returned(if id in users then users[id] else null)
    }
  }

  /** The user object, if any, that `GetByIdAsync(id)` hands back. */
  function FoundUser(stub: RepositoryStub, id: int): set<User>
  {
    if stub.getByIdFault(id).None? && id in stub.users then {stub.users[id]} else {}
  }
}
