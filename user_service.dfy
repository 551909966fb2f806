/**
 * The user service: four operations, each a fixed pipeline of validation, existence and
 * uniqueness checks, an in-memory change to a `User`, and one repository mutation wrapped in
 * start / error / completion logging.
 */
module Services {
  import opened Outcomes
  import opened Users
  import opened Strings
  import opened Logging
  import opened Repository
  import opened Ports

  // Message templates and exception messages, as the service writes them.
  const GetAllStarted := "Get all users"
  const GetAllFailed := "An error occurred while getting all users"
  const GetAllCompleted := "Get all users completed"
  const CreateStarted := "User Name: {0} bu olan kullanıcı kaydı yapılmaya başlandı"
  const CreateFailed := "An error occurred while creating user"
  const CreateCompleted := "User Id: {0} olan kullanıcı {1} ms de oluşturuldu"
  const DeleteStarted := "User Id: {0} olan kullanıcı silinmeye başlandı"
  const DeleteFailed := "An error occurred while deleting user"
  const DeleteCompleted := "User Id: {0} olan kullanıcı {1} ms de silindi"
  const UpdateStarted := " {0} updating user"
  const UpdateFailed := "An error occured while updating user"
  const UpdateCompleted := "The update process of the user with ID {0} was completed successfully in {1}ms"
  const NameTaken := "Name is already exist"
  const DeleteNotFound := "User not found"
  const UpdateNotFound := "User not found!"
  const CreateSeparator := ", "
  const UpdateSeparator := "\n"

  /**
   * Everything one operation does that an observer can see: its result and the events its
   * collaborators received, in order; `calls` and `entries` are that trace split by collaborator.
   */
  datatype Effect<T> = Effect(result: ServiceResult<T>, trace: seq<Event>)
  {
    const calls: seq<RepoCall> := Calls(trace)
    const entries: seq<LogEntry> := Entries(trace)
  }

  /** `GetAllAsync`: one repository call inside the logging bracket. */
  function GetAllSpec(stub: RepositoryStub): Effect<seq<User>>
  {
    Effect(Rethrow(stub.getAll),
           BracketTrace([], Information(GetAllStarted, []), GetAllCall, GetAllFailed,
                        Information(GetAllCompleted, []), stub.getAll))
  }

  /**
   * The checks `CreateAsync` makes before it builds a user: `Some` with what the operation
   * then does when a check rejects the request, `None` when both checks pass.
   */
  function CreatePrecheck(stub: RepositoryStub, validate: CreateUserDto -> seq<string>,
                          request: CreateUserDto): Option<Effect<bool>>
  {
    var violations := validate(request);
    if |violations| > 0 then Some(Effect(ValidationError(Join(CreateSeparator, violations)), []))
    else match stub.nameIsExists(request.Name)
      case Threw(f) => Some(Effect(RepositoryFault(f), [Called(NameIsExistsCall(request.Name))]))
      case Returned(taken) =>
        if taken then Some(Effect(ArgumentError(NameTaken), [Called(NameIsExistsCall(request.Name))]))
        else None
  }

  /**
   * What `CreateAsync` does once both checks passed and `user` is the object mapped from the
   * request: the repository receives it holding the request's fields and `Id` 0.
   */
  function CreateMutation(stub: RepositoryStub, request: CreateUserDto, user: User, elapsedMs: nat): Effect<bool>
  {
    var created := stub.create(user);
    Effect(Rethrow(created),
           BracketTrace([NameIsExistsCall(request.Name)], Information(CreateStarted, [StringArg(request.Name)]),
                        CreateCall(user, UserFields(0, request.Name, request.Age, request.DateOfBirth)),
                        CreateFailed, Information(CreateCompleted, [IntArg(0), IntArg(elapsedMs)]), created))
  }

  /** `DeleteByIdAsync(id)`, given what the repository answers. */
  function DeleteSpec(stub: RepositoryStub, id: int, elapsedMs: nat): Effect<bool>
    reads FoundUser(stub, id)
  {
    match stub.GetById(id)
    case Threw(f) => Effect(RepositoryFault(f), [Called(GetByIdCall(id))])
    case Returned(user) =>
      if user == null then Effect(ArgumentError(DeleteNotFound), [Called(GetByIdCall(id))])
      else
        var deleted := stub.delete(user);
        Effect(Rethrow(deleted),
               BracketTrace([GetByIdCall(id)], Information(DeleteStarted, [IntArg(id)]), DeleteCall(user),
                            DeleteFailed, Information(DeleteCompleted, [IntArg(user.Id), IntArg(elapsedMs)]), deleted))
  }

  /** `UpdateAsync(request)`, given what the repository answers, read before the user is changed. */
  function UpdateSpec(stub: RepositoryStub, validate: UpdateUserDto -> seq<string>,
                      request: UpdateUserDto, elapsedMs: nat): Effect<bool>
    reads FoundUser(stub, request.Id)
  {
    match stub.GetById(request.Id)
    case Threw(f) => Effect(RepositoryFault(f), [Called(GetByIdCall(request.Id))])
    case Returned(user) =>
      if user == null then Effect(ArgumentError(UpdateNotFound), [Called(GetByIdCall(request.Id))])
      else UpdateFound(stub, validate, request, user, elapsedMs)
  }

  /** What `UpdateAsync(request)` does once the lookup found `user`. */
  function UpdateFound(stub: RepositoryStub, validate: UpdateUserDto -> seq<string>,
                       request: UpdateUserDto, user: User, elapsedMs: nat): Effect<bool>
    reads user
  {
    var lookup := [GetByIdCall(request.Id)];
    if |validate(request)| > 0 then
      Effect(ValidationError(Join(UpdateSeparator, validate(request))), [Called(GetByIdCall(request.Id))])
    else if request.Name != user.Name then
      var checks := lookup + [NameIsExistsCall(request.Name)];
      match stub.nameIsExists(request.Name)
      case Threw(f) => Effect(RepositoryFault(f), [Called(GetByIdCall(request.Id)), Called(NameIsExistsCall(request.Name))])
      case Returned(taken) =>
        if taken then Effect(ArgumentError(NameTaken), [Called(GetByIdCall(request.Id)), Called(NameIsExistsCall(request.Name))])
        else UpdateMutation(stub, request, user, checks, elapsedMs)
    else UpdateMutation(stub, request, user, lookup, elapsedMs)
  }

  /**
   * The bracketed `UpdateAsync` call on `user`, after the repository calls `checks`: the
   * repository receives it holding the request's fields and its own `Id`.
   */
  function UpdateMutation(stub: RepositoryStub, request: UpdateUserDto, user: User,
                          checks: seq<RepoCall>, elapsedMs: nat): Effect<bool>
    reads user
  {
    var updated := stub.update(user);
    Effect(Rethrow(updated),
           BracketTrace(checks, Information(UpdateStarted, [StringArg(request.Name)]),
                        UpdateCall(user, UserFields(user.Id, request.Name, request.Age, request.DateOfBirth)),
                        UpdateFailed, Information(UpdateCompleted, [IntArg(user.Id), IntArg(elapsedMs)]), updated))
  }

  /** Some call in `calls` hands `user` to the repository's `UpdateAsync`. */
  predicate UpdatesUser(calls: seq<RepoCall>, user: User)
  {
    exists c :: c in calls && c.UpdateCall? && c.user == user
  }

  /** `UpdateAsync(request)` gets past its checks: the lookup finds a user, validation passes, and a new name is free. */
  predicate UpdateReached(stub: RepositoryStub, validate: UpdateUserDto -> seq<string>, request: UpdateUserDto)
    reads FoundUser(stub, request.Id)
  {
    stub.getByIdFault(request.Id).None? && request.Id in stub.users && validate(request) == []
    && (request.Name != stub.users[request.Id].Name ==> stub.nameIsExists(request.Name) == Returned(false))
  }

  /**
   * When validation passes and a new name is free, `UpdateAsync` on the found `user` ends in the
   * bracketed update of `user` after the calls `checks`.
   */
  lemma UpdateFoundReachesMutation(stub: RepositoryStub, validate: UpdateUserDto -> seq<string>,
                                   request: UpdateUserDto, user: User, elapsedMs: nat, checks: seq<RepoCall>)
    requires |validate(request)| == 0
    requires request.Name != user.Name ==> stub.nameIsExists(request.Name) == Returned(false)
    requires checks == [GetByIdCall(request.Id)] + (if request.Name != user.Name then [NameIsExistsCall(request.Name)] else [])
    ensures UpdateFound(stub, validate, request, user, elapsedMs) == UpdateMutation(stub, request, user, checks, elapsedMs)
  {
  }

  class UserService {
    const userRepository: UserRepository
    const logger: LoggerAdapter
    /** The journal both collaborators write into. */
    const journal: Journal
    /** The field rules of `CreateUserDtoValidator`: the messages of the violated ones. */
    const createUserDtoValidator: CreateUserDto -> seq<string>
    /** The field rules of `UpdateUserDtoValidator`: the messages of the violated ones. */
    const updateUserDtoValidator: UpdateUserDto -> seq<string>

    constructor (userRepository: UserRepository, logger: LoggerAdapter,
                 createUserDtoValidator: CreateUserDto -> seq<string>,
                 updateUserDtoValidator: UpdateUserDto -> seq<string>)
      requires userRepository.journal == logger.journal
      ensures Valid()
      ensures this.userRepository == userRepository && this.logger == logger
      ensures this.createUserDtoValidator == createUserDtoValidator
      ensures this.updateUserDtoValidator == updateUserDtoValidator
    {
      this.userRepository := userRepository;
      this.logger := logger;
      this.journal := logger.journal;
      this.createUserDtoValidator := createUserDtoValidator;
      this.updateUserDtoValidator := updateUserDtoValidator;
    }

    /** Both collaborators write into the service's journal. */
    predicate Valid()
    {
      userRepository.journal == journal && logger.journal == journal
    }

    /** The operation returned `r`, and the collaborators received `e.trace` after `before`. */
    ghost predicate Observed<T>(r: ServiceResult<T>, e: Effect<T>, before: seq<Event>)
      reads journal
    {
      r == e.result && journal.events == before + e.trace
    }

    method GetAllAsync() returns (r: ServiceResult<seq<User>>)
      requires Valid()
      modifies journal
      ensures Observed(r, GetAllSpec(userRepository.stub), old(journal.events))
    {
      logger.LogInformation(GetAllStarted, []);
      var users := userRepository.GetAllAsync();
      if users.Threw? {
        logger.LogError(users.fault, GetAllFailed, []);
      }
      logger.LogInformation(GetAllCompleted, []);
      r := Rethrow(users);
    }

    method CreateAsync(request: CreateUserDto, elapsedMs: nat) returns (r: ServiceResult<bool>)
      requires Valid()
      modifies journal
      ensures match CreatePrecheck(userRepository.stub, createUserDtoValidator, request)
        case Some(e) => Observed(r, e, old(journal.events))
        case None =>
          exists user: User {:trigger CreateMutation(userRepository.stub, request, user, elapsedMs)} ::
            fresh(user) && user.Id == 0 && user.Name == request.Name && user.Age == request.Age
            && user.DateOfBirth == request.DateOfBirth
            && Observed(r, CreateMutation(userRepository.stub, request, user, elapsedMs),
                        old(journal.events))
    {
      var violations := createUserDtoValidator(request);
      if |violations| > 0 {
        r := ValidationError(Join(CreateSeparator, violations));
        return;
      }
      var nameIsExist := userRepository.NameIsExists(request.Name);
      if nameIsExist.Threw? {
        r := RepositoryFault(nameIsExist.fault);
        return;
      }
      if nameIsExist.value {
        r := ArgumentError(NameTaken);
        return;
      }
      var user := CreateUserDtoToUserObject(request);
      logger.LogInformation(CreateStarted, [StringArg(user.Name)]);
      var created := userRepository.CreateAsync(user);
      if created.Threw? {
        logger.LogError(created.fault, CreateFailed, []);
      }
      logger.LogInformation(CreateCompleted, [IntArg(user.Id), IntArg(elapsedMs)]);
      r := Rethrow(created);
      assert Observed(r, CreateMutation(userRepository.stub, request, user, elapsedMs),
                      old(journal.events));
    }

    method CreateUserDtoToUserObject(request: CreateUserDto) returns (user: User)
      ensures fresh(user)
      ensures user.Name == request.Name && user.Age == request.Age && user.DateOfBirth == request.DateOfBirth
      ensures user.Id == 0
    {
      user := new User(request.Name, request.Age, request.DateOfBirth);
    }

    method DeleteByIdAsync(id: int, elapsedMs: nat) returns (r: ServiceResult<bool>)
      requires Valid()
      modifies journal
      ensures Observed(r, old(DeleteSpec(userRepository.stub, id, elapsedMs)),
                       old(journal.events))
    {
      var found := userRepository.GetByIdAsync(id);
      if found.Threw? {
        r := RepositoryFault(found.fault);
        return;
      }
      var user := found.value;
      if user == null {
        r := ArgumentError(DeleteNotFound);
        return;
      }
      logger.LogInformation(DeleteStarted, [IntArg(id)]);
      var deleted := userRepository.DeleteAsync(user);
      if deleted.Threw? {
        logger.LogError(deleted.fault, DeleteFailed, []);
      }
      logger.LogInformation(DeleteCompleted, [IntArg(user.Id), IntArg(elapsedMs)]);
      r := Rethrow(deleted);
    }

    /** `e` names what the operation does, as `UpdateSpec` states it of the state before the call. */
    method UpdateAsync(request: UpdateUserDto, elapsedMs: nat) returns (r: ServiceResult<bool>, ghost e: Effect<bool>)
      requires Valid()
      modifies journal, FoundUser(userRepository.stub, request.Id)
      ensures e == old(UpdateSpec(userRepository.stub, updateUserDtoValidator, request, elapsedMs))
      ensures Observed(r, e, old(journal.events))
      ensures forall user | user in FoundUser(userRepository.stub, request.Id) ::
        FieldsOf(user) == if old(UpdateReached(userRepository.stub, updateUserDtoValidator, request))
                          then UserFields(old(user.Id), request.Name, request.Age, request.DateOfBirth)
                          else old(FieldsOf(user))
    {
      e := UpdateSpec(userRepository.stub, updateUserDtoValidator, request, elapsedMs);
      var found := userRepository.GetByIdAsync(request.Id);
      if found.Threw? {
        r := RepositoryFault(found.fault);
        return;
      }
      var user := found.value;
      if user == null {
        r := ArgumentError(UpdateNotFound);
        return;
      }
      var violations := updateUserDtoValidator(request);
      if |violations| > 0 {
        r := ValidationError(Join(UpdateSeparator, violations));
        return;
      }
      ghost var checks := [GetByIdCall(request.Id)];
      if request.Name != user.Name {
        var nameIsExist := userRepository.NameIsExists(request.Name);
        checks := checks + [NameIsExistsCall(request.Name)];
        if nameIsExist.Threw? {
          r := RepositoryFault(nameIsExist.fault);
          return;
        }
        if nameIsExist.value {
          r := ArgumentError(NameTaken);
          return;
        }
      }
      UpdateFoundReachesMutation(userRepository.stub, updateUserDtoValidator, request, user, elapsedMs, checks);
      ghost var mutation := UpdateMutation(userRepository.stub, request, user, checks, elapsedMs);
      ghost var before := journal.events;
      assert before == old(journal.events) + AsCalls(checks);
      ghost var id := user.Id;
      CreateUpdateUserObject(user, request);
      assert FieldsOf(user) == UserFields(id, request.Name, request.Age, request.DateOfBirth);
      logger.LogInformation(UpdateStarted, [StringArg(request.Name)]);
      var updated := userRepository.UpdateAsync(user);
      if updated.Threw? {
        logger.LogError(updated.fault, UpdateFailed, []);
      }
      logger.LogInformation(UpdateCompleted, [IntArg(user.Id), IntArg(elapsedMs)]);
      r := Rethrow(updated);
      BracketTraceAppended(old(journal.events), checks, Information(UpdateStarted, [StringArg(request.Name)]),
                           UpdateCall(user, FieldsOf(user)), UpdateFailed,
                           Information(UpdateCompleted, [IntArg(id), IntArg(elapsedMs)]), updated);
    }

    /** Overwrites the user's editable fields with the request's; `Id` is kept. */
    method CreateUpdateUserObject(user: User, request: UpdateUserDto)
      modifies user
      ensures user.Name == request.Name && user.Age == request.Age && user.DateOfBirth == request.DateOfBirth
      ensures user.Id == old(user.Id)
    {
      user.Name := request.Name;
      user.Age := request.Age;
      user.DateOfBirth := request.DateOfBirth;
    }
  }
}
