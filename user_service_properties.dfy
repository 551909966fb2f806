/** What the four service operations promise, for every answer the repository and validators give. */
module ServiceProperties {
  import opened Outcomes
  import opened Users
  import opened Strings
  import opened Logging
  import opened Repository
  import opened Ports
  import opened Services

  // ---- GetAllAsync ----

  /** A list the repository returns comes back unchanged, between the start and completion entries. */
  lemma GetAllReturnsRepositoryList(stub: RepositoryStub, users: seq<User>)
    requires stub.getAll == Returned(users)
    ensures GetAllSpec(stub)
            == Effect(Ok(users), [Logged(Information(GetAllStarted, [])), Called(GetAllCall),
                                  Logged(Information(GetAllCompleted, []))])
  {
  }

  /**
   * "Get all users" is logged right before the one repository call and "Get all users completed"
   * last, each exactly once, whether the repository returned or threw; an error entry carrying
   * the repository's own fault is logged exactly when it threw.
   */
  lemma GetAllIsBracketed(stub: RepositoryStub)
    ensures var e := GetAllSpec(stub);
      e.calls == [GetAllCall]
      && Bracketed(e.entries, GetAllStarted, GetAllFailed, GetAllCompleted, stub.getAll)
      && LoggedAround(e.trace, 0, Information(GetAllStarted, []), GetAllCall, Information(GetAllCompleted, []))
  {
    BracketTraceShape([], Information(GetAllStarted, []), GetAllCall, GetAllFailed,
                      Information(GetAllCompleted, []), stub.getAll);
  }

  /** A repository fault is logged once, after the call and before the completion entry, and rethrown unchanged. */
  lemma GetAllRethrows(stub: RepositoryStub, f: Fault)
    requires stub.getAll == Threw(f)
    ensures GetAllSpec(stub)
            == Effect(RepositoryFault(f), [Logged(Information(GetAllStarted, [])), Called(GetAllCall),
                                           Logged(Error(f, GetAllFailed, [])), Logged(Information(GetAllCompleted, []))])
    ensures ErrorCount(GetAllSpec(stub).entries) == 1
  {
    GetAllIsBracketed(stub);
  }

  // ---- CreateAsync ----

  /** Any violation rejects the request before any repository call or log entry. */
  lemma CreateRejectsInvalid(stub: RepositoryStub, validate: CreateUserDto -> seq<string>, request: CreateUserDto)
    requires validate(request) != []
    ensures CreatePrecheck(stub, validate, request)
            == Some(Effect(ValidationError(Join(", ", validate(request))), []))
  {
  }

  /** The validation report lists the violations in order: splitting it at ", " gives them back. */
  lemma CreateReportListsViolations(stub: RepositoryStub, validate: CreateUserDto -> seq<string>, request: CreateUserDto)
    requires validate(request) != []
    requires forall m :: m in validate(request) ==> ',' !in m
    ensures CreatePrecheck(stub, validate, request).Some?
    ensures var r := CreatePrecheck(stub, validate, request).value.result;
            r.ValidationError? && Split(r.message, ", ") == validate(request)
  {
    SplitJoin(validate(request), ", ");
  }

  /** A taken name is rejected after the one name check: nothing is created and nothing is logged. */
  lemma CreateRejectsTakenName(stub: RepositoryStub, validate: CreateUserDto -> seq<string>, request: CreateUserDto)
    requires validate(request) == [] && stub.nameIsExists(request.Name) == Returned(true)
    ensures CreatePrecheck(stub, validate, request)
            == Some(Effect(ArgumentError("Name is already exist"), [Called(NameIsExistsCall(request.Name))]))
  {
  }

  /** A fault of the name check is rethrown without any log entry. */
  lemma CreateNameCheckFaultIsNotLogged(stub: RepositoryStub, validate: CreateUserDto -> seq<string>,
                                        request: CreateUserDto, f: Fault)
    requires validate(request) == [] && stub.nameIsExists(request.Name) == Threw(f)
    ensures CreatePrecheck(stub, validate, request)
            == Some(Effect(RepositoryFault(f), [Called(NameIsExistsCall(request.Name))]))
  {
  }

  /** The user is built and handed to the repository exactly when the request is valid and its name free. */
  lemma CreateProceedsIff(stub: RepositoryStub, validate: CreateUserDto -> seq<string>, request: CreateUserDto)
    ensures CreatePrecheck(stub, validate, request).None?
            <==> validate(request) == [] && stub.nameIsExists(request.Name) == Returned(false)
  {
  }

  /**
   * Past the checks, the repository's `CreateAsync` is called after the name check, on the
   * mapped user holding the request's name, age and birth date and the default Id 0; its
   * boolean is returned or its fault rethrown. The start entry, with the requested name, is
   * logged right before that call and is the first entry; the completion entry, with Id 0 and
   * the elapsed milliseconds, is last.
   */
  lemma CreateMutationIsBracketed(stub: RepositoryStub, request: CreateUserDto, user: User, elapsedMs: nat)
    ensures var e := CreateMutation(stub, request, user, elapsedMs);
      var call := CreateCall(user, UserFields(0, request.Name, request.Age, request.DateOfBirth));
      e.calls == [NameIsExistsCall(request.Name), call]
      && e.result == Rethrow(stub.create(user))
      && Bracketed(e.entries, CreateStarted, CreateFailed, CreateCompleted, stub.create(user))
      && LoggedAround(e.trace, 1, Information(CreateStarted, [StringArg(request.Name)]), call,
                      Information(CreateCompleted, [IntArg(0), IntArg(elapsedMs)]))
  {
    BracketTraceShape([NameIsExistsCall(request.Name)], Information(CreateStarted, [StringArg(request.Name)]),
                      CreateCall(user, UserFields(0, request.Name, request.Age, request.DateOfBirth)), CreateFailed,
                      Information(CreateCompleted, [IntArg(0), IntArg(elapsedMs)]), stub.create(user));
  }

  // ---- DeleteByIdAsync ----

  /** An id the store does not hold is rejected after the lookup: no delete call, no log entry. */
  lemma DeleteRejectsUnknownId(stub: RepositoryStub, id: int, elapsedMs: nat)
    requires stub.getByIdFault(id).None? && id !in stub.users
    ensures DeleteSpec(stub, id, elapsedMs) == Effect(ArgumentError("User not found"), [Called(GetByIdCall(id))])
  {
  }

  /** A fault of the lookup is rethrown without any log entry. */
  lemma DeleteLookupFaultIsNotLogged(stub: RepositoryStub, id: int, elapsedMs: nat, f: Fault)
    requires stub.getByIdFault(id) == Some(f)
    ensures DeleteSpec(stub, id, elapsedMs) == Effect(RepositoryFault(f), [Called(GetByIdCall(id))])
  {
  }

  /**
   * A found user is handed to the repository's `DeleteAsync` once, after the lookup, its boolean
   * returned or its fault rethrown. The start entry, with the requested id, is logged right
   * before that call and is the first entry; the completion entry, with the found user's Id, is last.
   */
  lemma DeleteCallsRepositoryOnce(stub: RepositoryStub, id: int, elapsedMs: nat)
    requires stub.getByIdFault(id).None? && id in stub.users
    ensures var user := stub.users[id];
      var e := DeleteSpec(stub, id, elapsedMs);
      e.calls == [GetByIdCall(id), DeleteCall(user)]
      && e.result == Rethrow(stub.delete(user))
      && Bracketed(e.entries, DeleteStarted, DeleteFailed, DeleteCompleted, stub.delete(user))
      && LoggedAround(e.trace, 1, Information(DeleteStarted, [IntArg(id)]), DeleteCall(user),
                      Information(DeleteCompleted, [IntArg(user.Id), IntArg(elapsedMs)]))
  {
    var user := stub.users[id];
    BracketTraceShape([GetByIdCall(id)], Information(DeleteStarted, [IntArg(id)]), DeleteCall(user), DeleteFailed,
                      Information(DeleteCompleted, [IntArg(user.Id), IntArg(elapsedMs)]), stub.delete(user));
  }

  // ---- UpdateAsync ----

  /**
   * An id the store does not hold is rejected before validation: the outcome is the same for
   * every request with that id and every validator.
   */
  lemma UpdateRejectsUnknownIdFirst(stub: RepositoryStub, validate: UpdateUserDto -> seq<string>,
                                    request: UpdateUserDto, elapsedMs: nat)
    requires stub.getByIdFault(request.Id).None? && request.Id !in stub.users
    ensures UpdateSpec(stub, validate, request, elapsedMs)
            == Effect(ArgumentError("User not found!"), [Called(GetByIdCall(request.Id))])
  {
  }

  /** A fault of the lookup is rethrown without any log entry, before validation. */
  lemma UpdateLookupFaultIsNotLogged(stub: RepositoryStub, validate: UpdateUserDto -> seq<string>,
                                     request: UpdateUserDto, elapsedMs: nat, f: Fault)
    requires stub.getByIdFault(request.Id) == Some(f)
    ensures UpdateSpec(stub, validate, request, elapsedMs) == Effect(RepositoryFault(f), [Called(GetByIdCall(request.Id))])
  {
  }

  /** For a found user, any violation rejects the request with the messages joined by newlines. */
  lemma UpdateRejectsInvalid(stub: RepositoryStub, validate: UpdateUserDto -> seq<string>,
                             request: UpdateUserDto, elapsedMs: nat)
    requires stub.getByIdFault(request.Id).None? && request.Id in stub.users
    requires validate(request) != []
    ensures UpdateSpec(stub, validate, request, elapsedMs)
            == Effect(ValidationError(Join("\n", validate(request))), [Called(GetByIdCall(request.Id))])
  {
  }

  /** The update report lists the violations in order: splitting it at newlines gives them back. */
  lemma UpdateReportListsViolations(stub: RepositoryStub, validate: UpdateUserDto -> seq<string>,
                                    request: UpdateUserDto, elapsedMs: nat)
    requires stub.getByIdFault(request.Id).None? && request.Id in stub.users
    requires validate(request) != []
    requires forall m :: m in validate(request) ==> '\n' !in m
    ensures var r := UpdateSpec(stub, validate, request, elapsedMs).result;
            r.ValidationError? && Split(r.message, "\n") == validate(request)
  {
    SplitJoin(validate(request), "\n");
  }

  /**
   * The name check is made exactly when a valid request renames a found user; keeping the
   * user's own name is never rejected as a duplicate.
   */
  lemma UpdateChecksNameOnlyWhenRenamed(stub: RepositoryStub, validate: UpdateUserDto -> seq<string>,
                                        request: UpdateUserDto, elapsedMs: nat)
    ensures var e := UpdateSpec(stub, validate, request, elapsedMs);
      (NameIsExistsCall(request.Name) in e.calls)
      <==> (stub.getByIdFault(request.Id).None? && request.Id in stub.users && validate(request) == []
            && request.Name != stub.users[request.Id].Name)
  {
    UpdateCallsShape(stub, validate, request, elapsedMs);
  }

  /** An unchanged name goes straight from validation to the repository's `UpdateAsync`. */
  lemma UpdateKeepsOwnName(stub: RepositoryStub, validate: UpdateUserDto -> seq<string>,
                           request: UpdateUserDto, elapsedMs: nat)
    requires stub.getByIdFault(request.Id).None? && request.Id in stub.users
    requires validate(request) == [] && request.Name == stub.users[request.Id].Name
    ensures var user := stub.users[request.Id];
      var e := UpdateSpec(stub, validate, request, elapsedMs);
      e.calls == [GetByIdCall(request.Id), UpdateCall(user, UserFields(user.Id, request.Name, request.Age, request.DateOfBirth))]
      && e.result == Rethrow(stub.update(user))
  {
    UpdateCallsShape(stub, validate, request, elapsedMs);
  }

  /** A new name that is taken is rejected after the name check: no update call, no log entry. */
  lemma UpdateRejectsTakenName(stub: RepositoryStub, validate: UpdateUserDto -> seq<string>,
                               request: UpdateUserDto, elapsedMs: nat)
    requires stub.getByIdFault(request.Id).None? && request.Id in stub.users
    requires validate(request) == [] && request.Name != stub.users[request.Id].Name
    requires stub.nameIsExists(request.Name) == Returned(true)
    ensures UpdateSpec(stub, validate, request, elapsedMs)
            == Effect(ArgumentError("Name is already exist"),
                      [Called(GetByIdCall(request.Id)), Called(NameIsExistsCall(request.Name))])
  {
  }

  /** A fault of the name check made for a rename is rethrown without any log entry or update call. */
  lemma UpdateNameCheckFaultIsNotLogged(stub: RepositoryStub, validate: UpdateUserDto -> seq<string>,
                                        request: UpdateUserDto, elapsedMs: nat, f: Fault)
    requires stub.getByIdFault(request.Id).None? && request.Id in stub.users
    requires validate(request) == [] && request.Name != stub.users[request.Id].Name
    requires stub.nameIsExists(request.Name) == Threw(f)
    ensures UpdateSpec(stub, validate, request, elapsedMs)
            == Effect(RepositoryFault(f), [Called(GetByIdCall(request.Id)), Called(NameIsExistsCall(request.Name))])
  {
  }

  /**
   * Whenever the repository's `UpdateAsync` is reached, the calls are exactly the lookup, the
   * name check when the request renames the user, and then that update, on the found user
   * holding the request's name, age and birth date and its own Id; its boolean is returned or
   * its fault rethrown. The start entry, with the new name, is logged right before the update
   * and is the first entry; the completion entry, with the user's Id, is last. When nothing is
   * logged, no update call was made.
   */
  lemma UpdateMutationIsBracketed(stub: RepositoryStub, validate: UpdateUserDto -> seq<string>,
                                  request: UpdateUserDto, elapsedMs: nat)
    ensures var e := UpdateSpec(stub, validate, request, elapsedMs);
      if e.entries == [] then forall c :: c in e.calls ==> !c.UpdateCall?
      else
        stub.getByIdFault(request.Id).None? && request.Id in stub.users
        && var user := stub.users[request.Id];
        var checks := [GetByIdCall(request.Id)] + (if request.Name != user.Name then [NameIsExistsCall(request.Name)] else []);
        var call := UpdateCall(user, UserFields(user.Id, request.Name, request.Age, request.DateOfBirth));
        e.calls == checks + [call]
        && e.result == Rethrow(stub.update(user))
        && Bracketed(e.entries, UpdateStarted, UpdateFailed, UpdateCompleted, stub.update(user))
        && LoggedAround(e.trace, |checks|, Information(UpdateStarted, [StringArg(request.Name)]), call,
                        Information(UpdateCompleted, [IntArg(user.Id), IntArg(elapsedMs)]))
  {
    var e := UpdateSpec(stub, validate, request, elapsedMs);
    if UpdateReached(stub, validate, request) {
      var user := stub.users[request.Id];
      var checks := [GetByIdCall(request.Id)] + (if request.Name != user.Name then [NameIsExistsCall(request.Name)] else []);
      var start := Information(UpdateStarted, [StringArg(request.Name)]);
      var completion := Information(UpdateCompleted, [IntArg(user.Id), IntArg(elapsedMs)]);
      var call := UpdateCall(user, UserFields(user.Id, request.Name, request.Age, request.DateOfBirth));
      BracketTraceShape(checks, start, call, UpdateFailed, completion, stub.update(user));
      assert e.entries[0] == start;
    } else {
      UpdateCallsShape(stub, validate, request, elapsedMs);
    }
  }

  /**
   * The found user's fields are overwritten (see `UserService.UpdateAsync`) exactly when the
   * lookup finds it, validation passes and a new name is free.
   */
  lemma UpdateOverwritesIff(stub: RepositoryStub, validate: UpdateUserDto -> seq<string>,
                            request: UpdateUserDto, elapsedMs: nat, user: User)
    ensures UpdatesUser(UpdateSpec(stub, validate, request, elapsedMs).calls, user)
            <==> UpdateReached(stub, validate, request) && user == stub.users[request.Id]
  {
    UpdateCallsShape(stub, validate, request, elapsedMs);
    var calls := UpdateSpec(stub, validate, request, elapsedMs).calls;
    if UpdateReached(stub, validate, request) {
      assert calls[|calls| - 1] in calls;
    }
  }

  /** The repository calls `UpdateAsync` makes, on every path. */
  lemma UpdateCallsShape(stub: RepositoryStub, validate: UpdateUserDto -> seq<string>,
                         request: UpdateUserDto, elapsedMs: nat)
    ensures var e := UpdateSpec(stub, validate, request, elapsedMs);
      var found := stub.getByIdFault(request.Id).None? && request.Id in stub.users;
      var renamed := found && validate(request) == [] && request.Name != stub.users[request.Id].Name;
      var checks := [GetByIdCall(request.Id)] + (if renamed then [NameIsExistsCall(request.Name)] else []);
      if UpdateReached(stub, validate, request) then
        var user := stub.users[request.Id];
        e.calls == checks + [UpdateCall(user, UserFields(user.Id, request.Name, request.Age, request.DateOfBirth))]
      else e.calls == checks && e.entries == []
  {
    var found := stub.getByIdFault(request.Id).None? && request.Id in stub.users;
    var renamed := found && validate(request) == [] && request.Name != stub.users[request.Id].Name;
    var checks := [GetByIdCall(request.Id)] + (if renamed then [NameIsExistsCall(request.Name)] else []);
    if UpdateReached(stub, validate, request) {
      var user := stub.users[request.Id];
      BracketTraceProjections(checks, Information(UpdateStarted, [StringArg(request.Name)]),
                              UpdateCall(user, UserFields(user.Id, request.Name, request.Age, request.DateOfBirth)),
                              UpdateFailed, Information(UpdateCompleted, [IntArg(user.Id), IntArg(elapsedMs)]),
                              stub.update(user));
    } else {
      AsCallsProjects(checks);
      assert UpdateSpec(stub, validate, request, elapsedMs).trace == AsCalls(checks);
    }
  }
}
