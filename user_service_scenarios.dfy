/**
 * Clients of the service that replay scenarios of the unit tests: each builds a scripted
 * repository and a logger over a fresh journal, runs one operation, and derives what the test
 * observes from the operations' contracts alone.
 */
module ServiceScenarios {
  import opened Outcomes
  import opened Users
  import opened Logging
  import opened Repository
  import opened Ports
  import opened Services

  /** A service over a scripted repository and a logger sharing a fresh journal; validation rejects nothing. */
  method NewService(stub: RepositoryStub) returns (service: UserService)
    ensures fresh(service) && fresh(service.journal) && service.Valid()
    ensures service.userRepository.stub == stub && service.journal.events == []
    ensures forall c :: service.createUserDtoValidator(c) == []
    ensures forall u :: service.updateUserDtoValidator(u) == []
  {
    var journal := new Journal();
    var repository := new UserRepository(stub, journal);
    var logger := new LoggerAdapter(journal);
    service := new UserService(repository, logger, _ => [], _ => []);
  }

  /** Listing an empty store returns an empty list, logging start and completion around the call. */
  method GetAllOnEmptyStore()
  {
    var stub := RepositoryStub(map[], _ => None, Returned([]), _ => Returned(false),
                               _ => Returned(true), _ => Returned(true), _ => Returned(true));
    var service := NewService(stub);
    var r := service.GetAllAsync();
    assert r == Ok([]);
    assert service.journal.events
        == [Logged(Information(GetAllStarted, [])), Called(GetAllCall), Logged(Information(GetAllCompleted, []))];
  }

  /** A fault of the listing is logged with the fixed message and rethrown. */
  method GetAllWhenRepositoryThrows()
  {
    var boom := Fault("ArgumentException", "An error occurred while getting all users");
    var stub := RepositoryStub(map[], _ => None, Threw(boom), _ => Returned(false),
                               _ => Returned(true), _ => Returned(true), _ => Returned(true));
    var service := NewService(stub);
    var r := service.GetAllAsync();
    assert r == RepositoryFault(boom);
    assert service.journal.events[2] == Logged(Error(boom, GetAllFailed, []));
  }

  /** A request whose name is taken is rejected; the repository's create is never called. */
  method CreateWithTakenName()
  {
    var stub := RepositoryStub(map[], _ => None, Returned([]), _ => Returned(true),
                               _ => Returned(true), _ => Returned(true), _ => Returned(true));
    var service := NewService(stub);
    var r := service.CreateAsync(CreateUserDto("Alice", 30, Date(1994, 6, 4)), 5);
    assert r == ArgumentError("Name is already exist");
    assert service.journal.events == [Called(NameIsExistsCall("Alice"))];
  }

  /** A valid request with a free name returns what the repository's create returns. */
  method CreateValidAndUnique()
  {
    var stub := RepositoryStub(map[], _ => None, Returned([]), _ => Returned(false),
                               _ => Returned(true), _ => Returned(true), _ => Returned(true));
    var service := NewService(stub);
    var r := service.CreateAsync(CreateUserDto("Alice", 30, Date(1994, 6, 4)), 5);
    assert r == Ok(true);
    assert |service.journal.events| == 4;
    assert service.journal.events[1] == Logged(Information(CreateStarted, [StringArg("Alice")]));
    assert service.journal.events[2].call.sent == UserFields(0, "Alice", 30, Date(1994, 6, 4));
  }

  /** Deleting an id the store lacks fails with "User not found" and calls nothing else. */
  method DeleteUnknownId()
  {
    var stub := RepositoryStub(map[], _ => None, Returned([]), _ => Returned(false),
                               _ => Returned(true), _ => Returned(true), _ => Returned(true));
    var service := NewService(stub);
    var r := service.DeleteByIdAsync(1, 5);
    assert r == ArgumentError("User not found");
    assert service.journal.events == [Called(GetByIdCall(1))];
  }

  /** Deleting a stored user hands that very object to the repository once and logs its id twice. */
  method DeleteStoredUser()
  {
    var user := new User("Alice", 30, Date(1994, 6, 4));
    user.Id := 1;
    var stub := RepositoryStub(map[1 := user], _ => None, Returned([]), _ => Returned(false),
                               _ => Returned(true), _ => Returned(true), _ => Returned(true));
    var service := NewService(stub);
    var r := service.DeleteByIdAsync(1, 5);
    assert r == Ok(true);
    assert service.journal.events
        == [Called(GetByIdCall(1)), Logged(Information(DeleteStarted, [IntArg(1)])), Called(DeleteCall(user)),
            Logged(Information(DeleteCompleted, [IntArg(1), IntArg(5)]))];
  }

  /**
   * An update whose repository call throws still leaves the caller's user object overwritten:
   * the change is made in place before the call and is not rolled back.
   */
  method UpdateWhenRepositoryThrows()
  {
    var user := new User("Alice", 30, Date(1994, 6, 4));
    user.Id := 1;
    var boom := Fault("ArgumentException", "An error occurred while updating user");
    var stub := RepositoryStub(map[1 := user], _ => None, Returned([]), _ => Returned(false),
                               _ => Returned(true), _ => Returned(true), _ => Threw(boom));
    var service := NewService(stub);
    var request := UpdateUserDto(1, "Bob", 31, Date(1993, 4, 5));
    var r, _ := service.UpdateAsync(request, 5);
    assert r == RepositoryFault(boom);
    assert service.journal.events
        == [Called(GetByIdCall(1)), Called(NameIsExistsCall("Bob")),
            Logged(Information(UpdateStarted, [StringArg("Bob")])),
            Called(UpdateCall(user, UserFields(1, "Bob", 31, Date(1993, 4, 5)))),
            Logged(Error(boom, UpdateFailed, [])),
            Logged(Information(UpdateCompleted, [IntArg(1), IntArg(5)]))];
    assert user.Id == 1 && user.Name == "Bob" && user.Age == 31;
  }
}
