# User service model

A Dafny model of `UserService`, the orchestration layer of the RealWorld Web API. It is the only
part of the repository with decision logic. Its four operations differ in the steps before
their one repository call:
- `GetAllAsync` takes no request and makes no check. It goes straight to its call, the query
  `GetAllAsync`.
- `CreateAsync` validates the request, checks that the name is free, and builds a `User` from
  the request.
- `DeleteByIdAsync` validates nothing and builds no user. It only looks the id up, and rejects
  an id that is not there.
- `UpdateAsync` looks the id up, validates the request, checks the name only when it changes,
  and overwrites the found `User` in place.

All four end in one repository call: the query for `GetAllAsync`, and a mutator (create,
delete or update) for the others. That call sits inside a bracket that logs "started", then
"error" if the call throws (the fault is rethrown), then "completed" in all cases.

Layout:

- `outcomes.dfy` (`Outcomes`) holds `Fault` (an exception), `Outcome` (a collaborator call
  either returns or throws) and `ServiceResult` (what an operation hands its caller: a value, a
  `ValidationException`, an `ArgumentException`, or a repository fault rethrown unchanged).
- `users.dfy` (`Users`) holds `User`, a class whose fields the service overwrites in place, and
  the two request records, `CreateUserDto` and `UpdateUserDto`. It also holds `UserFields`, the
  field values of a user at one moment.
- `logging.dfy` (`Logging`) has three parts:
  - log entries, kept unrendered as a template plus its arguments;
  - `Instrumented`, the log that the try/catch/finally bracket writes;
  - `Bracketed`, an independent characterisation of that log by counting entries.
- `repository.dfy` (`Repository`) describes the repository port as data:
  - `RepoCall` is one call with its argument. A create or update call also records the field
    values the user object held when it was handed over.
  - `RepositoryStub` scripts every answer. `GetByIdAsync` answers from a store
    `users: map<int, User>` unless a fault is scripted for that id. The other answers are
    scripted outright.
- `ports.dfy` (`Ports`) holds the two collaborators, `LoggerAdapter` and `UserRepository`. Both
  write into one shared `Journal`, so the order between log entries and repository calls is
  kept.
  - `Calls` and `Entries` split a journal trace by collaborator.
  - `BracketTrace` is the trace of the try/catch/finally bracket around one repository call.
  - `LoggedAround` states its order: the start entry immediately before the call, only log entries
    after it, and the completion entry last.
- `strings.dfy` (`Strings`) holds `string.Join`, which builds the validation report. It also
  holds `IndexOf` and `Split`, and the lemma that splitting undoes joining.
- `user_service.dfy` (`Services`) holds the service class. Each method's contract ties the
  method to a pure effect function of the repository's answers (`GetAllSpec`, `CreatePrecheck`
  and `CreateMutation`, `DeleteSpec`, `UpdateSpec`). The effect is the result plus the trace of
  events the collaborators received, in order.
- `user_service_properties.dfy` (`ServiceProperties`) proves the promised behaviour of those
  effect functions for every stub and every validator.
- `user_service_scenarios.dfy` (`ServiceScenarios`) replays scenarios of the unit tests as
  client methods. Each derives its outcome from the method contracts alone.

Inputs that the model turns into parameters:
- The validators' rules: the service holds each validator as a function from request to
  violation messages.
- The repository's answers: the `RepositoryStub`.
- The stopwatch: `elapsedMs`.

Quirks of the code that the model keeps:

- The update error template is spelled "An error occured while updating user".
- The completion entries of delete and update log the found user object's `Id`, not the
  requested id. The start entry of delete logs the requested id. `DeleteCallsRepositoryOnce`
  states both.
- The update completion template reads "was completed successfully" even when the repository
  call threw.
- The not-found message is "User not found" for delete and "User not found!" for update. The
  duplicate-name message is "Name is already exist".
- The create completion entry carries the mapped user's `Id`. That is 0, the default, because
  the repository port in this model never writes to the user object.

## Model

| member | source | states |
|---|---|---|
| `Services.UserService.GetAllAsync` | UnitTest/2.RealWorld/src/RealWorld.WebAPI/Services/UserService.cs:17-33 | the result and the events appended to the shared journal are exactly `GetAllSpec` of the repository's answer: the start entry, the one repository call, the error entry if the call threw, and the completion entry, in that order |
| `Services.UserService.CreateAsync` | UnitTest/2.RealWorld/src/RealWorld.WebAPI/Services/UserService.cs:35-69 | a rejected request appends exactly the `CreatePrecheck` effect; otherwise a fresh user holding the request's fields with Id 0 is built, and the result and the appended events are `CreateMutation` on that user, in which the create call records the field values the user held when it was handed over |
| `Services.UserService.CreateUserDtoToUserObject` | UnitTest/2.RealWorld/src/RealWorld.WebAPI/Services/UserService.cs:71-79 | returns a new user with the request's Name, Age and DateOfBirth, and Id left at 0 |
| `Services.UserService.DeleteByIdAsync` | UnitTest/2.RealWorld/src/RealWorld.WebAPI/Services/UserService.cs:81-106 | the result and the events appended to the shared journal, in order, are exactly `DeleteSpec` of the pre-state; no user object is changed |
| `Services.UserService.UpdateAsync` | UnitTest/2.RealWorld/src/RealWorld.WebAPI/Services/UserService.cs:108-153 | the result and the events appended to the shared journal, in order, are exactly `UpdateSpec` of the pre-state, in which the update call records the field values the user held when it was handed over; the found user keeps its Id; it carries the request's Name, Age and DateOfBirth if the lookup found it, validation passed and a new name was free, and is unchanged otherwise |
| `Services.UserService.CreateUpdateUserObject` | UnitTest/2.RealWorld/src/RealWorld.WebAPI/Services/UserService.cs:155-160 | overwrites Name, Age and DateOfBirth with the request's in place, keeps Id, changes no other object |
| `Logging.InstrumentedIsBracketed` | UnitTest/2.RealWorld/src/RealWorld.WebAPI/Services/UserService.cs:52-68 | the try/catch/finally bracket writes the start entry first and the completion entry last, each exactly once, and exactly one error entry carrying the call's own fault when and only when the call threw |
| `Strings.SplitJoin` | UnitTest/2.RealWorld/src/RealWorld.WebAPI/Services/UserService.cs:41 | a report joined from messages that lack the separator's first character splits back into exactly those messages, in order |
| `Ports.BracketTraceShape` | UnitTest/2.RealWorld/src/RealWorld.WebAPI/Services/UserService.cs:52-68 | after its checks, the try/catch/finally bracket around a repository call makes that call last, logs the start entry immediately before it and first, logs only entries after it and the completion entry last, and its log is the one `Instrumented` describes |
| `ServiceProperties.GetAllReturnsRepositoryList` | UnitTest/2.RealWorld/src/RealWorld.WebAPI/Services/UserService.cs:19-22 | a list returned by the repository is returned unchanged; the trace is exactly "Get all users", the one call, "Get all users completed" |
| `ServiceProperties.GetAllIsBracketed` | UnitTest/2.RealWorld/src/RealWorld.WebAPI/Services/UserService.cs:19-32 | the one repository call is the list call; "Get all users" is logged immediately before it and "Get all users completed" last, each exactly once, whether the call returned or threw; only log entries follow the call |
| `ServiceProperties.GetAllRethrows` | UnitTest/2.RealWorld/src/RealWorld.WebAPI/Services/UserService.cs:24-28 | a repository fault is rethrown unchanged; the trace is the start entry, the call, one error entry carrying that fault and "An error occurred while getting all users", and the completion entry |
| `ServiceProperties.CreateRejectsInvalid` | UnitTest/2.RealWorld/src/RealWorld.WebAPI/Services/UserService.cs:37-42 | any violation gives a ValidationError whose message is the violations joined with ", ", with no repository call and no log entry |
| `ServiceProperties.CreateReportListsViolations` | UnitTest/2.RealWorld/src/RealWorld.WebAPI/Services/UserService.cs:41 | the create report splits at ", " back into the violations, in order, when no message holds a comma |
| `ServiceProperties.CreateRejectsTakenName` | UnitTest/2.RealWorld/src/RealWorld.WebAPI/Services/UserService.cs:44-48 | a valid request with a taken name gives ArgumentError "Name is already exist"; the trace is the one name check, with no create call and no log entry |
| `ServiceProperties.CreateNameCheckFaultIsNotLogged` | UnitTest/2.RealWorld/src/RealWorld.WebAPI/Services/UserService.cs:44 | a fault of the name check, which sits outside the try, is rethrown with no log entry and no create call |
| `ServiceProperties.CreateProceedsIff` | UnitTest/2.RealWorld/src/RealWorld.WebAPI/Services/UserService.cs:37-50 | the user is built and handed on if and only if validation reports nothing and the name check returns false |
| `ServiceProperties.CreateMutationIsBracketed` | UnitTest/2.RealWorld/src/RealWorld.WebAPI/Services/UserService.cs:50-68 | past the checks, the calls are the name check and then create, on the mapped user holding the request's Name, Age, DateOfBirth and Id 0; its boolean is returned or its fault rethrown; the start entry, with the requested name, is logged immediately before create and first; the completion entry, with Id 0 and the elapsed milliseconds, is last; the log is well bracketed |
| `ServiceProperties.DeleteRejectsUnknownId` | UnitTest/2.RealWorld/src/RealWorld.WebAPI/Services/UserService.cs:83-87 | an id the store lacks gives ArgumentError "User not found" after the lookup alone, with no delete call and no log entry |
| `ServiceProperties.DeleteLookupFaultIsNotLogged` | UnitTest/2.RealWorld/src/RealWorld.WebAPI/Services/UserService.cs:83 | a fault of the lookup, which sits outside the try, is rethrown with no log entry |
| `ServiceProperties.DeleteCallsRepositoryOnce` | UnitTest/2.RealWorld/src/RealWorld.WebAPI/Services/UserService.cs:89-105 | for a found user, the calls are the lookup and then delete on that object; its boolean is returned or its fault rethrown; the start entry, with the requested id, is logged immediately before delete and first; the completion entry, with the found user's Id and the elapsed milliseconds, is last; the log is well bracketed |
| `ServiceProperties.UpdateRejectsUnknownIdFirst` | UnitTest/2.RealWorld/src/RealWorld.WebAPI/Services/UserService.cs:110-115 | an id the store lacks gives ArgumentError "User not found!" whatever the request's other fields and whatever the validator says, with no other call and no log entry |
| `ServiceProperties.UpdateLookupFaultIsNotLogged` | UnitTest/2.RealWorld/src/RealWorld.WebAPI/Services/UserService.cs:110 | a fault of the lookup is rethrown before validation, with no log entry |
| `ServiceProperties.UpdateRejectsInvalid` | UnitTest/2.RealWorld/src/RealWorld.WebAPI/Services/UserService.cs:117-122 | for a found user, any violation gives a ValidationError with the messages joined by newlines, after the lookup alone |
| `ServiceProperties.UpdateReportListsViolations` | UnitTest/2.RealWorld/src/RealWorld.WebAPI/Services/UserService.cs:121 | the update report splits at newlines back into the violations, in order, when no message holds a newline |
| `ServiceProperties.UpdateChecksNameOnlyWhenRenamed` | UnitTest/2.RealWorld/src/RealWorld.WebAPI/Services/UserService.cs:125-132 | the name check is made if and only if the user was found, the request is valid, and the request's name differs from the user's current name |
| `ServiceProperties.UpdateKeepsOwnName` | UnitTest/2.RealWorld/src/RealWorld.WebAPI/Services/UserService.cs:125-141 | a valid request that keeps the user's name goes straight from the lookup to the repository's update, which receives the user holding the request's fields and its own Id, so it is never rejected as a duplicate |
| `ServiceProperties.UpdateRejectsTakenName` | UnitTest/2.RealWorld/src/RealWorld.WebAPI/Services/UserService.cs:125-131 | a new name that is taken gives ArgumentError "Name is already exist", with no update call and no log entry |
| `ServiceProperties.UpdateNameCheckFaultIsNotLogged` | UnitTest/2.RealWorld/src/RealWorld.WebAPI/Services/UserService.cs:125-131 | a fault of update's own name check, which sits outside the try, is rethrown after the lookup and the name check, with no update call and no log entry |
| `ServiceProperties.UpdateMutationIsBracketed` | UnitTest/2.RealWorld/src/RealWorld.WebAPI/Services/UserService.cs:134-152 | an update that logs anything made exactly these calls: the lookup, the name check when renaming, then the repository's update on the found user holding the request's Name, Age, DateOfBirth and its own Id; it returns that call's boolean or rethrows its fault; the start entry, with the new name, is logged immediately before the update and first; the completion entry, with the user's Id, is last; the log is well bracketed; an update that logs nothing never called the repository's update |
| `ServiceProperties.UpdateCallsShape` | UnitTest/2.RealWorld/src/RealWorld.WebAPI/Services/UserService.cs:108-141 | on every path update calls the lookup, then the name check when a valid request renames a found user, then the repository's update exactly when all checks pass; a path that stops at a check logs nothing |
| `ServiceProperties.UpdateOverwritesIff` | UnitTest/2.RealWorld/src/RealWorld.WebAPI/Services/UserService.cs:125-141 | a user object is handed to the repository's update if and only if it is the found user, validation passed and a new name was free: exactly the condition under which `UpdateAsync` overwrites its fields |

## Left out

- Cancellation tokens and `async`/`await`: every repository call is one synchronous step that returns or throws.
- The stopwatch: the elapsed milliseconds are the parameter `elapsedMs`.
- Log rendering: entries keep the template and its arguments; the `{0}`/`{1}` substitution is not modelled.
- The validators' rules (non-empty name, age range, birth date): `CreateUserDtoValidator` and `UpdateUserDtoValidator` are not part of this model. They enter as functions from request to violation messages, fixed when the service is constructed.
- The repository implementation: a store that assigned the Id during `CreateAsync` would put that Id into the create completion entry. The repository port here never writes to user objects, so the entry carries 0.
- Stubbed answers depend on the user argument's reference, not on its field values.
- Exception types: a rethrown repository fault is kept apart from the service's own `ArgumentException`, even when the fault is itself an `ArgumentException`.
- `ref` in `CreateUpdateUserObject`: the method never reassigns the reference, so the model passes the object.
- The unique-name invariant of persisted users: the service only consults the name check. Whether names stay unique depends on the repository, and on the absence of concurrent creates and updates, which the service does not serialise.
- The controller (`UsersController.cs`) and the calculator and assertion samples: transport plumbing and fixtures with no service logic.
