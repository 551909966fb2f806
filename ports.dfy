/**
 * The service's two collaborators, the logger and the repository, writing into one journal,
 * so that the order between log entries and repository calls is kept.
 */
module Ports {
  import opened Outcomes
  import opened Users
  import opened Logging
  import opened Repository

  /** One thing the service did on a collaborator. */
  datatype Event = Called(call: RepoCall) | Logged(entry: LogEntry)

  /** The repository calls of a trace, in order. */
  function Calls(trace: seq<Event>): seq<RepoCall>
  {
    if trace == [] then []
    else (if trace[0].Called? then [trace[0].call] else []) + Calls(trace[1..])
  }

  /** The log entries of a trace, in order. */
  function Entries(trace: seq<Event>): seq<LogEntry>
  {
    if trace == [] then []
    else (if trace[0].Logged? then [trace[0].entry] else []) + Entries(trace[1..])
  }

  /** Both projections distribute over concatenation. */
  lemma ProjectionsDistribute(a: seq<Event>, b: seq<Event>)
    ensures Calls(a + b) == Calls(a) + Calls(b)
    ensures Entries(a + b) == Entries(a) + Entries(b)
  {
    CallsDistribute(a, b);
    EntriesDistribute(a, b);
  }

  lemma {:induction false} CallsDistribute(a: seq<Event>, b: seq<Event>)
    ensures Calls(a + b) == Calls(a) + Calls(b)
  {
    if a == [] {
      assert a + b == b;
    } else {
      assert (a + b)[1..] == a[1..] + b;
      CallsDistribute(a[1..], b);
      assert Calls(a + b) == (if a[0].Called? then [a[0].call] else []) + Calls(a[1..] + b);
    }
  }

  lemma {:induction false} EntriesDistribute(a: seq<Event>, b: seq<Event>)
    ensures Entries(a + b) == Entries(a) + Entries(b)
  {
    if a == [] {
      assert a + b == b;
    } else {
      assert (a + b)[1..] == a[1..] + b;
      EntriesDistribute(a[1..], b);
      assert Entries(a + b) == (if a[0].Logged? then [a[0].entry] else []) + Entries(a[1..] + b);
    }
  }

  /** The repository calls `calls`, in order, with nothing logged. */
  function AsCalls(calls: seq<RepoCall>): (trace: seq<Event>)
    ensures |trace| == |calls|
    ensures forall i :: 0 <= i < |calls| ==> trace[i] == Called(calls[i])
  {
    if calls == [] then [] else [Called(calls[0])] + AsCalls(calls[1..])
  }

  /** A trace of calls alone projects back onto those calls and onto no log entry. */
  lemma {:induction false} AsCallsProjects(calls: seq<RepoCall>)
    ensures Calls(AsCalls(calls)) == calls
    ensures Entries(AsCalls(calls)) == []
  {
    if calls != [] {
      ProjectionsDistribute([Called(calls[0])], AsCalls(calls[1..]));
      AsCallsProjects(calls[1..]);
      assert calls == [calls[0]] + calls[1..];
    }
  }

  /**
   * The trace of `checks`, then the logging bracket around the repository call `call`:
   * `log start; try { call } catch { log error; throw; } finally { log completion }`.
   */
  function BracketTrace<T>(checks: seq<RepoCall>, start: LogEntry, call: RepoCall, errorTemplate: string,
                           completion: LogEntry, outcome: Outcome<T>): seq<Event>
  {
    AsCalls(checks) + [Logged(start), Called(call)]
    + (if outcome.Threw? then [Logged(Error(outcome.fault, errorTemplate, []))] else [])
    + [Logged(completion)]
  }

  /**
   * In `trace`, only repository calls come before position `at`; the entry `start` is logged at
   * `at`, right before the call `call`; only log entries follow that call; `completion` is last.
   */
  predicate LoggedAround(trace: seq<Event>, at: nat, start: LogEntry, call: RepoCall, completion: LogEntry)
  {
    at + 2 < |trace|
    && (forall j :: 0 <= j < at ==> trace[j].Called?)
    && trace[at] == Logged(start) && trace[at + 1] == Called(call)
    && (forall j :: at + 1 < j < |trace| ==> trace[j].Logged?)
    && trace[|trace| - 1] == Logged(completion)
  }

  /**
   * The bracket makes `call` the last repository call, logs the start entry just before it and
   * the completion entry last, and its log is well bracketed.
   */
  lemma BracketTraceShape<T>(checks: seq<RepoCall>, start: LogEntry, call: RepoCall, errorTemplate: string,
                             completion: LogEntry, outcome: Outcome<T>)
    requires start.Information? && completion.Information? && start.template != completion.template
    ensures var trace := BracketTrace(checks, start, call, errorTemplate, completion, outcome);
      Calls(trace) == checks + [call]
      && Entries(trace) == Instrumented(start, errorTemplate, completion, outcome)
      && Bracketed(Entries(trace), start.template, errorTemplate, completion.template, outcome)
      && LoggedAround(trace, |checks|, start, call, completion)
  {
    BracketTraceProjections(checks, start, call, errorTemplate, completion, outcome);
    BracketTraceOrder(checks, start, call, errorTemplate, completion, outcome);
    InstrumentedIsBracketed(start, errorTemplate, completion, outcome);
  }

  /** The calls and the log entries of the bracket. */
  lemma BracketTraceProjections<T>(checks: seq<RepoCall>, start: LogEntry, call: RepoCall, errorTemplate: string,
                                   completion: LogEntry, outcome: Outcome<T>)
    ensures var trace := BracketTrace(checks, start, call, errorTemplate, completion, outcome);
      Calls(trace) == checks + [call]
      && Entries(trace) == Instrumented(start, errorTemplate, completion, outcome)
  {
    BracketTraceCalls(checks, start, call, errorTemplate, completion, outcome);
    BracketTraceEntries(checks, start, call, errorTemplate, completion, outcome);
  }

  lemma BracketTraceCalls<T>(checks: seq<RepoCall>, start: LogEntry, call: RepoCall, errorTemplate: string,
                             completion: LogEntry, outcome: Outcome<T>)
    ensures Calls(BracketTrace(checks, start, call, errorTemplate, completion, outcome)) == checks + [call]
  {
    var middle: seq<Event> := if outcome.Threw? then [Logged(Error(outcome.fault, errorTemplate, []))] else [];
    var pair: seq<Event> := [Logged(start), Called(call)];
    var head := AsCalls(checks) + pair;
    assert Calls(pair) == [call] by {
      CallsDistribute([Logged(start)], [Called(call)]);
    }
    assert Calls(head) == checks + [call] by {
      AsCallsProjects(checks);
      CallsDistribute(AsCalls(checks), pair);
    }
    assert Calls(middle) == [];
    CallsDistribute(head, middle);
    CallsDistribute(head + middle, [Logged(completion)]);
  }

  lemma BracketTraceEntries<T>(checks: seq<RepoCall>, start: LogEntry, call: RepoCall, errorTemplate: string,
                               completion: LogEntry, outcome: Outcome<T>)
    ensures Entries(BracketTrace(checks, start, call, errorTemplate, completion, outcome))
            == Instrumented(start, errorTemplate, completion, outcome)
  {
    var middle: seq<Event> := if outcome.Threw? then [Logged(Error(outcome.fault, errorTemplate, []))] else [];
    var pair: seq<Event> := [Logged(start), Called(call)];
    var head := AsCalls(checks) + pair;
    assert Entries(pair) == [start] by {
      EntriesDistribute([Logged(start)], [Called(call)]);
    }
    assert Entries(head) == [start] by {
      AsCallsProjects(checks);
      EntriesDistribute(AsCalls(checks), pair);
    }
    assert Entries(middle) == (if outcome.Threw? then [Error(outcome.fault, errorTemplate, [])] else []);
    EntriesDistribute(head, middle);
    EntriesDistribute(head + middle, [Logged(completion)]);
  }

  /** The order of events in the bracket. */
  lemma BracketTraceOrder<T>(checks: seq<RepoCall>, start: LogEntry, call: RepoCall, errorTemplate: string,
                             completion: LogEntry, outcome: Outcome<T>)
    ensures LoggedAround(BracketTrace(checks, start, call, errorTemplate, completion, outcome), |checks|, start, call, completion)
  {
    var trace := BracketTrace(checks, start, call, errorTemplate, completion, outcome);
    var n := |checks|;
    assert n + 2 < |trace|;
    assert forall j :: 0 <= j < n ==> trace[j] == AsCalls(checks)[j];
    assert trace[n] == Logged(start) && trace[n + 1] == Called(call);
    assert forall j :: n + 1 < j < |trace| ==> trace[j].Logged?;
  }

  /** Appending the bracket's events one at a time after `before` and the calls `checks`. */
  lemma BracketTraceAppended<T>(before: seq<Event>, checks: seq<RepoCall>, start: LogEntry, call: RepoCall,
                                errorTemplate: string, completion: LogEntry, outcome: Outcome<T>)
    ensures before + AsCalls(checks) + [Logged(start)] + [Called(call)]
            + (if outcome.Threw? then [Logged(Error(outcome.fault, errorTemplate, []))] else []) + [Logged(completion)]
            == before + BracketTrace(checks, start, call, errorTemplate, completion, outcome)
  {
  }

  /** Everything the service's collaborators received, in the order they received it. */
  class Journal {
    var events: seq<Event>

    constructor ()
      ensures events == []
    {
      events := [];
    }
  }

  /** The logger port: each log call becomes one journal event. */
  class LoggerAdapter {
    const journal: Journal

    constructor (journal: Journal)
      ensures this.journal == journal
    {
      this.journal := journal;
    }

    method LogInformation(template: string, args: seq<LogArg>)
      modifies journal
      ensures journal.events == old(journal.events) + [Logged(Information(template, args))]
    {
      journal.events := journal.events + [Logged(Information(template, args))];
    }

    method LogError(fault: Fault, template: string, args: seq<LogArg>)
      modifies journal
      ensures journal.events == old(journal.events) + [Logged(Error(fault, template, args))]
    {
      journal.events := journal.events + [Logged(Error(fault, template, args))];
    }
  }

  /**
   * The repository port: each call answers from the script and becomes one journal event.
   * It never writes to a user object.
   */
  class UserRepository {
    const stub: RepositoryStub
    const journal: Journal

    constructor (stub: RepositoryStub, journal: Journal)
      ensures this.stub == stub && this.journal == journal
    {
      this.stub := stub;
      this.journal := journal;
    }

    method GetAllAsync() returns (r: Outcome<seq<User>>)
      modifies journal
      ensures r == stub.getAll
      ensures journal.events == old(journal.events) + [Called(GetAllCall)]
    {
      r := stub.getAll;
      journal.events := journal.events + [Called(GetAllCall)];
    }

    method GetByIdAsync(id: int) returns (r: Outcome<User?>)
      modifies journal
      ensures r == stub.GetById(id)
      ensures journal.events == old(journal.events) + [Called(GetByIdCall(id))]
    {
      r := stub.GetById(id);
      journal.events := journal.events + [Called(GetByIdCall(id))];
    }

    method NameIsExists(name: string) returns (r: Outcome<bool>)
      modifies journal
      ensures r == stub.nameIsExists(name)
      ensures journal.events == old(journal.events) + [Called(NameIsExistsCall(name))]
    {
      r := stub.nameIsExists(name);
      journal.events := journal.events + [Called(NameIsExistsCall(name))];
    }

    method CreateAsync(user: User) returns (r: Outcome<bool>)
      modifies journal
      ensures r == stub.create(user)
      ensures journal.events == old(journal.events) + [Called(CreateCall(user, FieldsOf(user)))]
    {
      r := stub.create(user);
      journal.events := journal.events + [Called(CreateCall(user, FieldsOf(user)))];
    }

    method DeleteAsync(user: User) returns (r: Outcome<bool>)
      modifies journal
      ensures r == stub.delete(user)
      ensures journal.events == old(journal.events) + [Called(DeleteCall(user))]
    {
      r := stub.delete(user);
      journal.events := journal.events + [Called(DeleteCall(user))];
    }

    method UpdateAsync(user: User) returns (r: Outcome<bool>)
      modifies journal
      ensures r == stub.update(user)
      ensures journal.events == old(journal.events) + [Called(UpdateCall(user, FieldsOf(user)))]
    {
      r := stub.update(user);
      journal.events := journal.events + [Called(UpdateCall(user, FieldsOf(user)))];
    }
  }
}
