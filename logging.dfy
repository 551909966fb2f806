/** Log entries, as the logger port (`ILoggerAdapter<UserService>`) receives them, and the shape of the log around a repository call. */
module Logging {
  import opened Outcomes

  /** A value substituted into a message template. */
  datatype LogArg = StringArg(text: string) | IntArg(number: int)

  /** One call on the logger, kept unrendered: the template and its arguments. */
  datatype LogEntry =
    | Information(template: string, args: seq<LogArg>)
    | Error(fault: Fault, template: string, args: seq<LogArg>)

  /** How many information entries of `log` use `template`, whatever their arguments. */
  function InfoCount(log: seq<LogEntry>, template: string): nat
  {
    if log == [] then 0
    else (if log[0].Information? && log[0].template == template then 1 else 0) + InfoCount(log[1..], template)
  }

  /** How many error entries `log` holds. */
  function ErrorCount(log: seq<LogEntry>): nat
  {
    if log == [] then 0
    else (if log[0].Error? then 1 else 0) + ErrorCount(log[1..])
  }

  /** Both counts add up over a concatenation. */
  lemma {:induction false} CountsDistribute(a: seq<LogEntry>, b: seq<LogEntry>, template: string)
    ensures InfoCount(a + b, template) == InfoCount(a, template) + InfoCount(b, template)
    ensures ErrorCount(a + b) == ErrorCount(a) + ErrorCount(b)
  {
    if a == [] {
      assert a + b == b;
    } else {
      assert (a + b)[0] == a[0];
      assert (a + b)[1..] == a[1..] + b;
      CountsDistribute(a[1..], b, template);
    }
  }

  /**
   * The log a `log start; try { call } catch { log error; throw; } finally { log completion }`
   * bracket writes around one call.
   */
  function Instrumented<T>(start: LogEntry, errorTemplate: string, completion: LogEntry, call: Outcome<T>): seq<LogEntry>
  {
    [start] + (if call.Threw? then [Error(call.fault, errorTemplate, [])] else []) + [completion]
  }

  /**
   * A log is well bracketed around `call`: it opens with the start entry and closes with the
   * completion entry, each written exactly once, and holds exactly one error entry, carrying the
   * call's own fault, when and only when the call threw.
   */
  predicate Bracketed<T>(log: seq<LogEntry>, startTemplate: string, errorTemplate: string,
                        completionTemplate: string, call: Outcome<T>)
  {
    |log| == (if call.Threw? then 3 else 2)
    && log[0].Information? && log[0].template == startTemplate
    && log[|log| - 1].Information? && log[|log| - 1].template == completionTemplate
    && InfoCount(log, startTemplate) == 1
    && InfoCount(log, completionTemplate) == 1
    && ErrorCount(log) == (if call.Threw? then 1 else 0)
    && (call.Threw? ==> log[1] == Error(call.fault, errorTemplate, []))
  }

  /** The bracket writes a well-bracketed log, whether the call returned or threw. */
  lemma InstrumentedIsBracketed<T>(start: LogEntry, errorTemplate: string, completion: LogEntry, call: Outcome<T>)
    requires start.Information? && completion.Information? && start.template != completion.template
    ensures Bracketed(Instrumented(start, errorTemplate, completion, call),
                      start.template, errorTemplate, completion.template, call)
  {
    var middle: seq<LogEntry> := if call.Threw? then [Error(call.fault, errorTemplate, [])] else [];
    CountsDistribute([start], middle, start.template);
    CountsDistribute([start] + middle, [completion], start.template);
    CountsDistribute([start], middle, completion.template);
    CountsDistribute([start] + middle, [completion], completion.template);
  }
}
