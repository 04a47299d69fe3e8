/** `postProcessResults` (api/post-process.js): for each record, look its
    bugcheck code up in a fixed table of command builders, run the command
    and store what came of it in the record's `post` field. The table is not
    consulted by `Analyze`, whose records carry no bugcheck code. */
module PostProcess {
  import opened Wrappers
  import opened JsArray
  import Generators

  /** The `post` field: not yet set, `null`, or a string. */
  datatype Post = Unset | Null | Text(text: string)

  /** A record as the loop sees it: the fields it leaves alone, the
      `bugcheck` and `args` it reads (`None` for `undefined`), and `post`. */
  datatype Entry<T> = Entry(fields: T, bugcheck: Option<string>, args: Option<seq<string>>, post: Post)

  /** What `exec` reports to its callback. */
  datatype ExecOutcome = ExecError(message: string) | Completed(stdout: string, stderr: string)

  /** The entries of `bugcheckCommands`. */
  datatype Generator = Devstack9f | Devstack7E

  /** The loop's one way to throw: a record with a table entry but with
      `args` undefined, whose command builder then reads a property of
      `undefined`. */
  datatype PostError = ArgsUndefined

  /** `bugcheckCommands[result.bugcheck]`: an exact, case-sensitive match on
      the two keys "9f" and "7E". */
  function Lookup(bugcheck: Option<string>): (g: Option<Generator>)
    ensures g.Some? <==> bugcheck == Some("9f") || bugcheck == Some("7E")
    ensures g == Some(Devstack9f) <==> bugcheck == Some("9f")
    ensures g == Some(Devstack7E) <==> bugcheck == Some("7E")
  {
    if bugcheck == Some("9f") then Some(Devstack9f)
    else if bugcheck == Some("7E") then Some(Devstack7E)
    else None
  }

  /** `${args[i]}`: the element, or "undefined" past the end. */
  function ArgText(args: seq<string>, i: nat): string {
    if i < |args| then args[i] else "undefined"
  }

  /** The index of the argument a generator passes to `!devstack`. */
  function ArgIndex(g: Generator): nat {
    match g
    case Devstack9f => 1
    case Devstack7E => 0
  }

  /** `commandGenerator(result.args)`. */
  function BuildCommand(g: Generator, args: Option<seq<string>>): (r: Result<string, PostError>)
    ensures r.Failure? <==> args.None?
    ensures r.Success? ==> r.value == "!devstack " + ArgText(args.value, ArgIndex(g))
  {
    match args
    case None => Failure(ArgsUndefined)
    case Some(a) =>
      match g
      case Devstack9f => Success("!devstack " + ArgText(a, 1))
      case Devstack7E => Success("!devstack " + ArgText(a, 0))
  }

  /** `executeCommand`: rejects with "Error: " and the message when `exec`
      fails; otherwise resolves with "Warnings: " and the error stream when
      that is non-empty, else with the standard output. */
  function ExecuteCommand(o: ExecOutcome): (r: Result<string, string>)
    ensures r.Failure? <==> o.ExecError?
    ensures o.ExecError? ==> r.error == "Error: " + o.message
    ensures o.Completed? && o.stderr != "" ==> r.value == "Warnings: " + o.stderr
    ensures o.Completed? && o.stderr == "" ==> r.value == o.stdout
  {
    match o
    case ExecError(message) => Failure("Error: " + message)
    case Completed(stdout, stderr) =>
      if stderr != "" then Success("Warnings: " + stderr) else Success(stdout)
  }

  /** The table has an entry for this record. */
  predicate HasGenerator<T>(e: Entry<T>) {
    Lookup(e.bugcheck).Some?
  }

  /** The command run for a record with a table entry and defined `args`. */
  function CommandFor<T>(e: Entry<T>): string
    requires HasGenerator(e) && e.args.Some?
  {
    BuildCommand(Lookup(e.bugcheck).value, e.args).value
  }

  /** The value one iteration stores in `post`, given the `exec` outcome of
      each command; a rejected command's message is caught and stored too. */
  function PostFor<T>(e: Entry<T>, exec: string -> ExecOutcome): (r: Result<Post, PostError>)
    ensures r.Failure? <==> HasGenerator(e) && e.args.None?
    ensures r.Success? ==> r.value != Unset
    ensures !HasGenerator(e) ==> r == Success(Null)
    ensures HasGenerator(e) && e.args.Some? ==>
      var o := exec(CommandFor(e));
      && (o.ExecError? ==> r == Success(Text("Error: " + o.message)))
      && (o.Completed? && o.stderr != "" ==> r == Success(Text("Warnings: " + o.stderr)))
      && (o.Completed? && o.stderr == "" ==> r == Success(Text(o.stdout)))
  {
    match Lookup(e.bugcheck)
    case None => Success(Null)
    case Some(g) =>
      match BuildCommand(g, e.args)
      case Failure(err) => Failure(err)
      case Success(command) =>
        match ExecuteCommand(exec(command))
        case Success(output) => Success(Text(output))
        case Failure(message) => Success(Text(message))
  }

  /** A record whose table entry, if any, builds a command without
      throwing. */
  predicate CommandDefined<T>(e: Entry<T>) {
    HasGenerator(e) ==> e.args.Some?
  }

  predicate CommandsDefined<T>(xs: seq<Entry<T>>) {
    forall k :: 0 <= k < |xs| ==> CommandDefined(xs[k])
  }

  /** The command one record runs: one for a record with a table entry,
      none otherwise. */
  function CommandOf<T>(e: Entry<T>): seq<string>
    requires CommandDefined(e)
  {
    if HasGenerator(e) then [CommandFor(e)] else []
  }

  /** The commands run for a list of records, in record order. */
  function CommandsRun<T>(xs: seq<Entry<T>>): seq<string>
    requires CommandsDefined(xs)
  {
    if |xs| == 0 then [] else CommandOf(xs[0]) + CommandsRun(xs[1..])
  }

  /** The commands of a list extended by one record. */
  lemma {:induction false} CommandsRunAppend<T>(xs: seq<Entry<T>>, e: Entry<T>)
    requires CommandsDefined(xs) && CommandDefined(e)
    ensures CommandsDefined(xs + [e])
    ensures CommandsRun(xs + [e]) == CommandsRun(xs) + CommandOf(e)
    decreases |xs|
  {
    var ys := xs + [e];
    assert forall k :: 0 <= k < |xs| ==> ys[k] == xs[k];
    assert ys[|xs|] == e;
    if |xs| == 0 {
      assert ys == [e];
    } else {
      assert ys[1..] == xs[1..] + [e];
      CommandsRunAppend(xs[1..], e);
    }
  }

  /** One command runs per record with a table entry. */
  lemma {:induction false} CommandsRunCount<T>(xs: seq<Entry<T>>)
    requires CommandsDefined(xs)
    ensures |CommandsRun(xs)| == |Filter(xs, HasGenerator)|
    decreases |xs|
  {
    if |xs| > 0 {
      assert xs == [xs[0]] + xs[1..];
      FilterAppend([xs[0]], xs[1..], HasGenerator);
      CommandsRunCount(xs[1..]);
    }
  }

  /** `postProcessResults(results)`, run on an array the caller keeps. `out`
      is that array afterwards, `executed` the commands run, in order. The
      loop visits the records in order and sets only `post`; a command that
      fails never stops it, but a record with a table entry and undefined
      `args` throws before its command runs, leaving that record and all
      later ones as they were. */
  method PostProcessResults<T>(results: seq<Entry<T>>, exec: string -> ExecOutcome)
    returns (out: seq<Entry<T>>, executed: seq<string>, failure: Option<PostError>)
    ensures |out| == |results|
    ensures forall i :: 0 <= i < |out| && i < |results| ==>
      out[i] == results[i].(post := out[i].post)
    ensures failure.None? <==> forall i :: 0 <= i < |results| ==> PostFor(results[i], exec).Success?
    ensures failure.None? ==> CommandsDefined(results) && executed == CommandsRun(results)
    ensures failure.None? ==>
      forall i :: 0 <= i < |out| && i < |results| ==>
        PostFor(results[i], exec).Success? && out[i].post == PostFor(results[i], exec).value
    ensures failure.Some? ==>
      exists k :: 0 <= k < |results| && k <= |out|
        && PostFor(results[k], exec).Failure?
        && (forall i :: 0 <= i < k ==>
              PostFor(results[i], exec).Success? && out[i].post == PostFor(results[i], exec).value)
        && CommandsDefined(results[..k])
        && executed == CommandsRun(results[..k])
        && (forall i :: k <= i < |out| && i < |results| ==> out[i] == results[i])
  {
    out := results;
    executed := [];
    var i := 0;
    while i < |results|
      invariant 0 <= i <= |results|
      invariant |out| == |results|
      invariant forall j :: 0 <= j < |out| ==> out[j] == results[j].(post := out[j].post)
      invariant forall j :: 0 <= j < i ==> PostFor(results[j], exec).Success?
      invariant forall j :: 0 <= j < i ==> out[j].post == PostFor(results[j], exec).value
      invariant forall j :: i <= j < |out| ==> out[j] == results[j]
      invariant CommandsDefined(results[..i])
      invariant executed == CommandsRun(results[..i])
    {
      var e := results[i];
      var post := PostFor(e, exec);
      if post.Failure? {
        failure := Some(post.error);
        return;
      }
      assert results[..i + 1] == results[..i] + [e];
      CommandsRunAppend(results[..i], e);
      if HasGenerator(e) {
        executed := executed + [CommandFor(e)];
      }
      out := out[i := e.(post := post.value)];
      i := i + 1;
    }
    assert results[..i] == results;
    failure := None;
  }

  /** The key decides which argument reaches `!devstack`: "9f" passes
      `args[1]` and "7E" passes `args[0]`, each "undefined" past the end. */
  lemma KeyedCommand<T>(e: Entry<T>)
    requires e.args.Some?
    ensures e.bugcheck == Some("9f") ==> HasGenerator(e) && CommandFor(e) == "!devstack " + ArgText(e.args.value, 1)
    ensures e.bugcheck == Some("7E") ==> HasGenerator(e) && CommandFor(e) == "!devstack " + ArgText(e.args.value, 0)
  {
  }

  /** The records `Analyze` produces carry no bugcheck code, so were they
      handed to the loop, each would get `post` null and no command would
      run. */
  lemma UnclassifiedRecordsGetNull<T>(e: Entry<T>, exec: string -> ExecOutcome)
    requires e.bugcheck.None?
    ensures !HasGenerator(e)
    ensures PostFor(e, exec) == Success(Null)
  {
  }

  /** A command with warnings reports them in place of its output, whatever
      that output was. */
  lemma ExecOutcomeClassification(o1: ExecOutcome, o2: ExecOutcome)
    requires o1.Completed? && o2.Completed?
    requires o1.stderr == o2.stderr && o1.stderr != ""
    ensures ExecuteCommand(o1) == ExecuteCommand(o2) == Success("Warnings: " + o1.stderr)
  {
  }

  /** The table's "9f" entry reads `args[1]` unguarded, so a one-argument
      record gets the command "!devstack undefined"; the generator in 9f.js
      falls back to an empty argument instead. */
  lemma TableAndGeneratorDisagreeOnShortArgs(x: string)
    ensures BuildCommand(Devstack9f, Some([x])) == Success("!devstack undefined")
    ensures Generators.DevstackArgument(Some([x])) == ""
  {
    assert ArgText([x], 1) == "undefined";
    assert BuildCommand(Devstack9f, Some([x])) == Success("!devstack " + ArgText([x], 1));
    assert "!devstack " + "undefined" == "!devstack undefined";
  }
}
