/** `Analyze` (api/analyze.js): resolve the target to one dump or to the
    `.dmp` entries of a directory, run the debugger and `processResult` on
    each in turn, and collect the records in order. The file system and the
    debugger are supplied by the caller. */
module Analyze {
  import opened Wrappers
  import opened JsString
  import opened JsArray
  import opened Report

  /** What `fs.statSync(target)` finds: it throws, or something other than a
      directory, or a directory with its listing in listing order. */
  datatype TargetKind = Missing | NotDirectory | Directory(entries: seq<string>)

  /** The environment `Analyze` runs in: `path.resolve(target)`,
      `path.resolve(target, file)` and `processDmpObject`, the debugger run
      that resolves with the debugger's standard output. */
  datatype Host = Host(
    resolve: string -> string,
    resolveIn: (string, string) -> string,
    debugger: string -> string)

  /** Why `Analyze` rejects. */
  datatype AnalyzeError =
    | StatFailed                    // `fs.statSync` threw, e.g. the target does not exist
    | ParseFailed(cause: ParseError) // `processResult` threw for one of the dumps

  /** The directory filter: names ending in ".dmp", case-sensitively. */
  predicate IsDumpName(name: string) {
    EndsWith(name, ".dmp")
  }

  /** The directory entries that are analysed, in listing order. */
  function DumpFiles(entries: seq<string>): seq<string> {
    Filter(entries, IsDumpName)
  }

  /** The paths handed to the debugger, in the order they are handed. */
  function DumpPaths(target: string, kind: TargetKind, host: Host): seq<string>
    requires !kind.Missing?
  {
    if kind.Directory? then
      var files := DumpFiles(kind.entries);
      seq(|files|, i requires 0 <= i < |files| => host.resolveIn(target, files[i]))
    else
      [host.resolve(target)]
  }

  /** The dump entries of a listing are exactly its ".dmp" names, in listing
      order: filtering two listings one after the other is filtering their
      concatenation. */
  lemma DumpFilesSelection(a: seq<string>, b: seq<string>)
    ensures forall k :: 0 <= k < |DumpFiles(a)| ==> DumpFiles(a)[k] in a && IsDumpName(DumpFiles(a)[k])
    ensures forall k :: 0 <= k < |a| && IsDumpName(a[k]) ==> a[k] in DumpFiles(a)
    ensures DumpFiles(a + b) == DumpFiles(a) + DumpFiles(b)
  {
    FilterAppend(a, b, IsDumpName);
  }

  /** The `for ... await` loop: run `step` on each path in turn, stopping at
      the first failure. `invoked` lists the paths `step` was run on. */
  method RunInOrder<R, E>(paths: seq<string>, step: string -> Result<R, E>)
    returns (invoked: seq<string>, r: Result<seq<R>, E>)
    ensures r.Success? <==> forall i :: 0 <= i < |paths| ==> step(paths[i]).Success?
    ensures r.Success? ==>
      && invoked == paths
      && |r.value| == |paths|
      && forall i :: 0 <= i < |paths| ==> step(paths[i]) == Success(r.value[i])
    ensures r.Failure? ==>
      && 1 <= |invoked| <= |paths|
      && invoked == paths[..|invoked|]
      && (forall i :: 0 <= i < |invoked| - 1 ==> step(paths[i]).Success?)
      && step(invoked[|invoked| - 1]) == Failure(r.error)
  {
    var results: seq<R> := [];
    invoked := [];
    var i := 0;
    while i < |paths|
      invariant 0 <= i <= |paths|
      invariant invoked == paths[..i]
      invariant |results| == i
      invariant forall k :: 0 <= k < i ==> step(paths[k]) == Success(results[k])
    {
      assert paths[..i + 1] == paths[..i] + [paths[i]];
      invoked := invoked + [paths[i]];
      var outcome := step(paths[i]);
      if outcome.Failure? {
        return invoked, Failure(outcome.error);
      }
      results := results + [outcome.value];
      i := i + 1;
    }
    return invoked, Success(results);
  }

  /** One dump: run the debugger on it, then `processResult` on the output. */
  function ProcessDump(host: Host, path: string): (r: Result<Report, AnalyzeError>)
    ensures r.Success? <==> Parse(host.debugger(path)).Success?
    ensures r.Success? ==> Parse(host.debugger(path)) == Success(r.value)
    ensures r.Failure? ==> r.error == ParseFailed(Parse(host.debugger(path)).error)
  {
    match Parse(host.debugger(path))
    case Success(report) => Success(report)
    case Failure(e) => Failure(ParseFailed(e))
  }

  /** The outcome of running the debugger on `paths` one after another. On
      success `invoked` is all of `paths` and there is one record per path,
      each the parse of that path's debugger output; on failure the
      debugger ran on a prefix of `paths`, every run but the last parsed,
      and the last one failed with the error returned. */
  predicate DumpsRan(host: Host, paths: seq<string>, invoked: seq<string>, r: Result<seq<Report>, AnalyzeError>) {
    && (r.Success? <==> forall i :: 0 <= i < |paths| ==> ProcessDump(host, paths[i]).Success?)
    && (r.Success? ==>
          && invoked == paths
          && |r.value| == |paths|
          && forall i :: 0 <= i < |paths| ==> ProcessDump(host, paths[i]) == Success(r.value[i]))
    && (r.Failure? ==>
          && 1 <= |invoked| <= |paths|
          && invoked == paths[..|invoked|]
          && (forall i :: 0 <= i < |invoked| - 1 ==> ProcessDump(host, paths[i]).Success?)
          && ProcessDump(host, invoked[|invoked| - 1]) == Failure(r.error))
  }

  /** `Analyze(target)`. `invoked` lists the paths the debugger was run on,
      in order. A missing target fails before any debugger run; a single
      file yields one record. Otherwise the dumps are processed one after
      another as `DumpsRan` describes: the first dump whose output does not
      parse ends the run with that error, after which no further dump is
      run and no records are returned. */
  method Analyze(target: string, kind: TargetKind, host: Host)
    returns (invoked: seq<string>, r: Result<seq<Report>, AnalyzeError>)
    ensures kind.Missing? ==> invoked == [] && r == Failure(StatFailed)
    ensures kind.NotDirectory? && r.Success? ==> |r.value| == 1
    ensures !kind.Missing? ==> DumpsRan(host, DumpPaths(target, kind, host), invoked, r)
  {
    if kind.Missing? {
      return [], Failure(StatFailed);
    }
    var paths := DumpPaths(target, kind, host);
    var step := p => ProcessDump(host, p);
    invoked, r := RunInOrder(paths, step);
    RunOfDumps(host, paths, step, invoked, r);
  }

  /** What `RunInOrder` promises about `step`, restated for the step that
      processes one dump. */
  lemma RunOfDumps(host: Host, paths: seq<string>, step: string -> Result<Report, AnalyzeError>,
                   invoked: seq<string>, r: Result<seq<Report>, AnalyzeError>)
    requires forall p :: step(p) == ProcessDump(host, p)
    requires r.Success? <==> forall i :: 0 <= i < |paths| ==> step(paths[i]).Success?
    requires r.Success? ==>
      && invoked == paths
      && |r.value| == |paths|
      && forall i :: 0 <= i < |paths| ==> step(paths[i]) == Success(r.value[i])
    requires r.Failure? ==>
      && 1 <= |invoked| <= |paths|
      && invoked == paths[..|invoked|]
      && (forall i :: 0 <= i < |invoked| - 1 ==> step(paths[i]).Success?)
      && step(invoked[|invoked| - 1]) == Failure(r.error)
    ensures DumpsRan(host, paths, invoked, r)
    ensures r.Success? ==> |r.value| == |paths|
  {
  }
}
