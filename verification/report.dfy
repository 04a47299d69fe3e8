/** `processResult` (api/analyze.js): turns the debugger's free-text report
    into a record by cutting it at fixed literal anchors. */
module Report {
  import opened Wrappers
  import opened JsString
  import opened JsArray

  /** The section rule: a run of 18 dashes. */
  const Rule: string := "------------------"
  /** The heading of the stack-trace section. */
  const StackMarker: string := "STACK_TEXT:"
  /** The heading of the automated analysis section. */
  const AnalysisHeading: string := "Bugcheck Analysis"
  /** The debugger's start-up copyright banner; the header follows it. */
  const CopyrightBanner: string := "Copyright (c) Microsoft Corporation. All rights reserved."
  /** The symbol-loading banner that closes the header. */
  const SymbolsBanner: string := "Loading Kernel Symbols"
  /** The label line dropped from the analysis. */
  const DetailsLabel: string := "Debugging Details:"
  const Newline: string := "\n"

  /** The record `processResult` builds; it never sets a bugcheck code or
      arguments. */
  datatype Report = Report(dmpInfo: string, analysis: string, rawContent: string)

  /** Why `processResult` throws. */
  datatype ParseError =
    | Abnormal
      // the piece count is neither 2 nor 3; the message is
      // "Abnormal file cannot be post-processed"
    | BannerMissing
      // no copyright banner before the analysis heading: the code reads
      // `.split` of an undefined second piece and gets a TypeError
    | AnalysisHeadingMissing
      // no analysis heading in the first piece: same TypeError, one line later

  /** The characters of the anchors the piece count and the header rely on
      keep the anchors from overlapping one another or a line break. */
  lemma AnchorAlphabets()
    ensures |Rule| == 18 && |StackMarker| == 11
    ensures forall c :: c in Rule ==> c !in StackMarker
    ensures forall c :: c in StackMarker ==> c !in Rule
    ensures forall c :: c in Newline ==> c !in Rule && c !in StackMarker
    ensures forall c :: c in Newline ==> c !in AnalysisHeading && c !in DetailsLabel
  {
  }

  /** `pieces.flatMap(p => p.split(sep))`. */
  function FlatSplit(pieces: seq<string>, sep: string): (r: seq<string>)
    requires |sep| > 0
    ensures |pieces| >= 1 ==> |r| >= 1 && r[0] == Split(pieces[0], sep)[0]
  {
    if |pieces| == 0 then []
    else Split(pieces[0], sep) + FlatSplit(pieces[1..], sep)
  }

  /** The pieces whose number decides whether the report is well formed:
      split on the rule, then each piece on the stack marker. */
  function Pieces(raw: string): (r: seq<string>)
    ensures |r| >= 1
  {
    FlatSplit(Split(raw, Rule), StackMarker)
  }

  /** Piece 0, the only piece the fields are read from. */
  function FirstPiece(raw: string): string {
    Pieces(raw)[0]
  }

  /** The text before the first analysis heading in piece 0. */
  function HeaderSection(raw: string): string {
    Split(FirstPiece(raw), AnalysisHeading)[0]
  }

  /** A line survives the analysis filter unless it holds an asterisk or the
      "Debugging Details:" label. */
  predicate KeepLine(line: string) {
    !Contains(line, "*") && !Contains(line, DetailsLabel)
  }

  /** The lines of the analysis section that survive the filter. */
  function KeptLines(section: string): seq<string> {
    Filter(Split(section, Newline), KeepLine)
  }

  /** `processResult(rawContent)`. */
  function Parse(raw: string): (r: Result<Report, ParseError>)
    ensures r.Success? ==> r.value.rawContent == raw
    ensures r.Success? ==> |Pieces(raw)| == 2 || |Pieces(raw)| == 3
  {
    var splits := Pieces(raw);
    if |splits| != 2 && |splits| != 3 then
      Failure(Abnormal)
    else
      var infos := Split(splits[0], AnalysisHeading);
      var dirtyDmpInfo0 := Split(infos[0], CopyrightBanner);
      if |dirtyDmpInfo0| < 2 then
        Failure(BannerMissing)
      else
        var dirtyDmpInfo1 := Split(dirtyDmpInfo0[1], SymbolsBanner);
        var dmpInfo := Trim(dirtyDmpInfo1[0]);
        if |infos| < 2 then
          Failure(AnalysisHeadingMissing)
        else
          var analysis := Trim(Join(KeptLines(infos[1]), Newline));
          Success(Report(dmpInfo, analysis, raw))
  }
}
