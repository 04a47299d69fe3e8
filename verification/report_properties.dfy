/** What `processResult` promises. Some of the properties are stated
    against descriptions of the report that do not mention `split`
    (occurrence counts, the first anchor, the first banner); the others
    are stated through the pieces of a `split`. */
module ReportProperties {
  import opened Wrappers
  import opened JsString
  import opened Report

  /** The occurrences of `t` summed over the pieces. */
  function SumCount(pieces: seq<string>, t: string): nat
    requires |t| > 0
  {
    if |pieces| == 0 then 0 else Count(pieces[0], t) + SumCount(pieces[1..], t)
  }

  /** Flat-splitting adds one piece per separator occurrence in each piece. */
  lemma {:induction false} FlatSplitLength(pieces: seq<string>, sep: string)
    requires |sep| > 0
    ensures |FlatSplit(pieces, sep)| == |pieces| + SumCount(pieces, sep)
    decreases |pieces|
  {
    if |pieces| > 0 {
      SplitLength(pieces[0], sep);
      FlatSplitLength(pieces[1..], sep);
    }
  }

  /** Counting over pieces joined by a block that shares no character with
      `t` is counting piece by piece. */
  lemma {:induction false} CountOfJoin(pieces: seq<string>, d: string, t: string)
    requires |d| > 0 && |t| > 0
    requires forall c :: c in d ==> c !in t
    ensures Count(Join(pieces, d), t) == SumCount(pieces, t)
    decreases |pieces|
  {
    if |pieces| == 0 {
      CountNone("", t);
    } else if |pieces| == 1 {
      assert pieces[1..] == [];
    } else {
      CountAcrossBlock(pieces[0], d, Join(pieces[1..], d), t);
      CountOfJoin(pieces[1..], d, t);
    }
  }

  /** The report splits into `1 + D + S` pieces, where `D` and `S` count the
      non-overlapping rules and stack markers in the whole report. */
  lemma PieceCount(raw: string)
    ensures |Pieces(raw)| == 1 + Count(raw, Rule) + Count(raw, StackMarker)
  {
    AnchorAlphabets();
    var byRule := Split(raw, Rule);
    SplitLength(raw, Rule);
    FlatSplitLength(byRule, StackMarker);
    CountOfJoin(byRule, Rule, StackMarker);
    SplitJoin(raw, Rule);
  }

  /** The report is rejected as abnormal exactly when it holds neither one
      nor two anchors (rules and stack markers together). */
  lemma AbnormalIff(raw: string)
    ensures var n := Count(raw, Rule) + Count(raw, StackMarker);
      Parse(raw) == Failure(Abnormal) <==> n != 1 && n != 2
  {
    PieceCount(raw);
  }

  /** An empty report is abnormal. */
  lemma EmptyReportIsAbnormal()
    ensures Parse("") == Failure(Abnormal)
  {
    AbnormalIff("");
    CountNone("", Rule);
    CountNone("", StackMarker);
  }

  /** A rule or a stack marker starts at index `j` of `s`. */
  predicate AnchorAt(s: string, j: int) {
    OccursAt(s, Rule, j) || OccursAt(s, StackMarker, j)
  }

  /** `p` is the text of `s` before its first rule or stack marker. */
  predicate BeforeFirstAnchor(s: string, p: string) {
    && |p| <= |s|
    && p == s[..|p|]
    && (forall j :: 0 <= j < |p| ==> !AnchorAt(s, j))
    && (|p| == |s| || AnchorAt(s, |p|))
  }

  /** At most one text is the text before the first anchor. */
  lemma BeforeFirstAnchorUnique(s: string, p: string, q: string)
    requires BeforeFirstAnchor(s, p) && BeforeFirstAnchor(s, q)
    ensures p == q
  {
  }

  /** Piece 0 is the text of the report before its first rule or stack
      marker (the whole report when there is neither). */
  lemma FirstPieceIsTextBeforeFirstAnchor(raw: string)
    ensures BeforeFirstAnchor(raw, FirstPiece(raw))
  {
    AnchorAlphabets();
    var a := Split(raw, Rule)[0];
    SplitFirstPiece(raw, Rule);
    var p := Split(a, StackMarker)[0];
    SplitFirstPiece(a, StackMarker);
    assert FirstPiece(raw) == p;
    forall j | 0 <= j < |p|
      ensures !AnchorAt(raw, j)
    {
      OccursInFirstPiece(raw, Rule, StackMarker, j);
    }
    if p != a {
      OccursInPrefix(raw, |a|, StackMarker, |p|);
    }
  }

  /** When the report holds an anchor, the first one starts right after
      the text before it. */
  lemma FirstAnchorExists(s: string, p: string)
    requires BeforeFirstAnchor(s, p)
    requires Contains(s, Rule) || Contains(s, StackMarker)
    ensures |p| < |s| && AnchorAt(s, |p|)
  {
    var j: int;
    if Contains(s, Rule) {
      j :| 0 <= j <= |s| - |Rule| && OccursAt(s, Rule, j);
    } else {
      j :| 0 <= j <= |s| - |StackMarker| && OccursAt(s, StackMarker, j);
    }
    assert AnchorAt(s, j) && j < |s|;
  }

  /** The text before an anchor that has occurred stays the text before the
      first anchor whatever is appended. */
  lemma BeforeFirstAnchorExtends(raw: string, p: string, x: string)
    requires BeforeFirstAnchor(raw, p) && |p| < |raw|
    ensures BeforeFirstAnchor(raw + x, p)
  {
    AnchorAlphabets();
    var s := raw + x;
    assert s[..|raw|] == raw;
    if OccursAt(raw, Rule, |p|) {
      OccursInPrefix(s, |raw|, Rule, |p|);
    } else {
      OccursInPrefix(s, |raw|, StackMarker, |p|);
    }
    forall j | 0 <= j < |p|
      ensures !OccursAt(s, Rule, j)
    {
      assert !AnchorAt(raw, j);
      if j + |Rule| <= |raw| {
        OccursInPrefix(s, |raw|, Rule, j);
      } else if OccursAt(raw, StackMarker, |p|) {
        assert s == raw[..|p|] + StackMarker + (raw[|p| + |StackMarker|..] + x);
        NoStraddle(raw[..|p|], StackMarker, raw[|p| + |StackMarker|..] + x, Rule, j);
      }
    }
    forall j | 0 <= j < |p|
      ensures !OccursAt(s, StackMarker, j)
    {
      assert !AnchorAt(raw, j);
      if j + |StackMarker| <= |raw| {
        OccursInPrefix(s, |raw|, StackMarker, j);
      }
    }
  }

  /** Once a rule or stack marker has occurred, appending text changes
      neither piece 0 nor the extracted fields: text after the first anchor
      only matters to the piece count and to `rawContent`. */
  lemma TrailingTextIgnored(raw: string, x: string)
    requires Contains(raw, Rule) || Contains(raw, StackMarker)
    ensures FirstPiece(raw + x) == FirstPiece(raw)
    ensures Parse(raw).Success? && Parse(raw + x).Success? ==>
      && Parse(raw + x).value.dmpInfo == Parse(raw).value.dmpInfo
      && Parse(raw + x).value.analysis == Parse(raw).value.analysis
  {
    var p := FirstPiece(raw);
    FirstPieceIsTextBeforeFirstAnchor(raw);
    FirstPieceIsTextBeforeFirstAnchor(raw + x);
    FirstAnchorExists(raw, p);
    BeforeFirstAnchorExtends(raw, p, x);
    BeforeFirstAnchorUnique(raw + x, p, FirstPiece(raw + x));
  }

  /** How `processResult` ends: the three errors and success, each exactly
      characterised. The banner is looked for first, in the text before the
      first analysis heading; then the heading itself. */
  lemma ParseOutcome(raw: string)
    ensures var n := Count(raw, Rule) + Count(raw, StackMarker);
      && (Parse(raw) == Failure(BannerMissing) <==>
            (n == 1 || n == 2) && !Contains(HeaderSection(raw), CopyrightBanner))
      && (Parse(raw) == Failure(AnalysisHeadingMissing) <==>
            (n == 1 || n == 2) && Contains(HeaderSection(raw), CopyrightBanner)
            && !Contains(FirstPiece(raw), AnalysisHeading))
      && (Parse(raw).Success? <==>
            (n == 1 || n == 2) && Contains(HeaderSection(raw), CopyrightBanner)
            && Contains(FirstPiece(raw), AnalysisHeading))
  {
    PieceCount(raw);
    SplitLength(HeaderSection(raw), CopyrightBanner);
    SplitLength(FirstPiece(raw), AnalysisHeading);
  }

  /** A string with no whitespace at either end, as `trim` leaves it. */
  predicate Trimmed(s: string) {
    s == [] || (!IsWhitespace(s[0]) && !IsWhitespace(s[|s| - 1]))
  }

  /** Piece 0 is an infix of the report holding no rule and no stack marker. */
  lemma FirstPieceFacts(raw: string)
    ensures Contains(raw, FirstPiece(raw))
    ensures !Contains(FirstPiece(raw), Rule) && !Contains(FirstPiece(raw), StackMarker)
  {
    var a := Split(raw, Rule)[0];
    var p := Split(a, StackMarker)[0];
    assert FirstPiece(raw) == p;
    SplitPiece(raw, Rule, 0);
    SplitPiece(a, StackMarker, 0);
    InfixTransitive(raw, a, p);
    InfixAvoids(a, p, Rule);
  }

  /** `dmpInfo` is the trimmed text that follows the first copyright banner
      of the header section, up to the next banner or the first "Loading
      Kernel Symbols", whichever comes first; with no symbols banner there,
      it is all of that text, trimmed. */
  lemma DmpInfoLocation(raw: string)
    ensures Parse(raw).Success? ==>
      var h := HeaderSection(raw);
      && IndexOf(h, CopyrightBanner).Some?
      && var after := Split(h[IndexOf(h, CopyrightBanner).value + |CopyrightBanner|..], CopyrightBanner)[0];
         && Parse(raw).value.dmpInfo == Trim(Split(after, SymbolsBanner)[0])
         && (!Contains(after, SymbolsBanner) ==> Parse(raw).value.dmpInfo == Trim(after))
  {
    if Parse(raw).Success? {
      ParseOutcome(raw);
      SplitSecondPiece(HeaderSection(raw), CopyrightBanner);
    }
  }

  /** The two fields of a successful parse, read off the code's
      intermediate pieces. */
  lemma ParsedFields(raw: string)
    ensures Parse(raw).Success? ==>
      && |Split(HeaderSection(raw), CopyrightBanner)| >= 2
      && |Split(FirstPiece(raw), AnalysisHeading)| >= 2
      && Parse(raw).value.dmpInfo ==
           Trim(Split(Split(HeaderSection(raw), CopyrightBanner)[1], SymbolsBanner)[0])
      && Parse(raw).value.analysis ==
           Trim(Join(KeptLines(Split(FirstPiece(raw), AnalysisHeading)[1]), Newline))
  {
  }

  /** The header text cut out of a piece free of rules and stack markers is
      a trimmed infix of it holding none of the five anchors. */
  lemma HeaderTextShape(p: string)
    requires !Contains(p, Rule) && !Contains(p, StackMarker)
    requires |Split(Split(p, AnalysisHeading)[0], CopyrightBanner)| >= 2
    ensures var d := Trim(Split(Split(Split(p, AnalysisHeading)[0], CopyrightBanner)[1], SymbolsBanner)[0]);
      && Contains(p, d) && Trimmed(d)
      && !Contains(d, Rule) && !Contains(d, StackMarker) && !Contains(d, AnalysisHeading)
      && !Contains(d, CopyrightBanner) && !Contains(d, SymbolsBanner)
  {
    var h := Split(p, AnalysisHeading)[0];
    SplitPiece(p, AnalysisHeading, 0);
    var m := Split(h, CopyrightBanner)[1];
    SplitPiece(h, CopyrightBanner, 1);
    var e := Split(m, SymbolsBanner)[0];
    SplitPiece(m, SymbolsBanner, 0);
    var d := Trim(e);
    InfixTransitive(p, h, m);
    InfixTransitive(p, m, e);
    InfixTransitive(p, e, d);
    InfixAvoids(p, d, Rule);
    InfixAvoids(p, d, StackMarker);
    InfixTransitive(h, m, e);
    InfixTransitive(h, e, d);
    InfixAvoids(h, d, AnalysisHeading);
    InfixTransitive(m, e, d);
    InfixAvoids(m, d, CopyrightBanner);
    InfixAvoids(e, d, SymbolsBanner);
  }

  /** `dmpInfo` is a trimmed infix of the report that holds none of the
      five anchors. */
  lemma DmpInfoShape(raw: string)
    ensures Parse(raw).Success? ==>
      var d := Parse(raw).value.dmpInfo;
      && Contains(raw, d) && Trimmed(d)
      && !Contains(d, Rule) && !Contains(d, StackMarker) && !Contains(d, AnalysisHeading)
      && !Contains(d, CopyrightBanner) && !Contains(d, SymbolsBanner)
  {
    if Parse(raw).Success? {
      ParsedFields(raw);
      FirstPieceFacts(raw);
      HeaderTextShape(FirstPiece(raw));
      InfixTransitive(raw, FirstPiece(raw), Parse(raw).value.dmpInfo);
    }
  }

  /** The kept lines, joined with line breaks, split back into exactly the
      kept lines: every line of the analysis section without an asterisk or
      the details label, in order, and no other. */
  lemma AnalysisLines(section: string)
    ensures var kept := KeptLines(section);
      |kept| >= 1 ==> Split(Join(kept, Newline), Newline) == kept
  {
    var lines := Split(section, Newline);
    var kept := KeptLines(section);
    SplitPiecesAvoidSeparator(section, Newline);
    forall k | 0 <= k < |kept|
      ensures '\n' !in kept[k]
    {
      var i :| 0 <= i < |lines| && lines[i] == kept[k];
      ContainsChar(lines[i], '\n');
    }
    if |kept| >= 1 {
      JoinSplit(kept, '\n');
    }
  }

  /** The kept lines of a section free of `w` are free of `w`. */
  lemma KeptLinesAvoid(section: string, w: string)
    requires !Contains(section, w)
    ensures forall k :: 0 <= k < |KeptLines(section)| ==> !Contains(KeptLines(section)[k], w)
  {
    var lines := Split(section, Newline);
    SplitPiecesAreInfixes(section, Newline);
    forall k | 0 <= k < |KeptLines(section)|
      ensures !Contains(KeptLines(section)[k], w)
    {
      var i :| 0 <= i < |lines| && lines[i] == KeptLines(section)[k];
      InfixAvoids(section, lines[i], w);
    }
  }

  /** The analysis text cut out of a section: trimmed, free of asterisks and
      of the details label, and of every `w` the section is free of that
      holds no line break. */
  lemma AnalysisTextShape(section: string, w: string)
    requires |w| > 0 && '\n' !in w
    requires !Contains(section, w) || w == "*" || w == DetailsLabel
    ensures Trimmed(Trim(Join(KeptLines(section), Newline)))
    ensures !Contains(Trim(Join(KeptLines(section), Newline)), w)
  {
    var kept := KeptLines(section);
    if w == "*" || w == DetailsLabel {
      assert forall k :: 0 <= k < |kept| ==> KeepLine(kept[k]);
    } else {
      KeptLinesAvoid(section, w);
    }
    JoinAvoids(kept, Newline, w);
    InfixAvoids(Join(kept, Newline), Trim(Join(kept, Newline)), w);
  }

  /** The analysis section of a successful parse holds no analysis
      heading, no rule and no stack marker. */
  lemma AnalysisSectionFacts(raw: string)
    ensures Parse(raw).Success? ==>
      && |Split(FirstPiece(raw), AnalysisHeading)| >= 2
      && var section := Split(FirstPiece(raw), AnalysisHeading)[1];
         && Parse(raw).value.analysis == Trim(Join(KeptLines(section), Newline))
         && !Contains(section, AnalysisHeading) && !Contains(section, Rule)
         && !Contains(section, StackMarker)
  {
    if Parse(raw).Success? {
      ParsedFields(raw);
      FirstPieceFacts(raw);
      var p := FirstPiece(raw);
      var section := Split(p, AnalysisHeading)[1];
      SplitPiece(p, AnalysisHeading, 1);
      InfixAvoids(p, section, Rule);
      InfixAvoids(p, section, StackMarker);
    }
  }

  /** `analysis` is trimmed and holds no asterisk, no "Debugging Details:"
      label, no analysis heading, no rule and no stack marker. */
  lemma AnalysisShape(raw: string)
    ensures Parse(raw).Success? ==>
      var a := Parse(raw).value.analysis;
      && Trimmed(a) && !Contains(a, "*") && !Contains(a, DetailsLabel)
      && !Contains(a, AnalysisHeading) && !Contains(a, Rule) && !Contains(a, StackMarker)
  {
    if Parse(raw).Failure? {
      return;
    }
    AnalysisSectionFacts(raw);
    AnchorAlphabets();
    var section := Split(FirstPiece(raw), AnalysisHeading)[1];
    AnalysisTextShape(section, "*");
    AnalysisTextShape(section, DetailsLabel);
    AnalysisTextShape(section, AnalysisHeading);
    AnalysisTextShape(section, Rule);
    AnalysisTextShape(section, StackMarker);
  }
}
