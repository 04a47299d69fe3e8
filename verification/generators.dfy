/** The command generators of api/post-processors/: pure builders of a
    debugger command line `<parser> -z <dump> -c "<script>"`. Both splice
    the debugger path and the dump path in verbatim, with no quoting or
    escaping. */
module Generators {
  import opened Wrappers
  import opened JsString

  /** The text up to the script's second command:
      `<parser> -z <dump> -c "k; `. */
  function CommandHead(parser: string, dmp: string): string {
    parser + " -z " + dmp + " -c \"k; "
  }

  /** The script's closing: quit, then the closing quote. */
  const Tail: string := " ; q\""

  /** 9f.js, `devstackArg`: the second argument when there is one and it is
      non-empty (a truthy string), otherwise the empty string. An omitted
      `args` (`None`) defaults to the empty array. */
  function DevstackArgument(args: Option<seq<string>>): (a: string)
    ensures a == "" || (args.Some? && |args.value| > 1 && a == args.value[1])
    ensures args.Some? && |args.value| > 1 ==> a == args.value[1]
  {
    var xs := if args.None? then [] else args.value;
    if |xs| > 1 && xs[1] != "" then xs[1] else ""
  }

  /** The default export of 9f.js: `(parser, dmp, args = [])`. */
  function Devstack9f(parser: string, dmp: string, args: Option<seq<string>>): (r: string)
    ensures |r| == |CommandHead(parser, dmp)| + |"!devstack "| + |DevstackArgument(args)| + |Tail|
    ensures r[..|parser|] == parser
    ensures EndsWith(r, Tail)
  {
    CommandHead(parser, dmp) + "!devstack " + DevstackArgument(args) + Tail
  }

  /** The default export of 133.js: `(parser, dmp)`; any further argument is
      ignored. */
  function DpcWatchdog133(parser: string, dmp: string): (r: string)
    ensures |r| == |CommandHead(parser, dmp)| + |"!dpcwatchdog"| + |Tail|
    ensures r[..|parser|] == parser
    ensures EndsWith(r, Tail)
  {
    CommandHead(parser, dmp) + "!dpcwatchdog" + Tail
  }

  /** The command line of 9f.js takes apart again: the debugger path, the
      dump path and the `!devstack` argument sit at fixed offsets, so the
      argument chosen can be read back from the command. */
  lemma Devstack9fDecodes(parser: string, dmp: string, args: Option<seq<string>>)
    ensures var r := Devstack9f(parser, dmp, args);
      var n := |CommandHead(parser, dmp)|;
      && r[..n] == CommandHead(parser, dmp)
      && r[|parser| + 4..|parser| + 4 + |dmp|] == dmp
      && r[n..n + 10] == "!devstack "
      && r[n + 10..|r| - |Tail|] == DevstackArgument(args)
  {
    var head := CommandHead(parser, dmp);
    var r := Devstack9f(parser, dmp, args);
    Parts(head, "!devstack ", DevstackArgument(args), Tail);
    Parts(parser, " -z ", dmp, " -c \"k; ");
    SliceOfPrefix(r, |head|, |parser| + 4, |parser| + 4 + |dmp|);
  }

  /** Where the parts of a four-part concatenation sit. */
  lemma Parts(a: string, b: string, c: string, d: string)
    ensures var s := a + b + c + d;
      && s[..|a|] == a
      && s[|a|..|a| + |b|] == b
      && s[|a| + |b|..|a| + |b| + |c|] == c
      && s[|a| + |b| + |c|..] == d
  {
    var s := a + b + c + d;
    assert s[..|a + b + c|] == a + b + c;
    assert (a + b + c)[..|a + b|] == a + b;
    assert s[|a|..|a| + |b|] == (a + b)[|a|..];
    assert s[|a| + |b|..|a| + |b| + |c|] == (a + b + c)[|a + b|..];
  }

  /** A slice inside a prefix is the same slice of the prefix. */
  lemma SliceOfPrefix(s: string, n: nat, lo: nat, hi: nat)
    requires lo <= hi <= n <= |s|
    ensures s[lo..hi] == s[..n][lo..hi]
  {
  }

  /** The 9f command depends on the arguments only through the second one:
      the first and any beyond the second are ignored, and an omitted,
      too-short or empty second argument all give an empty `!devstack`
      argument. */
  lemma Devstack9fUsesOnlySecondArg(parser: string, dmp: string, a: seq<string>, b: seq<string>)
    requires |a| > 1 && |b| > 1 ==> a[1] == b[1]
    requires |a| > 1 && |b| <= 1 ==> a[1] == ""
    requires |a| <= 1 && |b| > 1 ==> b[1] == ""
    ensures Devstack9f(parser, dmp, Some(a)) == Devstack9f(parser, dmp, Some(b))
    ensures |a| <= 1 ==> Devstack9f(parser, dmp, Some(a)) == Devstack9f(parser, dmp, None)
  {
  }

  /** A text lacking one of the characters of `t` does not contain `t`. */
  lemma MissingChar(s: string, t: string, c: char)
    requires c in t && c !in s
    ensures !Contains(s, t)
  {
    forall i | 0 <= i <= |s| - |t|
      ensures !OccursAt(s, t, i)
    {
      var k :| 0 <= k < |t| && t[k] == c;
      assert |t| > 0 && (i + |t| <= |s| ==> s[i..i + |t|][k] == s[i + k]);
    }
  }

  /** The 133 command line, regrouped as the text up to the dump path, a
      space, and the script option. */
  lemma WatchdogTemplate(parser: string, dmp: string)
    ensures DpcWatchdog133(parser, dmp) == parser + " -z " + dmp + " " + "-c \"k; !dpcwatchdog ; q\""
  {
    var p := parser + " -z " + dmp;
    var a, b, c := " -c \"k; ", "!dpcwatchdog", Tail;
    assert a + b + c == " " + "-c \"k; !dpcwatchdog ; q\"";
    Regroup(p, a, b, c);
    Regroup(p, " ", "-c \"k; !dpcwatchdog ; q\"", []);
  }

  /** Concatenation regrouped to the right. */
  lemma Regroup(p: string, a: string, b: string, c: string)
    ensures p + a + b + c == p + (a + b + c)
    ensures p + a + b + c == (p + a) + (b + c)
  {
  }

  /** Whatever the paths, the 133 command runs `!dpcwatchdog`: it sits at a
      fixed place in the script option that ends the command. */
  lemma DpcWatchdog133RunsWatchdog(parser: string, dmp: string)
    ensures Contains(DpcWatchdog133(parser, dmp), "!dpcwatchdog")
  {
    var script := "-c \"k; !dpcwatchdog ; q\"";
    WatchdogTemplate(parser, dmp);
    assert OccursAt(script, "!dpcwatchdog", 7);
    OccursAfterPrefix(parser + " -z " + dmp + " ", script, "!dpcwatchdog", 7);
  }

  /** The 133 command runs `!dpcwatchdog` and, as long as neither path holds
      the text "!devstack", never `!devstack`: the parts of the template
      between and after the paths lack the letter e, and the separators
      around the paths are made of characters "!devstack" does not use. */
  lemma DpcWatchdog133Script(parser: string, dmp: string)
    requires !Contains(parser, "!devstack") && !Contains(dmp, "!devstack")
    ensures Contains(DpcWatchdog133(parser, dmp), "!dpcwatchdog")
    ensures !Contains(DpcWatchdog133(parser, dmp), "!devstack")
  {
    var w := "!devstack";
    var script := "-c \"k; !dpcwatchdog ; q\"";
    WatchdogTemplate(parser, dmp);
    DpcWatchdog133RunsWatchdog(parser, dmp);
    MissingChar(script, w, 'e');
    ContainsAcrossBlock(parser, " -z ", dmp, w);
    ContainsAcrossBlock(parser + " -z " + dmp, " ", script, w);
  }
}
