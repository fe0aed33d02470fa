/**
 * The string-join concatenation of merge_txt_files: the target's text with
 * its trailing whitespace removed, then the text of each selected source,
 * stripped at both ends, in selection order, with a single line feed put in
 * front of a source whenever the text built so far is non-empty.
 */
module Concat {
  import opened Text

  /** What the loop has built after the given sources. */
  function Merged(target: string, sources: seq<string>): string
    decreases |sources|
  {
    if sources == [] then RStrip(target)
    else
      var built := Merged(target, sources[..|sources| - 1]);
      (if built != [] then built + "\n" else built) + Strip(sources[|sources| - 1])
  }

  /**
   * The accumulator loop of merge_txt_files, with every file's text given as
   * a string (the "".join of its lines).
   */
  method JoinContents(target: string, sources: seq<string>) returns (content: string)
    ensures content == Merged(target, sources)
    ensures content == Layout(Pieces(target, sources))
  {
    content := RStrip(target);
    for i := 0 to |sources|
      invariant content == Merged(target, sources[..i])
    {
      var fileContent := Strip(sources[i]);
      if content != [] {
        content := content + "\n";
      }
      content := content + fileContent;
      MergedStep(target, sources, i);
    }
    assert sources[..|sources|] == sources;
    MergedIsLayout(target, sources);
  }

  lemma MergedStep(target: string, sources: seq<string>, i: nat)
    requires i < |sources|
    ensures var built := Merged(target, sources[..i]);
            Merged(target, sources[..i + 1]) == (if built != [] then built + "\n" else built) + Strip(sources[i])
  {
    assert sources[..i + 1][..i] == sources[..i];
  }

  // An independent description of the result: the pieces of text and how
  // they are laid out.

  /** The right-trimmed target, then each source stripped, in selection order. */
  function Pieces(target: string, sources: seq<string>): seq<string>
    decreases |sources|
  {
    if sources == [] then [RStrip(target)]
    else Pieces(target, sources[..|sources| - 1]) + [Strip(sources[|sources| - 1])]
  }

  /** Each piece with a line feed in front of it. */
  function Separated(ps: seq<string>): string {
    if ps == [] then "" else "\n" + ps[0] + Separated(ps[1..])
  }

  /**
   * Empty pieces before the first non-empty one leave no trace; the first
   * non-empty piece comes first, and every later piece, empty or not, follows
   * a line feed.
   */
  function Layout(ps: seq<string>): string {
    if ps == [] then ""
    else if ps[0] == "" then Layout(ps[1..])
    else ps[0] + Separated(ps[1..])
  }

  lemma {:induction false} SeparatedSnoc(ps: seq<string>, p: string)
    ensures Separated(ps + [p]) == Separated(ps) + "\n" + p
    decreases |ps|
  {
    if ps != [] {
      assert (ps + [p])[1..] == ps[1..] + [p];
      SeparatedSnoc(ps[1..], p);
    } else {
      assert ps + [p] == [p];
    }
  }

  /** Adding one more piece: a line feed exactly when the text so far is non-empty. */
  lemma {:induction false} LayoutSnoc(ps: seq<string>, p: string)
    ensures Layout(ps + [p]) == (if Layout(ps) != "" then Layout(ps) + "\n" else "") + p
    decreases |ps|
  {
    if ps == [] {
      assert ps + [p] == [p];
      assert [p][1..] == [];
    } else {
      assert (ps + [p])[0] == ps[0];
      assert (ps + [p])[1..] == ps[1..] + [p];
      if ps[0] == "" {
        LayoutSnoc(ps[1..], p);
      } else {
        SeparatedSnoc(ps[1..], p);
      }
    }
  }

  /** The loop's result is the layout of the pieces. */
  lemma {:induction false} MergedIsLayout(target: string, sources: seq<string>)
    ensures Merged(target, sources) == Layout(Pieces(target, sources))
    decreases |sources|
  {
    if sources == [] {
      assert [RStrip(target)][1..] == [];
    } else {
      var init, last := sources[..|sources| - 1], sources[|sources| - 1];
      MergedIsLayout(target, init);
      LayoutSnoc(Pieces(target, init), Strip(last));
    }
  }

  /** A line feed and the stripped source, for every source in order. */
  function Trailer(sources: seq<string>): string
    decreases |sources|
  {
    if sources == [] then ""
    else Trailer(sources[..|sources| - 1]) + "\n" + Strip(sources[|sources| - 1])
  }

  /**
   * With a non-empty trimmed target, the result is the trimmed target and
   * then, for every source in order, a line feed and the stripped source.
   */
  lemma {:induction false} TargetFirst(target: string, sources: seq<string>)
    requires RStrip(target) != ""
    ensures Merged(target, sources) == RStrip(target) + Trailer(sources)
    decreases |sources|
  {
    if sources != [] {
      var init, last := sources[..|sources| - 1], sources[|sources| - 1];
      TargetFirst(target, init);
      var r, t, p := RStrip(target), Trailer(init), Strip(last);
      assert Merged(target, sources) == (r + t) + "\n" + p by {
        assert Merged(target, init) == r + t;
      }
      assert Trailer(sources) == t + "\n" + p;
      assert (r + t) + "\n" + p == r + (t + "\n" + p);
    }
  }

  /** The trimmed target always starts the result; nothing of it is lost or moved. */
  lemma TargetIsPrefix(target: string, sources: seq<string>)
    ensures RStrip(target) <= Merged(target, sources)
  {
    if RStrip(target) != "" {
      TargetFirst(target, sources);
    } else {
      assert RStrip(target) == [];
    }
  }

  /** Some text is there before the sources end: a non-empty trimmed target or a non-empty stripped source. */
  ghost predicate Nonblank(target: string, sources: seq<string>) {
    RStrip(target) != "" || exists j :: 0 <= j < |sources| && Strip(sources[j]) != ""
  }

  lemma NonblankSnoc(target: string, sources: seq<string>)
    requires sources != []
    ensures Nonblank(target, sources)
            <==> Nonblank(target, sources[..|sources| - 1]) || Strip(sources[|sources| - 1]) != ""
  {
    var init := sources[..|sources| - 1];
    assert forall j :: 0 <= j < |init| ==> init[j] == sources[j];
  }

  /**
   * The text built after some sources is non-empty exactly when the trimmed
   * target or one of those stripped sources is; so the loop puts a line feed
   * before a source exactly in that case.
   */
  lemma {:induction false} SeparatorWhen(target: string, sources: seq<string>)
    ensures Merged(target, sources) != "" <==> Nonblank(target, sources)
    decreases |sources|
  {
    if sources != [] {
      SeparatorWhen(target, sources[..|sources| - 1]);
      NonblankSnoc(target, sources);
    }
  }

  /** The number of line feeds the loop puts in: one per source that has text before it. */
  ghost function SeparatorCount(target: string, sources: seq<string>): nat
    decreases |sources|
  {
    if sources == [] then 0
    else
      var init := sources[..|sources| - 1];
      SeparatorCount(target, init) + (if Nonblank(target, init) then 1 else 0)
  }

  /** The summed length of the stripped sources. */
  function StrippedLength(sources: seq<string>): nat
    decreases |sources|
  {
    if sources == [] then 0
    else StrippedLength(sources[..|sources| - 1]) + |Strip(sources[|sources| - 1])|
  }

  /**
   * The result's length: the trimmed target, every stripped source, and one
   * character per line feed put in.
   */
  lemma {:induction false} MergedLength(target: string, sources: seq<string>)
    ensures |Merged(target, sources)|
            == |RStrip(target)| + StrippedLength(sources) + SeparatorCount(target, sources)
    decreases |sources|
  {
    if sources != [] {
      var init := sources[..|sources| - 1];
      MergedLength(target, init);
      SeparatorWhen(target, init);
    }
  }

  /** A non-empty trimmed target gets exactly one line feed per source. */
  lemma {:induction false} SeparatorPerSource(target: string, sources: seq<string>)
    requires RStrip(target) != ""
    ensures SeparatorCount(target, sources) == |sources|
    decreases |sources|
  {
    if sources != [] {
      SeparatorPerSource(target, sources[..|sources| - 1]);
    }
  }

  /** A single source after a non-empty trimmed target: one line feed, then the stripped source. */
  lemma OneSource(target: string, source: string)
    requires RStrip(target) != ""
    ensures Merged(target, [source]) == RStrip(target) + "\n" + Strip(source)
  {
    assert [source][..0] == [];
  }

  /** The worked example: "a\n" merged with "  b  \n" gives "a\nb". */
  lemma JoinExample(target: string, source: string)
    requires target == "a\n" && source == "  b  \n"
    ensures Merged(target, [source]) == "a\nb"
  {
    assert RStrip(target) == "a" && Strip(source) == "b" by {
      TrimExamples();
    }
    assert Merged(target, [source]) == RStrip(target) + "\n" + Strip(source) by {
      OneSource(target, source);
    }
    assert "a" + "\n" + "b" == "a\nb";
  }

  lemma TrimExamples()
    ensures RStrip("a\n") == "a" && Strip("  b  \n") == "b"
  {
    RStripUnique("a\n", "a");
    StripUnique("  ", "b", "  \n");
    assert "  " + "b" + "  \n" == "  b  \n";
  }

  /**
   * A source that is all whitespace still gets its line feed when the text
   * before it is non-empty, so it leaves a lone line feed behind.
   */
  lemma BlankSourceLeavesLineFeed(target: string, blank: string)
    requires RStrip(target) != "" && AllSpace(blank)
    ensures Merged(target, [blank]) == RStrip(target) + "\n"
  {
    StripSpec(blank);
    assert [blank][..0] == [];
  }
}
