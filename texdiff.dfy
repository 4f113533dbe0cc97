/** The script src/texdiff.py: its own copies of the paragraph flattener and
    the highlight passes, and the loop that colours each line of a word diff. */
module TexDiff {
  import opened Text
  import Manipulation
  import ManipulationExamples

  /** `flatten_paragraphs` as copied into the script, with the lines read
      given as `lines` and the text written returned.  It computes what the
      library version computes. */
  method FlattenParagraphs(lines: seq<string>) returns (text: string)
    ensures text == Manipulation.Flattened(lines)
  {
    var paragraphs: seq<string> := [];
    var thisParagraph: seq<string> := [];
    var i := 0;
    while i < |lines|
      invariant 0 <= i <= |lines|
      invariant Manipulation.Scan(paragraphs, thisParagraph, lines[i..]) == Manipulation.Paragraphs(lines)
    {
      var line := lines[i];
      assert lines[i..][0] == line && lines[i..][1..] == lines[i + 1..];
      if !IsBlank(line) {
        thisParagraph := thisParagraph + [Strip(line)];
        if Contains(line, Manipulation.BeginDocument) {
          paragraphs := [];
          thisParagraph := [];
        } else if Contains(line, Manipulation.EndDocument) {
          paragraphs := paragraphs + [Join(" ", thisParagraph[..|thisParagraph| - 1])];
          break;
        }
      } else {
        paragraphs := paragraphs + [Join(" ", thisParagraph)];
        thisParagraph := [];
      }
      i := i + 1;
    }
    text := Join("\n\n", paragraphs);
  }

  /** `sub_and_enclose`: every start delimiter is replaced, then every end delimiter. */
  function SubAndEnclose(startPattern: string, startSub: string,
                         endPattern: string, endSub: string, s: string): (r: string)
    requires startPattern != [] && endPattern != []
    ensures r == Manipulation.SubAndEnclose(startPattern, startSub, endPattern, endSub, s)
  {
    ReplaceAll(ReplaceAll(s, startPattern, startSub), endPattern, endSub)
  }

  /** `highlight_additions` of the script: the same output as the library's. */
  function HighlightAdditions(s: string, colour: string := "green"): (r: string)
    ensures r == Manipulation.HighlightAdditions(s, colour)
  {
    SubAndEnclose("{+", "\\textcolor{" + colour + "}{", "+}", "}", s)
  }

  /** `highlight_deletions` of the script: the same output as the library's. */
  function HighlightDeletions(s: string, colour: string := "red"): (r: string)
    ensures r == Manipulation.HighlightDeletions(s, colour)
  {
    assert "\\textcolor{" + colour + "}{\\st{" == Manipulation.TextColour(colour) + "\\st{";
    SubAndEnclose("[-", "\\textcolor{" + colour + "}{\\st{", "-]", "}}", s)
  }

  /** The transform the script applies to each diff line: additions first,
      then deletions, in the default colours.  The line keeps its newlines. */
  function HighlightLine(line: string): (r: string)
    ensures Count('\n', r) == Count('\n', line)
  {
    PassesKeepNewlines(line);
    HighlightDeletions(HighlightAdditions(line))
  }

  /** Neither the delimiters nor their replacements hold a newline. */
  lemma PassesKeepNewlines(line: string)
    ensures Count('\n', HighlightDeletions(HighlightAdditions(line))) == Count('\n', line)
  {
    var addOpen, delOpen := "\\textcolor{" + "green" + "}{", "\\textcolor{" + "red" + "}{\\st{";
    var withStarts := ReplaceAll(line, "{+", addOpen);
    var added := ReplaceAll(withStarts, "+}", "}");
    ReplaceKeepsCount('\n', line, "{+", addOpen);
    ReplaceKeepsCount('\n', withStarts, "+}", "}");
    ReplaceKeepsCount('\n', added, "[-", delOpen);
    ReplaceKeepsCount('\n', ReplaceAll(added, "[-", delOpen), "-]", "}}");
  }

  /** The transformed lines, one per diff line. */
  function ColouredLines(lines: seq<string>): (r: seq<string>)
    ensures |r| == |lines|
    ensures forall i :: 0 <= i < |lines| ==> r[i] == HighlightLine(lines[i])
  {
    if lines == [] then [] else [HighlightLine(lines[0])] + ColouredLines(lines[1..])
  }

  /** The text the script writes: the transformed lines concatenated. */
  function ColouredDiff(lines: seq<string>): string
  {
    Join("", ColouredLines(lines))
  }

  /** The loop of the script over the lines of the diff, with the lines read
      given as `diffOutput` and the text written returned. */
  method ColourDiff(diffOutput: seq<string>) returns (text: string)
    ensures text == ColouredDiff(diffOutput)
  {
    var newlines: seq<string> := [];
    for i := 0 to |diffOutput|
      invariant |newlines| == i
      invariant forall j :: 0 <= j < i ==> newlines[j] == HighlightLine(diffOutput[j])
    {
      newlines := newlines + [HighlightDeletions(HighlightAdditions(diffOutput[i]))];
    }
    assert newlines == ColouredLines(diffOutput);
    text := Join("", newlines);
  }

  /** The coloured diff has as many newlines as the diff: each line keeps its line breaks. */
  lemma ColouredDiffKeepsNewlines(lines: seq<string>)
    ensures Count('\n', ColouredDiff(lines)) == Count('\n', Join("", lines))
  {
    var coloured := ColouredLines(lines);
    assert forall i :: 0 <= i < |lines| ==> Count('\n', coloured[i]) == Count('\n', lines[i]);
    ConcatKeepsCount('\n', coloured, lines);
  }

  /** A line holding none of the four delimiters is written as it was read. */
  lemma UnmarkedLineKept(line: string)
    requires !Contains(line, "{+") && !Contains(line, "+}") && !Contains(line, "[-") && !Contains(line, "-]")
    ensures HighlightLine(line) == line
  {
  }

  /** A diff none of whose lines holds a delimiter is written unchanged. */
  lemma UnmarkedDiffKept(lines: seq<string>)
    requires forall i :: 0 <= i < |lines| ==>
      !Contains(lines[i], "{+") && !Contains(lines[i], "+}") && !Contains(lines[i], "[-") && !Contains(lines[i], "-]")
    ensures ColouredDiff(lines) == Join("", lines)
  {
    forall i | 0 <= i < |lines|
      ensures ColouredLines(lines)[i] == lines[i]
    {
      UnmarkedLineKept(lines[i]);
    }
    assert ColouredLines(lines) == lines;
  }

  /** Additions run first, so the `+` just inside a deletion span is left as
      text: the opposite of the library's order. */
  lemma AdditionsFirstKeepPlus(x: string)
    requires Manipulation.Unmarked(x) && '}' !in x
    ensures HighlightLine("[-+" + x + "-]") == Manipulation.TextColour("red") + "\\st{" + ("+" + x) + "}}"
  {
    var line := "[-+" + x + "-]";
    ReplaceAbsent(line, "{+", Manipulation.TextColour("green"), '{');
    ReplaceAbsent(line, "+}", "}", '}');
    var struck := Manipulation.TextColour("red") + "\\st{" + ("+" + x) + "}}";
    assert line == "" + "[-" + ("+" + x) + "-]" + "";
    assert "" + Manipulation.TextColour("red") + "\\st{" + ("+" + x) + "}}" + "" == struck;
    Manipulation.DeletionSpan("", "+" + x, "", "red");
  }

  /** `[-+x-]` is coloured differently by the script and by the library. */
  lemma OrderExample()
    ensures HighlightLine("[-+x-]") == "\\textcolor{red}{\\st{+x}}"
    ensures HighlightLine("[-+x-]") != Manipulation.HighlightChanges("[-+x-]")
  {
    assert Manipulation.TextColour("red") + "\\st{" + ("+" + "x") + "}}" == "\\textcolor{red}{\\st{+x}}";
    assert "[-+" + "x" + "-]" == "[-+x-]";
    AdditionsFirstKeepPlus("x");
    ManipulationExamples.LibraryOrderExample();
  }

  /** All start delimiters are replaced before any end delimiter, so `{+}`
      is an opening command followed by a plain brace. */
  lemma StartBeforeEndExample()
    ensures HighlightAdditions("{+}") == "\\textcolor{green}{}"
  {
    assert "\\textcolor{green}{" + "}" == "\\textcolor{green}{}";
    assert "{+}" == "" + "{+" + "}";
    assert Manipulation.TextColour("green") == "\\textcolor{green}{";
    Manipulation.LoneAdditionStart("", "}", "green");
  }

  /** When the spans do not overlap, the two orders agree. */
  lemma OrdersAgreeOnSeparateSpans(pre: string, added: string, mid: string, deleted: string, post: string)
    requires Manipulation.Unmarked(pre) && Manipulation.Unmarked(added) && Manipulation.Unmarked(mid)
    requires Manipulation.Unmarked(deleted) && Manipulation.Unmarked(post)
    ensures HighlightLine(pre + "{+" + added + "+}" + mid + "[-" + deleted + "-]" + post)
         == Manipulation.HighlightChanges(pre + "{+" + added + "+}" + mid + "[-" + deleted + "-]" + post)
  {
    var green := Manipulation.TextColour("green");
    Manipulation.ColourNameUnmarked("green");
    Manipulation.ColourNameUnmarked("red");
    var red := Manipulation.TextColour("red");
    assert pre + "{+" + added + "+}" + mid + "[-" + deleted + "-]" + post
        == pre + "{+" + added + "+}" + (mid + "[-" + deleted + "-]" + post);
    assert pre + green + added + "}" + (mid + "[-" + deleted + "-]" + post)
        == (pre + green + added + "}" + mid) + "[-" + deleted + "-]" + post;
    Manipulation.AdditionSpan(pre, added, mid + "[-" + deleted + "-]" + post, "green");
    Manipulation.DeletionSpan(pre + green + added + "}" + mid, deleted, post, "red");
    Manipulation.ChangesOfSeparateSpans(pre, added, mid, deleted, post, "green", "red");
    assert (pre + green + added + "}" + mid) + red + "\\st{" + deleted + "}}" + post
        == pre + green + added + "}" + mid + red + "\\st{" + deleted + "}}" + post;
  }
}
