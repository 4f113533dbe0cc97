/** Concrete inputs and outputs of the library module src/manipulation.py. */
module ManipulationExamples {
  import opened Text
  import opened Manipulation

  /** A paragraph of one line is that line, stripped. */
  lemma OneLineParagraph(line: string)
    ensures Join(" ", Stripped([line])) == Strip(line)
  {
    assert [line][1..] == [];
  }

  /** Two one-line paragraphs between the body markers, separated by a blank
      line, with any lines before and after the body. */
  lemma TwoParagraphs(before: seq<string>, first: string, second: string, after: seq<string>)
    requires forall i :: 0 <= i < |before| ==> !Stops(before[i])
    requires Ordinary(first) && Ordinary(second)
    ensures Flattened(before + [BeginDocument, first, "", second, EndDocument] + after)
         == Strip(first) + "\n\n" + Strip(second)
  {
    var tail := [second] + [EndDocument] + after;
    var body := [first] + [""] + tail;
    BeginResets();
    EndStops();
    assert before + [BeginDocument, first, "", second, EndDocument] + after
        == before + [BeginDocument] + ([first] + [""] + ([second] + [EndDocument] + after));
    ResetDiscardsPrefix(before, BeginDocument, body);
    OneLineParagraph(first);
    OneLineParagraph(second);
    ParagraphOfBlock([], [first], "", tail);
    ParagraphOfBlock([Strip(first)], [second], EndDocument, after);
    assert Paragraphs(body) == [Strip(first), Strip(second)];
    JoinPair("\n\n", Strip(first), Strip(second));
  }

  /** The plain lines of `MarkerExample`. */
  lemma MarkerExampleLines()
    ensures !Stops("preamble") && Ordinary("Hello world.") && Ordinary("Goodbye.")
    ensures Strip("Hello world.") == "Hello world." && Strip("Goodbye.") == "Goodbye."
    ensures ["preamble"] + [BeginDocument, "Hello world.", "", "Goodbye.", EndDocument] + ["trailer"]
         == ["preamble", BeginDocument, "Hello world.", "", "Goodbye.", EndDocument, "trailer"]
  {
    PlainLine("preamble");
    PlainLine("Hello world.");
    PlainLine("Goodbye.");
    StripKeepsTrimmed("Hello world.");
    StripKeepsTrimmed("Goodbye.");
  }

  /** preamble / \begin{document} / Hello world. / (blank) / Goodbye. /
      \end{document} / trailer flattens to the two body paragraphs. */
  lemma MarkerExample()
    ensures Flattened(["preamble", BeginDocument, "Hello world.", "", "Goodbye.", EndDocument, "trailer"])
         == "Hello world.\n\nGoodbye."
  {
    assert "Hello world." + "\n\n" + "Goodbye." == "Hello world.\n\nGoodbye.";
    MarkerExampleLines();
    TwoParagraphs(["preamble"], "Hello world.", "Goodbye.", ["trailer"]);
  }

  lemma EndLineFacts()
    ensures "foo \\end{document}" == "foo " + EndDocument
    ensures Ordinary("x") && Strip("x") == "x"
  {
    PlainLine("x");
    StripKeepsTrimmed("x");
  }

  /** The text sharing a line with the body-end marker is not kept. */
  lemma EndLineExcluded()
    ensures Flattened(["x", "foo \\end{document}"]) == "x"
  {
    EndLineFacts();
    AbsentCharMeansAbsent("foo " + EndDocument, BeginDocument, 'b');
    EndMarkerAfter("foo ");
    StopLineTextExcluded("x", "foo \\end{document}");
  }

  lemma ShortLineFacts()
    ensures Ordinary("a") && Ordinary("b") && Ordinary("c") && Ordinary("d")
    ensures Strip("a") == "a" && Strip("b") == "b" && Strip("c") == "c" && Strip("d") == "d"
  {
    PlainLine("a");
    PlainLine("b");
    PlainLine("c");
    PlainLine("d");
    StripKeepsTrimmed("a");
    StripKeepsTrimmed("b");
    StripKeepsTrimmed("c");
    StripKeepsTrimmed("d");
  }

  /** A paragraph closed by a blank line is kept; the one after it, never
      closed, is dropped. */
  lemma LastParagraphDropped(first: string, blank: string, last: string)
    requires Ordinary(first) && IsBlank(blank) && Ordinary(last)
    ensures Flattened([first, blank, last]) == Strip(first)
  {
    assert [first, blank, last] == [first] + [blank] + [last];
    ParagraphOfBlock([], [first], blank, [last]);
    assert Stripped([first]) == [Strip(first)];
  }

  /** Without an end marker the open paragraph is dropped. */
  lemma UnclosedExamples()
    ensures Flattened(["a", "b"]) == ""
    ensures Flattened(["a", "", "b"]) == "a"
  {
    ShortLineFacts();
    assert [] + ["a", "b"] == ["a", "b"];
    UnclosedTailDropped([], ["a", "b"]);
    LastParagraphDropped("a", "", "b");
  }

  lemma ReadBackFacts()
    ensures Ordinary("a\n") && Strip("a\n") == "a" && IsBlank("\n")
    ensures [] + [BeginDocument, "a", "", "b", EndDocument] + [] == [BeginDocument, "a", "", "b", EndDocument]
  {
    PlainLine("a\n");
    assert TrimStart("a\n") == "a\n";
  }

  /** Flattening the lines of a flattened text loses its last paragraph,
      since no end marker closes it. */
  lemma NotAFixpoint()
    ensures Flattened([BeginDocument, "a", "", "b", EndDocument]) == "a\n\nb"
    ensures Flattened(["a\n", "\n", "b"]) == "a"
  {
    assert "a" + "\n\n" + "b" == "a\n\nb";
    ShortLineFacts();
    ReadBackFacts();
    TwoParagraphs([], "a", "b", []);
    LastParagraphDropped("a\n", "\n", "b");
  }

  /** Two blank lines in a row close an empty paragraph between them. */
  lemma EmptyParagraphKept(first: string, last: string, e: string)
    requires Ordinary(first) && Ordinary(last) && Stops(e)
    ensures Paragraphs([first, "", "", last, e]) == [Strip(first), "", Strip(last)]
  {
    assert [first, "", "", last, e] == [first] + [""] + ([] + [""] + ([last] + [e] + []));
    assert [] + [""] + ([last] + [e] + []) == [""] + ([last] + [e] + []);
    OneLineParagraph(first);
    OneLineParagraph(last);
    ParagraphOfBlock([], [first], "", [] + [""] + ([last] + [e] + []));
    assert [] + [Join(" ", Stripped([first]))] == [Strip(first)];
    ParagraphOfBlock([Strip(first)], [], "", [last] + [e] + []);
    assert [Strip(first)] + [Join(" ", Stripped([]))] == [Strip(first), ""];
    ParagraphOfBlock([Strip(first), ""], [last], e, []);
    assert [Strip(first), ""] + [Strip(last)] == [Strip(first), "", Strip(last)];
  }

  lemma EmptyParagraphText()
    ensures Join("\n\n", ["a", "", "b"]) == "a\n\n\n\nb"
  {
  }

  /** Every blank line closes a paragraph, even an empty one. */
  lemma EmptyParagraphs()
    ensures Flattened(["a", "", "", "b", EndDocument]) == "a\n\n\n\nb"
  {
    ShortLineFacts();
    EndStops();
    EmptyParagraphKept("a", "b", EndDocument);
    EmptyParagraphText();
  }

  /** A paragraph of two lines is the two stripped lines with one space between. */
  lemma TwoLineParagraph(x: string, y: string)
    ensures Join(" ", Stripped([x, y])) == Strip(x) + " " + Strip(y)
  {
    assert Stripped([y]) == [Strip(y)] by {
      assert [y][1..] == [];
    }
    assert Stripped([x, y]) == [Strip(x)] + Stripped([y]) by {
      assert [x, y][1..] == [y];
    }
    assert [Strip(x)] + [Strip(y)] == [Strip(x), Strip(y)];
    JoinPair(" ", Strip(x), Strip(y));
  }

  /** Two two-line paragraphs in the body: each is its stripped lines joined
      by one space. */
  lemma TwoLinePairs(x1: string, x2: string, y1: string, y2: string)
    requires Ordinary(x1) && Ordinary(x2) && Ordinary(y1) && Ordinary(y2)
    ensures Paragraphs([BeginDocument, x1, x2, "", y1, y2, EndDocument])
         == [Strip(x1) + " " + Strip(x2), Strip(y1) + " " + Strip(y2)]
  {
    BeginResets();
    EndStops();
    assert [BeginDocument, x1, x2, "", y1, y2, EndDocument]
        == [] + [BeginDocument] + ([x1, x2] + [""] + ([y1, y2] + [EndDocument] + []));
    var tail := [y1, y2] + [EndDocument] + [];
    ResetDiscardsPrefix([], BeginDocument, [x1, x2] + [""] + tail);
    TwoLineParagraph(x1, x2);
    TwoLineParagraph(y1, y2);
    ParagraphOfBlock([], [x1, x2], "", tail);
    assert [] + [Join(" ", Stripped([x1, x2]))] == [Strip(x1) + " " + Strip(x2)];
    ParagraphOfBlock([Strip(x1) + " " + Strip(x2)], [y1, y2], EndDocument, []);
    assert Paragraphs([x1, x2] + [""] + tail)
        == [Strip(x1) + " " + Strip(x2)] + [Strip(y1) + " " + Strip(y2)];
  }

  lemma JoinedLinesFacts()
    ensures Ordinary("  a  ") && Strip("  a  ") == "a"
    ensures Join("\n\n", ["a" + " " + "b", "c" + " " + "d"]) == "a b\n\nc d"
  {
    PlainLine("  a  ");
    assert TrimStart("  a  ") == "a  ";
    assert TrimEnd("a  ") == "a";
  }

  /** Each paragraph is its stripped lines joined by single spaces. */
  lemma JoinedLines()
    ensures Flattened([BeginDocument, "  a  ", "b", "", "c", "d", EndDocument]) == "a b\n\nc d"
  {
    ShortLineFacts();
    JoinedLinesFacts();
    TwoLinePairs("  a  ", "b", "c", "d");
  }

  lemma AdditionExample()
    ensures HighlightAdditions("a {+new+} word") == "a \\textcolor{green}{new} word"
  {
    assert "a " + "\\textcolor{green}{" + "new" + "}" + " word" == "a \\textcolor{green}{new} word";
    assert "a {+new+} word" == "a " + "{+" + "new" + "+}" + " word";
    assert TextColour("green") == "\\textcolor{green}{";
    AdditionSpan("a ", "new", " word", "green");
  }

  lemma AdditionInBlue()
    ensures HighlightAdditions("{+x+}", "blue") == "\\textcolor{blue}{x}"
  {
    assert "" + "\\textcolor{blue}{" + "x" + "}" + "" == "\\textcolor{blue}{x}";
    assert "{+x+}" == "" + "{+" + "x" + "+}" + "";
    assert TextColour("blue") == "\\textcolor{blue}{";
    AdditionSpan("", "x", "", "blue");
  }

  lemma DeletionExample()
    ensures HighlightDeletions("a [-old-] word") == "a \\textcolor{red}{\\st{old}} word"
  {
    assert "a " + "\\textcolor{red}{" + "\\st{" + "old" + "}}" + " word"
        == "a \\textcolor{red}{\\st{old}} word";
    assert "a [-old-] word" == "a " + "[-" + "old" + "-]" + " word";
    assert TextColour("red") == "\\textcolor{red}{";
    DeletionSpan("a ", "old", " word", "red");
  }

  /** The output of `ChangesExample` assembled from the replaced pieces. */
  lemma ChangesExampleText()
    ensures "" + "\\textcolor{green}{" + "x" + "}" + " and " + "\\textcolor{red}{" + "\\st{" + "y" + "}}" + ""
         == "\\textcolor{green}{x} and \\textcolor{red}{\\st{y}}"
  {
  }

  lemma ChangesExample()
    ensures HighlightChanges("{+x+} and [-y-]") == "\\textcolor{green}{x} and \\textcolor{red}{\\st{y}}"
  {
    ChangesExampleText();
    assert "{+x+} and [-y-]" == "" + "{+" + "x" + "+}" + " and " + "[-" + "y" + "-]" + "";
    assert TextColour("green") == "\\textcolor{green}{";
    assert TextColour("red") == "\\textcolor{red}{";
    ChangesOfSeparateSpans("", "x", " and ", "y", "", "green", "red");
  }

  /** Deletions first: the `+` inside the deletion span opens an addition. */
  lemma LibraryOrderExample()
    ensures HighlightChanges("[-+x-]") == "\\textcolor{red}{\\st\\textcolor{green}{x}}"
  {
    assert "\\textcolor{red}{" + "\\st" + ("\\textcolor{green}{" + ("x" + "}}"))
        == "\\textcolor{red}{\\st\\textcolor{green}{x}}";
    assert "[-+" + "x" + "-]" == "[-+x-]";
    assert TextColour("green") == "\\textcolor{green}{";
    assert TextColour("red") == "\\textcolor{red}{";
    DeletedAdditionStart("x", "green", "red");
  }

  /** No balancing: a start delimiter without an end delimiter is replaced. */
  lemma LoneStartExample()
    ensures HighlightAdditions("{+abc") == "\\textcolor{green}{abc"
  {
    assert "" + "\\textcolor{green}{" + "abc" == "\\textcolor{green}{abc";
    assert "{+abc" == "" + "{+" + "abc";
    assert TextColour("green") == "\\textcolor{green}{";
    LoneAdditionStart("", "abc", "green");
  }
}
