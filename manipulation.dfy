/** The library module src/manipulation.py: flattening a LaTeX document's
    body to one line per paragraph, and turning `git diff --word-diff`
    markup into `\textcolor` / `\st` highlighting. */
module Manipulation {
  import opened Text

  const BeginDocument: string := "\\begin{document}"
  const EndDocument: string := "\\end{document}"

  /** A non-blank line holding the body-start marker: the scan forgets all it gathered. */
  predicate Resets(line: string)
  {
    !IsBlank(line) && Contains(line, BeginDocument)
  }

  /** A non-blank line holding the body-end marker and no body-start marker
      (the start marker is looked for first): the scan ends here. */
  predicate Stops(line: string)
  {
    !IsBlank(line) && !Contains(line, BeginDocument) && Contains(line, EndDocument)
  }

  /** A non-blank line holding neither marker: it joins the open paragraph. */
  predicate Ordinary(line: string)
  {
    !IsBlank(line) && !Contains(line, BeginDocument) && !Contains(line, EndDocument)
  }

  /** The paragraphs completed once `lines` are read, starting from the
      completed paragraphs `done` and the stripped lines `open` of the
      paragraph being built.  A blank line completes the open paragraph
      (empty or not), a reset forgets everything, a stop completes the open
      paragraph and ends the scan, and at the end of the input the open
      paragraph is dropped. */
  function Scan(done: seq<string>, open: seq<string>, lines: seq<string>): seq<string>
    decreases |lines|
  {
    if lines == [] then done
    else if IsBlank(lines[0]) then Scan(done + [Join(" ", open)], [], lines[1..])
    else if Contains(lines[0], BeginDocument) then Scan([], [], lines[1..])
    else if Contains(lines[0], EndDocument) then done + [Join(" ", open)]
    else Scan(done, open + [Strip(lines[0])], lines[1..])
  }

  /** The paragraphs `flatten_paragraphs` extracts from a document's lines. */
  function Paragraphs(lines: seq<string>): seq<string>
  {
    Scan([], [], lines)
  }

  /** The text `flatten_paragraphs` writes: the paragraphs, a blank line between two. */
  function Flattened(lines: seq<string>): string
  {
    Join("\n\n", Paragraphs(lines))
  }

  /** `flatten_paragraphs`, with the lines read from the input file given as
      `lines` and the text written to the output file returned. */
  method FlattenParagraphs(lines: seq<string>) returns (text: string)
    ensures text == Flattened(lines)
  {
    var paragraphs: seq<string> := [];
    var thisParagraph: seq<string> := [];
    var i := 0;
    while i < |lines|
      invariant 0 <= i <= |lines|
      invariant Scan(paragraphs, thisParagraph, lines[i..]) == Paragraphs(lines)
    {
      var line := lines[i];
      assert lines[i..][0] == line && lines[i..][1..] == lines[i + 1..];
      if !IsBlank(line) {
        thisParagraph := thisParagraph + [Strip(line)];
        if Contains(line, BeginDocument) {
          paragraphs := [];
          thisParagraph := [];
        } else if Contains(line, EndDocument) {
          paragraphs := paragraphs + [Join(" ", thisParagraph[..|thisParagraph| - 1])];
          break;
        }
      } else {
        paragraphs := paragraphs + [Join(" ", thisParagraph)];
        thisParagraph := [];
      }
      i := i + 1;
    }
    text := Join("\n\n", paragraphs);
  }

  /** `highlight_changes`: deletions are highlighted first, then additions.
      A line holding none of the four delimiters is returned unchanged. */
  function HighlightChanges(s: string, additionColour: string := "green",
                            deletionColour: string := "red"): (r: string)
    ensures !Contains(s, "{+") && !Contains(s, "+}") && !Contains(s, "[-") && !Contains(s, "-]")
            ==> r == s
  {
    HighlightAdditions(HighlightDeletions(s, deletionColour), additionColour)
  }

  /** The text that opens a `\textcolor` command in the given colour. */
  function TextColour(colour: string): string
  {
    "\\textcolor{" + colour + "}{"
  }

  /** `highlight_additions`: `{+` opens a `\textcolor` command, `+}` closes it.
      A line holding neither delimiter is returned unchanged. */
  function HighlightAdditions(s: string, colour: string := "green"): (r: string)
    ensures !Contains(s, "{+") && !Contains(s, "+}") ==> r == s
  {
    SubAndEnclose("{+", TextColour(colour), "+}", "}", s)
  }

  /** `highlight_deletions`: `[-` opens a `\textcolor` and a `\st` command, `-]` closes both.
      A line holding neither delimiter is returned unchanged. */
  function HighlightDeletions(s: string, colour: string := "red"): (r: string)
    ensures !Contains(s, "[-") && !Contains(s, "-]") ==> r == s
  {
    SubAndEnclose("[-", TextColour(colour) + "\\st{", "-]", "}}", s)
  }

  /** `_sub_and_enclose`: every start delimiter is replaced, then every end
      delimiter.  A string holding neither delimiter is returned unchanged. */
  function SubAndEnclose(startPattern: string, startSub: string,
                         endPattern: string, endSub: string, s: string): (r: string)
    requires startPattern != [] && endPattern != []
    ensures !Contains(s, startPattern) && !Contains(s, endPattern) ==> r == s
  {
    var started := ReplaceAll(s, startPattern, startSub);
    ReplaceUnchangedIff(s, startPattern, startSub);
    ReplaceUnchangedIff(started, endPattern, endSub);
    ReplaceAll(started, endPattern, endSub)
  }

  /** The stripped text of each line of a block. */
  function Stripped(block: seq<string>): seq<string>
  {
    if block == [] then [] else [Strip(block[0])] + Stripped(block[1..])
  }

  /** The number of blank lines among `lines`. */
  function CountBlank(lines: seq<string>): nat
  {
    if lines == [] then 0 else (if IsBlank(lines[0]) then 1 else 0) + CountBlank(lines[1..])
  }

  /** A line that is exactly the body-start marker resets the scan. */
  lemma BeginResets()
    ensures Resets(BeginDocument)
  {
    ContainsItself(BeginDocument);
  }

  /** A line that is exactly the body-end marker stops the scan. */
  lemma EndStops()
    ensures Stops(EndDocument)
  {
    ContainsItself(EndDocument);
    AbsentCharMeansAbsent(EndDocument, BeginDocument, 'b');
  }

  /** A non-blank line without a backslash holds neither marker. */
  lemma PlainLine(line: string)
    requires !IsBlank(line) && '\\' !in line
    ensures Ordinary(line)
  {
    AbsentCharMeansAbsent(line, BeginDocument, '\\');
    AbsentCharMeansAbsent(line, EndDocument, '\\');
  }

  /** A reset line makes the scan forget everything read before it, as long
      as the scan has not stopped before reaching it. */
  lemma {:induction false} ScanReset(done: seq<string>, open: seq<string>,
                                     before: seq<string>, b: string, after: seq<string>)
    requires Resets(b)
    requires forall i :: 0 <= i < |before| ==> !Stops(before[i])
    ensures Scan(done, open, before + [b] + after) == Paragraphs(after)
    decreases |before|
  {
    var lines := before + [b] + after;
    if before == [] {
      assert lines[0] == b && lines[1..] == after;
    } else {
      assert lines[0] == before[0] && lines[1..] == before[1..] + [b] + after;
      assert !Stops(before[0]);
      if IsBlank(before[0]) {
        ScanReset(done + [Join(" ", open)], [], before[1..], b, after);
      } else if Contains(before[0], BeginDocument) {
        ScanReset([], [], before[1..], b, after);
      } else {
        ScanReset(done, open + [Strip(before[0])], before[1..], b, after);
      }
    }
  }

  /** Everything before a reset line is discarded: flattening `before + [b] +
      after` is flattening `after` alone, provided no line of `before` ended the body. */
  lemma ResetDiscardsPrefix(before: seq<string>, b: string, after: seq<string>)
    requires Resets(b)
    requires forall i :: 0 <= i < |before| ==> !Stops(before[i])
    ensures Flattened(before + [b] + after) == Flattened(after)
  {
    ScanReset([], [], before, b, after);
  }

  /** Once a stop line is read, nothing after it is looked at. */
  lemma {:induction false} ScanStopIgnoresRest(done: seq<string>, open: seq<string>,
                                               before: seq<string>, e: string, after: seq<string>)
    requires Stops(e)
    ensures Scan(done, open, before + [e] + after) == Scan(done, open, before + [e])
    decreases |before|
  {
    var long := before + [e] + after;
    var short := before + [e];
    if before == [] {
      assert long[0] == e && short[0] == e;
    } else {
      assert long[0] == before[0] && long[1..] == before[1..] + [e] + after;
      assert short[0] == before[0] && short[1..] == before[1..] + [e];
      if IsBlank(before[0]) {
        ScanStopIgnoresRest(done + [Join(" ", open)], [], before[1..], e, after);
      } else if Contains(before[0], BeginDocument) {
        ScanStopIgnoresRest([], [], before[1..], e, after);
      } else if !Contains(before[0], EndDocument) {
        ScanStopIgnoresRest(done, open + [Strip(before[0])], before[1..], e, after);
      }
    }
  }

  /** Lines after a body-end line never affect the flattened text. */
  lemma EndIgnoresRest(before: seq<string>, e: string, after: seq<string>)
    requires Stops(e)
    ensures Flattened(before + [e] + after) == Flattened(before + [e])
  {
    ScanStopIgnoresRest([], [], before, e, after);
  }

  /** A paragraph still open at the end of the input is dropped: an ordinary
      last line changes nothing. */
  lemma {:induction false} ScanDropsOpen(done: seq<string>, open: seq<string>,
                                         lines: seq<string>, x: string)
    requires Ordinary(x)
    ensures Scan(done, open, lines + [x]) == Scan(done, open, lines)
    decreases |lines|
  {
    var long := lines + [x];
    if lines == [] {
      assert long[0] == x && long[1..] == [];
    } else {
      assert long[0] == lines[0] && long[1..] == lines[1..] + [x];
      if IsBlank(lines[0]) {
        ScanDropsOpen(done + [Join(" ", open)], [], lines[1..], x);
      } else if Contains(lines[0], BeginDocument) {
        ScanDropsOpen([], [], lines[1..], x);
      } else if !Contains(lines[0], EndDocument) {
        ScanDropsOpen(done, open + [Strip(lines[0])], lines[1..], x);
      }
    }
  }

  lemma OpenParagraphDropped(lines: seq<string>, x: string)
    requires Ordinary(x)
    ensures Flattened(lines + [x]) == Flattened(lines)
  {
    ScanDropsOpen([], [], lines, x);
  }

  /** Any run of ordinary lines at the end of the input is dropped. */
  lemma {:induction false} UnclosedTailDropped(lines: seq<string>, tail: seq<string>)
    requires forall i :: 0 <= i < |tail| ==> Ordinary(tail[i])
    ensures Flattened(lines + tail) == Flattened(lines)
    decreases |tail|
  {
    if tail == [] {
      assert lines + tail == lines;
    } else {
      var init := tail[..|tail| - 1];
      assert lines + tail == (lines + init) + [tail[|tail| - 1]];
      OpenParagraphDropped(lines + init, tail[|tail| - 1]);
      UnclosedTailDropped(lines, init);
    }
  }

  /** A line holding the body-end marker after some other text, and no
      body-start marker, stops the scan: the marker need not open the line. */
  lemma EndMarkerAfter(pre: string)
    requires !Contains(pre + EndDocument, BeginDocument)
    ensures Stops(pre + EndDocument)
  {
    var line := pre + EndDocument;
    assert line[|pre|..] == EndDocument;
    ContainsItself(EndDocument);
    BlankIffAllSpace(line);
    assert line[|pre|] == '\\';
  }

  /** A line holding both markers, begin first, resets the scan and does not stop it. */
  lemma BothMarkersOnlyReset(before: seq<string>, after: seq<string>)
    requires forall i :: 0 <= i < |before| ==> !Stops(before[i])
    ensures Resets(BeginDocument + EndDocument) && !Stops(BeginDocument + EndDocument)
    ensures Flattened(before + [BeginDocument + EndDocument] + after) == Flattened(after)
  {
    var line := BeginDocument + EndDocument;
    assert line[0..] == line && line[..|BeginDocument|] == BeginDocument;
    BlankIffAllSpace(line);
    assert line[0] == '\\';
    ResetDiscardsPrefix(before, line, after);
  }

  /** A block of ordinary lines adds their stripped text to the open paragraph. */
  lemma {:induction false} ScanBlock(done: seq<string>, open: seq<string>,
                                     block: seq<string>, rest: seq<string>)
    requires forall i :: 0 <= i < |block| ==> Ordinary(block[i])
    ensures Scan(done, open, block + rest) == Scan(done, open + Stripped(block), rest)
    decreases |block|
  {
    if block == [] {
      assert block + rest == rest && open + Stripped(block) == open;
    } else {
      var lines := block + rest;
      assert lines[0] == block[0] && lines[1..] == block[1..] + rest;
      assert Ordinary(block[0]);
      ScanBlock(done, open + [Strip(block[0])], block[1..], rest);
      assert Stripped(block) == [Strip(block[0])] + Stripped(block[1..]);
      assert open + [Strip(block[0])] + Stripped(block[1..]) == open + Stripped(block);
    }
  }

  /** Each paragraph is the stripped text of its lines joined by single
      spaces; it ends at a blank line, or at a stop line, which is not part of it. */
  lemma ParagraphOfBlock(done: seq<string>, block: seq<string>, end: string, rest: seq<string>)
    requires forall i :: 0 <= i < |block| ==> Ordinary(block[i])
    ensures IsBlank(end) ==>
      Scan(done, [], block + [end] + rest) == Scan(done + [Join(" ", Stripped(block))], [], rest)
    ensures Stops(end) ==>
      Scan(done, [], block + [end] + rest) == done + [Join(" ", Stripped(block))]
  {
    assert block + [end] + rest == block + ([end] + rest);
    ScanBlock(done, [], block, [end] + rest);
    assert [] + Stripped(block) == Stripped(block);
    assert ([end] + rest)[0] == end && ([end] + rest)[1..] == rest;
  }

  /** The body-end line closes the paragraph without contributing its own
      text, whatever else it holds. */
  lemma StopLineTextExcluded(first: string, e: string)
    requires Ordinary(first) && Stops(e)
    ensures Flattened([first, e]) == Strip(first)
  {
    assert [first] + [e] + [] == [first, e];
    ParagraphOfBlock([], [first], e, []);
    assert Stripped([first]) == [Strip(first)];
  }

  /** Without markers the scan completes one paragraph per blank line; a
      stop line completes one more. */
  lemma {:induction false} ScanCount(done: seq<string>, open: seq<string>,
                                     lines: seq<string>, e: string, after: seq<string>)
    requires forall i :: 0 <= i < |lines| ==> !Resets(lines[i]) && !Stops(lines[i])
    ensures |Scan(done, open, lines)| == |done| + CountBlank(lines)
    ensures Stops(e) ==> |Scan(done, open, lines + [e] + after)| == |done| + CountBlank(lines) + 1
    decreases |lines|
  {
    var long := lines + [e] + after;
    if lines == [] {
      assert long[0] == e;
    } else {
      assert long[0] == lines[0] && long[1..] == lines[1..] + [e] + after;
      assert !Resets(lines[0]) && !Stops(lines[0]);
      if IsBlank(lines[0]) {
        ScanCount(done + [Join(" ", open)], [], lines[1..], e, after);
      } else {
        ScanCount(done, open + [Strip(lines[0])], lines[1..], e, after);
      }
    }
  }

  /** The number of paragraphs is the number of blank lines since the last
      reset, plus one when the body-end line is reached. */
  lemma ParagraphCount(before: seq<string>, b: string, lines: seq<string>, e: string, after: seq<string>)
    requires Resets(b) && forall i :: 0 <= i < |before| ==> !Stops(before[i])
    requires forall i :: 0 <= i < |lines| ==> !Resets(lines[i]) && !Stops(lines[i])
    ensures |Paragraphs(before + [b] + lines)| == CountBlank(lines)
    ensures Stops(e) ==> |Paragraphs(before + [b] + lines + [e] + after)| == CountBlank(lines) + 1
  {
    ScanReset([], [], before, b, lines);
    ScanCount([], [], lines, e, after);
    ScanReset([], [], before, b, lines + [e] + after);
    assert before + [b] + (lines + [e] + after) == before + [b] + lines + [e] + after;
  }

  /** No paragraph holds a line feed when the input lines are lines as read from a file. */
  lemma {:induction false} ScanHasNoNewline(done: seq<string>, open: seq<string>, lines: seq<string>)
    requires forall i :: 0 <= i < |done| ==> '\n' !in done[i]
    requires forall i :: 0 <= i < |open| ==> '\n' !in open[i]
    requires forall i :: 0 <= i < |lines| ==> IsLine(lines[i])
    ensures forall i :: 0 <= i < |Scan(done, open, lines)| ==> '\n' !in Scan(done, open, lines)[i]
    decreases |lines|
  {
    if lines != [] {
      assert IsLine(lines[0]);
      if IsBlank(lines[0]) || !Contains(lines[0], BeginDocument) {
        JoinAvoids(" ", open, '\n');
      }
      if IsBlank(lines[0]) {
        ScanHasNoNewline(done + [Join(" ", open)], [], lines[1..]);
      } else if Contains(lines[0], BeginDocument) {
        ScanHasNoNewline([], [], lines[1..]);
      } else if !Contains(lines[0], EndDocument) {
        StrippedLineHasNoNewline(lines[0]);
        ScanHasNoNewline(done, open + [Strip(lines[0])], lines[1..]);
      }
    }
  }

  /** The flattened text reads back as its paragraphs, one per physical line:
      splitting it at the blank lines recovers them. */
  lemma FlattenedReadsBack(lines: seq<string>)
    requires forall i :: 0 <= i < |lines| ==> IsLine(lines[i])
    requires Paragraphs(lines) != []
    ensures Split(Flattened(lines), "\n\n") == Paragraphs(lines)
  {
    ScanHasNoNewline([], [], lines);
    SplitJoin("\n\n", Paragraphs(lines));
  }

  /** Text free of the characters that make up the diff delimiters. */
  predicate Unmarked(s: string)
  {
    '{' !in s && '+' !in s && '[' !in s && '-' !in s
  }

  /** A colour name: letters only. */
  predicate IsColourName(colour: string)
  {
    forall i :: 0 <= i < |colour| ==> 'a' <= colour[i] <= 'z' || 'A' <= colour[i] <= 'Z'
  }

  lemma ColourNameUnmarked(colour: string)
    requires IsColourName(colour)
    ensures Unmarked(colour) && '}' !in colour
    ensures '+' !in TextColour(colour) && '-' !in TextColour(colour) && '[' !in TextColour(colour)
  {
  }

  /** One start delimiter, some text and one end delimiter become the start
      command, the same text and the end command; nothing else changes. */
  lemma SubAndEncloseSpan(startPattern: string, startSub: string, endPattern: string, endSub: string,
                          pre: string, mid: string, post: string)
    requires startPattern != [] && endPattern != []
    requires startPattern[0] !in pre && startPattern[0] !in mid && startPattern[0] !in endPattern
    requires endPattern[0] !in pre && endPattern[0] !in startSub && endPattern[0] !in mid
    requires !Contains(post, startPattern) && !Contains(post, endPattern)
    ensures SubAndEnclose(startPattern, startSub, endPattern, endSub, pre + startPattern + mid + endPattern + post)
         == pre + startSub + mid + endSub + post
  {
    var sp, ep := startPattern, endPattern;
    ReplaceUnchangedIff(post, sp, startSub);
    ReplaceSkipsPrefix(mid + ep, post, sp, startSub);
    assert (mid + ep) + post == mid + ep + post;
    ReplaceOnce(pre, sp, startSub, mid + ep + post);
    assert pre + sp + (mid + ep + post) == pre + sp + mid + ep + post;
    assert pre + startSub + (mid + ep + post) == (pre + startSub + mid) + ep + post;
    ReplaceUnchangedIff(post, ep, endSub);
    ReplaceOnce(pre + startSub + mid, ep, endSub, post);
  }

  /** `highlight_additions` on a line with one addition span. */
  lemma AdditionSpan(pre: string, mid: string, post: string, colour: string)
    requires '{' !in pre && '+' !in pre && '{' !in mid && '+' !in mid && '+' !in post
    requires '+' !in colour
    ensures HighlightAdditions(pre + "{+" + mid + "+}" + post, colour)
         == pre + TextColour(colour) + mid + "}" + post
  {
    AbsentCharMeansAbsent(post, "{+", '+');
    AbsentCharMeansAbsent(post, "+}", '+');
    SubAndEncloseSpan("{+", TextColour(colour), "+}", "}", pre, mid, post);
  }

  /** `highlight_deletions` on a line with one deletion span. */
  lemma DeletionSpan(pre: string, mid: string, post: string, colour: string)
    requires '[' !in pre && '-' !in pre && '[' !in mid && '-' !in mid && '-' !in post
    requires '-' !in colour
    ensures HighlightDeletions(pre + "[-" + mid + "-]" + post, colour)
         == pre + TextColour(colour) + "\\st{" + mid + "}}" + post
  {
    AbsentCharMeansAbsent(post, "[-", '-');
    AbsentCharMeansAbsent(post, "-]", '-');
    SubAndEncloseSpan("[-", TextColour(colour) + "\\st{", "-]", "}}", pre, mid, post);
  }

  /** A start delimiter without its end delimiter is replaced all the same. */
  lemma LoneAdditionStart(pre: string, post: string, colour: string)
    requires '{' !in pre && '+' !in pre && '+' !in post && '+' !in colour
    ensures HighlightAdditions(pre + "{+" + post, colour) == pre + TextColour(colour) + post
  {
    var open := TextColour(colour);
    assert pre + "{+" + post == pre + ("{+" + post);
    ReplaceSkipsPrefix(pre, "{+" + post, "{+", open);
    ReplaceAtFront(post, "{+", open);
    ReplaceAbsent(post, "{+", open, '+');
    assert '+' !in open;
    assert pre + (open + post) == pre + open + post;
    ReplaceAbsent(pre + open + post, "+}", "}", '+');
  }

  /** `highlight_changes` on a line with an addition span followed by a
      deletion span, in colours named by letters. */
  lemma ChangesOfSeparateSpans(pre: string, added: string, mid: string, deleted: string, post: string,
                               additionColour: string, deletionColour: string)
    requires Unmarked(pre) && Unmarked(added) && Unmarked(mid) && Unmarked(deleted) && Unmarked(post)
    requires IsColourName(additionColour) && IsColourName(deletionColour)
    ensures HighlightChanges(pre + "{+" + added + "+}" + mid + "[-" + deleted + "-]" + post,
                             additionColour, deletionColour)
         == pre + TextColour(additionColour) + added + "}" + mid
              + TextColour(deletionColour) + "\\st{" + deleted + "}}" + post
  {
    ColourNameUnmarked(additionColour);
    ColourNameUnmarked(deletionColour);
    var addOpen, delOpen := TextColour(additionColour), TextColour(deletionColour);
    assert pre + "{+" + added + "+}" + mid + "[-" + deleted + "-]" + post
        == (pre + "{+" + added + "+}" + mid) + "[-" + deleted + "-]" + post;
    assert (pre + "{+" + added + "+}" + mid) + delOpen + "\\st{" + deleted + "}}" + post
        == pre + "{+" + added + "+}" + (mid + delOpen + "\\st{" + deleted + "}}" + post);
    assert pre + addOpen + added + "}" + (mid + delOpen + "\\st{" + deleted + "}}" + post)
        == pre + addOpen + added + "}" + mid + delOpen + "\\st{" + deleted + "}}" + post;
    DeletionSpan(pre + "{+" + added + "+}" + mid, deleted, post, deletionColour);
    AdditionSpan(pre, added, mid + TextColour(deletionColour) + "\\st{" + deleted + "}}" + post, additionColour);
  }

  /** The `{` characters of a strike-out command never start an addition
      delimiter, so only the `{+` after it is replaced. */
  lemma StrikeHidesNoAddition(deletionColour: string, rep: string, tail: string)
    requires IsColourName(deletionColour) && '{' !in tail
    ensures ReplaceAll(TextColour(deletionColour) + "\\st" + ("{+" + tail), "{+", rep)
         == TextColour(deletionColour) + "\\st" + (rep + tail)
  {
    var dc := deletionColour;
    ColourNameUnmarked(dc);
    var r3 := "{+" + tail;
    var r2 := "\\st" + r3;
    var r0 := (dc + "}") + ("{" + r2);
    assert TextColour(dc) + "\\st" + r3 == "\\textcolor" + ("{" + ((dc + "}") + ("{" + ("\\st" + r3))));
    assert TextColour(dc) + "\\st" + (rep + tail)
        == "\\textcolor" + ("{" + ((dc + "}") + ("{" + ("\\st" + (rep + tail)))));
    ReplaceAbsent(tail, "{+", rep, '{');
    ReplaceAtFront(tail, "{+", rep);
    ReplaceSkipsPrefix("\\st", r3, "{+", rep);
    ReplaceSkipsChar('{', r2, "{+", rep);
    ReplaceSkipsPrefix(dc + "}", "{" + r2, "{+", rep);
    assert r0[0] != '+' by {
      if dc == [] {
        assert r0[0] == '}';
      } else {
        assert r0[0] == dc[0];
      }
    }
    ReplaceSkipsChar('{', r0, "{+", rep);
    ReplaceSkipsPrefix("\\textcolor", "{" + r0, "{+", rep);
  }

  /** Deletions run first, so the `{` that `\st{` leaves in front of a `+` is
      taken as the start of an addition. */
  lemma DeletedAdditionStart(x: string, additionColour: string, deletionColour: string)
    requires Unmarked(x) && IsColourName(additionColour) && IsColourName(deletionColour)
    ensures HighlightChanges("[-+" + x + "-]", additionColour, deletionColour)
         == TextColour(deletionColour) + "\\st" + (TextColour(additionColour) + (x + "}}"))
  {
    var ac, dc := additionColour, deletionColour;
    ColourNameUnmarked(ac);
    ColourNameUnmarked(dc);
    assert "[-+" + x + "-]" == "" + "[-" + ("+" + x) + "-]" + "";
    assert "" + TextColour(dc) + "\\st{" + ("+" + x) + "}}" + ""
        == TextColour(dc) + "\\st" + ("{+" + (x + "}}"));
    DeletionSpan("", "+" + x, "", dc);
    StrikeHidesNoAddition(dc, TextColour(ac), x + "}}");
    ReplaceAbsent(TextColour(dc) + "\\st" + (TextColour(ac) + (x + "}}")), "+}", "}", '+');
  }
}
