/** The clean-up of generated lines. */
module GeneratedText {
  /** The maximal runs of lines that are not blank, in order: a text as its paragraphs. */
  function Paragraphs(lines: seq<string>): seq<seq<string>> {
    if lines == [] then [] else
      var read := lines[..|lines| - 1];
      WithLine(Paragraphs(read), InParagraph(read), lines[|lines| - 1])
  }

  /** Whether the last line read is one of a paragraph, which the next line then continues. */
  predicate InParagraph(read: seq<string>) {
    read != [] && read[|read| - 1] != ""
  }

  function WithLine(before: seq<seq<string>>, inParagraph: bool, line: string): seq<seq<string>> {
    if line == "" then before
    else if inParagraph && before != [] then before[..|before| - 1] + [before[|before| - 1] + [line]]
    else before + [[line]]
  }

  /** Paragraphs with one blank line between any two. */
  function Spaced(paragraphs: seq<seq<string>>): seq<string> {
    if paragraphs == [] then []
    else if |paragraphs| == 1 then paragraphs[0]
    else Spaced(paragraphs[..|paragraphs| - 1]) + [""] + paragraphs[|paragraphs| - 1]
  }

  /** Paragraphs have lines, and no blank ones. */
  ghost predicate Proper(paragraphs: seq<seq<string>>) {
    forall p <- paragraphs :: p != [] && "" !in p
  }

  lemma WithLineIsProper(before: seq<seq<string>>, inParagraph: bool, line: string)
    requires Proper(before)
    ensures Proper(WithLine(before, inParagraph, line))
  {
    var after := WithLine(before, inParagraph, line);
    forall k | 0 <= k < |after| ensures after[k] != [] && "" !in after[k] {
      if k < |before| { assert before[k] in before; }
    }
  }

  lemma {:induction false} ParagraphsAreProper(lines: seq<string>)
    ensures Proper(Paragraphs(lines))
    ensures InParagraph(lines) ==> Paragraphs(lines) != []
  {
    if lines != [] {
      var read := lines[..|lines| - 1];
      ParagraphsAreProper(read);
      WithLineIsProper(Paragraphs(read), InParagraph(read), lines[|lines| - 1]);
    }
  }

  lemma ParagraphsStep(read: seq<string>, line: string)
    ensures Paragraphs(read + [line]) == WithLine(Paragraphs(read), InParagraph(read), line)
  {
    var all := read + [line];
    assert all[..|all| - 1] == read;
  }

  /** normalize_generated_lines, up to the final join of the lines: the paragraphs are kept, with one blank line
    * between two and none at the ends. */
  method NormalizeGeneratedLines(lines: seq<string>) returns (normalized: seq<string>)
    ensures normalized == Spaced(Paragraphs(lines))
  {
    normalized := [];
    ghost var kept: seq<seq<string>> := [];
    for i := 0 to |lines|
      invariant HasParagraphs(lines[..i], kept) && Ending(normalized, kept, IsBlankAt(lines[..i]))
    {
      var line := lines[i];
      Turn(lines[..i], line, lines[..i + 1], normalized, kept);
      kept := WithLine(kept, InParagraph(lines[..i]), line);
      if line == "" && (normalized == [] || normalized[|normalized| - 1] == "") {
        continue;
      }
      normalized := normalized + [line];
    }
    assert lines[..|lines|] == lines;
    NoBlankEnd(lines);
    while normalized != [] && normalized[|normalized| - 1] == ""
      invariant normalized == Spaced(Paragraphs(lines))
                || (Paragraphs(lines) != [] && normalized == Spaced(Paragraphs(lines)) + [""])
      decreases |normalized|
    {
      normalized := normalized[..|normalized| - 1];
    }
  }

  /** Whether the last line read is blank. */
  predicate IsBlankAt(read: seq<string>) {
    read != [] && read[|read| - 1] == ""
  }

  /** The loop's lines: the paragraphs so far, and a blank line if the last line read was blank. */
  ghost predicate Ending(normalized: seq<string>, kept: seq<seq<string>>, blank: bool) {
    if blank && kept != [] then normalized == Spaced(kept) + [""] else normalized == Spaced(kept)
  }

  lemma {:induction false} SpacedEnds(paragraphs: seq<seq<string>>)
    requires Proper(paragraphs) && paragraphs != []
    ensures Spaced(paragraphs) != [] && Spaced(paragraphs)[|Spaced(paragraphs)| - 1] != ""
  {
    var last := paragraphs[|paragraphs| - 1];
    assert last in paragraphs;
    assert last[|last| - 1] in last;
  }

  lemma NoBlankEnd(lines: seq<string>)
    ensures var kept := Spaced(Paragraphs(lines)); kept == [] || kept[|kept| - 1] != ""
  {
    ParagraphsAreProper(lines);
    if Paragraphs(lines) != [] { SpacedEnds(Paragraphs(lines)); }
  }

  lemma Turn(read: seq<string>, line: string, after: seq<string>, normalized: seq<string>, kept: seq<seq<string>>)
    requires HasParagraphs(read, kept) && Ending(normalized, kept, IsBlankAt(read)) && after == read + [line]
    ensures var isDropped := line == "" && (normalized == [] || normalized[|normalized| - 1] == "");
            var more := WithLine(kept, InParagraph(read), line);
            HasParagraphs(after, more)
            && Ending(if isDropped then normalized else normalized + [line], more, IsBlankAt(after))
  {
    AppendLine(read, kept, line, WithLine(kept, InParagraph(read), line));
    ParagraphsAreProper(read);
    OneMoreLine(normalized, kept, IsBlankAt(read), InParagraph(read), line);
    assert after[|after| - 1] == line;
  }

  /** One turn of the loop: the line continues a paragraph, begins one, or is blank. */
  lemma OneMoreLine(normalized: seq<string>, kept: seq<seq<string>>, blank: bool, inParagraph: bool, line: string)
    requires Ending(normalized, kept, blank) && Proper(kept)
    requires (inParagraph ==> kept != []) && (kept != [] ==> inParagraph != blank)
    ensures var isDropped := line == "" && (normalized == [] || normalized[|normalized| - 1] == "");
            Ending(if isDropped then normalized else normalized + [line], WithLine(kept, inParagraph, line), line == "")
  {
    if kept != [] { SpacedEnds(kept); }
    if line != "" {
      if inParagraph {
        SpacedGrows(kept, line, Spaced(kept));
      } else if kept != [] {
        SpacedStarts(kept, line);
      }
    }
  }

  /** The last paragraph stands behind a blank line, unless it is the only one. */
  lemma SpacedSplits(front: seq<seq<string>>, last: seq<string>)
    ensures Spaced(front + [last]) == if front == [] then last else Spaced(front) + [""] + last
  {
    var ps := front + [last];
    assert ps[..|ps| - 1] == front && ps[|ps| - 1] == last;
  }

  lemma SpacedStarts(ps: seq<seq<string>>, line: string)
    requires ps != []
    ensures Spaced(ps + [[line]]) == Spaced(ps) + [""] + [line]
  {
    SpacedSplits(ps, [line]);
  }

  ghost predicate IsSpaced(ps: seq<seq<string>>, lines: seq<string>) {
    Spaced(ps) == lines
  }

  lemma SpacedGrows(ps: seq<seq<string>>, line: string, lines: seq<string>)
    requires ps != [] && IsSpaced(ps, lines)
    ensures IsSpaced(ps[..|ps| - 1] + [ps[|ps| - 1] + [line]], lines + [line])
  {
    var front, last := ps[..|ps| - 1], ps[|ps| - 1];
    assert ps == front + [last];
    LastGrows(front, last, line, lines);
  }

  lemma LastGrows(front: seq<seq<string>>, last: seq<string>, line: string, lines: seq<string>)
    requires IsSpaced(front + [last], lines)
    ensures IsSpaced(front + [last + [line]], lines + [line])
  {
    SpacedSplits(front, last);
    SpacedSplits(front, last + [line]);
    Regroup(Spaced(front) + [""], last, [line]);
  }

  lemma Regroup(a: seq<string>, b: seq<string>, c: seq<string>)
    ensures a + b + c == a + (b + c)
  {}

  ghost predicate HasParagraphs(lines: seq<string>, ps: seq<seq<string>>) {
    Paragraphs(lines) == ps
  }

  lemma AppendLine(read: seq<string>, ps: seq<seq<string>>, line: string, after: seq<seq<string>>)
    requires HasParagraphs(read, ps) && after == WithLine(ps, InParagraph(read), line)
    ensures HasParagraphs(read + [line], after)
  {
    ParagraphsStep(read, line);
  }

  lemma {:induction false} AppendParagraph(x: seq<string>, p: seq<string>, before: seq<seq<string>>)
    requires p != [] && "" !in p && !InParagraph(x) && HasParagraphs(x, before)
    ensures HasParagraphs(x + p, before + [p])
  {
    var front, line := p[..|p| - 1], p[|p| - 1];
    assert line in p && p == front + [line];
    if front == [] {
      AppendLine(x, before, line, before + [p]);
    } else {
      AppendParagraph(x, front, before);
      assert (x + front)[|x + front| - 1] == p[|p| - 2] && p[|p| - 2] in p;
      ContinuesParagraph(before, front, line);
      AppendLine(x + front, before + [front], line, before + [p]);
      Regroup(x, front, [line]);
    }
  }

  lemma ContinuesParagraph(before: seq<seq<string>>, p: seq<string>, line: string)
    requires line != ""
    ensures WithLine(before + [p], true, line) == before + [p + [line]]
  {
  }

  /** Normalizing keeps the paragraphs, so that doing it again changes nothing. */
  lemma {:induction false} ParagraphsAreKept(paragraphs: seq<seq<string>>)
    requires Proper(paragraphs)
    ensures Paragraphs(Spaced(paragraphs)) == paragraphs
  {
    if paragraphs != [] {
      var front, last := paragraphs[..|paragraphs| - 1], paragraphs[|paragraphs| - 1];
      assert last in paragraphs;
      assert paragraphs == front + [last];
      if front == [] {
        AppendParagraph([], last, []);
        assert [] + last == last;
      } else {
        ParagraphsAreKept(front);
        var x := Spaced(front) + [""];
        assert x[..|x| - 1] == Spaced(front);
        ParagraphsStep(Spaced(front), "");
        AppendParagraph(x, last, front);
      }
    }
  }

  /** Normalizing twice is normalizing once. */
  lemma NormalizingIsIdempotent(lines: seq<string>)
    ensures Spaced(Paragraphs(Spaced(Paragraphs(lines)))) == Spaced(Paragraphs(lines))
  {
    ParagraphsAreProper(lines);
    ParagraphsAreKept(Paragraphs(lines));
  }

  /** The lines that are not blank, in order. */
  function Written(lines: seq<string>): seq<string> {
    if lines == [] then [] else
      var written, last := Written(lines[..|lines| - 1]), lines[|lines| - 1];
      if last == "" then written else written + [last]
  }

  lemma {:induction false} WrittenAppends(x: seq<string>, y: seq<string>)
    ensures Written(x + y) == Written(x) + Written(y)
  {
    if y == [] {
      assert x + y == x;
    } else {
      WrittenAppends(x, y[..|y| - 1]);
      assert (x + y)[..|x + y| - 1] == x + y[..|y| - 1];
    }
  }

  /** Normalizing keeps every line that is not blank, in its place among the others. */
  lemma {:induction false} NoTokenIsLost(lines: seq<string>)
    ensures Written(Spaced(Paragraphs(lines))) == Written(lines)
  {
    if lines != [] {
      var read, line := lines[..|lines| - 1], lines[|lines| - 1];
      NoTokenIsLost(read);
      ParagraphsAreProper(read);
      var ps := Paragraphs(read);
      WrittenAppends(Spaced(ps), [line]);
      WrittenOne(line);
      if line != "" && ps != [] {
        if InParagraph(read) {
          SpacedGrows(ps, line, Spaced(ps));
        } else {
          SpacedStarts(ps, line);
          WrittenAppends(Spaced(ps), [""] + [line]);
          WrittenAppends([""], [line]);
          WrittenOne("");
        }
      }
    }
  }

  lemma WrittenOne(line: string)
    ensures Written([line]) == if line == "" then [] else [line]
  {
    assert [line][..0] == [];
  }
}
