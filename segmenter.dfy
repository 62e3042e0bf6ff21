/**
  How a generated response is cut into chat messages: split on blank lines ("\n\n") when there
  are any, splitting further on "\n" every paragraph whose stripped text still spans several
  lines, and otherwise split on every "\n". Each part is then stripped and blank parts are not
  sent.
*/
module Segmenter {
  import opened Text

  /** One "\n\n"-paragraph's contribution: its lines when its stripped text spans several lines,
      otherwise the paragraph itself. */
  function ExpandParagraph(p: string): (parts: seq<string>)
    ensures |parts| >= 1
  {
    if Contains(Strip(p), "\n") then Split(p, "\n") else [p]
  }

  /** The paragraphs' contributions, in order. */
  function ExpandAll(paragraphs: seq<string>): seq<string>
    decreases |paragraphs|
  {
    if paragraphs == [] then []
    else ExpandAll(paragraphs[..|paragraphs| - 1]) + ExpandParagraph(paragraphs[|paragraphs| - 1])
  }

  /** The parts the delivery loop iterates over, blank ones included. */
  function Segments(response: string): (parts: seq<string>)
    ensures |parts| >= 1
  {
    if Contains(response, "\n\n") then
      var ps := Split(response, "\n\n");
      ExpandAllNonEmpty(ps);
      ExpandAll(ps)
    else Split(response, "\n")
  }

  lemma {:induction false} ExpandAllNonEmpty(paragraphs: seq<string>)
    requires paragraphs != []
    ensures |ExpandAll(paragraphs)| >= 1
  {
  }

  /** The splitter as the handler runs it: split on "\n\n" and extend the list of parts
      paragraph by paragraph, or split on "\n" when there is no blank line. */
  method SplitResponse(response: string) returns (parts: seq<string>)
    ensures parts == Segments(response)
  {
    if Contains(response, "\n\n") {
      var paragraphs := Split(response, "\n\n");
      parts := [];
      var i := 0;
      while i < |paragraphs|
        invariant 0 <= i <= |paragraphs|
        invariant parts == ExpandAll(paragraphs[..i])
      {
        var p := paragraphs[i];
        assert paragraphs[..i + 1][..i] == paragraphs[..i];
        if Contains(Strip(p), "\n") {
          parts := parts + Split(p, "\n");
        } else {
          parts := parts + [p];
        }
        i := i + 1;
      }
      assert paragraphs[..i] == paragraphs;
    } else {
      parts := Split(response, "\n");
    }
  }

  /** What one part sends: its stripped text, or nothing when that is blank. */
  function Kept(part: string): seq<string>
  {
    var s := Strip(part);
    if s == [] then [] else [s]
  }

  /** The texts the delivery loop sends, in order: the stripped non-blank parts. */
  function Deliverable(parts: seq<string>): (sent: seq<string>)
    ensures |sent| <= |parts|
    decreases |parts|
  {
    if parts == [] then []
    else Deliverable(parts[..|parts| - 1]) + Kept(parts[|parts| - 1])
  }

  /** Every sent text is non-empty and already stripped. */
  lemma {:induction false} DeliverableClean(parts: seq<string>)
    ensures forall k :: 0 <= k < |Deliverable(parts)| ==>
      Deliverable(parts)[k] != [] && Strip(Deliverable(parts)[k]) == Deliverable(parts)[k]
    decreases |parts|
  {
    if parts != [] {
      var last := parts[|parts| - 1];
      DeliverableClean(parts[..|parts| - 1]);
      StripIdempotent(last);
    }
  }

  /** What a concatenation of part lists sends is what each sends, in order. */
  lemma {:induction false} DeliverableConcat(a: seq<string>, b: seq<string>)
    ensures Deliverable(a + b) == Deliverable(a) + Deliverable(b)
    decreases |b|
  {
    if b == [] {
      assert a + b == a;
    } else {
      var b', last := b[..|b| - 1], b[|b| - 1];
      assert b == b' + [last];
      assert a + b == (a + b') + [last];
      DeliverableSnoc(a + b', last);
      DeliverableSnoc(b', last);
      DeliverableConcat(a, b');
      SeqAssoc(Deliverable(a), Deliverable(b'), Kept(last));
    }
  }

  lemma SeqAssoc<T>(x: seq<T>, y: seq<T>, z: seq<T>)
    ensures (x + y) + z == x + (y + z)
  {
  }

  lemma DeliverableSnoc(parts: seq<string>, part: string)
    ensures Deliverable(parts + [part]) == Deliverable(parts) + Kept(part)
  {
    assert (parts + [part])[..|parts|] == parts;
  }

  /** Parts that are whitespace only send nothing. */
  lemma {:induction false} DeliverableBlank(parts: seq<string>)
    requires forall k :: 0 <= k < |parts| ==> AllSpace(parts[k])
    ensures Deliverable(parts) == []
    decreases |parts|
  {
    if parts != [] {
      DeliverableBlank(parts[..|parts| - 1]);
      StripShape(parts[|parts| - 1]);
    }
  }

  lemma ExpandAllSnoc(paragraphs: seq<string>, p: string)
    ensures ExpandAll(paragraphs + [p]) == ExpandAll(paragraphs) + ExpandParagraph(p)
  {
    assert (paragraphs + [p])[..|paragraphs|] == paragraphs;
  }

  lemma SplitEmpty(sep: string)
    requires sep != []
    ensures Split([], sep) == [[]]
  {
    assert Find([], sep) == -1;
  }

  /** The two ways a blank line is read: a newline, then a text that starts with one. */
  lemma DoubleNewlineRegroup(a: string, b: string)
    ensures a + "\n\n" + b == a + ['\n'] + ("\n" + b)
    ensures "\n" + b == [] + ['\n'] + b
  {
  }

  /** A blank line in the text shows up as one empty line between the two sides. */
  lemma SplitDoubleNewline(a: string, b: string)
    ensures Split(a + "\n\n" + b, "\n") == Split(a, "\n") + [[]] + Split(b, "\n")
  {
    var nb := "\n" + b;
    assert Split(a + "\n\n" + b, "\n") == Split(a, "\n") + Split(nb, "\n") by {
      DoubleNewlineRegroup(a, b);
      SplitConcat(a, '\n', nb);
    }
    assert Split(nb, "\n") == [[]] + Split(b, "\n") by {
      DoubleNewlineRegroup(a, b);
      SplitConcat([], '\n', b);
      SplitEmpty("\n");
    }
  }

  lemma DeliverableOne(p: string)
    ensures Deliverable([p]) == Kept(p)
  {
    DeliverableSnoc([], p);
  }

  /** A paragraph kept whole (its stripped text has no "\n") sends what its lines would send. */
  lemma {:induction false} SingleLineParagraph(p: string)
    requires '\n' !in Strip(p)
    ensures Deliverable(Split(p, "\n")) == Kept(p)
    decreases |p|, 2
  {
    if '\n' in p {
      ContainsChar(p, '\n');
      FindCharCut(p, '\n');
      var k := Find(p, "\n");
      var x, y := p[..k], p[k + 1..];
      SplitConcat(x, '\n', y);
      DeliverableConcat(Split(x, "\n"), Split(y, "\n"));
      SingleLineSides(p, k, x, y);
    } else {
      SplitNoSeparator(p, '\n');
      DeliverableOne(p);
    }
  }

  /** The step of SingleLineParagraph: the first "\n" of the paragraph, at `k`, lies in the
      whitespace before or after its stripped text. */
  lemma {:induction false} SingleLineSides(p: string, k: nat, x: string, y: string)
    requires '\n' !in Strip(p)
    requires k < |p| && x == p[..k] && y == p[k + 1..] && p == x + ['\n'] + y && '\n' !in x
    ensures Deliverable(Split(x, "\n")) + Deliverable(Split(y, "\n")) == Kept(p)
    decreases |p|, 1
  {
    var i, j := CoreStart(p), CoreEnd(p);
    if i >= j {
      StripShape(p);
      SidesBlank(p, x, y);
    } else if k < i {
      assert AllSpace(x);
      SidesBefore(p, x, y);
    } else {
      forall m | i <= m < j ensures p[m] != '\n' {
        assert Strip(p)[m - i] == p[m];
      }
      assert p[k] == '\n';
      assert AllSpace(y);
      SidesAfter(p, x, y);
    }
  }

  lemma SidesBlank(p: string, x: string, y: string)
    requires AllSpace(p) && p == x + ['\n'] + y
    ensures Deliverable(Split(x, "\n")) + Deliverable(Split(y, "\n")) == Kept(p)
  {
    BlankSides(x, y);
    assert Deliverable(Split(x, "\n")) == [] by { BlankLines(x); }
    assert Deliverable(Split(y, "\n")) == [] by { BlankLines(y); }
    assert Kept(p) == [] by { StripShape(p); }
  }

  /** Both sides of a blank text's newline are blank. */
  lemma BlankSides(x: string, y: string)
    requires AllSpace(x + ['\n'] + y)
    ensures AllSpace(x) && AllSpace(y)
  {
    var p := x + ['\n'] + y;
    assert forall m :: 0 <= m < |x| ==> x[m] == p[m];
    assert forall m :: 0 <= m < |y| ==> y[m] == p[|x| + 1 + m];
  }

  /** The lines of a whitespace-only text send nothing. */
  lemma BlankLines(s: string)
    requires AllSpace(s)
    ensures Deliverable(Split(s, "\n")) == []
  {
    SplitAllSpace(s, "\n");
    DeliverableBlank(Split(s, "\n"));
  }

  lemma {:induction false} SidesBefore(p: string, x: string, y: string)
    requires '\n' !in Strip(p)
    requires AllSpace(x) && p == x + ['\n'] + y
    ensures Deliverable(Split(x, "\n")) + Deliverable(Split(y, "\n")) == Kept(p)
    decreases |p|, 0
  {
    BlankLines(x);
    StripDropSpaceHead(x, y);
    SingleLineParagraph(y);
  }

  lemma SidesAfter(p: string, x: string, y: string)
    requires AllSpace(y) && '\n' !in x && p == x + ['\n'] + y
    ensures Deliverable(Split(x, "\n")) + Deliverable(Split(y, "\n")) == Kept(p)
  {
    BlankLines(y);
    StripDropSpaceTail(x, y);
    OneLine(x);
  }

  /** Whitespace and a newline in front of a text leave its stripped form alone. */
  lemma StripDropSpaceHead(x: string, y: string)
    requires AllSpace(x)
    ensures Strip(x + ['\n'] + y) == Strip(y)
  {
    var w := x + ['\n'];
    assert AllSpace(w) by {
      assert forall m :: 0 <= m < |x| ==> w[m] == x[m];
    }
    StripSpacePrefix(w, y);
  }

  /** A newline and whitespace after a text leave its stripped form alone. */
  lemma StripDropSpaceTail(x: string, y: string)
    requires AllSpace(y)
    ensures Strip(x + ['\n'] + y) == Strip(x)
  {
    var w := ['\n'] + y;
    assert AllSpace(w) by {
      assert forall m :: 1 <= m < |w| ==> w[m] == y[m - 1];
    }
    assert x + ['\n'] + y == x + w;
    StripSpaceSuffix(x, w);
  }

  /** A text without a newline is one line. */
  lemma OneLine(x: string)
    requires '\n' !in x
    ensures Deliverable(Split(x, "\n")) == Kept(x)
  {
    SplitNoSeparator(x, '\n');
    DeliverableOne(x);
  }

  /** Splitting the joined paragraphs on every "\n" sends what the two-tier split sends. */
  lemma {:induction false} ParagraphsAsLines(paragraphs: seq<string>)
    requires paragraphs != []
    ensures Deliverable(Split(Join(paragraphs, "\n\n"), "\n")) == Deliverable(ExpandAll(paragraphs))
    decreases |paragraphs|
  {
    var init, p := paragraphs[..|paragraphs| - 1], paragraphs[|paragraphs| - 1];
    assert paragraphs == init + [p];
    ExpandAllSnoc(init, p);
    DeliverableConcat(ExpandAll(init), ExpandParagraph(p));
    ParagraphLines(p);
    if init == [] {
      assert Join(paragraphs, "\n\n") == p;
    } else {
      ParagraphsAsLines(init);
      LinesOfJoinSnoc(init, p);
    }
  }

  /** One more paragraph adds its lines' texts after the others'; the blank line between them
      sends nothing. */
  lemma LinesOfJoinSnoc(init: seq<string>, p: string)
    requires init != []
    ensures Deliverable(Split(Join(init + [p], "\n\n"), "\n")) ==
      Deliverable(Split(Join(init, "\n\n"), "\n")) + Deliverable(Split(p, "\n"))
  {
    var a := Join(init, "\n\n");
    var la, lp := Split(a, "\n"), Split(p, "\n");
    assert Split(Join(init + [p], "\n\n"), "\n") == la + [[]] + lp by {
      JoinSnoc(init, p, "\n\n");
      SplitDoubleNewline(a, p);
    }
    assert Deliverable(la + [[]]) == Deliverable(la) by {
      DeliverableSnoc(la, []);
      assert Kept([]) == [] by {
        StripShape([]);
      }
    }
    DeliverableConcat(la + [[]], lp);
  }

  /** One paragraph sends what its lines send, whichever way it is expanded. */
  lemma ParagraphLines(p: string)
    ensures Deliverable(ExpandParagraph(p)) == Deliverable(Split(p, "\n"))
  {
    if !Contains(Strip(p), "\n") {
      ContainsChar(Strip(p), '\n');
      SingleLineParagraph(p);
      DeliverableOne(p);
    }
  }

  /** The two-tier split sends exactly the texts that splitting the response on every "\n"
      would send: the stripped non-blank lines, in order. Only the loop indices, and with them
      the pacing, differ. */
  lemma SegmentsSendLines(response: string)
    ensures Deliverable(Segments(response)) == Deliverable(Split(response, "\n"))
  {
    if Contains(response, "\n\n") {
      SplitJoin(response, "\n\n");
      ParagraphsAsLines(Split(response, "\n\n"));
    }
  }

  /** An answer made only of whitespace and blank lines sends nothing. */
  lemma BlankAnswerSendsNothing(response: string)
    requires AllSpace(response)
    ensures Deliverable(Segments(response)) == []
  {
    SegmentsSendLines(response);
    BlankLines(response);
  }

  /** A response without any newline is one part, the response itself. */
  lemma SingleLineResponse(response: string)
    requires '\n' !in response
    ensures Segments(response) == [response]
    ensures Deliverable(Segments(response)) == (if AllSpace(response) then [] else [Strip(response)])
  {
    NoCharNoOccurrence(response, '\n');
    forall k | 0 <= k && k + 2 <= |response| ensures !OccursAt(response, "\n\n", k) {
      assert response[k..k + 2][0] == response[k];
    }
    SplitNoSeparator(response, '\n');
    assert [response] == [] + [response];
    StripShape(response);
  }

  /** The worked example: a blank line, then a paragraph of two lines, gives three parts. */
  lemma ExampleTwoTier()
    ensures Segments("A\n\nB\nC") == ["A", "B", "C"]
  {
    var r := "A\n\nB\nC";
    assert Contains(r, "\n\n") && Split(r, "\n\n") == ["A", "B\nC"] by {
      ExampleParagraphs();
    }
    ExampleExpand();
  }

  lemma ExampleExpand()
    ensures ExpandAll(["A", "B\nC"]) == ["A", "B", "C"]
  {
    ExpandTwo("A", "B\nC");
    OneLineParagraph("A");
    ExampleLines();
  }

  lemma ExpandTwo(a: string, b: string)
    ensures ExpandAll([a, b]) == ExpandParagraph(a) + ExpandParagraph(b)
  {
    var ea, eb := ExpandParagraph(a), ExpandParagraph(b);
    assert ExpandAll([a]) == ea by {
      ExpandAllSnoc([], a);
      assert [] + [a] == [a];
      assert [] + ea == ea;
    }
    assert ExpandAll([a, b]) == ExpandAll([a]) + eb by {
      ExpandAllSnoc([a], b);
      assert [a] + [b] == [a, b];
    }
  }

  lemma ExampleParagraphs()
    ensures Find("A\n\nB\nC", "\n\n") == 1
    ensures Split("A\n\nB\nC", "\n\n") == ["A", "B\nC"]
  {
    assert "A\n\nB\nC" == "A" + "\n\n" + "B\nC";
    BreakAfterLine("A", "B\nC");
    assert Split("B\nC", "\n\n") == ["B\nC"] by { ExampleNoBreak("B\nC"); }
  }

  /** A blank line after a single line is the first paragraph break. */
  lemma BreakAfterLine(a: string, b: string)
    requires '\n' !in a
    ensures Find(a + "\n\n" + b, "\n\n") == |a|
    ensures Split(a + "\n\n" + b, "\n\n") == [a] + Split(b, "\n\n")
  {
    var s := a + "\n\n" + b;
    assert OccursAt(s, "\n\n", |a|) by {
      assert s[|a|..|a| + 2] == "\n\n";
    }
    forall k | 0 <= k < |a| ensures !OccursAt(s, "\n\n", k) {
      assert s[k..k + 2][0] == a[k];
    }
    FindIs(s, "\n\n", |a|);
    SplitCut(s, "\n\n", |a|);
    assert s[..|a|] == a;
    assert s[|a| + 2..] == b;
  }

  lemma ExampleNoBreak(rest: string)
    requires rest == "B\nC"
    ensures Find(rest, "\n\n") == -1
  {
    assert '\n' !in rest[2..];
    assert !OccursAt(rest, "\n\n", 0) by {
      assert rest[0..2][0] == 'B';
    }
    assert !OccursAt(rest, "\n\n", 1) by {
      assert rest[1..3][1] == 'C';
    }
  }

  /** A paragraph without a newline is kept as it is. */
  lemma OneLineParagraph(p: string)
    requires '\n' !in p
    ensures ExpandParagraph(p) == [p]
  {
    StripSubstring(p);
    ContainsChar(Strip(p), '\n');
  }

  /** Stripping only removes characters. */
  lemma StripSubstring(s: string)
    ensures forall c :: c in Strip(s) ==> c in s
  {
    var i, j := CoreStart(s), CoreEnd(s);
    if i < j {
      forall c | c in Strip(s) ensures c in s {
        var m :| 0 <= m < j - i && Strip(s)[m] == c;
        assert s[i + m] == c;
      }
    }
  }

  lemma ExampleLines()
    ensures ExpandParagraph("B\nC") == ["B", "C"]
  {
    var bc := "B\nC";
    assert Strip(bc) == bc by { StripUnique(bc, 0, 3); }
    assert Contains(bc, "\n") by {
      assert bc[1] == '\n';
      ContainsChar(bc, '\n');
    }
    assert bc == "B" + ['\n'] + "C";
    SplitConcat("B", '\n', "C");
    SplitNoSeparator("B", '\n');
    SplitNoSeparator("C", '\n');
  }
}
