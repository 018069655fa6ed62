/** Worked inputs for the bracket scan of one text child. */
module ScanExamples {
  import opened Mdast
  import opened Classifier
  import opened Normalizer
  import opened BracketScanner
  import opened Walker
  import opened WalkProperties

  /** `[x^2]` becomes one inline formula. */
  lemma InlineExample()
    ensures TextReplacement("[x^2]") == [InlineMath("x^2")]
  {
    var text := "[x^2]";
    assert FindClose(text, 4) == None;
    assert FindClose(text, 3) == None;
    assert FindClose(text, 2) == None;
    assert FindBracket(text, 4) == Some(4);
    assert FindBracket(text, 3) == Some(4);
    assert FindBracket(text, 2) == Some(4);
    assert FindBracket(text, 1) == Some(4);
    assert text[1..4] == "x^2";
    assert MatchAt(text, 0) == Some(Match(0, "x^2", false));
    assert Exec(text, 0) == Some(Match(0, "x^2", false));
    assert Exec(text, 5) == None;
    assert IsMathLike("x^2") by { assert AlternativeAt("x^2", 1); }
    assert NormalizeDecimalComma("x^2") == "x^2" by {
      NormalizeWithoutDecimalComma("x^2");
    }
    var m := Match(0, "x^2", false);
    assert m.End() == 5;
    SegmentsStep(text, 0, m);
    assert Segments(text, 5) == [];
    assert Segments(text, 0) == [Bracket(m)];
    assert RenderSegment(Bracket(m)) == InlineMath("x^2");
    assert RenderAll([Bracket(m)]) == [InlineMath("x^2")];
    assert HasMath([InlineMath("x^2")]) by { assert [InlineMath("x^2")][0].IsMath(); }
    assert ScanEnd(text, 0) == 5;
  }

  /** `[[x^2]]` becomes one display formula. */
  lemma DisplayExample()
    ensures TextReplacement("[[x^2]]") == [Math("x^2")]
  {
    var text := "[[x^2]]";
    assert FindClose(text, 5) == Some(5);
    assert FindClose(text, 4) == Some(5);
    assert FindClose(text, 3) == Some(5);
    assert FindClose(text, 2) == Some(5);
    assert text[2..5] == "x^2";
    var m := Match(0, "x^2", true);
    assert MatchAt(text, 0) == Some(m);
    assert Exec(text, 0) == Some(m);
    assert m.End() == 7;
    assert Exec(text, 7) == None;
    assert IsMathLike("x^2") by { assert AlternativeAt("x^2", 1); }
    assert NormalizeDecimalComma("x^2") == "x^2" by {
      NormalizeWithoutDecimalComma("x^2");
    }
    SegmentsStep(text, 0, m);
    assert Segments(text, 7) == [];
    assert Segments(text, 0) == [Bracket(m)];
    assert RenderSegment(Bracket(m)) == Math("x^2");
    assert RenderAll([Bracket(m)]) == [Math("x^2")];
    assert HasMath([Math("x^2")]) by { assert [Math("x^2")][0].IsMath(); }
    assert ScanEnd(text, 0) == 7;
  }

  /** The scan of `a [x_1,5] b`: the gap `a `, one single-bracket match
      at offset 2, and the scan stops at offset 9. */
  lemma DecimalCommaScan()
    ensures Segments("a [x_1,5] b", 0) == [Gap("a "), Bracket(Match(2, "x_1,5", false))]
    ensures ScanEnd("a [x_1,5] b", 0) == 9
  {
    var text := "a [x_1,5] b";
    assert FindClose(text, 10) == None;
    assert FindClose(text, 9) == None;
    assert FindClose(text, 8) == None;
    assert FindClose(text, 7) == None;
    assert FindClose(text, 6) == None;
    assert FindClose(text, 5) == None;
    assert FindClose(text, 4) == None;
    assert FindBracket(text, 7) == Some(8);
    assert FindBracket(text, 5) == Some(8);
    assert FindBracket(text, 3) == Some(8);
    assert text[3..8] == "x_1,5";
    var m := Match(2, "x_1,5", false);
    assert MatchAt(text, 2) == Some(m);
    assert MatchAt(text, 1) == None;
    assert MatchAt(text, 0) == None;
    assert Exec(text, 0) == Some(m);
    assert m.End() == 9;
    assert FindBracket(text, 11) == None;
    assert FindBracket(text, 10) == None;
    assert Exec(text, 11) == None;
    assert Exec(text, 9) == None;
    SegmentsStep(text, 0, m);
    assert Segments(text, 9) == [];
    assert text[0..2] == "a ";
  }

  /** The nodes rendered from that scan. */
  lemma DecimalCommaRender()
    ensures RenderAll(Segments("a [x_1,5] b", 0)) == [Text("a "), InlineMath("x_1.5")]
  {
    var m := Match(2, "x_1,5", false);
    DecimalCommaScan();
    assert IsMathLike("x_1,5") by { assert AlternativeAt("x_1,5", 1); }
    assert NormalizeDecimalComma("x_1,5") == "x_1.5" by {
      NormalizeDecimalCommaAt("x_1,5");
    }
    assert RenderSegment(Bracket(m)) == InlineMath("x_1.5");
    assert RenderAll([Bracket(m)]) == [InlineMath("x_1.5")];
    assert [Gap("a "), Bracket(m)][1..] == [Bracket(m)];
  }

  /** Inside a formula a decimal comma becomes a point, and the prose on
      either side of the brackets is kept as text: `a [x_1,5] b` becomes
      `a `, the formula `x_1.5` and ` b`. */
  lemma DecimalCommaExample()
    ensures TextReplacement("a [x_1,5] b") == [Text("a "), InlineMath("x_1.5"), Text(" b")]
  {
    var text := "a [x_1,5] b";
    DecimalCommaScan();
    DecimalCommaRender();
    assert HasMath([Text("a "), InlineMath("x_1.5")]) by {
      assert [Text("a "), InlineMath("x_1.5")][1].IsMath();
    }
    assert text[9..] == " b";
  }

  /** A citation marker has no math signal and stays as text. */
  lemma CitationExample()
    ensures TextReplacement("[citation 12]") == [Text("[citation 12]")]
  {
    var text := "[citation 12]";
    forall q | 0 <= q < |text|
      ensures !IsSignal(text[q])
    {
    }
    NoSignalNeverConverts(text);
  }

  /** A bare decimal number in brackets has no math signal either, so its
      comma is not rewritten and it stays as text. */
  lemma BareDecimalExample()
    ensures TextReplacement("[9,8]") == [Text("[9,8]")]
  {
    NoSignalNeverConverts("[9,8]");
  }

  /** The empty display brackets stay as text. */
  lemma EmptyDisplayExample()
    ensures TextReplacement("[[]]") == [Text("[[]]")]
  {
    NoSignalNeverConverts("[[]]");
  }
}
