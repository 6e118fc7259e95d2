/**
 * The scenarios of the calculator's tests, stated on the specification
 * functions that the operations' contracts refer to, with a newline
 * separator.
 */
module Scenarios {
  import opened GoStrings
  import opened SetText
  import opened Calculator
  import UnionOperator

  lemma SingleCharacterIsOneToken(c: char)
    requires c != '\n'
    ensures !Contains([c], "\n")
  {
    forall j: nat
      ensures !OccursAt([c], "\n", j)
    {
      if j == 0 {
        assert [c][0..1][0] == c;
      }
    }
  }

  /** A text of three one-character lines splits into those lines. */
  lemma ThreeLines(x: char, y: char, z: char)
    requires x != '\n' && y != '\n' && z != '\n'
    ensures Split([x] + "\n" + [y] + "\n" + [z], "\n") == [[x], [y], [z]]
  {
    SingleCharacterIsOneToken(x);
    SingleCharacterIsOneToken(y);
    SingleCharacterIsOneToken(z);
    NewlineIsUnbordered();
    var lines := [[x], [y], [z]];
    assert lines[..2] == [[x], [y]] && lines[..2][..1] == [[x]];
    assert Join([[x]], "\n") == [x];
    assert Join([[x], [y]], "\n") == [x] + "\n" + [y];
    assert Join(lines, "\n") == [x] + "\n" + [y] + "\n" + [z];
    SplitJoin(lines, "\n");
  }

  lemma ElementsOfThreeLines(x: char, y: char, z: char)
    requires x != '\n' && y != '\n' && z != '\n'
    ensures Elements([x] + "\n" + [y] + "\n" + [z], "\n") == {[x], [y], [z]}
  {
    ThreeLines(x, y, z);
  }

  // Proof step: a fact about literals, kept as its own lemma so the proofs that use it stay small.
  lemma FirstTextSpelled()
    ensures "1\n2\n3" == ['1'] + "\n" + ['2'] + "\n" + ['3']
  {
  }

  // Proof step: a fact about literals, kept as its own lemma so the proofs that use it stay small.
  lemma SecondTextSpelled()
    ensures "3\n4\n5" == ['3'] + "\n" + ['4'] + "\n" + ['5']
  {
  }

  // Proof step: a fact about literals, kept as its own lemma so the proofs that use it stay small.
  lemma DisjointTextSpelled()
    ensures "4\n5\n6" == ['4'] + "\n" + ['5'] + "\n" + ['6']
  {
  }

  // Proof step: a fact about literals, kept as its own lemma so the proofs that use it stay small.
  lemma FourLineTextSpelled()
    ensures "1\n2\n3\n4" == ['1'] + "\n" + ['2'] + "\n" + ['3'] + "\n" + ['4']
  {
  }

  lemma SplitOfFirstText()
    ensures Split("1\n2\n3", "\n") == ["1", "2", "3"]
  {
    ThreeLines('1', '2', '3');
    FirstTextSpelled();
  }

  lemma SplitOfSecondText()
    ensures Split("3\n4\n5", "\n") == ["3", "4", "5"]
  {
    ThreeLines('3', '4', '5');
    SecondTextSpelled();
  }

  lemma ElementsOfFirstText()
    ensures Elements("1\n2\n3", "\n") == {"1", "2", "3"}
  {
    ElementsOfThreeLines('1', '2', '3');
    FirstTextSpelled();
  }

  lemma ElementsOfSecondText()
    ensures Elements("3\n4\n5", "\n") == {"3", "4", "5"}
  {
    ElementsOfThreeLines('3', '4', '5');
    SecondTextSpelled();
  }

  lemma CommonOfSecondTokens()
    ensures Common(["3", "4", "5"], {"1", "2", "3"}) == ["3"]
  {
    var lookup := {"1", "2", "3"};
    assert "3" in lookup && "4" !in lookup && "5" !in lookup;
    assert ["3"] == [] + ["3"] && ["3", "4"] == ["3"] + ["4"] && ["3", "4", "5"] == ["3", "4"] + ["5"];
    CommonOfLonger([], "3", lookup);
    CommonOfLonger(["3"], "4", lookup);
    CommonOfLonger(["3", "4"], "5", lookup);
  }

  // Proof step: a fact about literals, kept as its own lemma so the proofs that use it stay small.
  lemma ThreeTokensAsSet(a: string, b: string, c: string)
    ensures ToSet([a, b, c]) == {a, b, c}
  {
  }

  lemma IntersectionOfOverlappingTexts()
    ensures IntersectionOf("1\n2\n3", "3\n4\n5", "\n") == ["3"]
  {
    SplitOfFirstText();
    SplitOfSecondText();
    ThreeTokensAsSet("1", "2", "3");
    CommonOfSecondTokens();
  }

  lemma UnionOfOverlappingTexts()
    ensures UnionOf("1\n2\n3", "3\n4\n5", "\n") == {"1", "2", "3", "4", "5"}
  {
    ElementsOfFirstText();
    ElementsOfSecondText();
  }

  lemma DifferenceOfOverlappingTexts()
    ensures DifferenceOf("1\n2\n3", "3\n4\n5", "\n") == {"1", "2"}
  {
    ElementsOfFirstText();
    ElementsOfSecondText();
    DifferenceOfElements("1\n2\n3", "3\n4\n5", "\n");
    LinesOnlyInFirst();
  }

  // Proof step: a fact about literals, kept as its own lemma so the proofs that use it stay small.
  lemma LinesOnlyInFirst()
    ensures {"1", "2", "3"} - {"3", "4", "5"} == {"1", "2"}
  {
  }

  /** "1\n2\n3" and "3\n4\n5": union {1..5}, intersection 3, difference {1, 2}. */
  lemma OverlappingTexts()
    ensures UnionOf("1\n2\n3", "3\n4\n5", "\n") == {"1", "2", "3", "4", "5"}
    ensures IntersectionOf("1\n2\n3", "3\n4\n5", "\n") == ["3"]
    ensures DifferenceOf("1\n2\n3", "3\n4\n5", "\n") == {"1", "2"}
  {
    UnionOfOverlappingTexts();
    IntersectionOfOverlappingTexts();
    DifferenceOfOverlappingTexts();
  }

  /** Two trailing newlines do not change a text's elements. */
  lemma BlankLinesAddNoElements(t: string)
    ensures Elements(t + "\n\n", "\n") == Elements(t, "\n")
  {
    NewlineIsUnbordered();
    assert t + "\n\n" == (t + "\n") + "\n";
    ElementsIgnorePadding(t, "", "\n");
    ElementsIgnorePadding(t + "\n", "", "\n");
  }

  /** Two trailing newlines in either text do not change the intersection. */
  lemma BlankLinesChangeNoIntersection(a: string, b: string)
    ensures IntersectionOf(a + "\n\n", b + "\n\n", "\n") == IntersectionOf(a, b, "\n")
  {
    NewlineIsUnbordered();
    BlankLinesAddNoElements(a);
    IntersectionDependsOnElementsOfFirst(a + "\n\n", a, b + "\n\n", "\n");
    assert b + "\n\n" == (b + "\n") + "\n";
    IntersectionIgnoresPaddingOfSecond(a, b, "", "\n");
    IntersectionIgnoresPaddingOfSecond(a, b + "\n", "", "\n");
  }

  /** Blank trailing lines change nothing: "1\n2\n3\n\n" and "3\n4\n5\n\n" as above. */
  lemma OverlappingTextsWithBlankLines()
    ensures UnionOf("1\n2\n3\n\n", "3\n4\n5\n\n", "\n") == {"1", "2", "3", "4", "5"}
    ensures IntersectionOf("1\n2\n3\n\n", "3\n4\n5\n\n", "\n") == ["3"]
    ensures DifferenceOf("1\n2\n3\n\n", "3\n4\n5\n\n", "\n") == {"1", "2"}
  {
    var a, b := "1\n2\n3", "3\n4\n5";
    assert "1\n2\n3\n\n" == a + "\n\n" && "3\n4\n5\n\n" == b + "\n\n";
    OverlappingTexts();
    BlankLinesAddNoElements(a);
    BlankLinesAddNoElements(b);
    DifferenceOfElements(a, b, "\n");
    DifferenceOfElements(a + "\n\n", b + "\n\n", "\n");
    BlankLinesChangeNoIntersection(a, b);
  }

  /** An empty first text: union {1, 2, 3}, empty intersection and difference. */
  lemma EmptyFirstText()
    ensures UnionOf("", "1\n2\n3", "\n") == {"1", "2", "3"}
    ensures IntersectionOf("", "1\n2\n3", "\n") == []
    ensures DifferenceOf("", "1\n2\n3", "\n") == {}
  {
    ElementsOfFirstText();
    ElementsOfEmptyText("\n");
    IntersectionWithoutElements("", "1\n2\n3", "\n");
  }

  /** Two empty texts: every result is empty. */
  lemma EmptyTexts()
    ensures UnionOf("", "", "\n") == {}
    ensures IntersectionOf("", "", "\n") == []
    ensures DifferenceOf("", "", "\n") == {}
  {
    ElementsOfEmptyText("\n");
    IntersectionWithoutElements("", "", "\n");
  }

  /** A line repeated in the second text is emitted once per repeat. */
  lemma IntersectionKeepsRepeatsOfSecond()
    ensures IntersectionOf("x", "x\nx", "\n") == ["x", "x"]
  {
    SingleCharacterIsOneToken('x');
    SplitWithoutSeparator("x", "\n");
    assert "x\nx" == "x" + "\n" + "x";
    NewlineIsUnbordered();
    SplitAcrossSeparator("x", "x", "\n");
    assert ["x", "x"][..1] == ["x"];
  }

  /** A text of four one-character lines splits into those lines. */
  lemma FourLines(w: char, x: char, y: char, z: char)
    requires w != '\n' && x != '\n' && y != '\n' && z != '\n'
    ensures Split([w] + "\n" + [x] + "\n" + [y] + "\n" + [z], "\n") == [[w], [x], [y], [z]]
  {
    var three := [w] + "\n" + [x] + "\n" + [y];
    ThreeLines(w, x, y);
    NewlineIsUnbordered();
    SplitAcrossSeparator(three, [z], "\n");
    SingleCharacterIsOneToken(z);
    SplitWithoutSeparator([z], "\n");
  }

  lemma SplitOfFourLineText()
    ensures Split("1\n2\n3\n4", "\n") == ["1", "2", "3", "4"]
  {
    FourLines('1', '2', '3', '4');
    FourLineTextSpelled();
  }

  lemma ElementsOfFourLineText()
    ensures Elements("1\n2\n3\n4", "\n") == {"1", "2", "3", "4"}
  {
    SplitOfFourLineText();
    FourTokensAsSet("1", "2", "3", "4");
    NoEmptyOfFour();
  }

  // Proof step: a fact about literals, kept as its own lemma so the proofs that use it stay small.
  lemma FourTokensAsSet(a: string, b: string, c: string, d: string)
    ensures ToSet([a, b, c, d]) == {a, b, c, d}
  {
  }

  // Proof step: a fact about literals, kept as its own lemma so the proofs that use it stay small.
  lemma NoEmptyOfFour()
    ensures {"1", "2", "3", "4"} - {""} == {"1", "2", "3", "4"}
  {
  }

  lemma ElementsOfDisjointText()
    ensures Elements("4\n5\n6", "\n") == {"4", "5", "6"}
  {
    ElementsOfThreeLines('4', '5', '6');
    DisjointTextSpelled();
  }

  lemma CommonOfSecondTokensWithFourLines()
    ensures Common(["3", "4", "5"], {"1", "2", "3", "4"}) == ["3", "4"]
  {
    var lookup := {"1", "2", "3", "4"};
    assert "3" in lookup && "4" in lookup && "5" !in lookup;
    assert ["3"] == [] + ["3"] && ["3", "4"] == ["3"] + ["4"] && ["3", "4", "5"] == ["3", "4"] + ["5"];
    CommonOfLonger([], "3", lookup);
    CommonOfLonger(["3"], "4", lookup);
    CommonOfLonger(["3", "4"], "5", lookup);
  }

  lemma IntersectionWithFourLines()
    ensures IntersectionOf("1\n2\n3\n4", "3\n4\n5", "\n") == ["3", "4"]
  {
    SplitOfFourLineText();
    SplitOfSecondText();
    FourTokensAsSet("1", "2", "3", "4");
    CommonOfSecondTokensWithFourLines();
  }

  lemma DifferenceWithFourLines()
    ensures DifferenceOf("1\n2\n3\n4", "3\n4\n5", "\n") == {"1", "2"}
  {
    ElementsOfFourLineText();
    ElementsOfSecondText();
    DifferenceOfElements("1\n2\n3\n4", "3\n4\n5", "\n");
    FourLinesLessSecond();
  }

  // Proof step: a fact about literals, kept as its own lemma so the proofs that use it stay small.
  lemma FourLinesLessSecond()
    ensures {"1", "2", "3", "4"} - {"3", "4", "5"} == {"1", "2"}
  {
  }

  /**
   * "1\n2\n3\n4" and "3\n4\n5", also with one trailing separator on the
   * second text and with two on both: intersection 3, 4 and difference {1, 2}.
   */
  lemma FourLinesAgainstThree()
    ensures IntersectionOf("1\n2\n3\n4", "3\n4\n5", "\n") == ["3", "4"]
    ensures DifferenceOf("1\n2\n3\n4", "3\n4\n5", "\n") == {"1", "2"}
    ensures IntersectionOf("1\n2\n3\n4", "3\n4\n5\n", "\n") == ["3", "4"]
    ensures DifferenceOf("1\n2\n3\n4", "3\n4\n5\n", "\n") == {"1", "2"}
    ensures IntersectionOf("1\n2\n3\n4\n\n", "3\n4\n5\n\n", "\n") == ["3", "4"]
    ensures DifferenceOf("1\n2\n3\n4\n\n", "3\n4\n5\n\n", "\n") == {"1", "2"}
  {
    var a, b := "1\n2\n3\n4", "3\n4\n5";
    assert "3\n4\n5\n" == b + "\n";
    assert "1\n2\n3\n4\n\n" == a + "\n\n" && "3\n4\n5\n\n" == b + "\n\n";
    IntersectionWithFourLines();
    DifferenceWithFourLines();
    NewlineIsUnbordered();
    IntersectionIgnoresPaddingOfSecond(a, b, "", "\n");
    ElementsIgnorePadding(b, "", "\n");
    DifferenceOfElements(a, b + "\n", "\n");
    DifferenceOfElements(a, b, "\n");
    BlankLinesChangeNoIntersection(a, b);
    BlankLinesAddNoElements(a);
    BlankLinesAddNoElements(b);
    DifferenceOfElements(a + "\n\n", b + "\n\n", "\n");
  }

  /** "1\n2\n3" and "4\n5\n6": union {1..6}, empty intersection, difference {1, 2, 3}. */
  lemma DisjointTexts()
    ensures UnionOf("1\n2\n3", "4\n5\n6", "\n") == {"1", "2", "3", "4", "5", "6"}
    ensures IntersectionOf("1\n2\n3", "4\n5\n6", "\n") == []
    ensures DifferenceOf("1\n2\n3", "4\n5\n6", "\n") == {"1", "2", "3"}
  {
    DisjointUnion();
    DisjointIntersection();
    DisjointDifference();
  }

  lemma DisjointUnion()
    ensures UnionOf("1\n2\n3", "4\n5\n6", "\n") == {"1", "2", "3", "4", "5", "6"}
  {
    ElementsOfFirstText();
    ElementsOfDisjointText();
  }

  lemma DisjointDifference()
    ensures DifferenceOf("1\n2\n3", "4\n5\n6", "\n") == {"1", "2", "3"}
  {
    ElementsOfFirstText();
    ElementsOfDisjointText();
    DifferenceOfElements("1\n2\n3", "4\n5\n6", "\n");
    FirstLessDisjoint();
  }

  // Proof step: a fact about literals, kept as its own lemma so the proofs that use it stay small.
  lemma FirstLessDisjoint()
    ensures {"1", "2", "3"} - {"4", "5", "6"} == {"1", "2", "3"}
  {
  }

  lemma DisjointIntersection()
    ensures IntersectionOf("1\n2\n3", "4\n5\n6", "\n") == []
  {
    var r := IntersectionOf("1\n2\n3", "4\n5\n6", "\n");
    ElementsOfFirstText();
    ElementsOfDisjointText();
    IntersectionMembership("1\n2\n3", "4\n5\n6", "\n");
    EmptySequenceHasEmptySet(r);
  }

  /** One trailing newline on each text: the union is still {1..5}. */
  lemma UnionWithTrailingSeparators()
    ensures UnionOf("1\n2\n3\n", "3\n4\n5\n", "\n") == {"1", "2", "3", "4", "5"}
    ensures UnionOf("1\n2\n3\n\n", "3\n4\n5\n\n", "\n") == {"1", "2", "3", "4", "5"}
  {
    var a, b := "1\n2\n3", "3\n4\n5";
    assert "1\n2\n3\n" == a + "\n" && "3\n4\n5\n" == b + "\n";
    assert "1\n2\n3\n\n" == a + "\n\n" && "3\n4\n5\n\n" == b + "\n\n";
    NewlineIsUnbordered();
    ElementsIgnorePadding(a, "", "\n");
    ElementsIgnorePadding(b, "", "\n");
    BlankLinesAddNoElements(a);
    BlankLinesAddNoElements(b);
    UnionOfOverlappingTexts();
  }

  /** An empty second text: union and difference {1, 2, 3}, empty intersection. */
  lemma EmptySecondText()
    ensures UnionOf("1\n2\n3", "", "\n") == {"1", "2", "3"}
    ensures IntersectionOf("1\n2\n3", "", "\n") == []
    ensures DifferenceOf("1\n2\n3", "", "\n") == {"1", "2", "3"}
  {
    ElementsOfFirstText();
    ElementsOfEmptyText("\n");
    IntersectionWithoutElements("1\n2\n3", "", "\n");
    DifferenceOfElements("1\n2\n3", "", "\n");
  }
}
