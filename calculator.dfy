/**
 * The set calculator: two texts and a separator, with union, intersection
 * and difference of their elements, each returned as the result elements
 * joined with the separator.
 */
module Calculator {
  import opened Results
  import opened GoStrings
  import opened SetText
  import opened Reading

  // ---------------------------------------------------------------------
  // Specification of the intersection and the difference

  /**
   * The tokens of `tokens`, in order and with their repeats, that are
   * non-empty and in `lookup`.
   */
  function Common(tokens: seq<string>, lookup: set<string>): (r: seq<string>)
    ensures forall e :: e in r <==> e in tokens && e != "" && e in lookup
  {
    if tokens == [] then []
    else
      var init, last := tokens[..|tokens| - 1], tokens[|tokens| - 1];
      assert tokens == init + [last];
      Common(init, lookup) + (if last != "" && last in lookup then [last] else [])
  }

  /** Extending the filtered prefix of `tokens` by one token. */
  lemma CommonStep(tokens: seq<string>, lookup: set<string>, i: nat)
    requires i < |tokens|
    ensures Common(tokens[..i + 1], lookup)
         == Common(tokens[..i], lookup) + (if tokens[i] != "" && tokens[i] in lookup then [tokens[i]] else [])
  {
    assert tokens[..i + 1][..i] == tokens[..i];
  }

  /** Appending one token to `tokens`. */
  lemma CommonOfLonger(tokens: seq<string>, e: string, lookup: set<string>)
    ensures Common(tokens + [e], lookup) == Common(tokens, lookup) + (if e != "" && e in lookup then [e] else [])
  {
    assert (tokens + [e])[..|tokens|] == tokens;
  }

  /** The emitted elements of an intersection: the second text's tokens filtered by the first's. */
  function IntersectionOf(a: string, b: string, sep: string): seq<string>
    requires sep != ""
  {
    Common(Split(b, sep), ToSet(Split(a, sep)))
  }

  /** The element set of a difference: the first text's elements less every token of the second. */
  function DifferenceOf(a: string, b: string, sep: string): set<string>
    requires sep != ""
  {
    Elements(a, sep) - ToSet(Split(b, sep))
  }

  // ---------------------------------------------------------------------
  // The calculator

  class T {
    var set1: string
    var set2: string
    var separator: string

    /** A calculator holding the separator and two empty texts. */
    constructor (separator: string)
      ensures this.separator == separator && set1 == "" && set2 == ""
    {
      this.separator := separator;
      set1 := "";
      set2 := "";
    }

    function GetSet1(): (s: string)
      reads this
      ensures s == set1
    {
      set1
    }

    function GetSet2(): (s: string)
      reads this
      ensures s == set2
    {
      set2
    }

    function GetSeparator(): (s: string)
      reads this
      ensures s == separator
    {
      separator
    }

    /**
     * The elements of either text, each once, in an unspecified order,
     * joined with the separator.
     */
    method Union() returns (r: string, ghost elems: seq<string>)
      requires separator != ""
      ensures Distinct(elems) && ToSet(elems) == UnionOf(set1, set2, separator)
      ensures r == Join(elems, separator)
      ensures r == "" <==> UnionOf(set1, set2, separator) == {}
      ensures Unbordered(separator) && r != "" ==> Split(r, separator) == elems
      ensures Unbordered(separator) && r != "" ==> !HasPrefix(r, separator) && !HasSuffix(r, separator)
    {
      var slice1 := Split(set1, separator);
      var slice2 := Split(set2, separator);

      var resultMap: set<string> := {};
      for i := 0 to |slice1|
        invariant resultMap == ToSet(slice1[..i])
      {
        ToSetOfLongerPrefix(slice1, i);
        resultMap := resultMap + {slice1[i]};
      }
      assert slice1[..|slice1|] == slice1;

      for i := 0 to |slice2|
        invariant resultMap == ToSet(slice1) + ToSet(slice2[..i])
      {
        ToSetOfLongerPrefix(slice2, i);
        resultMap := resultMap + {slice2[i]};
      }
      assert slice2[..|slice2|] == slice2;

      r, elems := JoinKeys(resultMap, separator);
      assert forall e :: e in elems ==> e in ToSet(elems);
      OutputShape(r, elems, separator);
      EmptySequenceHasEmptySet(elems);
    }

    /**
     * The tokens of the second text, in order and with their repeats, that
     * are non-empty and tokens of the first text, joined with the separator.
     */
    method Intersection() returns (r: string)
      requires separator != ""
      ensures r == Join(IntersectionOf(set1, set2, separator), separator)
      ensures r == "" <==> IntersectionOf(set1, set2, separator) == []
      ensures Unbordered(separator) && r != "" ==> Split(r, separator) == IntersectionOf(set1, set2, separator)
      ensures Unbordered(separator) && r != "" ==> !HasPrefix(r, separator) && !HasSuffix(r, separator)
    {
      var slice1 := Split(set1, separator);
      var slice2 := Split(set2, separator);

      var map1: set<string> := {};
      for i := 0 to |slice1|
        invariant map1 == ToSet(slice1[..i])
      {
        ToSetOfLongerPrefix(slice1, i);
        map1 := map1 + {slice1[i]};
      }
      assert slice1[..|slice1|] == slice1;

      var resultSet := "";
      ghost var elems: seq<string> := [];
      for i := 0 to |slice2|
        invariant elems == Common(slice2[..i], map1)
        invariant resultSet == Terminated(elems, separator)
      {
        CommonStep(slice2, map1, i);
        var e := slice2[i];
        if e !in map1 {
          continue;
        }
        if e == "" {
          continue;
        }
        TerminatedStep(elems, e, separator);
        resultSet := resultSet + e + separator;
        elems := elems + [e];
      }
      assert slice2[..|slice2|] == slice2;

      r := TrimSuffix(resultSet, separator);
      TrimTerminated(elems, separator);
      OutputShape(r, elems, separator);
    }

    /**
     * The elements of the first text that are not tokens of the second, each
     * once, in an unspecified order, joined with the separator.
     */
    method Difference() returns (r: string, ghost elems: seq<string>)
      requires separator != ""
      ensures Distinct(elems) && ToSet(elems) == DifferenceOf(set1, set2, separator)
      ensures r == Join(elems, separator)
      ensures r == "" <==> DifferenceOf(set1, set2, separator) == {}
      ensures Unbordered(separator) && r != "" ==> Split(r, separator) == elems
      ensures Unbordered(separator) && r != "" ==> !HasPrefix(r, separator) && !HasSuffix(r, separator)
    {
      var slice1 := Split(set1, separator);
      var slice2 := Split(set2, separator);

      var resultMap: set<string> := {};
      for i := 0 to |slice1|
        invariant resultMap == ToSet(slice1[..i])
      {
        ToSetOfLongerPrefix(slice1, i);
        resultMap := resultMap + {slice1[i]};
      }
      assert slice1[..|slice1|] == slice1;

      for i := 0 to |slice2|
        invariant resultMap == ToSet(slice1) - ToSet(slice2[..i])
      {
        ToSetOfLongerPrefix(slice2, i);
        resultMap := resultMap - {slice2[i]};
      }
      assert slice2[..|slice2|] == slice2;

      r, elems := JoinKeys(resultMap, separator);
      assert forall e :: e in elems ==> e in ToSet(elems);
      OutputShape(r, elems, separator);
      EmptySequenceHasEmptySet(elems);
    }
  }

  /**
   * Builds a calculator from the outcomes of reading the two inputs.  A failed
   * first read is reported whatever the second read gave; a failed second
   * read is reported only after a successful first one.
   */
  method New(first: ReadOutcome, second: ReadOutcome, separator: string) returns (r: Result<T, NewError>)
    ensures first.Failed? ==> r == Failure(FirstUnreadable(first.cause))
    ensures first.Failed? ==> r.error.Message() == "unable to read first file: " + first.cause
    ensures first.Read? && second.Failed? ==> r == Failure(SecondUnreadable(second.cause))
    ensures first.Read? && second.Failed? ==> r.error.Message() == "unable to read second file: " + second.cause
    ensures first.Read? && second.Read? ==> r.Success? && fresh(r.value)
    ensures r.Success? ==> r.value.GetSet1() == first.contents && r.value.GetSet2() == second.contents
    ensures r.Success? ==> r.value.GetSeparator() == separator
  {
    var t := new T(separator);

    if first.Failed? {
      return Failure(FirstUnreadable(first.cause));
    }

    if second.Failed? {
      return Failure(SecondUnreadable(second.cause));
    }

    t.set1 := first.contents;
    t.set2 := second.contents;

    return Success(t);
  }

  // ---------------------------------------------------------------------
  // Properties of the specification

  /** An intersection element is exactly an element of both texts. */
  lemma IntersectionMembership(a: string, b: string, sep: string)
    requires sep != ""
    ensures forall e :: e in IntersectionOf(a, b, sep) <==> e in Elements(a, sep) && e in Elements(b, sep)
  {
  }

  /** The intersection is empty when either text has no elements. */
  lemma IntersectionWithoutElements(a: string, b: string, sep: string)
    requires sep != ""
    requires Elements(a, sep) == {} || Elements(b, sep) == {}
    ensures IntersectionOf(a, b, sep) == []
  {
    var r := IntersectionOf(a, b, sep);
    IntersectionMembership(a, b, sep);
    EmptySequenceHasEmptySet(r);
  }

  /** As sets, the intersection does not depend on the order of the two texts. */
  lemma IntersectionCommutes(a: string, b: string, sep: string)
    requires sep != ""
    ensures ToSet(IntersectionOf(a, b, sep)) == ToSet(IntersectionOf(b, a, sep))
  {
    IntersectionMembership(a, b, sep);
    IntersectionMembership(b, a, sep);
  }

  /**
   * Every kept token of the second text is emitted as many times as it
   * occurs there; a token that is not kept is never emitted.
   */
  lemma {:induction false} CommonKeepsRepeats(tokens: seq<string>, lookup: set<string>, e: string)
    ensures multiset(Common(tokens, lookup))[e]
         == if e != "" && e in lookup then multiset(tokens)[e] else 0
  {
    if tokens != [] {
      var init, last := tokens[..|tokens| - 1], tokens[|tokens| - 1];
      assert tokens == init + [last];
      CommonKeepsRepeats(init, lookup, e);
    }
  }

  lemma {:induction false} CommonOfConcatenation(xs: seq<string>, ys: seq<string>, lookup: set<string>)
    ensures Common(xs + ys, lookup) == Common(xs, lookup) + Common(ys, lookup)
    decreases |ys|
  {
    if ys == [] {
      assert xs + ys == xs;
    } else {
      var init, last := ys[..|ys| - 1], ys[|ys| - 1];
      assert (xs + ys)[..|xs + ys| - 1] == xs + init;
      assert (xs + ys)[|xs + ys| - 1] == last;
      CommonOfConcatenation(xs, init, lookup);
    }
  }

  /** "" in the lookup set is never consulted. */
  lemma {:induction false} CommonIgnoresEmptyInLookup(tokens: seq<string>, lookup: set<string>)
    ensures Common(tokens, lookup) == Common(tokens, lookup - {""})
  {
    if tokens != [] {
      CommonIgnoresEmptyInLookup(tokens[..|tokens| - 1], lookup);
    }
  }

  /** The intersection depends on the first text only through its elements. */
  lemma IntersectionDependsOnElementsOfFirst(a1: string, a2: string, b: string, sep: string)
    requires sep != ""
    requires Elements(a1, sep) == Elements(a2, sep)
    ensures IntersectionOf(a1, b, sep) == IntersectionOf(a2, b, sep)
  {
    CommonIgnoresEmptyInLookup(Split(b, sep), ToSet(Split(a1, sep)));
    CommonIgnoresEmptyInLookup(Split(b, sep), ToSet(Split(a2, sep)));
  }

  /** A leading separator in either text does not change the intersection, whatever the separator. */
  lemma IntersectionIgnoresLeadingSeparator(x: string, b: string, sep: string)
    requires sep != ""
    ensures IntersectionOf(b, sep + x, sep) == IntersectionOf(b, x, sep)
    ensures IntersectionOf(sep + x, b, sep) == IntersectionOf(x, b, sep)
  {
    LeadingEmptyTokenIsDropped(Split(x, sep), ToSet(Split(b, sep)));
    SplitLeadingSeparator(x, sep);
    ElementsIgnoreLeadingSeparator(x, sep);
    IntersectionDependsOnElementsOfFirst(sep + x, x, b, sep);
  }

  /**
   * With an unbordered separator, a trailing or doubled separator in the
   * second text does not change the intersection.
   */
  lemma IntersectionIgnoresPaddingOfSecond(a: string, x: string, y: string, sep: string)
    requires sep != "" && Unbordered(sep)
    ensures IntersectionOf(a, x + sep, sep) == IntersectionOf(a, x, sep)
    ensures IntersectionOf(a, x + sep + sep + y, sep) == IntersectionOf(a, x + sep + y, sep)
  {
    var lookup := ToSet(Split(a, sep));
    TrailingEmptyTokenIsDropped(Split(x, sep), lookup);
    SplitTrailingSeparator(x, sep);
    DoubledSeparatorInSecond(a, x, y, sep);
  }

  lemma LeadingEmptyTokenIsDropped(tokens: seq<string>, lookup: set<string>)
    ensures Common([""] + tokens, lookup) == Common(tokens, lookup)
  {
    CommonOfConcatenation([""], tokens, lookup);
    assert Common([""], lookup) == [];
  }

  lemma TrailingEmptyTokenIsDropped(tokens: seq<string>, lookup: set<string>)
    ensures Common(tokens + [""], lookup) == Common(tokens, lookup)
  {
    CommonOfConcatenation(tokens, [""], lookup);
    assert Common([""], lookup) == [];
  }

  lemma InnerEmptyTokenIsDropped(xs: seq<string>, ys: seq<string>, lookup: set<string>)
    ensures Common(xs + [""] + ys, lookup) == Common(xs + ys, lookup)
  {
    CommonOfConcatenation(xs, ys, lookup);
    CommonOfConcatenation(xs + [""], ys, lookup);
    TrailingEmptyTokenIsDropped(xs, lookup);
  }

  lemma DoubledSeparatorInSecond(a: string, x: string, y: string, sep: string)
    requires sep != "" && Unbordered(sep)
    ensures IntersectionOf(a, x + sep + sep + y, sep) == IntersectionOf(a, x + sep + y, sep)
  {
    SplitDoubledSeparator(x, y, sep);
    InnerEmptyTokenIsDropped(Split(x, sep), Split(y, sep), ToSet(Split(a, sep)));
  }

  /**
   * With an unbordered separator, a trailing or doubled separator in the
   * first text leaves the intersection unchanged: it adds only the token "".
   */
  lemma IntersectionIgnoresPaddingOfFirst(x: string, y: string, b: string, sep: string)
    requires sep != "" && Unbordered(sep)
    ensures IntersectionOf(x + sep, b, sep) == IntersectionOf(x, b, sep)
    ensures IntersectionOf(x + sep + sep + y, b, sep) == IntersectionOf(x + sep + y, b, sep)
  {
    ElementsIgnorePadding(x, y, sep);
    IntersectionDependsOnElementsOfFirst(x + sep, x, b, sep);
    IntersectionDependsOnElementsOfFirst(x + sep + sep + y, x + sep + y, b, sep);
  }

  /** Deleting the "" token of the second text makes no difference: a difference of elements. */
  lemma DifferenceOfElements(a: string, b: string, sep: string)
    requires sep != ""
    ensures DifferenceOf(a, b, sep) == Elements(a, sep) - Elements(b, sep)
  {
  }

  /** A leading separator in either text does not change the difference, whatever the separator. */
  lemma DifferenceIgnoresLeadingSeparator(x: string, b: string, sep: string)
    requires sep != ""
    ensures DifferenceOf(sep + x, b, sep) == DifferenceOf(x, b, sep)
    ensures DifferenceOf(b, sep + x, sep) == DifferenceOf(b, x, sep)
  {
    ElementsIgnoreLeadingSeparator(x, sep);
    DifferenceOfElements(sep + x, b, sep);
    DifferenceOfElements(x, b, sep);
    DifferenceOfElements(b, sep + x, sep);
    DifferenceOfElements(b, x, sep);
  }

  /**
   * With an unbordered separator, a trailing or doubled separator in either
   * text does not change the difference.
   */
  lemma DifferenceIgnoresPadding(x: string, y: string, b: string, sep: string)
    requires sep != "" && Unbordered(sep)
    ensures DifferenceOf(x + sep, b, sep) == DifferenceOf(x, b, sep)
    ensures DifferenceOf(x + sep + sep + y, b, sep) == DifferenceOf(x + sep + y, b, sep)
    ensures DifferenceOf(b, x + sep, sep) == DifferenceOf(b, x, sep)
    ensures DifferenceOf(b, x + sep + sep + y, sep) == DifferenceOf(b, x + sep + y, sep)
  {
    ElementsIgnorePadding(x, y, sep);
    DifferenceOfElements(x + sep, b, sep);
    DifferenceOfElements(x + sep + sep + y, b, sep);
    DifferenceOfElements(x + sep + y, b, sep);
    DifferenceOfElements(x, b, sep);
    DifferenceOfElements(b, x + sep, sep);
    DifferenceOfElements(b, x + sep + sep + y, sep);
    DifferenceOfElements(b, x + sep + y, sep);
    DifferenceOfElements(b, x, sep);
  }

  /** A text less itself has no elements, whatever its repeats. */
  lemma DifferenceWithItself(a: string, sep: string)
    requires sep != ""
    ensures DifferenceOf(a, a, sep) == {}
  {
  }
}
