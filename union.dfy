/**
 * The older union-only operator: the same union as the calculator, with the
 * separator fixed to a newline.
 */
module UnionOperator {
  import opened Results
  import opened GoStrings
  import opened SetText
  import opened Reading
  import Calculator

  class Union {
    var set1: string
    var set2: string
    var separator: string

    /** The separator is always a newline. */
    ghost predicate Valid()
      reads this
    {
      separator == "\n"
    }

    /** An operator with the newline separator and two empty texts. */
    constructor ()
      ensures Valid() && set1 == "" && set2 == ""
    {
      separator := "\n";
      set1 := "";
      set2 := "";
    }

    function GetSet1(): (s: string)
      reads this
      ensures s == set1
    {
      set1
    }

    function GetSet2(): (s: string)
      reads this
      ensures s == set2
    {
      set2
    }

    function GetSeparator(): (s: string)
      reads this
      requires Valid()
      ensures s == "\n"
    {
      separator
    }

    /**
     * The non-empty lines of either text, each once, in an unspecified
     * order, joined with newlines.
     */
    method Do() returns (r: string, ghost elems: seq<string>)
      requires Valid()
      ensures Distinct(elems) && ToSet(elems) == UnionOf(set1, set2, "\n")
      ensures r == Join(elems, "\n")
      ensures r == "" <==> UnionOf(set1, set2, "\n") == {}
      ensures r != "" ==> Split(r, "\n") == elems
      ensures r != "" ==> !HasPrefix(r, "\n") && !HasSuffix(r, "\n")
    {
      var slice1 := Split(set1, separator);
      var slice2 := Split(set2, separator);

      var resultMap: set<string> := {};
      for i := 0 to |slice1|
        invariant resultMap == ToSet(slice1[..i])
      {
        ToSetOfLongerPrefix(slice1, i);
        resultMap := resultMap + {slice1[i]};
      }
      assert slice1[..|slice1|] == slice1;

      for i := 0 to |slice2|
        invariant resultMap == ToSet(slice1) + ToSet(slice2[..i])
      {
        ToSetOfLongerPrefix(slice2, i);
        resultMap := resultMap + {slice2[i]};
      }
      assert slice2[..|slice2|] == slice2;

      assert resultMap - {""} == UnionOf(set1, set2, separator);
      r, elems := JoinKeys(resultMap, separator);
      assert forall e :: e in elems ==> e in ToSet(elems);
      NewlineIsUnbordered();
      OutputShape(r, elems, separator);
      EmptySequenceHasEmptySet(elems);
    }
  }

  /**
   * Builds the operator from the outcomes of reading the two inputs, with
   * the same error precedence as the calculator's constructor.
   */
  method New(first: ReadOutcome, second: ReadOutcome) returns (r: Result<Union, NewError>)
    ensures first.Failed? ==> r == Failure(FirstUnreadable(first.cause))
    ensures first.Failed? ==> r.error.Message() == "unable to read first file: " + first.cause
    ensures first.Read? && second.Failed? ==> r == Failure(SecondUnreadable(second.cause))
    ensures first.Read? && second.Failed? ==> r.error.Message() == "unable to read second file: " + second.cause
    ensures first.Read? && second.Read? ==> r.Success? && fresh(r.value)
    ensures r.Success? ==> r.value.Valid() && r.value.GetSeparator() == "\n"
    ensures r.Success? ==> r.value.GetSet1() == first.contents && r.value.GetSet2() == second.contents
  {
    var u := new Union();

    if first.Failed? {
      return Failure(FirstUnreadable(first.cause));
    }

    if second.Failed? {
      return Failure(SecondUnreadable(second.cause));
    }

    u.set1 := first.contents;
    u.set2 := second.contents;

    return Success(u);
  }

  /**
   * On the same two texts, the operator and the calculator with a newline
   * separator produce outputs that re-split into the same element set.
   */
  method DoAgreesWithCalculatorUnion(u: Union, t: Calculator.T) returns (fromDo: string, fromUnion: string)
    requires u.Valid() && t.separator == "\n"
    requires u.set1 == t.set1 && u.set2 == t.set2
    ensures ToSet(Split(fromDo, "\n")) == ToSet(Split(fromUnion, "\n"))
    ensures ToSet(Split(fromDo, "\n")) - {""} == UnionOf(u.set1, u.set2, "\n")
  {
    ghost var elemsDo, elemsUnion: seq<string>;
    fromDo, elemsDo := u.Do();
    fromUnion, elemsUnion := t.Union();
    NewlineIsUnbordered();
    if fromDo == "" {
      assert Split("", "\n") == [""];
    }
  }
}
