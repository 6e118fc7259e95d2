/**
 * The elements a text contributes to a set operation, and the loop that turns
 * the keys of a result set into the output text.
 */
module SetText {
  import opened GoStrings

  function ToSet(xs: seq<string>): set<string>
  {
    set x | x in xs
  }

  /** Extending a prefix by one element adds that element to its set. */
  lemma ToSetOfLongerPrefix(xs: seq<string>, i: nat)
    requires i < |xs|
    ensures ToSet(xs[..i + 1]) == ToSet(xs[..i]) + {xs[i]}
  {
    assert xs[..i + 1] == xs[..i] + [xs[i]];
  }

  predicate Distinct(xs: seq<string>)
  {
    forall i, j :: 0 <= i < j < |xs| ==> xs[i] != xs[j]
  }

  /** The elements of a text: its tokens other than "". */
  function Elements(text: string, sep: string): (r: set<string>)
    requires sep != ""
    ensures forall e :: e in r ==> e != "" && !Contains(e, sep)
  {
    ToSet(Split(text, sep)) - {""}
  }

  /** The element set of a union: the elements of either text. */
  function UnionOf(a: string, b: string, sep: string): set<string>
    requires sep != ""
  {
    Elements(a, sep) + Elements(b, sep)
  }

  /**
   * The output loop shared by Union and Difference: visit the keys of a
   * result set in an order left unspecified, append every non-empty key
   * followed by the separator, then trim the final separator.  `elems` is
   * the order in which keys were emitted.
   */
  method JoinKeys(keys: set<string>, sep: string) returns (r: string, ghost elems: seq<string>)
    requires sep != ""
    ensures Distinct(elems) && ToSet(elems) == keys - {""}
    ensures r == Join(elems, sep)
  {
    var resultSet := "";
    var remaining := keys;
    elems := [];
    while remaining != {}
      invariant remaining <= keys
      invariant ToSet(elems) == keys - remaining - {""}
      invariant Distinct(elems)
      invariant resultSet == Terminated(elems, sep)
      decreases remaining
    {
      var k :| k in remaining;
      if k != "" {
        EmitKey(elems, keys, remaining, k);
        TerminatedStep(elems, k, sep);
        resultSet := resultSet + k + sep;
        elems := elems + [k];
      }
      remaining := remaining - {k};
    }
    r := TrimSuffix(resultSet, sep);
    TrimTerminated(elems, sep);
  }

  /** Emitting a not yet visited, non-empty key keeps the emitted keys distinct. */
  lemma EmitKey(elems: seq<string>, keys: set<string>, remaining: set<string>, k: string)
    requires ToSet(elems) == keys - remaining - {""} && Distinct(elems)
    requires remaining <= keys && k in remaining && k != ""
    ensures Distinct(elems + [k])
    ensures ToSet(elems + [k]) == keys - (remaining - {k}) - {""}
  {
    assert k !in ToSet(elems);
    assert ToSet(elems + [k]) == ToSet(elems) + {k};
    assert keys - (remaining - {k}) - {""} == keys - remaining - {""} + {k};
  }

  /**
   * What can be observed of an output `Join(elems, sep)` of distinct-free,
   * separator-free, non-empty elements: it is "" exactly when there are no
   * elements, and, for an unbordered separator, re-splitting it gives back
   * the elements and it neither starts nor ends with the separator.
   */
  lemma OutputShape(r: string, elems: seq<string>, sep: string)
    requires sep != ""
    requires r == Join(elems, sep)
    requires forall e :: e in elems ==> e != "" && !Contains(e, sep)
    ensures r == "" <==> elems == []
    ensures Unbordered(sep) && elems != [] ==> Split(r, sep) == elems
    ensures Unbordered(sep) && elems != [] ==> !HasPrefix(r, sep) && !HasSuffix(r, sep)
  {
    JoinIsEmpty(elems, sep);
    if Unbordered(sep) && elems != [] {
      SplitJoin(elems, sep);
      JoinHasNoOuterSeparator(elems, sep);
    }
  }

  lemma EmptySequenceHasEmptySet(xs: seq<string>)
    ensures ToSet(xs) == {} <==> xs == []
  {
    if xs != [] {
      assert xs[0] in ToSet(xs);
    }
  }

  /** An empty text has no elements. */
  lemma ElementsOfEmptyText(sep: string)
    requires sep != ""
    ensures Elements("", sep) == {}
  {
    assert Split("", sep) == [""];
  }

  /** A leading separator does not change a text's elements, whatever the separator. */
  lemma ElementsIgnoreLeadingSeparator(x: string, sep: string)
    requires sep != ""
    ensures Elements(sep + x, sep) == Elements(x, sep)
  {
    SplitLeadingSeparator(x, sep);
  }

  /**
   * With an unbordered separator, a trailing or a doubled separator in a
   * text does not change its elements.
   */
  lemma ElementsIgnorePadding(x: string, y: string, sep: string)
    requires sep != "" && Unbordered(sep)
    ensures Elements(x + sep, sep) == Elements(x, sep)
    ensures Elements(x + sep + sep + y, sep) == Elements(x + sep + y, sep)
  {
    SplitTrailingSeparator(x, sep);
    SplitDoubledSeparator(x, y, sep);
    assert ToSet(Split(x, sep) + [""] + Split(y, sep)) - {""}
        == ToSet(Split(x, sep) + Split(y, sep)) - {""};
  }

  /** The union's element set does not depend on the order of the two texts. */
  lemma UnionCommutes(a: string, b: string, sep: string)
    requires sep != ""
    ensures UnionOf(a, b, sep) == UnionOf(b, a, sep)
  {
  }

  /** A leading separator in either text does not change the union, whatever the separator. */
  lemma UnionIgnoresLeadingSeparator(x: string, b: string, sep: string)
    requires sep != ""
    ensures UnionOf(sep + x, b, sep) == UnionOf(x, b, sep)
    ensures UnionOf(b, sep + x, sep) == UnionOf(b, x, sep)
  {
    ElementsIgnoreLeadingSeparator(x, sep);
  }

  /**
   * With an unbordered separator, a trailing or doubled separator in either
   * text does not change the union.
   */
  lemma UnionIgnoresPadding(x: string, y: string, b: string, sep: string)
    requires sep != "" && Unbordered(sep)
    ensures UnionOf(x + sep, b, sep) == UnionOf(x, b, sep)
    ensures UnionOf(x + sep + sep + y, b, sep) == UnionOf(x + sep + y, b, sep)
    ensures UnionOf(b, x + sep, sep) == UnionOf(b, x, sep)
    ensures UnionOf(b, x + sep + sep + y, sep) == UnionOf(b, x + sep + y, sep)
  {
    ElementsIgnorePadding(x, y, sep);
  }

  /** The union with an empty text has the elements of the other text. */
  lemma UnionWithEmptyText(a: string, sep: string)
    requires sep != ""
    ensures UnionOf(a, "", sep) == Elements(a, sep)
    ensures UnionOf("", a, sep) == Elements(a, sep)
  {
    ElementsOfEmptyText(sep);
  }
}
