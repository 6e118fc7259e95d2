/**
 * The parts of Go's `strings` package that the engine relies on, for a
 * non-empty separator: `Index`, `Split` and `TrimSuffix`, together with
 * `Join`, the specification of what concatenating elements with a separator
 * yields.  Strings are sequences of characters.
 */
module GoStrings {
  import opened Results

  /** `sep` occurs in `s` starting at index `i`. */
  predicate OccursAt(s: string, sep: string, i: nat)
  {
    i + |sep| <= |s| && s[i..i + |sep|] == sep
  }

  /** `strings.Contains(s, sub)`. */
  ghost predicate Contains(s: string, sub: string)
  {
    exists i: nat :: OccursAt(s, sub, i)
  }

  predicate HasPrefix(s: string, prefix: string)
  {
    |prefix| <= |s| && s[..|prefix|] == prefix
  }

  predicate HasSuffix(s: string, suffix: string)
  {
    |suffix| <= |s| && s[|s| - |suffix|..] == suffix
  }

  /**
   * A separator without a border: no non-empty proper prefix of it is also a
   * suffix of it.  "\n", and every one-character separator, is unbordered;
   * "aa" and "aba" are not.
   */
  predicate Unbordered(sep: string)
  {
    forall k :: 0 < k < |sep| ==> sep[..k] != sep[|sep| - k..]
  }

  lemma NewlineIsUnbordered()
    ensures Unbordered("\n")
  {
  }

  /** `strings.Index(s, sep)`: the least index at which `sep` occurs in `s`. */
  function Index(s: string, sep: string): (r: Option<nat>)
    requires sep != ""
    ensures r.Some? ==> OccursAt(s, sep, r.value)
    ensures r.Some? ==> forall j: nat :: j < r.value ==> !OccursAt(s, sep, j)
    ensures r.None? <==> !Contains(s, sep)
    decreases |s|
  {
    if |s| < |sep| then
      None
    else if s[..|sep|] == sep then
      Some(0)
    else
      ShiftOccurrences(s, sep);
      match Index(s[1..], sep)
      case None => None
      case Some(i) => Some(i + 1)
  }

  /** An occurrence in `s` past index 0 is an occurrence in `s[1..]`. */
  lemma ShiftOccurrences(s: string, sep: string)
    requires |s| >= 1
    ensures forall j: nat :: j >= 1 ==> (OccursAt(s, sep, j) <==> OccursAt(s[1..], sep, j - 1))
  {
    forall j: nat | j >= 1
      ensures OccursAt(s, sep, j) <==> OccursAt(s[1..], sep, j - 1)
    {
      if j + |sep| <= |s| {
        assert s[1..][j - 1..j - 1 + |sep|] == s[j..j + |sep|];
      }
    }
  }

  /** Any occurrence of `sep` that is the first one is what `Index` returns. */
  lemma IndexIsFirstOccurrence(s: string, sep: string, k: nat)
    requires sep != ""
    requires OccursAt(s, sep, k)
    requires forall j: nat :: j < k ==> !OccursAt(s, sep, j)
    ensures Index(s, sep) == Some(k)
  {
    var r := Index(s, sep);
    assert r.Some?;
    assert !(r.value < k);
    assert !(k < r.value);
  }

  /**
   * `strings.Split(s, sep)` for a non-empty separator: the pieces of `s`
   * between successive non-overlapping occurrences of `sep`, found from the
   * left.  `Split("", sep) == [""]`, and a trailing separator yields a
   * trailing "".
   */
  function Split(s: string, sep: string): (parts: seq<string>)
    requires sep != ""
    ensures |parts| >= 1
    ensures forall t :: t in parts ==> !Contains(t, sep)
    decreases |s|
  {
    match Index(s, sep)
    case None => [s]
    case Some(i) =>
      PrefixHasNoOccurrence(s, sep, i);
      [s[..i]] + Split(s[i + |sep|..], sep)
  }

  /** The text before the first occurrence of `sep` does not contain it. */
  lemma PrefixHasNoOccurrence(s: string, sep: string, i: nat)
    requires sep != "" && i <= |s|
    requires forall j: nat :: j < i ==> !OccursAt(s, sep, j)
    ensures !Contains(s[..i], sep)
  {
    forall j: nat
      ensures !OccursAt(s[..i], sep, j)
    {
      if j + |sep| <= i {
        assert s[..i][j..j + |sep|] == s[j..j + |sep|];
        assert !OccursAt(s, sep, j);
      }
    }
  }

  /** The elements joined with `sep` between each adjacent pair. */
  function Join(elems: seq<string>, sep: string): string
  {
    if |elems| == 0 then ""
    else if |elems| == 1 then elems[0]
    else Join(elems[..|elems| - 1], sep) + sep + elems[|elems| - 1]
  }

  /** The elements, each followed by `sep`: what `resultSet += e + sep` builds. */
  function Terminated(elems: seq<string>, sep: string): string
  {
    if |elems| == 0 then ""
    else Terminated(elems[..|elems| - 1], sep) + elems[|elems| - 1] + sep
  }

  lemma TerminatedStep(elems: seq<string>, e: string, sep: string)
    ensures Terminated(elems + [e], sep) == Terminated(elems, sep) + e + sep
  {
    assert (elems + [e])[..|elems|] == elems;
  }

  /** `strings.TrimSuffix(s, suffix)`. */
  function TrimSuffix(s: string, suffix: string): (r: string)
    ensures HasSuffix(s, suffix) ==> r + suffix == s
    ensures !HasSuffix(s, suffix) ==> r == s
  {
    if HasSuffix(s, suffix) then s[..|s| - |suffix|] else s
  }

  // ---------------------------------------------------------------------
  // Join

  lemma {:induction false} JoinCons(x: string, ys: seq<string>, sep: string)
    requires ys != []
    ensures Join([x] + ys, sep) == x + sep + Join(ys, sep)
    decreases |ys|
  {
    var zs := [x] + ys;
    if |ys| == 1 {
      assert zs[..1] == [x];
    } else {
      assert zs[..|zs| - 1] == [x] + ys[..|ys| - 1];
      JoinCons(x, ys[..|ys| - 1], sep);
    }
  }

  /** A join of non-empty elements is empty exactly when there are none. */
  lemma JoinIsEmpty(elems: seq<string>, sep: string)
    requires forall e :: e in elems ==> e != ""
    ensures Join(elems, sep) == "" <==> elems == []
  {
    if |elems| >= 1 {
      assert elems[|elems| - 1] in elems;
    }
  }

  /**
   * Trimming one separator off the terminated form leaves the join: the
   * `TrimSuffix` after the accumulation loop removes exactly the separator
   * appended after the last element, and nothing from an empty result.
   */
  lemma {:induction false} TrimTerminated(elems: seq<string>, sep: string)
    requires sep != ""
    ensures TrimSuffix(Terminated(elems, sep), sep) == Join(elems, sep)
  {
    if elems != [] {
      TerminatedIsJoinPlusSeparator(elems, sep);
      var t := Terminated(elems, sep);
      assert t[|t| - |sep|..] == sep;
      assert t[..|t| - |sep|] == Join(elems, sep);
    }
  }

  lemma {:induction false} TerminatedIsJoinPlusSeparator(elems: seq<string>, sep: string)
    requires elems != []
    ensures Terminated(elems, sep) == Join(elems, sep) + sep
    decreases |elems|
  {
    if |elems| > 1 {
      TerminatedIsJoinPlusSeparator(elems[..|elems| - 1], sep);
    }
  }

  // ---------------------------------------------------------------------
  // Split and Join are inverse

  /** One step of `Split`: the text up to the first separator, then the rest split. */
  lemma SplitAtFirstSeparator(s: string, sep: string, i: nat)
    requires sep != "" && Index(s, sep) == Some(i)
    ensures Split(s, sep) == [s[..i]] + Split(s[i + |sep|..], sep)
  {
  }

  /** The text around an occurrence of the separator. */
  lemma AroundFirstSeparator(s: string, sep: string, i: nat)
    requires OccursAt(s, sep, i)
    ensures s == s[..i] + sep + s[i + |sep|..]
  {
    assert s[i..] == s[i..i + |sep|] + s[i + |sep|..];
    assert s == s[..i] + s[i..];
  }

  /** Slicing `x + sep + y` within or after `x`. */
  lemma SlicesOfInsertion(x: string, y: string, sep: string, i: nat)
    requires i + |sep| <= |x|
    ensures (x + sep + y)[..i] == x[..i]
    ensures (x + sep + y)[i + |sep|..] == x[i + |sep|..] + sep + y
  {
  }

  lemma {:induction false} JoinSplit(s: string, sep: string)
    requires sep != ""
    ensures Join(Split(s, sep), sep) == s
    decreases |s|
  {
    match Index(s, sep)
    case None =>
    case Some(i) =>
      var rest := s[i + |sep|..];
      SplitAtFirstSeparator(s, sep, i);
      AroundFirstSeparator(s, sep, i);
      JoinSplit(rest, sep);
      JoinCons(s[..i], Split(rest, sep), sep);
  }

  /** With `sep` unbordered, no occurrence straddles the start of an inserted separator. */
  lemma NoStraddlingOccurrence(x: string, y: string, sep: string, j: nat)
    requires Unbordered(sep)
    requires j < |x| < j + |sep|
    ensures !OccursAt(x + sep + y, sep, j)
  {
    var s := x + sep + y;
    var n := |sep|;
    var k := j + n - |x|;
    assert s[|x|..|x| + n] == sep;
    assert s[|x|..j + n] == sep[..k] by {
      assert s[|x|..|x| + n][..k] == s[|x|..j + n];
    }
    assert s[j..j + n][n - k..] == s[|x|..j + n];
    assert sep[..k] != sep[n - k..];
  }

  /** A slice of `x + sep + y` that ends within `x` is a slice of `x`. */
  lemma SliceWithinFirst(x: string, y: string, sep: string, j: nat, k: nat)
    requires j <= k <= |x|
    ensures (x + sep + y)[j..k] == x[j..k]
  {
  }

  /** A separator found in `x` is still the first one in `x + sep + y`. */
  lemma IndexBeforeInsertedSeparator(x: string, y: string, sep: string, i: nat)
    requires sep != "" && Index(x, sep) == Some(i)
    ensures Index(x + sep + y, sep) == Some(i)
  {
    var s := x + sep + y;
    var n := |sep|;
    SliceWithinFirst(x, y, sep, i, i + n);
    forall j: nat | j < i
      ensures !OccursAt(s, sep, j)
    {
      SliceWithinFirst(x, y, sep, j, j + n);
      assert !OccursAt(x, sep, j);
    }
    IndexIsFirstOccurrence(s, sep, i);
  }

  /** With `sep` unbordered and absent from `x`, the first one in `x + sep + y` is the inserted one. */
  lemma IndexAtInsertedSeparator(x: string, y: string, sep: string)
    requires sep != "" && Unbordered(sep) && Index(x, sep).None?
    ensures Index(x + sep + y, sep) == Some(|x|)
  {
    var s := x + sep + y;
    var n := |sep|;
    assert s[|x|..|x| + n] == sep;
    forall j: nat | j < |x|
      ensures !OccursAt(s, sep, j)
    {
      if j + n <= |x| {
        SliceWithinFirst(x, y, sep, j, j + n);
        assert !OccursAt(x, sep, j);
      } else {
        NoStraddlingOccurrence(x, y, sep, j);
      }
    }
    IndexIsFirstOccurrence(s, sep, |x|);
  }

  /**
   * With an unbordered separator, splitting a text built around one
   * separator splits each side on its own.
   */
  lemma {:induction false} SplitAcrossSeparator(x: string, y: string, sep: string)
    requires sep != "" && Unbordered(sep)
    ensures Split(x + sep + y, sep) == Split(x, sep) + Split(y, sep)
    decreases |x|
  {
    match Index(x, sep)
    case Some(i) =>
      SplitAcrossSeparator(x[i + |sep|..], y, sep);
      SplitAcrossSeparatorAfterFirst(x, y, sep, i);
    case None =>
      IndexAtInsertedSeparator(x, y, sep);
      var s := x + sep + y;
      SplitAtFirstSeparator(s, sep, |x|);
      assert s[..|x|] == x;
      assert s[|x| + |sep|..] == y;
  }

  /** The inductive step of `SplitAcrossSeparator`, past the first separator of `x`. */
  lemma SplitAcrossSeparatorAfterFirst(x: string, y: string, sep: string, i: nat)
    requires sep != "" && Index(x, sep) == Some(i)
    requires Split(x[i + |sep|..] + sep + y, sep) == Split(x[i + |sep|..], sep) + Split(y, sep)
    ensures Split(x + sep + y, sep) == Split(x, sep) + Split(y, sep)
  {
    var rest := x[i + |sep|..];
    SplitPastFirstSeparator(x, y, sep, i);
    SplitAtFirstSeparator(x, sep, i);
    ConsAssociates(x[..i], Split(rest, sep), Split(y, sep));
  }

  /** Past the first separator of `x`, `x + sep + y` splits as `x` does. */
  lemma SplitPastFirstSeparator(x: string, y: string, sep: string, i: nat)
    requires sep != "" && Index(x, sep) == Some(i)
    ensures Split(x + sep + y, sep) == [x[..i]] + Split(x[i + |sep|..] + sep + y, sep)
  {
    var s := x + sep + y;
    IndexBeforeInsertedSeparator(x, y, sep, i);
    SplitAtFirstSeparator(s, sep, i);
    SlicesOfInsertion(x, y, sep, i);
  }

  // Proof step: associativity of concatenation, kept apart to keep the induction step small.
  lemma ConsAssociates(a: string, p: seq<string>, q: seq<string>)
    ensures [a] + (p + q) == ([a] + p) + q
  {
  }

  /** A text that does not contain the separator is a single token. */
  lemma SplitWithoutSeparator(x: string, sep: string)
    requires sep != "" && !Contains(x, sep)
    ensures Split(x, sep) == [x]
  {
  }

  /** A leading separator contributes one leading "" token, whatever the separator. */
  lemma SplitLeadingSeparator(y: string, sep: string)
    requires sep != ""
    ensures Split(sep + y, sep) == [""] + Split(y, sep)
  {
    var s := sep + y;
    assert s[..|sep|] == sep;
    IndexIsFirstOccurrence(s, sep, 0);
    assert s[|sep|..] == y;
  }

  /** With an unbordered separator, a trailing separator adds one trailing "" token. */
  lemma SplitTrailingSeparator(x: string, sep: string)
    requires sep != "" && Unbordered(sep)
    ensures Split(x + sep, sep) == Split(x, sep) + [""]
  {
    assert x + sep == x + sep + "";
    SplitAcrossSeparator(x, "", sep);
  }

  /** With an unbordered separator, a doubled separator adds one "" token. */
  lemma SplitDoubledSeparator(x: string, y: string, sep: string)
    requires sep != "" && Unbordered(sep)
    ensures Split(x + sep + y, sep) == Split(x, sep) + Split(y, sep)
    ensures Split(x + sep + sep + y, sep) == Split(x, sep) + [""] + Split(y, sep)
  {
    SplitAcrossSeparator(x, y, sep);
    assert x + sep + sep + y == x + sep + (sep + y);
    SplitAcrossSeparator(x, sep + y, sep);
    SplitLeadingSeparator(y, sep);
  }

  /**
   * Re-splitting a join recovers the elements, provided there is at least one
   * element, none contains the separator, and the separator is unbordered.
   */
  lemma {:induction false} SplitJoin(elems: seq<string>, sep: string)
    requires sep != "" && Unbordered(sep)
    requires elems != []
    requires forall e :: e in elems ==> !Contains(e, sep)
    ensures Split(Join(elems, sep), sep) == elems
    decreases |elems|
  {
    var init, last := elems[..|elems| - 1], elems[|elems| - 1];
    assert elems == init + [last];
    SplitWithoutSeparator(last, sep);
    if init != [] {
      assert forall e :: e in init ==> e in elems;
      SplitJoin(init, sep);
      SplitAcrossSeparator(Join(init, sep), last, sep);
    }
  }

  /** A text that starts with the separator has "" as its first token. */
  lemma LeadingSeparatorGivesEmptyToken(r: string, sep: string)
    requires sep != ""
    ensures HasPrefix(r, sep) ==> Split(r, sep)[0] == ""
  {
    if HasPrefix(r, sep) {
      assert r == sep + r[|sep|..];
      SplitLeadingSeparator(r[|sep|..], sep);
    }
  }

  /** With an unbordered separator, a text that ends with it has "" as its last token. */
  lemma TrailingSeparatorGivesEmptyToken(r: string, sep: string)
    requires sep != "" && Unbordered(sep)
    ensures HasSuffix(r, sep) ==> Split(r, sep)[|Split(r, sep)| - 1] == ""
  {
    if HasSuffix(r, sep) {
      var u := r[..|r| - |sep|];
      assert r == u + sep;
      SplitTrailingSeparator(u, sep);
    }
  }

  /**
   * The join of at least one non-empty element that contains no separator
   * neither starts nor ends with the separator, when the separator is
   * unbordered.
   */
  lemma JoinHasNoOuterSeparator(elems: seq<string>, sep: string)
    requires sep != "" && Unbordered(sep)
    requires elems != []
    requires forall e :: e in elems ==> e != "" && !Contains(e, sep)
    ensures !HasPrefix(Join(elems, sep), sep)
    ensures !HasSuffix(Join(elems, sep), sep)
  {
    var r := Join(elems, sep);
    SplitJoin(elems, sep);
    assert elems[0] in elems && elems[|elems| - 1] in elems;
    LeadingSeparatorGivesEmptyToken(r, sep);
    TrailingSeparatorGivesEmptyToken(r, sep);
  }

  /**
   * With the bordered separator "aa" the round trip fails: "ba" and "c" are
   * tokens without a separator, yet their join "baaac" splits as "b", "ac".
   */
  lemma BorderedSeparatorBreaksRoundTrip()
    ensures !Contains("ba", "aa") && !Contains("c", "aa")
    ensures Split(Join(["ba", "c"], "aa"), "aa") == ["b", "ac"]
  {
    JoinOfBorderedExample();
    SplitOfBorderedExample();
    NoDoubledA("ba");
    NoDoubledA("ac");
  }

  /**
   * With the bordered separator "aa" a trailing separator does not just add
   * a trailing "" token: "xa" is one token, yet "xa" + "aa" splits as "x", "a".
   */
  lemma BorderedSeparatorBreaksTrailingPadding()
    ensures Split("xa", "aa") == ["xa"]
    ensures Split("xa" + "aa", "aa") == ["x", "a"]
  {
    NoDoubledA("xa");
    SplitWithoutSeparator("xa", "aa");
    var s := "xa" + "aa";
    assert s == "xaaa";
    assert s[0..2][0] == 'x';
    assert s[1..3] == "aa";
    IndexIsFirstOccurrence(s, "aa", 1);
    SplitAtFirstSeparator(s, "aa", 1);
    assert s[..1] == "x" && s[3..] == "a";
    assert !OccursAt("a", "aa", 0);
    SplitWithoutSeparator("a", "aa");
  }

  lemma JoinOfBorderedExample()
    ensures Join(["ba", "c"], "aa") == "baaac"
  {
    assert ["ba", "c"][..1] == ["ba"];
  }

  lemma SplitOfBorderedExample()
    ensures Split("baaac", "aa") == ["b", "ac"]
  {
    var s := "baaac";
    assert s[0..2][0] == 'b';
    assert s[1..3] == "aa";
    IndexIsFirstOccurrence(s, "aa", 1);
    SplitAtFirstSeparator(s, "aa", 1);
    assert s[..1] == "b" && s[3..] == "ac";
    NoDoubledA("ac");
    SplitWithoutSeparator("ac", "aa");
  }

  /** A two-character text with a character other than 'a' does not contain "aa". */
  lemma NoDoubledA(t: string)
    requires |t| == 2 && (t[0] != 'a' || t[1] != 'a')
    ensures !Contains(t, "aa")
  {
    forall j: nat ensures !OccursAt(t, "aa", j) {
      assert t[0..2][0] == t[0] && t[0..2][1] == t[1];
    }
  }
}
