/** regexp.ReplaceAllString: leftmost, non-overlapping replacement. */
module Replacement {
  import opened Strings
  import opened Regex

  /** Every pattern of the service begins with a character it must take, so no match is empty. */
  predicate Consumes(re: Pattern) { re != [] && re[0].One? }

  lemma FirstConsumes(re: Pattern, s: string)
    requires Consumes(re)
    ensures match First(re, s) case Some(n) => 0 < n <= |s| && Has(re[0].cls, s[0]) case None => true
  {
    FirstSound(re, s);
  }

  /** The text with each match, taken from the left, replaced. */
  function Replace(re: Pattern, repl: string, s: string): string
    requires Consumes(re)
    decreases |s|
  {
    if s == [] then []
    else
      FirstConsumes(re, s);
      match First(re, s)
      case Some(n) => repl + Replace(re, repl, s[n..])
      case None => [s[0]] + Replace(re, repl, s[1..])
  }

  /** The scanning loop. */
  method ReplaceAllString(re: Pattern, s: string, repl: string) returns (r: string)
    requires Consumes(re)
    ensures r == Replace(re, repl, s)
  {
    r := "";
    var i := 0;
    while i < |s|
      invariant 0 <= i <= |s|
      invariant r + Replace(re, repl, s[i..]) == Replace(re, repl, s)
    {
      ScanStep(re, repl, s, i, r);
      match First(re, s[i..]) {
        case Some(n) =>
          r := r + repl;
          i := i + n;
        case None =>
          r := r + [s[i]];
          i := i + 1;
      }
    }
  }

  /** One round of the loop moves its output from what is left to what is done. */
  lemma ScanStep(re: Pattern, repl: string, s: string, i: nat, done: string)
    requires Consumes(re) && i < |s|
    ensures match First(re, s[i..])
            case Some(n) => 0 < n <= |s| - i &&
                done + Replace(re, repl, s[i..]) == (done + repl) + Replace(re, repl, s[i + n..])
            case None => done + Replace(re, repl, s[i..]) == (done + [s[i]]) + Replace(re, repl, s[i + 1..])
  {
    var rest := s[i..];
    FirstConsumes(re, rest);
    match First(re, rest)
    case Some(n) =>
      assert rest[n..] == s[i + n..];
    case None =>
      assert rest[1..] == s[i + 1..] && rest[0] == s[i];
  }

  /** Where no match can begin the text passes unchanged. */
  lemma {:induction false} ReplaceSkips(re: Pattern, repl: string, x: string, y: string)
    requires Consumes(re) && NoneWithin(re, x, y)
    ensures Replace(re, repl, x + y) == x + Replace(re, repl, y)
    decreases |x|
  {
    if x == [] {
      assert x + y == y;
    } else {
      NoneWithinTail(re, x, y);
      assert (x + y)[1..] == x[1..] + y;
      ReplaceSkips(re, repl, x[1..], y);
      assert x == [x[0]] + x[1..];
    }
  }

  // ----- leftmost and non-overlapping, said about the text -----

  /** Text that is kept, and the match that ends it. */
  datatype Segment = Segment(kept: string, cut: string)

  /** The text begins with the segment: the matcher finds nothing where it is kept, and then its cut. */
  ghost predicate ScanCut(re: Pattern, s: string, g: Segment) {
    && g.kept + g.cut <= s
    && NoneWithin(re, g.kept, s[|g.kept|..])
    && First(re, s[|g.kept|..]) == Some(|g.cut|)
  }

  /** The text is the segments and then `last`. */
  ghost predicate ScanCuts(re: Pattern, s: string, segments: seq<Segment>, last: string)
    decreases |segments|
  {
    if segments == [] then s == last && NoneWithin(re, last, [])
    else
      ScanCut(re, s, segments[0]) &&
      ScanCuts(re, s[|segments[0].kept| + |segments[0].cut|..], segments[1..], last)
  }

  function Spliced(repl: string, segments: seq<Segment>, last: string): string {
    if segments == [] then last else segments[0].kept + (repl + Spliced(repl, segments[1..], last))
  }

  lemma ReplaceFirst(re: Pattern, repl: string, kept: string, y: string)
    requires Consumes(re) && NoneWithin(re, kept, y) && First(re, y).Some?
    ensures First(re, y).value <= |y|
    ensures Replace(re, repl, kept + y) == kept + (repl + Replace(re, repl, y[First(re, y).value..]))
  {
    FirstConsumes(re, y);
    ReplaceSkips(re, repl, kept, y);
  }

  lemma {:induction false} ReplaceIsSpliced(re: Pattern, repl: string, s: string, segments: seq<Segment>, last: string)
    requires Consumes(re) && ScanCuts(re, s, segments, last)
    ensures Replace(re, repl, s) == Spliced(repl, segments, last)
    decreases |segments|
  {
    if segments == [] {
      ReplaceSkips(re, repl, last, []);
      assert last + [] == last;
    } else {
      var Segment(kept, cut) := segments[0];
      var y := s[|kept|..];
      assert s == kept + y && y[|cut|..] == s[|kept| + |cut|..];
      ReplaceFirst(re, repl, kept, y);
      ReplaceIsSpliced(re, repl, y[|cut|..], segments[1..], last);
    }
  }

  /** One more kept character in front. */
  lemma KeepInFirst(re: Pattern, s: string, g: Segment)
    requires s != [] && First(re, s).None? && ScanCut(re, s[1..], g)
    ensures ScanCut(re, s, Segment([s[0]] + g.kept, g.cut))
    ensures s[|g.kept| + 1 + |g.cut|..] == s[1..][|g.kept| + |g.cut|..]
  {
    ShiftedByOne(s, g.kept, g.cut);
    NoneWithinCons(re, s[0], g.kept, s[1..][|g.kept|..]);
  }

  lemma ShiftedByOne(s: string, kept: string, cut: string)
    requires s != [] && kept + cut <= s[1..]
    ensures s == [s[0]] + (kept + s[1..][|kept|..]) && ([s[0]] + kept) + cut <= s
    ensures s[|kept| + 1..] == s[1..][|kept|..]
    ensures s[|kept| + 1 + |cut|..] == s[1..][|kept| + |cut|..]
  {
  }

  lemma ScanCutsKeep(re: Pattern, s: string, segments: seq<Segment>, last: string)
    returns (segments': seq<Segment>, last': string)
    requires s != [] && First(re, s).None? && ScanCuts(re, s[1..], segments, last)
    ensures ScanCuts(re, s, segments', last')
  {
    if segments == [] {
      segments', last' := [], [s[0]] + last;
      assert [s[0]] + (last + []) == s;
      NoneWithinCons(re, s[0], last, []);
    } else {
      var first := Segment([s[0]] + segments[0].kept, segments[0].cut);
      KeepInFirst(re, s, segments[0]);
      segments', last' := [first] + segments[1..], last;
      assert segments'[1..] == segments[1..];
    }
  }

  lemma NoneWithinCons(re: Pattern, c: char, x: string, y: string)
    requires NoneWithin(re, x, y) && First(re, [c] + (x + y)).None?
    ensures NoneWithin(re, [c] + x, y)
  {
    forall i | 0 <= i <= |x| ensures First(re, ([c] + x)[i..] + y).None? {
      if i == 0 {
        assert ([c] + x)[0..] + y == [c] + (x + y);
      } else {
        assert ([c] + x)[i..] == x[i - 1..];
      }
    }
  }

  lemma {:induction false} ScanCutsExist(re: Pattern, s: string) returns (segments: seq<Segment>, last: string)
    requires Consumes(re)
    ensures ScanCuts(re, s, segments, last)
    decreases |s|
  {
    if s == [] {
      segments, last := [], [];
    } else {
      FirstConsumes(re, s);
      match First(re, s)
      case Some(n) =>
        segments, last := ScanCutsExist(re, s[n..]);
        segments := [Segment([], s[..n])] + segments;
        assert s[0..] == s && [] + s[..n] == s[..n];
      case None =>
        segments, last := ScanCutsExist(re, s[1..]);
        segments, last := ScanCutsKeep(re, s, segments, last);
    }
  }

  // ----- the same without the matcher -----

  /** No stretch of the text that begins at `i` is in the pattern's language. */
  ghost predicate NothingAt(re: Pattern, s: string, i: nat)
    requires i <= |s|
  {
    forall n :: 0 <= n <= |s| - i ==> !Matches(re, s[i..][..n])
  }

  /** No stretch that begins in the kept text is in the language, and the cut is the match after it. */
  ghost predicate CutAt(re: Pattern, s: string, g: Segment) {
    && g.kept + g.cut <= s
    && (forall i :: 0 <= i < |g.kept| ==> NothingAt(re, s, i))
    && IsMatch(re, s[|g.kept|..], |g.cut|)
  }

  /** The text is the segments and then `last`, in which nothing matches. */
  ghost predicate LeftmostCuts(re: Pattern, s: string, segments: seq<Segment>, last: string)
    decreases |segments|
  {
    if segments == [] then s == last && forall i :: 0 <= i < |s| ==> NothingAt(re, s, i)
    else
      CutAt(re, s, segments[0]) &&
      LeftmostCuts(re, s[|segments[0].kept| + |segments[0].cut|..], segments[1..], last)
  }

  /** The choices of the pattern are settled: it begins with a character and takes as little as it can,
      or as much. */
  ghost predicate Settled(re: Pattern) { Consumes(re) && (Greedy(re) || Thrifty(re)) }

  lemma NothingAtIff(re: Pattern, s: string, i: nat)
    requires i <= |s|
    ensures NothingAt(re, s, i) <==> First(re, s[i..]).None?
  {
    FirstFindsIff(re, s[i..]);
  }

  lemma NoneWithinIff(re: Pattern, x: string, y: string, s: string)
    requires s == x + y
    ensures NoneWithin(re, x, y) <==> forall i :: 0 <= i < |x| ==> NothingAt(re, s, i)
  {
    forall i | 0 <= i < |x| ensures NothingAt(re, s, i) <==> First(re, x[i..] + y).None? {
      assert s[i..] == x[i..] + y;
      NothingAtIff(re, s, i);
    }
  }

  lemma CutsAgree(re: Pattern, s: string, g: Segment)
    requires Settled(re)
    ensures ScanCut(re, s, g) <==> CutAt(re, s, g)
  {
    if g.kept + g.cut <= s {
      NoneWithinIff(re, g.kept, s[|g.kept|..], s);
      FirstIsMatch(re, s[|g.kept|..], |g.cut|);
    }
  }

  lemma {:induction false} ScanIsLeftmost(re: Pattern, s: string, segments: seq<Segment>, last: string)
    requires Settled(re)
    ensures ScanCuts(re, s, segments, last) <==> LeftmostCuts(re, s, segments, last)
    decreases |segments|
  {
    if segments == [] {
      if s == last { NoneWithinIff(re, last, [], s); }
    } else {
      CutsAgree(re, s, segments[0]);
      if CutAt(re, s, segments[0]) {
        ScanIsLeftmost(re, s[|segments[0].kept| + |segments[0].cut|..], segments[1..], last);
      }
    }
  }

  /** The text can be cut at leftmost matches, and whichever way it is, Replace splices along it. */
  lemma ReplaceIsLeftmost(re: Pattern, repl: string, s: string)
    requires Settled(re)
    ensures exists segments, last :: LeftmostCuts(re, s, segments, last)
    ensures forall segments, last :: LeftmostCuts(re, s, segments, last) ==>
            Replace(re, repl, s) == Spliced(repl, segments, last)
  {
    var some, end := ScanCutsExist(re, s);
    ScanIsLeftmost(re, s, some, end);
    forall segments, last | LeftmostCuts(re, s, segments, last)
      ensures Replace(re, repl, s) == Spliced(repl, segments, last)
    {
      ScanIsLeftmost(re, s, segments, last);
      ReplaceIsSpliced(re, repl, s, segments, last);
    }
  }

  // ----- what any replacement keeps -----

  /** `a` can be had from `b` by deleting characters. */
  predicate Subsequence(a: string, b: string)
    decreases |b|
  {
    a == [] || (b != [] && ((a[0] == b[0] && Subsequence(a[1..], b[1..])) || Subsequence(a, b[1..])))
  }

  lemma {:induction false} SubsequenceOfMore(a: string, x: string, b: string)
    requires Subsequence(a, b)
    ensures Subsequence(a, x + b)
    decreases |x|
  {
    if x == [] {
      assert x + b == b;
    } else {
      SubsequenceOfMore(a, x[1..], b);
      assert (x + b)[1..] == x[1..] + b;
    }
  }

  /** A deleting pass outputs a subsequence of its input. */
  lemma {:induction false} DeletionIsSubsequence(re: Pattern, s: string)
    requires Consumes(re)
    ensures Subsequence(Replace(re, "", s), s)
    decreases |s|
  {
    if s != [] {
      FirstConsumes(re, s);
      match First(re, s)
      case Some(n) =>
        DeletionIsSubsequence(re, s[n..]);
        SubsequenceOfMore(Replace(re, "", s[n..]), s[..n], s[n..]);
        assert s[..n] + s[n..] == s && "" + Replace(re, "", s[n..]) == Replace(re, "", s[n..]);
      case None =>
        DeletionIsSubsequence(re, s[1..]);
        assert Replace(re, "", s)[1..] == Replace(re, "", s[1..]);
    }
  }

  /** `re` matches nowhere in `text`. */
  ghost predicate Nowhere(re: Pattern, text: string) { forall i :: 0 <= i < |text| ==> First(re, text[i..]).None? }

  lemma {:induction false} DeletionShortens(re: Pattern, s: string)
    requires Consumes(re)
    ensures |Replace(re, "", s)| <= |s|
    decreases |s|
  {
    if s != [] {
      FirstConsumes(re, s);
      match First(re, s)
      case Some(n) => DeletionShortens(re, s[n..]);
      case None => DeletionShortens(re, s[1..]);
    }
  }

  lemma NowhereTail(re: Pattern, s: string)
    requires s != []
    ensures Nowhere(re, s) <==> First(re, s).None? && Nowhere(re, s[1..])
  {
    assert s[0..] == s;
    forall i | 0 <= i < |s| - 1 ensures s[1..][i..] == s[i + 1..] {
    }
    if First(re, s).None? && Nowhere(re, s[1..]) {
      forall i | 0 <= i < |s| ensures First(re, s[i..]).None? {
        assert i > 0 ==> s[i..] == s[1..][i - 1..];
      }
    }
  }

  /** A deleting pass changes nothing exactly when there is no match; so deleting twice is deleting once
      exactly when the first pass leaves none. */
  lemma {:induction false} DeletionIdleIff(re: Pattern, s: string)
    requires Consumes(re)
    ensures Replace(re, "", s) == s <==> Nowhere(re, s)
    decreases |s|
  {
    if s != [] {
      FirstConsumes(re, s);
      NowhereTail(re, s);
      match First(re, s)
      case Some(n) =>
        DeletionShortens(re, s[n..]);
      case None =>
        DeletionIdleIff(re, s[1..]);
        assert s == [s[0]] + s[1..];
        assert Replace(re, "", s)[1..] == Replace(re, "", s[1..]);
    }
  }

  /** Nothing but the replacement text is added. */
  lemma {:induction false} ReplaceAddsOnlyRepl(re: Pattern, repl: string, s: string, c: char)
    requires Consumes(re) && c !in repl && c !in s
    ensures c !in Replace(re, repl, s)
    decreases |s|
  {
    if s != [] {
      FirstConsumes(re, s);
      match First(re, s)
      case Some(n) => ReplaceAddsOnlyRepl(re, repl, s[n..], c);
      case None => ReplaceAddsOnlyRepl(re, repl, s[1..], c);
    }
  }

  /** A text without the pattern's first character passes unchanged. */
  lemma ReplaceIdle(re: Pattern, repl: string, s: string)
    requires Consumes(re) && forall i :: 0 <= i < |s| ==> !Has(re[0].cls, s[i])
    ensures Replace(re, repl, s) == s
  {
    forall i | 0 <= i < |s| ensures First(re, s[i..] + []).None? {
      FirstConsumes(re, s[i..] + []);
      assert (s[i..] + [])[0] == s[i];
    }
    ReplaceSkips(re, repl, s, []);
    assert s + [] == s;
  }
}
