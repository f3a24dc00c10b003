/** The fragment of Go's regexp syntax that pkg/html/transformer.go uses: sequences of character
    classes, each taken once, optionally, or any number of times (greedy or lazy). */
module Regex {
  import opened Strings

  /** Fold is a letter under (?i): Unicode simple folding adds one non-ASCII partner to s and to k. */
  datatype CharClass = Is(c: char) | Fold(lower: char) | Not(c: char) | SpaceOr(c: char) | Space | Digit | Any

  /** `\s` */
  predicate IsSpace(c: char) { c == '\t' || c == '\n' || c == '\U{000C}' || c == '\r' || c == ' ' }

  predicate FoldsTo(c: char, lower: char) {
    || c == lower
    || ('a' <= lower <= 'z' && 'A' <= c <= 'Z' && c as int + 32 == lower as int)
    || (lower == 's' && c == '\U{017F}')
    || (lower == 'k' && c == '\U{212A}')
  }

  predicate Has(cls: CharClass, c: char) {
    match cls
    case Is(d) => c == d
    case Fold(d) => FoldsTo(c, d)
    case Not(d) => c != d
    case SpaceOr(d) => IsSpace(c) || c == d
    case Space => IsSpace(c)
    case Digit => '0' <= c <= '9'
    case Any => true
  }

  datatype Item = One(cls: CharClass) | Maybe(cls: CharClass) | Star(cls: CharClass, greedy: bool)

  type Pattern = seq<Item>

  /** A literal text. */
  function Lit(w: string): Pattern { seq(|w|, i requires 0 <= i < |w| => One(Is(w[i]))) }

  /** A literal text under (?i). */
  function FoldLit(w: string): Pattern { seq(|w|, i requires 0 <= i < |w| => One(Fold(w[i]))) }

  function After(n: nat, r: Option<nat>): Option<nat> {
    match r case Some(m) => Some(n + m) case None => None
  }

  function OrElse(r: Option<nat>, other: Option<nat>): Option<nat> { if r.Some? then r else other }

  /** Length of the match at the start of `s` that a backtracking matcher finds first. */
  function First(re: Pattern, s: string): Option<nat>
    decreases |s|, |re|
  {
    if re == [] then Some(0)
    else
      var item, rest := re[0], re[1..];
      var takes := s != [] && Has(item.cls, s[0]);
      match item
      case One(_) => if takes then After(1, First(rest, s[1..])) else None
      case Maybe(_) => if takes then OrElse(After(1, First(rest, s[1..])), First(rest, s)) else First(rest, s)
      case Star(_, true) => if takes then OrElse(After(1, First(re, s[1..])), First(rest, s)) else First(rest, s)
      case Star(_, false) => OrElse(First(rest, s), if takes then After(1, First(re, s[1..])) else None)
  }

  // ----- the language of a pattern -----

  /** The whole of `w` is in the pattern's language. */
  predicate Matches(re: Pattern, w: string)
    decreases |w|, |re|
  {
    if re == [] then w == []
    else
      var takes := w != [] && Has(re[0].cls, w[0]);
      match re[0]
      case One(_) => takes && Matches(re[1..], w[1..])
      case Maybe(_) => Matches(re[1..], w) || (takes && Matches(re[1..], w[1..]))
      case Star(_, _) => Matches(re[1..], w) || (takes && Matches(re, w[1..]))
  }

  /** What the matcher finds is a prefix in the language. */
  lemma {:induction false} FirstSound(re: Pattern, s: string)
    ensures match First(re, s) case Some(n) => n <= |s| && Matches(re, s[..n]) case None => true
    decreases |s|, |re|
  {
    if re != [] {
      FirstSound(re[1..], s);
      if s != [] {
        FirstSound(re[1..], s[1..]);
        FirstSound(re, s[1..]);
        forall m | 0 <= m < |s| ensures s[..m + 1][1..] == s[1..][..m] && s[..m + 1][0] == s[0] {
        }
      }
    }
  }

  /** When some prefix is in the language the matcher finds one. */
  lemma {:induction false} FirstComplete(re: Pattern, s: string, n: nat)
    requires n <= |s| && Matches(re, s[..n])
    ensures First(re, s).Some?
    decreases |s|, |re|
  {
    if re != [] {
      if Matches(re[1..], s[..n]) && !re[0].One? {
        FirstComplete(re[1..], s, n);
      } else {
        assert s[..n][1..] == s[1..][..n - 1];
        FirstComplete(if re[0].Star? then re else re[1..], s[1..], n - 1);
      }
    }
  }

  /** The matcher fails exactly when no prefix is in the language. */
  lemma FirstFindsIff(re: Pattern, s: string)
    ensures First(re, s).Some? <==> exists n: nat :: n <= |s| && Matches(re, s[..n])
  {
    FirstSound(re, s);
    if n: nat :| n <= |s| && Matches(re, s[..n]) {
      FirstComplete(re, s, n);
    }
  }

  // ----- which of the matching prefixes the matcher picks -----

  ghost predicate Disjoint(a: CharClass, b: CharClass) { forall c {:trigger Has(a, c)} :: !(Has(a, c) && Has(b, c)) }

  /** Wherever the pattern can go on in two ways the next character decides, up to a lazy gap before a
      text of fixed length. */
  ghost predicate Thrifty(re: Pattern) {
    re == [] ||
    match re[0]
    case One(_) => Thrifty(re[1..])
    case Maybe(c) => |re| > 1 && re[1].One? && Disjoint(c, re[1].cls) && Thrifty(re[1..])
    case Star(c, true) => |re| > 1 && re[1].One? && Disjoint(c, re[1].cls) && Thrifty(re[1..])
    case Star(_, false) => Fixed(re[1..])
  }

  /** The only choice is how far a greedy run at the end goes. */
  predicate Greedy(re: Pattern) {
    re == [] ||
    match re[0]
    case One(_) => Greedy(re[1..])
    case Star(_, true) => re[1..] == []
    case _ => false
  }

  lemma {:induction false} AfterFixed(a: Pattern, b: Pattern)
    requires Fixed(a)
    ensures Thrifty(b) ==> Thrifty(a + b)
    ensures Greedy(a + b) <==> Greedy(b)
  {
    if a == [] {
      assert a + b == b;
    } else {
      assert (a + b)[0] == a[0] && (a + b)[1..] == a[1..] + b;
      AfterFixed(a[1..], b);
    }
  }

  lemma AfterGap(b: Pattern)
    requires Fixed(b)
    ensures Thrifty([Star(Any, false)] + b) && !Greedy([Star(Any, false)] + b)
  {
    assert ([Star(Any, false)] + b)[1..] == b;
  }

  lemma AfterChoice(item: Item, b: Pattern)
    requires !item.One? && (item.Star? ==> item.greedy)
    requires b != [] && b[0].One? && Disjoint(item.cls, b[0].cls) && Thrifty(b)
    ensures Thrifty([item] + b) && !Greedy([item] + b)
  {
    assert ([item] + b)[1..] == b;
  }

  lemma {:induction false} FixedLength(re: Pattern, w: string)
    requires Fixed(re) && Matches(re, w)
    ensures |w| == |re|
    decreases |re|
  {
    if re != [] { FixedLength(re[1..], w[1..]); }
  }

  lemma {:induction false} LazyLength(re: Pattern, w: string)
    requires re != [] && re[0].Star? && Fixed(re[1..]) && Matches(re, w)
    ensures |w| >= |re| - 1
    decreases |w|
  {
    if Matches(re[1..], w) {
      FixedLength(re[1..], w);
    } else {
      LazyLength(re, w[1..]);
    }
  }

  lemma ShorterTail(s: string, n: nat)
    requires 0 < n <= |s|
    ensures s[..n][1..] == s[1..][..n - 1] && s[..n][0] == s[0]
  {
  }

  /** What a thrifty pattern takes is no longer than any prefix in its language. */
  lemma {:induction false} ThriftyTakesLeast(re: Pattern, s: string, n: nat)
    requires Thrifty(re) && n <= |s| && Matches(re, s[..n])
    ensures First(re, s).Some? && First(re, s).value <= n
    decreases |s|, |re|
  {
    if re != [] {
      if n > 0 { ShorterTail(s, n); }
      match re[0]
      case One(_) =>
        ThriftyTakesLeast(re[1..], s[1..], n - 1);
      case Maybe(_) =>
        if Matches(re[1..], s[..n]) {
          ThriftyTakesLeast(re[1..], s, n);
        } else {
          ThriftyTakesLeast(re[1..], s[1..], n - 1);
        }
      case Star(_, true) =>
        if Matches(re[1..], s[..n]) {
          ThriftyTakesLeast(re[1..], s, n);
        } else {
          ThriftyTakesLeast(re, s[1..], n - 1);
        }
      case Star(_, false) =>
        LazyTakesLeast(re, s, n);
    }
  }

  lemma {:induction false} LazyTakesLeast(re: Pattern, s: string, n: nat)
    requires re != [] && re[0].Star? && !re[0].greedy && Fixed(re[1..]) && n <= |s| && Matches(re, s[..n])
    ensures First(re, s).Some? && First(re, s).value <= n
    decreases |s|
  {
    FirstSound(re[1..], s);
    if First(re[1..], s).Some? {
      FixedLength(re[1..], s[..First(re[1..], s).value]);
      LazyLength(re, s[..n]);
    } else {
      if Matches(re[1..], s[..n]) {
        FirstComplete(re[1..], s, n);
      }
      ShorterTail(s, n);
      LazyTakesLeast(re, s[1..], n - 1);
    }
  }

  /** What a greedy pattern takes is no shorter than any prefix in its language. */
  lemma {:induction false} GreedyTakesMost(re: Pattern, s: string, n: nat)
    requires Greedy(re) && n <= |s| && Matches(re, s[..n])
    ensures First(re, s).Some? && n <= First(re, s).value
    decreases |s|, |re|
  {
    FirstComplete(re, s, n);
    if re != [] && n > 0 {
      ShorterTail(s, n);
      GreedyTakesMost(if re[0].One? then re[1..] else re, s[1..], n - 1);
    }
  }

  /** The prefix of length `n` is in the language and, of all that are, the shortest or, for a greedy
      pattern, the longest. */
  ghost predicate IsMatch(re: Pattern, s: string, n: nat) {
    n <= |s| && Matches(re, s[..n]) &&
    forall m :: 0 <= m <= |s| && Matches(re, s[..m]) ==> if Greedy(re) then m <= n else n <= m
  }

  /** The matcher finds exactly that prefix. */
  lemma FirstIsMatch(re: Pattern, s: string, n: nat)
    requires Greedy(re) || Thrifty(re)
    ensures First(re, s) == Some(n) <==> IsMatch(re, s, n)
  {
    FirstSound(re, s);
    forall m | 0 <= m <= |s| && Matches(re, s[..m])
      ensures First(re, s).Some? && if Greedy(re) then m <= First(re, s).value else First(re, s).value <= m
    {
      if Greedy(re) {
        GreedyTakesMost(re, s, m);
      } else {
        ThriftyTakesLeast(re, s, m);
      }
    }
  }

  /** A match that stays inside the first part is found there alone. */
  lemma FirstInside(re: Pattern, x: string, y: string)
    requires First(re, x + y).Some? && First(re, x + y).value <= |x|
    ensures First(re, x).Some?
  {
    var n := First(re, x + y).value;
    FirstSound(re, x + y);
    assert (x + y)[..n] == x[..n];
    FirstComplete(re, x, n);
  }

  /** A pattern can match only where its beginning can. */
  lemma {:induction false} MatchesSplit(a: Pattern, b: Pattern, w: string) returns (n: nat)
    requires Matches(a + b, w)
    ensures n <= |w| && Matches(a, w[..n])
    decreases |w|, |a|
  {
    if a == [] {
      n := 0;
    } else {
      assert (a + b)[0] == a[0] && (a + b)[1..] == a[1..] + b;
      if !a[0].One? && Matches(a[1..] + b, w) {
        n := MatchesSplit(a[1..], b, w);
      } else {
        n := MatchesSplit(if a[0].Star? then a else a[1..], b, w[1..]);
        n := n + 1;
        assert w[..n][1..] == w[1..][..n - 1];
      }
    }
  }

  lemma FirstNeedsBeginning(a: Pattern, b: Pattern, s: string)
    requires First(a + b, s).Some?
    ensures First(a, s).Some?
  {
    FirstSound(a + b, s);
    var w := s[..First(a + b, s).value];
    var n := MatchesSplit(a, b, w);
    assert w[..n] == s[..n];
    FirstComplete(a, s, n);
  }

  /** No item of the pattern takes the character. */
  predicate Avoids(re: Pattern, c: char) { forall i :: 0 <= i < |re| ==> !Has(re[i].cls, c) }

  lemma {:induction false} MatchesAvoids(re: Pattern, w: string, c: char)
    requires Avoids(re, c) && Matches(re, w)
    ensures c !in w
    decreases |w|, |re|
  {
    if re != [] {
      if !re[0].One? && Matches(re[1..], w) {
        MatchesAvoids(re[1..], w, c);
      } else {
        MatchesAvoids(if re[0].Star? then re else re[1..], w[1..], c);
        assert w == [w[0]] + w[1..];
      }
    }
  }

  // ----- what the matcher does on the shapes the service uses -----

  /** Every item is taken exactly once. */
  predicate Fixed(re: Pattern) { forall i :: 0 <= i < |re| ==> re[i].One? }

  /** `w` is taken by the fixed pattern, character by character. */
  predicate Spells(re: Pattern, w: string) {
    |w| == |re| && forall i :: 0 <= i < |re| ==> Has(re[i].cls, w[i])
  }

  lemma {:induction false} FirstFixed(a: Pattern, re: Pattern, w: string, y: string)
    requires Fixed(a) && Spells(a, w)
    ensures First(a + re, w + y) == After(|w|, First(re, y))
  {
    if a == [] {
      assert a + re == re && w + y == y;
    } else {
      assert (a + re)[0] == a[0] && (a + re)[1..] == a[1..] + re;
      assert (w + y)[0] == w[0] && (w + y)[1..] == w[1..] + y;
      FirstFixed(a[1..], re, w[1..], y);
    }
  }

  /** A starred class stops where it must when what follows cannot begin inside its run. */
  lemma {:induction false} FirstStarRun(cls: CharClass, re: Pattern, run: string, y: string)
    requires forall i :: 0 <= i < |run| ==> Has(cls, run[i])
    requires y == [] || !Has(cls, y[0])
    requires re != [] && re[0].One? && forall i :: 0 <= i < |run| ==> !Has(re[0].cls, run[i])
    ensures First([Star(cls, true)] + re, run + y) == After(|run|, First(re, y))
  {
    var all := [Star(cls, true)] + re;
    assert all[1..] == re;
    if run == [] {
      assert run + y == y;
    } else {
      assert (run + y)[0] == run[0] && (run + y)[1..] == run[1..] + y;
      FirstStarRun(cls, re, run[1..], y);
    }
  }

  lemma FirstOne(cls: CharClass, re: Pattern, s: string)
    requires s != [] && Has(cls, s[0])
    ensures First([One(cls)] + re, s) == After(1, First(re, s[1..]))
  {
    assert ([One(cls)] + re)[1..] == re;
  }

  /** A starred class up to the first character of another class. */
  lemma FirstUntil(cls: CharClass, stop: CharClass, re: Pattern, run: string, e: char, y: string)
    requires forall i :: 0 <= i < |run| ==> Has(cls, run[i]) && !Has(stop, run[i])
    requires Has(stop, e) && !Has(cls, e)
    ensures First([Star(cls, true)] + ([One(stop)] + re), run + ([e] + y)) == After(|run| + 1, First(re, y))
  {
    var after, rest := [One(stop)] + re, [e] + y;
    assert after[0] == One(stop) && rest[0] == e && rest[1..] == y;
    FirstOne(stop, re, rest);
    FirstStarRun(cls, after, run, rest);
  }

  lemma FirstLazyStep(re: Pattern, s: string)
    ensures First([Star(Any, false)] + re, s) ==
            OrElse(First(re, s), if s == [] then None else After(1, First([Star(Any, false)] + re, s[1..])))
  {
    assert ([Star(Any, false)] + re)[1..] == re;
  }

  /** No match of `re` begins inside `x` when `y` follows. */
  ghost predicate NoneWithin(re: Pattern, x: string, y: string) {
    forall i {:trigger x[i..]} :: 0 <= i < |x| ==> First(re, x[i..] + y).None?
  }

  lemma NoneWithinTail(re: Pattern, x: string, y: string)
    requires x != [] && NoneWithin(re, x, y)
    ensures First(re, x + y).None? && NoneWithin(re, x[1..], y)
  {
    assert x[0..] == x;
    forall i | 0 <= i < |x| - 1 ensures First(re, x[1..][i..] + y).None? {
      assert x[1..][i..] == x[i + 1..];
    }
  }

  /** The lazy gap ends at the first place where what follows matches. */
  lemma {:induction false} FirstLazy(re: Pattern, gap: string, y: string)
    requires First(re, y).Some? && NoneWithin(re, gap, y)
    ensures First([Star(Any, false)] + re, gap + y) == After(|gap|, First(re, y))
  {
    FirstLazyStep(re, gap + y);
    if gap == [] {
      assert gap + y == y;
    } else {
      NoneWithinTail(re, gap, y);
      assert (gap + y)[1..] == gap[1..] + y;
      FirstLazy(re, gap[1..], y);
    }
  }

  /** A text without a match of `re`, whose first character is `mark` and which then avoids it,
      stays without one when a text beginning with `mark` follows. */
  lemma NoStraddle(re: Pattern, x: string, y: string, mark: char)
    requires x != [] && First(re, x).None?
    requires re != [] && re[0].One? && Avoids(re[1..], mark)
    requires y == [] || y[0] == mark
    ensures First(re, x + y).None?
  {
    FirstSound(re, x + y);
    if First(re, x + y).Some? {
      var n := First(re, x + y).value;
      var w := (x + y)[..n];
      MatchesAvoids(re[1..], w[1..], mark);
      forall i | 1 <= i < n ensures (x + y)[i] != mark {
        assert (x + y)[i] == w[1..][i - 1];
      }
      assert y != [] ==> (x + y)[|x|] == mark;
      FirstInside(re, x, y);
    }
  }
}
