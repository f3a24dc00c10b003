/** Embed markers and captions, removed after the body is trimmed: what stays at the ends, and what a
    second pass would still find. */
module Markers {
  import opened Strings
  import opened Regex
  import opened Replacement
  import opened Transformer
  import opened TextProperties
  import opened Stripping

  // ----- a pattern and the text after a character it avoids -----

  /** Text that begins with a character the pattern avoids does not change what is found before it. */
  lemma {:induction false} FirstUnaffected(re: Pattern, s: string, y: string)
    requires y != [] ==> Avoids(re, y[0])
    ensures First(re, s + y) == First(re, s)
    decreases |s|, |re|
  {
    if re != [] {
      assert y != [] ==> Avoids(re[1..], y[0]);
      if s == [] {
        assert s + y == y;
        FirstUnaffected(re[1..], s, y);
      } else {
        assert (s + y)[0] == s[0] && (s + y)[1..] == s[1..] + y;
        FirstUnaffected(re[1..], s, y);
        FirstUnaffected(re[1..], s[1..], y);
        FirstUnaffected(re, s[1..], y);
      }
    }
  }

  /** Replacing goes on afresh at such a character. */
  lemma {:induction false} ReplaceSplits(re: Pattern, repl: string, s: string, y: string)
    requires Consumes(re) && (y != [] ==> Avoids(re, y[0]))
    ensures Replace(re, repl, s + y) == Replace(re, repl, s) + Replace(re, repl, y)
    decreases |s|
  {
    if s == [] {
      assert s + y == y;
    } else {
      FirstUnaffected(re, s, y);
      FirstConsumes(re, s);
      match First(re, s)
      case Some(n) =>
        assert (s + y)[n..] == s[n..] + y;
        ReplaceSplits(re, repl, s[n..], y);
      case None =>
        assert (s + y)[1..] == s[1..] + y && (s + y)[0] == s[0];
        ReplaceSplits(re, repl, s[1..], y);
    }
  }

  lemma ReplaceStays(re: Pattern, repl: string, c: char, y: string)
    requires Consumes(re) && !Has(re[0].cls, c)
    ensures Replace(re, repl, [c] + y) == [c] + Replace(re, repl, y)
  {
    FirstConsumes(re, [c] + y);
    assert ([c] + y)[1..] == y;
  }

  lemma EmbedAvoids(c: char)
    requires c == '[' || c == ']'
    ensures Avoids(Embed(), c)
  {
    assert forall i :: 0 <= i < |"embed"| ==> "embed"[i] != '[' && "embed"[i] != ']';
  }

  // ----- where a caption begins -----

  lemma SpellsCons(re: Pattern, w: string)
    requires re != [] && |re| <= |w| && Has(re[0].cls, w[0]) && Spells(re[1..], w[1..][..|re| - 1])
    ensures Spells(re, w[..|re|])
  {
    forall i | 0 <= i < |re| ensures Has(re[i].cls, w[..|re|][i]) {
      assert i > 0 ==> Has(re[1..][i - 1].cls, w[1..][..|re| - 1][i - 1]);
    }
  }

  lemma {:induction false} MatchesFixed(re: Pattern, more: Pattern, w: string)
    requires Fixed(re) && Matches(re + more, w)
    ensures |re| <= |w| && Spells(re, w[..|re|]) && Matches(more, w[|re|..])
    decreases |re|
  {
    if re == [] {
      assert re + more == more && w[0..] == w;
    } else {
      assert (re + more)[0] == re[0] && (re + more)[1..] == re[1..] + more;
      MatchesFixed(re[1..], more, w[1..]);
      assert w[1..][|re| - 1..] == w[|re|..];
      SpellsCons(re, w);
    }
  }

  lemma {:induction false} MatchesLast(re: Pattern, cls: CharClass, w: string)
    requires Matches(re + [One(cls)], w)
    ensures w != [] && Has(cls, w[|w| - 1])
    decreases |w|, |re|
  {
    var all := re + [One(cls)];
    if re == [] {
      assert all[1..] == [];
    } else {
      assert all[0] == re[0] && all[1..] == re[1..] + [One(cls)];
      if !re[0].One? && Matches(all[1..], w) {
        MatchesLast(re[1..], cls, w);
      } else {
        MatchesLast(if re[0].Star? then re else re[1..], cls, w[1..]);
      }
    }
  }

  /** The inside of a pair of brackets begins like a caption. */
  predicate Captioned(inside: string) { "caption" <= inside || "/caption" <= inside }

  function CaptionBody(): Pattern { [Maybe(Is('/'))] + (Lit("caption") + [Star(Not(']'), true), One(Is(']'))]) }

  lemma SpellsLit(w: string, s: string)
    requires Spells(Lit(w), s)
    ensures s == w
  {
    assert forall i :: 0 <= i < |w| ==> Lit(w)[i] == One(Is(w[i]));
  }

  /** Only where it does can the caption pattern match. */
  lemma CaptionNeedsWord(s: string, n: nat)
    requires n <= |s| && Matches(SquaredCaption(), s[..n])
    ensures n > 0 && s[0] == '[' && s[n - 1] == ']' && Captioned(s[1..])
  {
    var w, end := s[..n], [Star(Not(']'), true), One(Is(']'))];
    assert SquaredCaption() == [One(Is('['))] + CaptionBody();
    MatchesFixed([One(Is('['))], CaptionBody(), w);
    var open := ([One(Is('[')), Maybe(Is('/'))] + Lit("caption")) + [Star(Not(']'), true)];
    assert SquaredCaption() == open + [One(Is(']'))];
    MatchesLast(open, Is(']'), w);
    var body, word := w[1..], Lit("caption") + end;
    assert CaptionBody()[1..] == word;
    assert body == s[1..][..n - 1];
    if Matches(word, body) {
      MatchesFixed(Lit("caption"), end, body);
      SpellsLit("caption", body[..7]);
      assert body[..7] == s[1..][..7];
    } else {
      MatchesFixed(Lit("caption"), end, body[1..]);
      SpellsLit("caption", body[1..][..7]);
      assert body[0] == '/';
      assert s[1..][..8] == ['/'] + body[1..][..7];
    }
  }

  /** A word that reaches into the text after `inside` has that text's first character. */
  lemma PrefixReaches(word: string, inside: string, after: string)
    requires word <= inside + after && after != []
    ensures word <= inside || after[0] in word
  {
    assert |inside| < |word| ==> word[|inside|] == (inside + after)[|inside|];
  }

  lemma CaptionTaken(inside: string, y: string, s: string)
    requires ']' !in inside && Captioned(inside) && s == "[" + (inside + ("]" + y))
    ensures First(SquaredCaption(), s) == Some(|inside| + 2)
  {
    var slash := if "caption" <= inside then "" else "/";
    var attrs := inside[|slash| + 7..];
    assert inside == slash + ("caption" + attrs);
    assert CaptionText(slash, attrs) == "[" + (inside + "]");
    assert s == CaptionText(slash, attrs) + y;
    CaptionMatch(slash, attrs, y);
  }

  lemma CaptionNeedsInside(inside: string, s: string)
    requires ']' !in inside && First(SquaredCaption(), s).Some?
    requires |s| > |inside| + 1 && s[1..|inside| + 1] == inside && s[|inside| + 1] == ']'
    ensures Captioned(inside)
  {
    FirstSound(SquaredCaption(), s);
    CaptionNeedsWord(s, First(SquaredCaption(), s).value);
    var after := s[|inside| + 1..];
    assert s[1..] == inside + after && ']' !in "caption" && ']' !in "/caption";
    if "caption" <= s[1..] {
      PrefixReaches("caption", inside, after);
    } else {
      PrefixReaches("/caption", inside, after);
    }
  }

  /** A pair of brackets is a caption exactly when its inside begins like one. */
  lemma CaptionIff(inside: string, y: string, s: string)
    requires ']' !in inside && s == "[" + (inside + ("]" + y))
    ensures First(SquaredCaption(), s) == if Captioned(inside) then Some(|inside| + 2) else None
  {
    if Captioned(inside) {
      CaptionTaken(inside, y, s);
    } else if First(SquaredCaption(), s).Some? {
      CaptionNeedsInside(inside, s);
    }
  }

  lemma CaptionNeedsClose(s: string)
    requires ']' !in s
    ensures First(SquaredCaption(), s).None?
  {
    FirstSound(SquaredCaption(), s);
    if First(SquaredCaption(), s).Some? {
      CaptionNeedsWord(s, First(SquaredCaption(), s).value);
    }
  }

  // ----- both removals in one pass -----

  /** Place of the first ']', or the length of the text. */
  function Closing(s: string): (i: nat)
    ensures i <= |s| && ']' !in s[..i] && (i < |s| ==> s[i] == ']')
  {
    if s == [] then 0 else if s[0] == ']' then 0 else 1 + Closing(s[1..])
  }

  /** The text begins with a bracket that closes and whose inside, less its markers, begins like a caption. */
  predicate CaptionHere(s: string) {
    s != [] && s[0] == '[' && Closing(s) < |s| && Captioned(Embed1Replacer(s[1..Closing(s)]))
  }

  /** How much is removed at the beginning of the text: a marker, a caption with the markers in it, or nothing. */
  function RemovedAt(s: string): (n: nat)
    ensures n <= |s|
  {
    FirstConsumes(Embed(), s);
    if First(Embed(), s).Some? then First(Embed(), s).value else if CaptionHere(s) then Closing(s) + 1 else 0
  }

  /** Tells how much is removed at the beginning of a text. */
  type Remover = string -> nat

  ghost predicate Removes(at: Remover) { forall s :: at(s) <= |s| }

  /** One pass over the text. */
  ghost function Skipping(at: Remover, s: string): string
    requires Removes(at)
    decreases |s|
  {
    if s == [] then [] else if at(s) > 0 then Skipping(at, s[at(s)..]) else [s[0]] + Skipping(at, s[1..])
  }

  lemma EmbedAround(inside: string, y: string)
    ensures Embed1Replacer("[" + (inside + ("]" + y))) == "[" + (Embed1Replacer(inside) + ("]" + Embed1Replacer(y)))
    ensures First(Embed(), "[" + (inside + ("]" + y))).None?
  {
    EmbedAvoids(']');
    FirstConsumes(Embed(), "[" + (inside + ("]" + y)));
    ReplaceStays(Embed(), "", '[', inside + ("]" + y));
    ReplaceSplits(Embed(), "", inside, "]" + y);
    ReplaceStays(Embed(), "", ']', y);
  }

  /** A bracket at the beginning, once the markers are gone. */
  lemma BracketStep(s: string)
    requires s != [] && s[0] == '['
    ensures First(Embed(), s).None?
    ensures First(SquaredCaption(), Embed1Replacer(s)).Some? <==> CaptionHere(s)
    ensures CaptionHere(s) ==>
              var n := First(SquaredCaption(), Embed1Replacer(s)).value;
              n <= |Embed1Replacer(s)| && Embed1Replacer(s)[n..] == Embed1Replacer(s[Closing(s) + 1..])
  {
    var e := Closing(s);
    if e < |s| {
      var inside, y := s[1..e], s[e + 1..];
      assert s == "[" + (inside + ("]" + y));
      EmbedAround(inside, y);
      assert ']' !in inside by {
        assert s[..e] == ['['] + inside;
      }
      ReplaceAddsOnlyRepl(Embed(), "", inside, ']');
      CaptionIff(Embed1Replacer(inside), Embed1Replacer(y), Embed1Replacer(s));
    } else {
      FirstConsumes(Embed(), s);
      assert s[..e] == s;
      ReplaceAddsOnlyRepl(Embed(), "", s, ']');
      CaptionNeedsClose(Embed1Replacer(s));
    }
  }

  lemma NothingHere(s: string)
    requires s != [] && RemovedAt(s) == 0
    ensures Embed1Replacer(s) == [s[0]] + Embed1Replacer(s[1..])
    ensures First(SquaredCaption(), Embed1Replacer(s)).None?
  {
    FirstConsumes(Embed(), s);
    if s[0] == '[' {
      BracketStep(s);
    } else {
      FirstConsumes(SquaredCaption(), Embed1Replacer(s));
    }
  }

  /** Removing the markers and then the captions is one pass over the text. */
  lemma {:induction false} RemovalsInOnePass(s: string)
    ensures SquaredCaptionReplacer(Embed1Replacer(s)) == Skipping(RemovedAt, s)
    decreases |s|
  {
    if s != [] {
      FirstConsumes(Embed(), s);
      if First(Embed(), s).Some? {
        assert "" + Embed1Replacer(s[First(Embed(), s).value..]) == Embed1Replacer(s[First(Embed(), s).value..]);
        RemovalsInOnePass(s[First(Embed(), s).value..]);
      } else if CaptionHere(s) {
        BracketStep(s);
        var clean := Embed1Replacer(s);
        var n := First(SquaredCaption(), clean).value;
        FirstConsumes(SquaredCaption(), clean);
        assert "" + SquaredCaptionReplacer(clean[n..]) == SquaredCaptionReplacer(clean[n..]);
        RemovalsInOnePass(s[Closing(s) + 1..]);
      } else {
        NothingHere(s);
        assert Embed1Replacer(s)[1..] == Embed1Replacer(s[1..]);
        RemovalsInOnePass(s[1..]);
      }
    }
  }

  // ----- the ends of the body -----

  /** The text after what is removed at its beginning. */
  ghost function Bare(at: Remover, s: string): string
    requires Removes(at)
    decreases |s|
  {
    if at(s) > 0 then Bare(at, s[at(s)..]) else s
  }

  /** Where what is removed at its end begins: after the last character that is kept. */
  ghost function KeptEnd(at: Remover, s: string): (k: nat)
    requires Removes(at)
    ensures k <= |s|
    decreases |s|
  {
    if s == [] then 0
    else if at(s) > 0 then
      var k := KeptEnd(at, s[at(s)..]);
      if k == 0 then 0 else at(s) + k
    else 1 + KeptEnd(at, s[1..])
  }

  lemma {:induction false} NothingAfterKeptEnd(at: Remover, s: string)
    requires Removes(at)
    ensures Bare(at, s[KeptEnd(at, s)..]) == []
    decreases |s|
  {
    if s != [] {
      var n := if at(s) > 0 then at(s) else 1;
      NothingAfterKeptEnd(at, s[n..]);
      var k := KeptEnd(at, s[n..]);
      assert s[n..][k..] == s[n + k..] && s[0..] == s && s[n..][0..] == s[n..];
    }
  }

  lemma {:induction false} EndsOfSkipping(at: Remover, s: string)
    requires Removes(at)
    ensures var kept := Skipping(at, s);
            && (kept == [] <==> Bare(at, s) == []) && (kept == [] <==> KeptEnd(at, s) == 0)
            && (kept != [] ==> kept[0] == Bare(at, s)[0] && kept[|kept| - 1] == s[KeptEnd(at, s) - 1])
    decreases |s|
  {
    if s != [] {
      EndsOfSkipping(at, if at(s) > 0 then s[at(s)..] else s[1..]);
    }
  }

  /** No white space stands where the removals stop at either end. */
  ghost predicate FirmEnds(s: string) {
    var bare, end := Bare(RemovedAt, s), KeptEnd(RemovedAt, s);
    (bare != [] ==> !IsUnicodeSpace(bare[0])) && (end > 0 ==> !IsUnicodeSpace(s[end - 1]))
  }

  /** The body is text at both ends exactly when, in the clean text, no white space follows the markers
      and captions it begins with or comes before those it ends with. */
  lemma BodyTextTrimmedIff(decode: string -> string, text: string)
    ensures Trimmed(BodyText(decode, text)) <==> FirmEnds(CleanBody(decode, text))
  {
    var clean := CleanBody(decode, text);
    BodyTextIs(decode, text);
    CollapseKeepsTrimmed(SquaredCaptionReplacer(Embed1Replacer(clean)));
    RemovalsInOnePass(clean);
    EndsOfSkipping(RemovedAt, clean);
  }

  /** So it is when nothing is removed at the ends. */
  lemma BodyTextIsTrimmed(decode: string -> string, text: string)
    requires var clean := CleanBody(decode, text); RemovedAt(clean) == 0 && KeptEnd(RemovedAt, clean) == |clean|
    ensures Trimmed(BodyText(decode, text))
  {
    var open := EntityTransformer(decode, PullTagTransformer(InteractiveGraphicsMarkupTagRemover(text)));
    TrimIsStretch(TagsRemover(ScriptTagRemover(open)));
    BodyTextTrimmedIff(decode, text);
  }

  /** Trimmed text without markup is clean. */
  lemma PlainTextIsClean(decode: string -> string, s: string)
    requires DecodesOnlyEntities(decode) && '&' !in s && '<' !in s && Trimmed(s)
    ensures CleanBody(decode, s) == s
  {
    LeadingAngle();
    assert forall i :: 0 <= i < |s| ==> s[i] in s;
    ReplaceIdle(InteractiveGraphics(), "", s);
    ReplaceIdle(PullTag(), "", s);
    ReplaceIdle(Nbsp(), " ", s);
    ReplaceIdle(Script(), "", s);
    ReplaceIdle(Tag(), "", s);
    TrimOfTrimmed(s);
  }

  lemma LeadingAngle()
    ensures InteractiveGraphics()[0] == One(Is('<')) && PullTag()[0] == One(Is('<'))
    ensures Script()[0] == One(Fold('<')) && Tag()[0] == One(Is('<')) && Nbsp()[0] == One(Is('&'))
  {
  }

  lemma BodyIsEmbedFree(decode: string -> string, s: string, t: string)
    requires DecodesOnlyEntities(decode) && '&' !in s && '<' !in s && Trimmed(s)
    requires Embed1Replacer(s) == t && '[' !in t && SingleSpaced(t)
    ensures BodyText(decode, s) == t
  {
    BodyTextIs(decode, s);
    PlainTextIsClean(decode, s);
    assert forall i :: 0 <= i < |t| ==> t[i] in t;
    ReplaceIdle(SquaredCaption(), "", t);
    CollapseFixed(t);
  }

  /** Otherwise the passes after the trim can uncover white space, in front or at the end. */
  lemma BodyTextMayStartWithSpace(decode: string -> string)
    requires DecodesOnlyEntities(decode)
    ensures BodyText(decode, "embed1 x") == " x" && !Trimmed(BodyText(decode, "embed1 x"))
  {
    EmbedGone();
    BodyIsEmbedFree(decode, "embed1 x", " x");
  }

  lemma BodyTextMayEndWithSpace(decode: string -> string)
    requires DecodesOnlyEntities(decode)
    ensures BodyText(decode, "x embed1") == "x " && !Trimmed(BodyText(decode, "x embed1"))
  {
    EmbedGoneAtEnd();
    BodyIsEmbedFree(decode, "x embed1", "x ");
  }

  lemma NoMarkerWithoutE(x: string, y: string)
    requires 'e' !in x
    ensures NoneWithin(Embed(), x, y)
  {
    forall i | 0 <= i < |x| ensures First(Embed(), x[i..] + y).None? {
      FirstConsumes(Embed(), x[i..] + y);
      assert x[i] in x;
    }
  }

  lemma EmbedGoneAtEnd()
    ensures Embed1Replacer("x embed1") == "x "
  {
    var marker := "embed" + ("1" + []);
    assert "x embed1" == "x " + marker;
    NoMarkerWithoutE("x ", marker);
    EmbedRemoved("x ", "1", []);
  }

  /** A run of a class is taken to its end. */
  lemma {:induction false} FirstRun(cls: CharClass, run: string, y: string)
    requires forall i :: 0 <= i < |run| ==> Has(cls, run[i])
    requires y == [] || !Has(cls, y[0])
    ensures First([Star(cls, true)] + [], run + y) == Some(|run|)
  {
    var re := [Star(cls, true)] + [];
    assert re[1..] == [];
    if run == [] {
      assert run + y == y;
    } else {
      assert (run + y)[1..] == run[1..] + y;
      FirstRun(cls, run[1..], y);
    }
  }

  lemma FirstAfterOne(cls: CharClass, re: Pattern, run: string, y: string)
    requires run != [] && Has(cls, run[0]) && First(re, run[1..] + y) == Some(|run| - 1)
    ensures First([One(cls)] + re, run + y) == Some(|run|)
  {
    FirstOne(cls, re, run + y);
    assert (run + y)[1..] == run[1..] + y;
  }

  /** The pattern takes all the digits. */
  lemma EmbedMatch(digits: string, y: string)
    requires digits != [] && forall i :: 0 <= i < |digits| ==> '0' <= digits[i] <= '9'
    requires y == [] || !('0' <= y[0] <= '9')
    ensures First(Embed(), "embed" + (digits + y)) == Some(5 + |digits|)
  {
    var number := [One(Digit)] + ([Star(Digit, true)] + []);
    FirstFixed(Lit("embed"), number, "embed", digits + y);
    FirstRun(Digit, digits[1..], y);
    FirstAfterOne(Digit, [Star(Digit, true)] + [], digits, y);
    assert Embed() == Lit("embed") + number;
  }

  /** An embed marker goes with all its digits and the text before it stays. */
  lemma EmbedRemoved(x: string, digits: string, y: string)
    requires digits != [] && forall i :: 0 <= i < |digits| ==> '0' <= digits[i] <= '9'
    requires y == [] || !('0' <= y[0] <= '9')
    requires NoneWithin(Embed(), x, "embed" + (digits + y))
    ensures Embed1Replacer(x + ("embed" + (digits + y))) == x + Embed1Replacer(y)
  {
    var rest := "embed" + (digits + y);
    EmbedMatch(digits, y);
    ReplaceFirst(Embed(), "", x, rest);
    assert rest[5 + |digits|..] == y && "" + Embed1Replacer(y) == Embed1Replacer(y);
  }

  lemma EmbedGone()
    ensures Embed1Replacer("embed1 x") == " x"
  {
    assert "embed1 x" == [] + ("embed" + ("1" + " x"));
    EmbedRemoved([], "1", " x");
    assert Embed1Replacer(" x") == " x" by { ReplaceIdle(Embed(), "", " x"); }
  }

  /** A pattern fails at the first character it cannot take. */
  lemma {:induction false} FirstMisses(re: Pattern, s: string, i: nat)
    requires i < |re| && i < |s| && Fixed(re[..i + 1]) && !Has(re[i].cls, s[i])
    ensures First(re, s).None?
    decreases i
  {
    assert re[..i + 1][0].One?;
    if i > 0 {
      assert re[1..][..i] == re[..i + 1][1..];
      FirstMisses(re[1..], s[1..], i - 1);
    }
  }

  /** Removing a marker can bring together the parts of another, which only a second pass removes. */
  lemma EmbedRemovalRepeats()
    ensures Embed1Replacer("embeembed1d1") == "embed1"
    ensures Embed1Replacer(Embed1Replacer("embeembed1d1")) == ""
  {
    var rest := "embed" + ("1" + "d1");
    assert "embeembed1d1" == "embe" + rest && "embed1" == [] + ("embed" + ("1" + [])) && "embed1" == "embe" + "d1";
    forall i | 0 <= i < 4 ensures First(Embed(), "embe"[i..] + rest).None? {
      FirstMisses(Embed(), "embe"[i..] + rest, if i == 0 then 4 else if i == 3 then 1 else 0);
    }
    EmbedRemoved("embe", "1", "d1");
    ReplaceIdle(Embed(), "", "d1");
    EmbedRemoved([], "1", []);
  }

  // ----- when a second pass finds no marker -----

  /** The text begins with "embed" and a digit. */
  predicate SpellsMarker(s: string) { |s| > 5 && s[..5] == "embed" && Has(Digit, s[5]) }

  lemma {:induction false} StarStops(cls: CharClass, s: string)
    ensures var n := First([Star(cls, true)] + [], s);
            n.Some? && n.value <= |s| && (n.value < |s| ==> !Has(cls, s[n.value]))
  {
    var re := [Star(cls, true)] + [];
    assert re[1..] == [];
    if s != [] { StarStops(cls, s[1..]); }
  }

  function MarkerHead(): Pattern { Lit("embed") + [One(Digit)] }

  lemma EmbedParts()
    ensures Fixed(MarkerHead()) && |MarkerHead()| == 6 && Embed() == MarkerHead() + ([Star(Digit, true)] + [])
    ensures forall w :: |w| == 6 ==> (Spells(MarkerHead(), w) <==> SpellsMarker(w))
  {
    forall w: string | |w| == 6 ensures Spells(MarkerHead(), w) <==> SpellsMarker(w) {
      if Spells(MarkerHead(), w) {
        assert forall i :: 0 <= i < 5 ==> MarkerHead()[i] == One(Is("embed"[i]));
        assert MarkerHead()[5] == One(Digit);
      }
    }
  }

  lemma MarkerNeeded(s: string)
    requires First(Embed(), s).Some?
    ensures SpellsMarker(s)
  {
    FirstSound(Embed(), s);
    EmbedParts();
    var w := s[..First(Embed(), s).value];
    MatchesFixed(MarkerHead(), [Star(Digit, true)] + [], w);
    assert w[..6] == s[..6] && s[..6][..5] == s[..5];
  }

  lemma MarkerFound(w: string, more: string)
    requires |w| == 6 && SpellsMarker(w)
    ensures var n := First(Embed(), w + more);
            n.Some? && n.value <= |w + more| && (n.value < |w + more| ==> !Has(Digit, (w + more)[n.value]))
  {
    EmbedParts();
    FirstFixed(MarkerHead(), [Star(Digit, true)] + [], w, more);
    StarStops(Digit, more);
  }

  /** The marker pattern matches where one is spelled, and takes all digits. */
  lemma MarkerIff(s: string)
    ensures First(Embed(), s).Some? <==> SpellsMarker(s)
    ensures First(Embed(), s).Some? ==> var n := First(Embed(), s).value; n <= |s| && (n < |s| ==> !Has(Digit, s[n]))
  {
    if SpellsMarker(s) {
      assert s[..6][..5] == s[..5] && s == s[..6] + s[6..];
      MarkerFound(s[..6], s[6..]);
    } else if First(Embed(), s).Some? {
      MarkerNeeded(s);
    }
  }

  /** What is kept up to the cut `c`, and what is kept after it. */
  function KeptBefore(segments: seq<Segment>, c: nat): string
    requires c < |segments|
  {
    Spliced("", segments[..c], segments[c].kept)
  }

  function KeptAfter(segments: seq<Segment>, last: string, c: nat): string
    requires c < |segments|
  {
    Spliced("", segments[c + 1..], last)
  }

  /** Across the cut `c` the kept text spells a marker, `k` characters of its word before the cut. */
  predicate MeetAt(segments: seq<Segment>, last: string, c: nat, k: nat) {
    && c < |segments| && 1 <= k <= 4
    && HasSuffix(KeptBefore(segments, c), "embed"[..k])
    && var after := KeptAfter(segments, last, c);
       |after| > 5 - k && after[..5 - k] == "embed"[k..] && Has(Digit, after[5 - k])
  }

  ghost predicate MarkersMeet(segments: seq<Segment>, last: string) { exists c, k :: MeetAt(segments, last, c, k) }

  lemma {:induction false} SplicedAround(segments: seq<Segment>, last: string, c: nat)
    requires c < |segments|
    ensures Spliced("", segments, last) == KeptBefore(segments, c) + KeptAfter(segments, last, c)
    decreases c
  {
    if c > 0 {
      SplicedAround(segments[1..], last, c - 1);
      KeptBeforeMore(segments, c);
      assert segments[1..][c..] == segments[c + 1..];
    }
  }

  lemma KeptBeforeMore(segments: seq<Segment>, c: nat)
    requires 0 < c < |segments|
    ensures KeptBefore(segments, c) == segments[0].kept + KeptBefore(segments[1..], c - 1)
  {
    assert segments[..c][1..] == segments[1..][..c - 1];
  }

  /** A marker is spelled where kept texts meet. */
  lemma MeetSpells(segments: seq<Segment>, last: string, c: nat, k: nat)
    requires MeetAt(segments, last, c, k)
    ensures !Nowhere(Embed(), Spliced("", segments, last))
  {
    var before, after, all := KeptBefore(segments, c), KeptAfter(segments, last, c), Spliced("", segments, last);
    SplicedAround(segments, last, c);
    var i := |before| - k;
    assert all[i..] == before[i..] + after && before[i..] == "embed"[..k];
    assert all[i..][..5] == "embed"[..k] + after[..5 - k] == "embed";
    MarkerIff(all[i..]);
  }

  /** No digit follows a cut, so none begins what is kept after it. */
  lemma {:induction false} NoDigitAfterCuts(s: string, segments: seq<Segment>, last: string)
    requires ScanCuts(Embed(), s, segments, last) && (s != [] ==> !Has(Digit, s[0]))
    ensures var kept := Spliced("", segments, last); kept != [] ==> !Has(Digit, kept[0])
    decreases |segments|
  {
    if segments != [] && segments[0].kept == [] {
      MarkerIff(s);
      NoDigitAfterCuts(s[|segments[0].cut|..], segments[1..], last);
    }
  }

  /** A marker's word and digit are not kept before a cut without a break. */
  lemma MeetBreaks(s: string, g: Segment, rest: string, i: nat)
    requires ScanCut(Embed(), s, g) && i < |g.kept| && SpellsMarker(g.kept[i..] + rest)
    ensures |g.kept| - i <= 5
  {
    if |g.kept| - i > 5 {
      var here := g.kept[i..] + s[|g.kept|..];
      assert here[..5] == (g.kept[i..] + rest)[..5] && here[5] == (g.kept[i..] + rest)[5];
      MarkerIff(here);
    }
  }

  lemma NoDigitAfterCut(s: string, segments: seq<Segment>, last: string)
    requires segments != [] && ScanCuts(Embed(), s, segments, last)
    ensures var rest := Spliced("", segments[1..], last); rest != [] ==> !Has(Digit, rest[0])
  {
    var g := segments[0];
    var y := s[|g.kept|..];
    MarkerIff(y);
    assert y[|g.cut|..] == s[|g.kept| + |g.cut|..];
    NoDigitAfterCuts(y[|g.cut|..], segments[1..], last);
  }

  /** A marker in what is kept that begins before a cut has at most four characters there. */
  lemma MeetWidth(s: string, segments: seq<Segment>, last: string, i: nat, head: string)
    requires segments != [] && ScanCuts(Embed(), s, segments, last) && i < |segments[0].kept| &&
             head == segments[0].kept[i..]
    requires SpellsMarker(head + Spliced("", segments[1..], last))
    ensures |head| <= 4
  {
    var rest := Spliced("", segments[1..], last);
    assert |head| == 5 ==> (head + rest)[5] == rest[0];
    MeetBreaks(s, segments[0], rest, i);
    NoDigitAfterCut(s, segments, last);
  }

  lemma WordSplit(head: string, rest: string, k: nat)
    requires k == |head| && 1 <= k <= 4 && SpellsMarker(head + rest)
    ensures head == "embed"[..k] && |rest| > 5 - k && rest[..5 - k] == "embed"[k..] && Has(Digit, rest[5 - k])
  {
    var all := head + rest;
    assert all[..5][..k] == head && all[..5][k..] == rest[..5 - k];
  }

  lemma MeetHere(s: string, segments: seq<Segment>, last: string, i: nat)
    requires segments != [] && ScanCuts(Embed(), s, segments, last) && i < |segments[0].kept|
    requires SpellsMarker(Spliced("", segments, last)[i..])
    ensures MeetAt(segments, last, 0, |segments[0].kept| - i)
  {
    var kept, rest := segments[0].kept, Spliced("", segments[1..], last);
    assert Spliced("", segments, last)[i..] == kept[i..] + rest;
    MeetWidth(s, segments, last, i, kept[i..]);
    WordSplit(kept[i..], rest, |kept| - i);
    assert KeptBefore(segments, 0) == kept;
  }

  lemma MeetLater(segments: seq<Segment>, last: string, c: nat, k: nat)
    requires segments != [] && MeetAt(segments[1..], last, c, k)
    ensures MeetAt(segments, last, c + 1, k)
  {
    KeptBeforeMore(segments, c + 1);
    assert segments[1..][c + 1..] == segments[c + 2..];
    SuffixOfMore(segments[0].kept, KeptBefore(segments[1..], c), "embed"[..k]);
  }

  lemma SuffixOfMore(a: string, b: string, w: string)
    requires HasSuffix(b, w)
    ensures HasSuffix(a + b, w)
  {
    assert (a + b)[|a + b| - |w|..] == b[|b| - |w|..];
  }

  lemma {:induction false} MeetFound(s: string, segments: seq<Segment>, last: string, i: nat) returns (c: nat, k: nat)
    requires ScanCuts(Embed(), s, segments, last)
    requires i < |Spliced("", segments, last)| && SpellsMarker(Spliced("", segments, last)[i..])
    ensures MeetAt(segments, last, c, k)
    decreases |segments|
  {
    if segments == [] {
      assert last[i..] + [] == last[i..];
      MarkerIff(last[i..]);
      assert false;
    } else if i < |segments[0].kept| {
      MeetHere(s, segments, last, i);
      c, k := 0, |segments[0].kept| - i;
    } else {
      var g, rest := segments[0], Spliced("", segments[1..], last);
      assert Spliced("", segments, last)[i..] == rest[i - |g.kept|..];
      c, k := MeetFound(s[|g.kept| + |g.cut|..], segments[1..], last, i - |g.kept|);
      MeetLater(segments, last, c, k);
      c := c + 1;
    }
  }

  /** Removing markers a second time changes nothing exactly when, across no removed marker, the kept
      text before and after spells "embed" and a digit. */
  lemma EmbedRemovalOnceIff(s: string, segments: seq<Segment>, last: string)
    requires LeftmostCuts(Embed(), s, segments, last)
    ensures Embed1Replacer(Embed1Replacer(s)) == Embed1Replacer(s) <==> !MarkersMeet(segments, last)
  {
    GreedySettled();
    ScanIsLeftmost(Embed(), s, segments, last);
    ReplaceIsSpliced(Embed(), "", s, segments, last);
    var kept := Spliced("", segments, last);
    DeletionIdleIff(Embed(), kept);
    if c, k :| MeetAt(segments, last, c, k) {
      MeetSpells(segments, last, c, k);
    }
    if !Nowhere(Embed(), kept) {
      var i :| 0 <= i < |kept| && First(Embed(), kept[i..]).Some?;
      MarkerIff(kept[i..]);
      var c, k := MeetFound(s, segments, last, i);
    }
  }
}
