/** What the cleaned title, byline and body have whatever the input and the entity decoder. */
module TextProperties {
  import opened Strings
  import opened Regex
  import opened Replacement
  import opened Transformer

  // ----- tags -----

  /** No '<' has a '>' anywhere after it. */
  predicate TagFree(s: string) { forall i, j :: 0 <= i < j < |s| ==> !(s[i] == '<' && s[j] == '>') }

  lemma TagFreeCons(c: char, s: string)
    requires TagFree(s) && (c == '<' ==> '>' !in s)
    ensures TagFree([c] + s)
  {
    forall i, j | 0 <= i < j < |[c] + s| ensures !(([c] + s)[i] == '<' && ([c] + s)[j] == '>') {
      assert ([c] + s)[j] == s[j - 1];
    }
  }

  lemma TagFreeBefore(x: string, s: string)
    requires TagFree(s) && '<' !in x && '>' !in x
    ensures TagFree(x + s)
  {
  }

  /** A '<' with a '>' after it begins a tag. */
  lemma {:induction false} TagFound(run: string)
    requires '>' in run
    ensures First([Star(Not('>'), true), One(Is('>'))], run).Some?
  {
    var re := [Star(Not('>'), true), One(Is('>'))];
    assert re[1..] == [One(Is('>'))] && re[1..][1..] == [];
    if run[0] == '>' {
      assert First(re[1..][1..], run[1..]) == Some(0);
      assert First(re[1..], run).Some?;
    } else {
      assert run == [run[0]] + run[1..];
      TagFound(run[1..]);
    }
  }

  /** One pass of the tag remover leaves no tag. */
  lemma {:induction false} TagsRemoverClears(s: string)
    ensures TagFree(TagsRemover(s))
    decreases |s|
  {
    if s != [] {
      FirstConsumes(Tag(), s);
      match First(Tag(), s)
      case Some(n) =>
        TagsRemoverClears(s[n..]);
      case None =>
        TagsRemoverClears(s[1..]);
        if s[0] == '<' {
          assert '>' !in s[1..] by {
            assert Tag()[1..] == [Star(Not('>'), true), One(Is('>'))];
            if '>' in s[1..] { TagFound(s[1..]); }
          }
          ReplaceAddsOnlyRepl(Tag(), "", s[1..], '>');
        }
        TagFreeCons(s[0], TagsRemover(s[1..]));
    }
  }

  /** No replacement by text without angle brackets makes a tag. */
  lemma {:induction false} ReplaceKeepsTagFree(re: Pattern, repl: string, s: string)
    requires Consumes(re) && TagFree(s) && '<' !in repl && '>' !in repl
    ensures TagFree(Replace(re, repl, s))
    decreases |s|
  {
    if s != [] {
      FirstConsumes(re, s);
      match First(re, s)
      case Some(n) =>
        ReplaceKeepsTagFree(re, repl, s[n..]);
        TagFreeBefore(repl, Replace(re, repl, s[n..]));
      case None =>
        ReplaceKeepsTagFree(re, repl, s[1..]);
        if s[0] == '<' {
          ReplaceAddsOnlyRepl(re, repl, s[1..], '>');
        }
        TagFreeCons(s[0], Replace(re, repl, s[1..]));
    }
  }

  lemma TrimKeepsTagFree(s: string)
    requires TagFree(s)
    ensures TagFree(OuterSpaceTrimmer(s))
  {
    TrimIsStretch(s);
    var i: nat, j: nat :| StretchOf(s, i, j, OuterSpaceTrimmer(s));
  }

  /** Title and byline end up without a tag. */
  lemma LineTextIsTagFree(decode: string -> string, text: string)
    ensures TagFree(LineText(decode, text))
  {
    LineTextIs(decode, text);
    TagsRemoverClears(EntityTransformer(decode, text));
    TrimKeepsTagFree(TagsRemover(EntityTransformer(decode, text)));
    ReplaceKeepsTagFree(DuplicateWhiteSpace(), " ", OuterSpaceTrimmer(TagsRemover(EntityTransformer(decode, text))));
  }

  /** So does the body: the passes after the tag remover cannot bring a tag back. */
  lemma BodyTextIsTagFree(decode: string -> string, text: string)
    ensures TagFree(BodyText(decode, text))
  {
    BodyTextIs(decode, text);
    var decoded := EntityTransformer(decode, PullTagTransformer(InteractiveGraphicsMarkupTagRemover(text)));
    var open := ScriptTagRemover(decoded);
    TagsRemoverClears(open);
    TrimKeepsTagFree(TagsRemover(open));
    var clean := CleanBody(decode, text);
    ReplaceKeepsTagFree(Embed(), "", clean);
    ReplaceKeepsTagFree(SquaredCaption(), "", Embed1Replacer(clean));
    ReplaceKeepsTagFree(DuplicateWhiteSpace(), " ", SquaredCaptionReplacer(Embed1Replacer(clean)));
  }

  lemma {:induction false} TagMatchEnds(w: string)
    requires Matches([Star(Not('>'), true), One(Is('>'))], w)
    ensures w != [] && w[|w| - 1] == '>'
  {
    var re := [Star(Not('>'), true), One(Is('>'))];
    assert re[1..] == [One(Is('>'))] && re[1..][1..] == [];
    if Matches(re[1..], w) {
      assert Matches(re[1..][1..], w[1..]);
    } else {
      TagMatchEnds(w[1..]);
    }
  }

  lemma TagMatchSpan(s: string)
    ensures match First(Tag(), s)
            case Some(n) => 2 <= n <= |s| && s[0] == '<' && s[n - 1] == '>'
            case None => true
  {
    FirstSound(Tag(), s);
    if First(Tag(), s).Some? {
      var w := s[..First(Tag(), s).value];
      assert Tag()[1..] == [Star(Not('>'), true), One(Is('>'))];
      TagMatchEnds(w[1..]);
    }
  }

  lemma NoTagMatch(s: string)
    requires TagFree(s)
    ensures First(Tag(), s).None?
  {
    TagMatchSpan(s);
  }

  lemma TagsRemoverFixed(s: string)
    requires TagFree(s)
    ensures TagsRemover(s) == s
  {
    forall i | 0 <= i < |s| ensures First(Tag(), s[i..] + []).None? {
      assert s[i..] + [] == s[i..];
      NoTagMatch(s[i..]);
    }
    ReplaceSkips(Tag(), "", s, []);
    assert s + [] == s;
  }

  /** The tag remover is idempotent. */
  lemma TagsRemoverIdempotent(s: string)
    ensures TagsRemover(TagsRemover(s)) == TagsRemover(s)
  {
    TagsRemoverClears(s);
    TagsRemoverFixed(TagsRemover(s));
  }

  // ----- white space -----

  /** The only `\s` white space is the space character and no two are adjacent. */
  predicate SingleSpaced(s: string) {
    && (forall i :: 0 <= i < |s| && IsSpace(s[i]) ==> s[i] == ' ')
    && (forall i :: 0 <= i < |s| - 1 ==> !(IsSpace(s[i]) && IsSpace(s[i + 1])))
  }

  function SpaceRun(s: string): nat {
    if s != [] && IsSpace(s[0]) then 1 + SpaceRun(s[1..]) else 0
  }

  lemma {:induction false} FirstSpaces(s: string)
    ensures First([Star(Space, true)], s) == Some(SpaceRun(s)) && SpaceRun(s) <= |s|
    ensures forall i :: 0 <= i < SpaceRun(s) ==> IsSpace(s[i])
    ensures SpaceRun(s) < |s| ==> !IsSpace(s[SpaceRun(s)])
  {
    assert [Star(Space, true)][1..] == [];
    if s != [] {
      FirstSpaces(s[1..]);
    }
  }

  lemma FirstWhiteSpace(s: string)
    requires s != []
    ensures First(DuplicateWhiteSpace(), s) == if IsSpace(s[0]) then Some(SpaceRun(s)) else None
    ensures 0 <= SpaceRun(s) <= |s| && (IsSpace(s[0]) ==> SpaceRun(s) > 0)
    ensures forall i :: 0 <= i < SpaceRun(s) ==> IsSpace(s[i])
    ensures SpaceRun(s) < |s| ==> !IsSpace(s[SpaceRun(s)])
  {
    FirstSpaces(s);
    FirstSpaces(s[1..]);
    assert DuplicateWhiteSpace()[1..] == [Star(Space, true)];
  }

  function Spaced(c: char): char { if IsSpace(c) then ' ' else c }

  /** Collapsing changes the ends only from one white space to another. */
  lemma {:induction false} CollapseEnds(s: string)
    requires s != []
    ensures DuplicateWhiteSpaceRemover(s) != []
    ensures DuplicateWhiteSpaceRemover(s)[0] == Spaced(s[0])
    ensures DuplicateWhiteSpaceRemover(s)[|DuplicateWhiteSpaceRemover(s)| - 1] == Spaced(s[|s| - 1])
    decreases |s|
  {
    FirstWhiteSpace(s);
    var n := if IsSpace(s[0]) then SpaceRun(s) else 1;
    var out := DuplicateWhiteSpaceRemover(s[n..]);
    assert DuplicateWhiteSpaceRemover(s) == [Spaced(s[0])] + out;
    if n < |s| {
      CollapseEnds(s[n..]);
      assert s[n..][|s| - n - 1] == s[|s| - 1];
    }
  }

  lemma {:induction false} CollapseNormal(s: string)
    ensures SingleSpaced(DuplicateWhiteSpaceRemover(s))
    decreases |s|
  {
    if s != [] {
      FirstWhiteSpace(s);
      var n := if IsSpace(s[0]) then SpaceRun(s) else 1;
      var out := DuplicateWhiteSpaceRemover(s[n..]);
      CollapseNormal(s[n..]);
      if n < |s| {
        CollapseEnds(s[n..]);
      }
      var head := Spaced(s[0]);
      assert DuplicateWhiteSpaceRemover(s) == [head] + out;
      SingleSpacedCons(head, out);
    }
  }

  lemma SingleSpacedCons(c: char, s: string)
    requires SingleSpaced(s) && (IsSpace(c) ==> c == ' ' && (s != [] ==> !IsSpace(s[0])))
    ensures SingleSpaced([c] + s)
  {
    forall i | 0 <= i < |s| ensures !(IsSpace(([c] + s)[i]) && IsSpace(([c] + s)[i + 1])) {
      assert ([c] + s)[i + 1] == s[i];
      assert i > 0 ==> ([c] + s)[i] == s[i - 1];
    }
  }

  lemma {:induction false} CollapseFixed(s: string)
    requires SingleSpaced(s)
    ensures DuplicateWhiteSpaceRemover(s) == s
    decreases |s|
  {
    if s != [] {
      FirstWhiteSpace(s);
      assert IsSpace(s[0]) && |s| > 1 ==> !IsSpace(s[0 + 1]);
      assert IsSpace(s[0]) ==> SpaceRun(s) == 1 && s[0] == ' ';
      forall i | 0 <= i < |s[1..]| - 1 ensures !(IsSpace(s[1..][i]) && IsSpace(s[1..][i + 1])) {
        assert s[1..][i] == s[i + 1] && s[1..][i + 1] == s[i + 1 + 1];
      }
      CollapseFixed(s[1..]);
      assert s == [s[0]] + s[1..];
    }
  }

  /** The white-space remover is idempotent. */
  lemma CollapseIdempotent(s: string)
    ensures DuplicateWhiteSpaceRemover(DuplicateWhiteSpaceRemover(s)) == DuplicateWhiteSpaceRemover(s)
  {
    CollapseNormal(s);
    CollapseFixed(DuplicateWhiteSpaceRemover(s));
  }

  /** The characters that are not `\s` white space. */
  function Solid(s: string): string {
    if s == [] then [] else (if IsSpace(s[0]) then [] else [s[0]]) + Solid(s[1..])
  }

  lemma {:induction false} SolidConcat(a: string, b: string)
    ensures Solid(a + b) == Solid(a) + Solid(b)
  {
    if a == [] {
      assert a + b == b;
    } else {
      assert (a + b)[0] == a[0] && (a + b)[1..] == a[1..] + b;
      SolidConcat(a[1..], b);
    }
  }

  lemma {:induction false} RunHasNoSolid(s: string, n: nat)
    requires n <= |s| && forall i :: 0 <= i < n ==> IsSpace(s[i])
    ensures Solid(s) == Solid(s[n..])
    decreases n
  {
    if n > 0 {
      RunHasNoSolid(s[1..], n - 1);
      assert s[1..][n - 1..] == s[n..];
    } else {
      assert s[0..] == s;
    }
  }

  /** Collapsing white space keeps every other character, in order. */
  lemma {:induction false} CollapseKeepsText(s: string)
    ensures Solid(DuplicateWhiteSpaceRemover(s)) == Solid(s)
    decreases |s|
  {
    if s != [] {
      FirstWhiteSpace(s);
      var n := if IsSpace(s[0]) then SpaceRun(s) else 1;
      var head := Spaced(s[0]);
      CollapseKeepsText(s[n..]);
      assert DuplicateWhiteSpaceRemover(s) == [head] + DuplicateWhiteSpaceRemover(s[n..]);
      SolidConcat([head], DuplicateWhiteSpaceRemover(s[n..]));
      assert [head][1..] == [];
      if IsSpace(s[0]) {
        RunHasNoSolid(s, n);
      }
    }
  }

  /** The characters that are not white space. */
  function Visible(s: string): string {
    if s == [] then [] else (if IsUnicodeSpace(s[0]) then [] else [s[0]]) + Visible(s[1..])
  }

  lemma {:induction false} VisibleConcat(a: string, b: string)
    ensures Visible(a + b) == Visible(a) + Visible(b)
  {
    if a == [] {
      assert a + b == b;
    } else {
      assert (a + b)[0] == a[0] && (a + b)[1..] == a[1..] + b;
      VisibleConcat(a[1..], b);
    }
  }

  lemma {:induction false} SpaceIsNotVisible(s: string)
    requires AllSpace(s)
    ensures Visible(s) == []
  {
    if s != [] { SpaceIsNotVisible(s[1..]); }
  }

  /** Trimming keeps every character that is not white space. */
  lemma TrimKeepsVisible(s: string)
    ensures Visible(OuterSpaceTrimmer(s)) == Visible(s)
  {
    TrimIsStretch(s);
    var i: nat, j: nat :| StretchOf(s, i, j, OuterSpaceTrimmer(s));
    StretchKeepsVisible(s, i, j, OuterSpaceTrimmer(s));
  }

  lemma StretchKeepsVisible(s: string, i: nat, j: nat, t: string)
    requires StretchOf(s, i, j, t)
    ensures Visible(t) == Visible(s)
  {
    assert s == s[..i] + (t + s[j..]);
    VisibleConcat(s[..i], t + s[j..]);
    VisibleConcat(t, s[j..]);
    SpaceIsNotVisible(s[..i]);
    SpaceIsNotVisible(s[j..]);
  }

  lemma {:induction false} CollapseKeepsVisible(s: string)
    ensures Visible(DuplicateWhiteSpaceRemover(s)) == Visible(s)
    decreases |s|
  {
    if s != [] {
      FirstWhiteSpace(s);
      var n := if IsSpace(s[0]) then SpaceRun(s) else 1;
      CollapseKeepsVisible(s[n..]);
      VisibleConcat([Spaced(s[0])], DuplicateWhiteSpaceRemover(s[n..]));
      assert DuplicateWhiteSpaceRemover(s) == [Spaced(s[0])] + DuplicateWhiteSpaceRemover(s[n..]);
      assert s == s[..n] + s[n..];
      VisibleConcat(s[..n], s[n..]);
      if IsSpace(s[0]) {
        SpaceIsNotVisible(s[..n]);
      } else {
        assert s[..n] == [s[0]];
      }
      assert [Spaced(s[0])][1..] == [];
    }
  }

  /** In a title or byline every character that is not white space and in no tag survives, in order. */
  lemma LineTextKeepsVisible(decode: string -> string, text: string)
    ensures Visible(LineText(decode, text)) == Visible(TagsRemover(EntityTransformer(decode, text)))
  {
    LineTextIs(decode, text);
    var bare := TagsRemover(EntityTransformer(decode, text));
    TrimKeepsVisible(bare);
    CollapseKeepsVisible(OuterSpaceTrimmer(bare));
  }

  /** In a body all that is in no block, tag, marker or caption does. */
  lemma BodyTextKeepsVisible(decode: string -> string, text: string)
    ensures var decoded := EntityTransformer(decode, PullTagTransformer(InteractiveGraphicsMarkupTagRemover(text)));
            Visible(CleanBody(decode, text)) == Visible(TagsRemover(ScriptTagRemover(decoded)))
    ensures Visible(BodyText(decode, text)) == Visible(SquaredCaptionReplacer(Embed1Replacer(CleanBody(decode, text))))
  {
    BodyTextIs(decode, text);
    var decoded := EntityTransformer(decode, PullTagTransformer(InteractiveGraphicsMarkupTagRemover(text)));
    TrimKeepsVisible(TagsRemover(ScriptTagRemover(decoded)));
    CollapseKeepsVisible(SquaredCaptionReplacer(Embed1Replacer(CleanBody(decode, text))));
  }

  lemma CollapseKeepsTrimmed(s: string)
    ensures Trimmed(DuplicateWhiteSpaceRemover(s)) <==> Trimmed(s)
  {
    if s != [] {
      CollapseEnds(s);
    }
  }

  /** Title and byline: single-spaced, nothing but text at both ends. */
  lemma LineTextIsNormal(decode: string -> string, text: string)
    ensures SingleSpaced(LineText(decode, text)) && Trimmed(LineText(decode, text))
  {
    LineTextIs(decode, text);
    var bare := TagsRemover(EntityTransformer(decode, text));
    TrimIsStretch(bare);
    CollapseNormal(OuterSpaceTrimmer(bare));
    CollapseKeepsTrimmed(OuterSpaceTrimmer(bare));
  }

  lemma BodyTextIsSingleSpaced(decode: string -> string, text: string)
    ensures SingleSpaced(BodyText(decode, text))
  {
    BodyTextIs(decode, text);
    CollapseNormal(SquaredCaptionReplacer(Embed1Replacer(CleanBody(decode, text))));
  }

  /** A decoder that leaves text without an ampersand alone. */
  ghost predicate DecodesOnlyEntities(decode: string -> string) { forall s :: '&' !in s ==> decode(s) == s }

  /** Cleaning a clean title again changes nothing. */
  lemma LineTextStable(decode: string -> string, text: string)
    requires DecodesOnlyEntities(decode) && '&' !in LineText(decode, text)
    ensures LineText(decode, LineText(decode, text)) == LineText(decode, text)
  {
    var out := LineText(decode, text);
    LineTextIsTagFree(decode, text);
    LineTextIsNormal(decode, text);
    LineTextIs(decode, out);
    ReplaceIdle(Nbsp(), " ", out);
    TagsRemoverFixed(out);
    TrimOfTrimmed(out);
    CollapseFixed(out);
  }
}
