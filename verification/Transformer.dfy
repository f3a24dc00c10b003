/** pkg/html/transformer.go: the eight patterns, the nine transformers and TransformText. */
module Transformer {
  import opened Regex
  import opened Replacement

  // ----- transformer.go:11-20 -----

  /** `(?s)<div[\s]*class="interactive-comp">(.*?)</div>` */
  function InteractiveHead(): Pattern { Lit("<div") + [Star(Space, true)] + Lit("class=\"interactive-comp\">") }

  function InteractiveGraphics(): Pattern { InteractiveHead() + [Star(Any, false)] + Lit("</div>") }

  /** `(?s)<pull-quote(\s|>).*?</pull-quote>` */
  function PullHead(): Pattern { Lit("<pull-quote") + [One(SpaceOr('>'))] }

  function PullTag(): Pattern { PullHead() + [Star(Any, false)] + Lit("</pull-quote>") }

  /** `&nbsp;` */
  function Nbsp(): Pattern { Lit("&nbsp;") }

  /** `(?i)(?s)<script[^>]*>(.*?)</script>` */
  function ScriptHead(): Pattern { FoldLit("<script") + [Star(Not('>'), true), One(Is('>'))] }

  function Script(): Pattern { ScriptHead() + [Star(Any, false)] + FoldLit("</script>") }

  /** `<[^>]*>` */
  function Tag(): Pattern { [One(Is('<')), Star(Not('>'), true), One(Is('>'))] }

  /** `embed\d+` */
  function Embed(): Pattern { Lit("embed") + [One(Digit), Star(Digit, true)] }

  /** `\[/?caption[^]]*]` */
  function SquaredCaption(): Pattern {
    [One(Is('[')), Maybe(Is('/'))] + Lit("caption") + [Star(Not(']'), true), One(Is(']'))]
  }

  /** `\s+` */
  function DuplicateWhiteSpace(): Pattern { [One(Space), Star(Space, true)] }

  lemma FixedIsThrifty(a: Pattern)
    requires Fixed(a)
    ensures Thrifty(a)
  {
    AfterFixed(a, []);
    assert a + [] == a;
  }

  /** A word, a run, a word that the run does not take the beginning of, a gap and a word. */
  lemma RunAndGap(a: Pattern, cls: CharClass, b: Pattern, close: Pattern, re: Pattern)
    requires Fixed(a) && a != [] && Fixed(b) && b != [] && Disjoint(cls, b[0].cls) && Fixed(close)
    requires re == a + ([Star(cls, true)] + (b + ([Star(Any, false)] + close)))
    ensures Settled(re) && !Greedy(re)
  {
    var end := [Star(Any, false)] + close;
    AfterGap(close);
    AfterFixed(b, end);
    AfterChoice(Star(cls, true), b + end);
    AfterFixed(a, [Star(cls, true)] + (b + end));
    assert re[0] == a[0];
  }

  lemma InteractiveSettled()
    ensures Settled(InteractiveGraphics()) && !Greedy(InteractiveGraphics())
  {
    RunAndGap(Lit("<div"), Space, Lit("class=\"interactive-comp\">"), Lit("</div>"), InteractiveGraphics());
  }

  lemma PullTagSettled()
    ensures Settled(PullTag()) && !Greedy(PullTag())
  {
    AfterGap(Lit("</pull-quote>"));
    AfterFixed(PullHead(), [Star(Any, false)] + Lit("</pull-quote>"));
    assert PullTag() == PullHead() + ([Star(Any, false)] + Lit("</pull-quote>"));
  }

  lemma ScriptSettled()
    ensures Settled(Script()) && !Greedy(Script())
  {
    RunAndGap(FoldLit("<script"), Not('>'), [One(Is('>'))], FoldLit("</script>"), Script());
  }

  lemma TagSettled()
    ensures Settled(Tag()) && !Greedy(Tag())
  {
    FixedIsThrifty([One(Is('>'))]);
    AfterChoice(Star(Not('>'), true), [One(Is('>'))]);
    AfterFixed([One(Is('<'))], [Star(Not('>'), true)] + [One(Is('>'))]);
    assert Tag() == [One(Is('<'))] + ([Star(Not('>'), true)] + [One(Is('>'))]);
  }

  lemma SquaredCaptionSettled()
    ensures Settled(SquaredCaption()) && !Greedy(SquaredCaption())
  {
    var close := [Star(Not(']'), true)] + [One(Is(']'))];
    FixedIsThrifty([One(Is(']'))]);
    AfterChoice(Star(Not(']'), true), [One(Is(']'))]);
    AfterFixed(Lit("caption"), close);
    AfterChoice(Maybe(Is('/')), Lit("caption") + close);
    AfterFixed([One(Is('['))], [Maybe(Is('/'))] + (Lit("caption") + close));
    assert SquaredCaption() == [One(Is('['))] + ([Maybe(Is('/'))] + (Lit("caption") + close));
  }

  lemma GreedySettled()
    ensures Settled(Embed()) && Greedy(Embed()) && Settled(DuplicateWhiteSpace()) && Greedy(DuplicateWhiteSpace())
  {
    assert forall cls :: [Star(cls, true)][1..] == [];
    AfterFixed(Lit("embed") + [One(Digit)], [Star(Digit, true)]);
    assert Embed() == (Lit("embed") + [One(Digit)]) + [Star(Digit, true)];
    AfterFixed([One(Space)], [Star(Space, true)]);
    assert DuplicateWhiteSpace() == [One(Space)] + [Star(Space, true)];
  }

  /** Which match each pattern takes: the shortest of those that begin at a place, or, for a marker's
      digits and for white space, the longest. */
  lemma PatternsSettled()
    ensures Settled(InteractiveGraphics()) && Settled(PullTag()) && Settled(Script())
    ensures Settled(Nbsp()) && Settled(Tag()) && Settled(SquaredCaption())
    ensures !Greedy(InteractiveGraphics()) && !Greedy(PullTag()) && !Greedy(Script())
    ensures !Greedy(Tag()) && !Greedy(SquaredCaption())
    ensures Settled(Embed()) && Greedy(Embed()) && Settled(DuplicateWhiteSpace()) && Greedy(DuplicateWhiteSpace())
  {
    InteractiveSettled();
    PullTagSettled();
    ScriptSettled();
    FixedIsThrifty(Nbsp());
    TagSettled();
    SquaredCaptionSettled();
    GreedySettled();
  }

  // ----- the transformers -----

  function InteractiveGraphicsMarkupTagRemover(input: string): string { Replace(InteractiveGraphics(), "", input) }

  function PullTagTransformer(input: string): string { Replace(PullTag(), "", input) }

  /** `decode` stands for html.UnescapeString. */
  function EntityTransformer(decode: string -> string, input: string): string { decode(Replace(Nbsp(), " ", input)) }

  function ScriptTagRemover(input: string): string { Replace(Script(), "", input) }

  function TagsRemover(input: string): string { Replace(Tag(), "", input) }

  function OuterSpaceTrimmer(input: string): string { TrimRight(TrimLeft(input)) }

  function Embed1Replacer(input: string): string { Replace(Embed(), "", input) }

  function SquaredCaptionReplacer(input: string): string { Replace(SquaredCaption(), "", input) }

  function DuplicateWhiteSpaceRemover(input: string): string { Replace(DuplicateWhiteSpace(), " ", input) }

  // ----- strings.TrimSpace -----

  /** unicode.IsSpace */
  predicate IsUnicodeSpace(c: char) {
    || ('\t' <= c <= '\r') || c == ' ' || c == '\U{0085}' || c == '\U{00A0}' || c == '\U{1680}'
    || ('\U{2000}' <= c <= '\U{200A}') || c == '\U{2028}' || c == '\U{2029}' || c == '\U{202F}' || c == '\U{205F}'
    || c == '\U{3000}'
  }

  function TrimLeft(s: string): string {
    if s != [] && IsUnicodeSpace(s[0]) then TrimLeft(s[1..]) else s
  }

  function TrimRight(s: string): string {
    if s != [] && IsUnicodeSpace(s[|s| - 1]) then TrimRight(s[..|s| - 1]) else s
  }

  /** No white space at either end. */
  predicate Trimmed(s: string) { s != [] ==> !IsUnicodeSpace(s[0]) && !IsUnicodeSpace(s[|s| - 1]) }

  predicate AllSpace(s: string) { forall i :: 0 <= i < |s| ==> IsUnicodeSpace(s[i]) }

  lemma AllSpaceConcat(a: string, b: string)
    requires AllSpace(a) && AllSpace(b)
    ensures AllSpace(a + b)
  {
  }

  /** What is trimmed off is white space, and the text goes on without. */
  lemma {:induction false} TrimLeftSlice(s: string) returns (i: nat)
    ensures i <= |s| && TrimLeft(s) == s[i..] && AllSpace(s[..i])
    ensures TrimLeft(s) != [] ==> !IsUnicodeSpace(TrimLeft(s)[0])
  {
    i := 0;
    if s != [] && IsUnicodeSpace(s[0]) {
      i := TrimLeftSlice(s[1..]);
      AllSpaceConcat([s[0]], s[1..][..i]);
      assert s[1..][i..] == s[i + 1..] && s[..i + 1] == [s[0]] + s[1..][..i];
      i := i + 1;
    }
  }

  lemma {:induction false} TrimRightSlice(s: string) returns (i: nat)
    ensures i <= |s| && TrimRight(s) == s[..i] && AllSpace(s[i..])
    ensures TrimRight(s) != [] ==> !IsUnicodeSpace(TrimRight(s)[|TrimRight(s)| - 1])
  {
    i := |s|;
    if s != [] && IsUnicodeSpace(s[|s| - 1]) {
      var before := s[..|s| - 1];
      i := TrimRightSlice(before);
      AllSpaceConcat(before[i..], [s[|s| - 1]]);
      assert before[..i] == s[..i] && s[i..] == before[i..] + [s[|s| - 1]];
    }
  }

  /** The stretch from `i` to `j`, with nothing but white space around it. */
  predicate StretchOf(s: string, i: nat, j: nat, t: string) {
    i <= j <= |s| && t == s[i..j] && AllSpace(s[..i]) && AllSpace(s[j..])
  }

  lemma StretchSplit(s: string, i: nat, j: nat)
    requires i + j <= |s|
    ensures s[i..][..j] == s[i..i + j] && s[i..][j..] == s[i + j..]
  {
  }

  /** The trimmed text is such a stretch and has no white space at its ends. */
  lemma TrimIsStretch(s: string)
    ensures exists i, j :: StretchOf(s, i, j, OuterSpaceTrimmer(s))
    ensures Trimmed(OuterSpaceTrimmer(s))
  {
    var i := TrimLeftSlice(s);
    var j := TrimRightSlice(TrimLeft(s));
    StretchSplit(s, i, j);
    assert StretchOf(s, i, i + j, OuterSpaceTrimmer(s));
  }

  /** The white space that is trimmed, character by character, and the white space of `\s`. */
  lemma SpacesAre(c: char)
    ensures IsSpace(c) <==> c in "\t\n\U{000C}\r "
    ensures IsUnicodeSpace(c) <==>
            c in "\t\n\U{000B}\U{000C}\r \U{0085}\U{00A0}\U{1680}\U{2000}\U{2001}\U{2002}\U{2003}\U{2004}\U{2005}" +
                 "\U{2006}\U{2007}\U{2008}\U{2009}\U{200A}\U{2028}\U{2029}\U{202F}\U{205F}\U{3000}"
  {
  }

  lemma TrimOfTrimmed(s: string)
    requires Trimmed(s)
    ensures OuterSpaceTrimmer(s) == s
  {
  }

  // ----- TransformText -----

  /** The text after the transformers, from the first to the last. */
  function Through(text: string, transformers: seq<string -> string>): string {
    if transformers == [] then text
    else transformers[|transformers| - 1](Through(text, transformers[..|transformers| - 1]))
  }

  method TransformText(text: string, transformers: seq<string -> string>) returns (current: string)
    ensures current == Through(text, transformers)
  {
    current := text;
    for i := 0 to |transformers|
      invariant current == Through(text, transformers[..i])
    {
      current := transformers[i](current);
      assert transformers[..i + 1][..i] == transformers[..i];
    }
    assert transformers[..|transformers|] == transformers;
  }

  /** mapper.go:219-229, the title and the byline. */
  function LineTransformers(decode: string -> string): seq<string -> string> {
    [s => EntityTransformer(decode, s), TagsRemover, OuterSpaceTrimmer, DuplicateWhiteSpaceRemover]
  }

  /** mapper.go:238-247, the body. */
  function BodyTransformers(decode: string -> string): seq<string -> string> {
    [InteractiveGraphicsMarkupTagRemover, PullTagTransformer, s => EntityTransformer(decode, s), ScriptTagRemover,
     TagsRemover, OuterSpaceTrimmer, Embed1Replacer, SquaredCaptionReplacer, DuplicateWhiteSpaceRemover]
  }

  function LineText(decode: string -> string, text: string): string { Through(text, LineTransformers(decode)) }

  function BodyText(decode: string -> string, text: string): string { Through(text, BodyTransformers(decode)) }

  lemma ThroughSnoc(text: string, ts: seq<string -> string>, t: string -> string)
    ensures Through(text, ts + [t]) == t(Through(text, ts))
  {
    assert (ts + [t])[..|ts|] == ts;
  }

  lemma ThroughThree(text: string, ts: seq<string -> string>, t: string -> string, u: string -> string,
                     v: string -> string)
    ensures Through(text, ts + [t] + [u] + [v]) == v(u(t(Through(text, ts))))
  {
    ThroughSnoc(text, ts, t);
    ThroughSnoc(text, ts + [t], u);
    ThroughSnoc(text, ts + [t] + [u], v);
  }

  lemma LineTextIs(decode: string -> string, text: string)
    ensures LineText(decode, text) ==
            DuplicateWhiteSpaceRemover(OuterSpaceTrimmer(TagsRemover(EntityTransformer(decode, text))))
  {
    var ts := LineTransformers(decode);
    assert ts[..3] + [ts[3]] == ts && ts[..2] + [ts[2]] == ts[..3] && ts[..1] + [ts[1]] == ts[..2] &&
           [] + [ts[0]] == ts[..1];
    ThroughSnoc(text, [], ts[0]);
    ThroughSnoc(text, ts[..1], ts[1]);
    ThroughSnoc(text, ts[..2], ts[2]);
    ThroughSnoc(text, ts[..3], ts[3]);
  }

  /** The body once everything up to the trim is done, before the passes that can expose space again. */
  function CleanBody(decode: string -> string, text: string): string {
    OuterSpaceTrimmer(TagsRemover(ScriptTagRemover(EntityTransformer(decode,
      PullTagTransformer(InteractiveGraphicsMarkupTagRemover(text))))))
  }

  lemma BodyFirstThree(decode: string -> string, text: string)
    ensures Through(text, BodyTransformers(decode)[..3]) ==
            EntityTransformer(decode, PullTagTransformer(InteractiveGraphicsMarkupTagRemover(text)))
  {
    var ts := BodyTransformers(decode);
    ThroughThree(text, [], ts[0], ts[1], ts[2]);
    assert [] + [ts[0]] + [ts[1]] + [ts[2]] == ts[..3];
  }

  lemma BodyFirstSix(decode: string -> string, text: string)
    ensures Through(text, BodyTransformers(decode)[..6]) == CleanBody(decode, text)
  {
    var ts := BodyTransformers(decode);
    BodyFirstThree(decode, text);
    ThroughThree(text, ts[..3], ts[3], ts[4], ts[5]);
    assert ts[..3] + [ts[3]] + [ts[4]] + [ts[5]] == ts[..6];
  }

  lemma BodyTextIs(decode: string -> string, text: string)
    ensures BodyText(decode, text) ==
            DuplicateWhiteSpaceRemover(SquaredCaptionReplacer(Embed1Replacer(CleanBody(decode, text))))
  {
    var ts := BodyTransformers(decode);
    BodyFirstSix(decode, text);
    ThroughThree(text, ts[..6], ts[6], ts[7], ts[8]);
    assert ts[..6] + [ts[6]] + [ts[7]] + [ts[8]] == ts;
  }

  /** The nine passes over the body, one after the other. */
  lemma BodyPasses(decode: string -> string, text: string)
    ensures var blocks := PullTagTransformer(InteractiveGraphicsMarkupTagRemover(text));
            var tags := TagsRemover(ScriptTagRemover(EntityTransformer(decode, blocks)));
            var clean := OuterSpaceTrimmer(tags);
            BodyText(decode, text) == DuplicateWhiteSpaceRemover(SquaredCaptionReplacer(Embed1Replacer(clean)))
  {
    BodyTextIs(decode, text);
  }
}
