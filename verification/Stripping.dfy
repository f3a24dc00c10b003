/** Removing script, pull-quote and interactive-comp blocks, tags and captions undoes inserting them,
    and replacing `&nbsp;` puts a space where it stood. */
module Stripping {
  import opened Strings
  import opened Regex
  import opened Replacement
  import opened Transformer

  datatype Kind = ScriptBlock | PullQuote | InteractiveComp

  function Head(kind: Kind): Pattern {
    match kind
    case ScriptBlock => ScriptHead()
    case PullQuote => PullHead()
    case InteractiveComp => InteractiveHead()
  }

  function Close(kind: Kind): Pattern {
    match kind
    case ScriptBlock => FoldLit("</script>")
    case PullQuote => Lit("</pull-quote>")
    case InteractiveComp => Lit("</div>")
  }

  function Whole(kind: Kind): Pattern { Head(kind) + [Star(Any, false)] + Close(kind) }

  function Remover(kind: Kind, text: string): string {
    match kind
    case ScriptBlock => ScriptTagRemover(text)
    case PullQuote => PullTagTransformer(text)
    case InteractiveComp => InteractiveGraphicsMarkupTagRemover(text)
  }

  /** The part of the opening tag that text must not contain. A script tag is taken for one from its
      name on, whatever follows. */
  function Marker(kind: Kind): Pattern { if kind == ScriptBlock then FoldLit("<script") else Head(kind) }

  const COMP_ATTRIBUTE := "class=\"interactive-comp\">"

  predicate IsOpener(kind: Kind, o: string) {
    match kind
    case ScriptBlock =>
      && |o| >= 8 && Spells(FoldLit("<script"), o[..7])
      && '>' !in o[7..|o| - 1] && o[|o| - 1] == '>'
    case PullQuote => Spells(PullHead(), o)
    case InteractiveComp =>
      && |o| >= 4 + |COMP_ATTRIBUTE|
      && o[..4] == "<div" && o[|o| - |COMP_ATTRIBUTE|..] == COMP_ATTRIBUTE
      && forall i :: 4 <= i < |o| - |COMP_ATTRIBUTE| ==> IsSpace(o[i])
  }

  datatype Block = Block(open: string, body: string, close: string)
  {
    function Text(): string { open + (body + close) }
  }

  ghost predicate IsBlock(kind: Kind, b: Block) {
    IsOpener(kind, b.open) && Nowhere(Close(kind), b.body) && Spells(Close(kind), b.close)
  }

  // ----- weaving blocks into text -----

  /** A piece of text and what follows it. */
  datatype Part = Part(text: string, block: string)

  function Woven(parts: seq<Part>, last: string): string {
    if parts == [] then last else parts[0].text + (parts[0].block + Woven(parts[1..], last))
  }

  /** The pieces, with `repl` between them. */
  function Pieces(repl: string, parts: seq<Part>, last: string): string {
    if parts == [] then last else parts[0].text + (repl + Pieces(repl, parts[1..], last))
  }

  /** The pattern takes the whole block whatever follows. */
  ghost predicate TakesWhole(re: Pattern, block: string) { forall y :: First(re, block + y) == Some(|block|) }

  /** A pattern and the marker it begins with; of the marker only the first character can be `mark`. */
  ghost predicate BeginsWith(re: Pattern, marker: Pattern, mark: char) {
    && Consumes(re) && Consumes(marker)
    && (forall c :: Has(marker[0].cls, c) ==> c == mark)
    && Avoids(marker[1..], mark)
    && marker <= re
  }

  ghost predicate WellWoven(re: Pattern, marker: Pattern, mark: char, parts: seq<Part>, last: string) {
    && (forall i :: 0 <= i < |parts| ==>
          Nowhere(marker, parts[i].text) && TakesWhole(re, parts[i].block) &&
          parts[i].block != [] && parts[i].block[0] == mark)
    && Nowhere(marker, last)
  }

  /** Nothing that begins inside `x` matches, even when a text beginning with `mark` follows. */
  lemma NowhereBefore(re: Pattern, x: string, y: string, mark: char)
    requires Nowhere(re, x) && re != [] && re[0].One? && Avoids(re[1..], mark)
    requires y == [] || y[0] == mark
    ensures NoneWithin(re, x, y)
  {
    forall i | 0 <= i < |x| ensures First(re, x[i..] + y).None? {
      NoStraddle(re, x[i..], y, mark);
    }
  }

  lemma PieceKept(re: Pattern, marker: Pattern, mark: char, text: string, y: string)
    requires BeginsWith(re, marker, mark) && Nowhere(marker, text) && (y == [] || y[0] == mark)
    ensures NoneWithin(re, text, y)
  {
    NowhereBefore(marker, text, y, mark);
    assert re == marker + re[|marker|..];
    forall i | 0 <= i < |text| ensures First(re, text[i..] + y).None? {
      if First(re, text[i..] + y).Some? {
        FirstNeedsBeginning(marker, re[|marker|..], text[i..] + y);
      }
    }
  }

  /** Each block is replaced and the pieces stay: no match begins in a piece or reaches past a block. */
  lemma {:induction false} ReplaceUndoesWeaving(
    re: Pattern, marker: Pattern, mark: char, repl: string, parts: seq<Part>, last: string)
    requires BeginsWith(re, marker, mark) && WellWoven(re, marker, mark, parts, last)
    ensures Replace(re, repl, Woven(parts, last)) == Pieces(repl, parts, last)
    decreases |parts|
  {
    if parts == [] {
      PieceKept(re, marker, mark, last, []);
      ReplaceSkips(re, repl, last, []);
      assert last + [] == last;
    } else {
      var text, block, more := parts[0].text, parts[0].block, Woven(parts[1..], last);
      var y := block + more;
      PieceKept(re, marker, mark, text, y);
      ReplaceFirst(re, repl, text, y);
      assert y[|block|..] == more;
      ReplaceUndoesWeaving(re, marker, mark, repl, parts[1..], last);
    }
  }

  // ----- shapes -----

  lemma AvoidsParts(a: Pattern, b: Pattern, c: char)
    requires Avoids(a, c) && Avoids(b, c)
    ensures Avoids(a + b, c)
  {
  }

  /** Both kinds of literal avoid '<' after a leading one. */
  lemma LiteralShape(w: string)
    requires '<' !in w
    ensures Fixed(Lit("<" + w)) && Lit("<" + w)[0] == One(Is('<')) && Lit("<" + w)[1..] == Lit(w) && Avoids(Lit(w), '<')
    ensures Fixed(FoldLit("<" + w)) && FoldLit("<" + w)[0] == One(Fold('<')) && FoldLit("<" + w)[1..] == FoldLit(w)
    ensures Avoids(FoldLit(w), '<')
  {
  }

  lemma CloseShape(kind: Kind)
    ensures Fixed(Close(kind)) && |Close(kind)| > 0 && Avoids(Close(kind)[1..], '<')
    ensures forall c :: Has(Close(kind)[0].cls, c) ==> c == '<'
  {
    assert "</script>" == "<" + "/script>" && "</pull-quote>" == "<" + "/pull-quote>" && "</div>" == "<" + "/div>";
    LiteralShape("/script>");
    LiteralShape("/pull-quote>");
    LiteralShape("/div>");
  }

  lemma MarkerShape(kind: Kind)
    ensures |Marker(kind)| > 0 && Marker(kind)[0].One? && Avoids(Marker(kind)[1..], '<')
    ensures forall c :: Has(Marker(kind)[0].cls, c) ==> c == '<'
  {
    match kind
    case ScriptBlock => ScriptMarkerShape();
    case PullQuote => PullMarkerShape();
    case InteractiveComp => InteractiveMarkerShape();
  }

  lemma ScriptMarkerShape()
    ensures FoldLit("<script")[0] == One(Fold('<')) && Avoids(FoldLit("<script")[1..], '<')
  {
    assert "<script" == "<" + "script";
    LiteralShape("script");
  }

  lemma PullMarkerShape()
    ensures PullHead() != [] && PullHead()[0] == One(Is('<')) && Avoids(PullHead()[1..], '<')
  {
    assert "<pull-quote" == "<" + "pull-quote";
    LiteralShape("pull-quote");
    AvoidsParts(Lit("pull-quote"), [One(SpaceOr('>'))], '<');
    TailOfConcat(Lit("<pull-quote"), [One(SpaceOr('>'))]);
  }

  lemma InteractiveMarkerShape()
    ensures InteractiveHead() != [] && InteractiveHead()[0] == One(Is('<')) && Avoids(InteractiveHead()[1..], '<')
  {
    assert "<div" == "<" + "div";
    LiteralShape("div");
    LiteralShape(COMP_ATTRIBUTE);
    AvoidsParts(Lit("div"), [Star(Space, true)], '<');
    AvoidsParts(Lit("div") + [Star(Space, true)], Lit(COMP_ATTRIBUTE), '<');
    TailOfConcat(Lit("<div"), [Star(Space, true)]);
    TailOfConcat(Lit("<div") + [Star(Space, true)], Lit(COMP_ATTRIBUTE));
  }

  lemma TailOfConcat(a: Pattern, b: Pattern)
    requires a != []
    ensures (a + b)[0] == a[0] && (a + b)[1..] == a[1..] + b
  {
  }

  lemma Prefixed(a: Pattern, b: Pattern)
    ensures a <= a + b
  {
  }

  lemma MarkerIsPrefix(kind: Kind)
    ensures Marker(kind) <= Whole(kind)
  {
    var gap := [Star(Any, false)] + Close(kind);
    PatternSplit(Head(kind), [Star(Any, false)], Close(kind));
    Prefixed(Head(kind), gap);
    if kind == ScriptBlock {
      PatternSplit(FoldLit("<script"), [Star(Not('>'), true), One(Is('>'))], gap);
      Prefixed(FoldLit("<script"), [Star(Not('>'), true), One(Is('>'))] + gap);
    }
  }

  lemma WholeBeginsWithMarker(kind: Kind)
    ensures BeginsWith(Whole(kind), Marker(kind), '<')
  {
    MarkerShape(kind);
    WholeConsumes(kind);
    MarkerIsPrefix(kind);
  }

  // ----- a block is one match -----

  lemma PatternSplit(a: Pattern, b: Pattern, c: Pattern)
    ensures a + b + c == a + (b + c)
  {
  }

  lemma TextSplit(a: string, b: string, c: string, y: string)
    ensures a + (b + c) + y == a + (b + (c + y))
  {
  }

  lemma HeadSplit(a: Pattern, b: Pattern, c: Pattern, rest: Pattern)
    ensures a + b + c + rest == a + (b + (c + rest))
  {
  }

  lemma OpenerSplit(o: string)
    requires IsOpener(InteractiveComp, o)
    ensures o == "<div" + (o[4..|o| - |COMP_ATTRIBUTE|] + COMP_ATTRIBUTE)
  {
  }

  lemma ScriptHeadMatch(o: string, rest: Pattern, y: string)
    requires IsOpener(ScriptBlock, o)
    ensures First(ScriptHead() + rest, o + y) == After(|o|, First(rest, y))
  {
    var name, attrs, gt := o[..7], o[7..|o| - 1], ">";
    assert o == name + (attrs + gt);
    TextSplit(name, attrs, gt, y);
    HeadSplit(FoldLit("<script"), [Star(Not('>'), true)], [One(Is('>'))], rest);
    assert FoldLit("<script") + [Star(Not('>'), true)] + [One(Is('>'))] == ScriptHead();
    FirstFixed(FoldLit("<script"), [Star(Not('>'), true)] + ([One(Is('>'))] + rest), name, attrs + (gt + y));
    forall i | 0 <= i < |attrs| ensures attrs[i] != '>' {
      assert attrs[i] in attrs;
    }
    assert gt == ['>'];
    FirstUntil(Not('>'), Is('>'), rest, attrs, '>', y);
  }

  lemma InteractiveHeadMatch(o: string, rest: Pattern, y: string)
    requires IsOpener(InteractiveComp, o)
    ensures First(InteractiveHead() + rest, o + y) == After(|o|, First(rest, y))
  {
    var gap := o[4..|o| - |COMP_ATTRIBUTE|];
    var attr := Lit(COMP_ATTRIBUTE) + rest;
    OpenerSplit(o);
    TextSplit("<div", gap, COMP_ATTRIBUTE, y);
    HeadSplit(Lit("<div"), [Star(Space, true)], Lit(COMP_ATTRIBUTE), rest);
    FirstFixed(Lit("<div"), [Star(Space, true)] + attr, "<div", gap + (COMP_ATTRIBUTE + y));
    assert !IsSpace(COMP_ATTRIBUTE[0]);
    GapMatch(gap, COMP_ATTRIBUTE, rest, y);
  }

  lemma GapMatch(gap: string, w: string, rest: Pattern, y: string)
    requires w != [] && !IsSpace(w[0]) && forall i :: 0 <= i < |gap| ==> IsSpace(gap[i])
    ensures First([Star(Space, true)] + (Lit(w) + rest), gap + (w + y)) == After(|gap| + |w|, First(rest, y))
  {
    FirstStarRun(Space, Lit(w) + rest, gap, w + y);
    FirstFixed(Lit(w), rest, w, y);
  }

  lemma HeadMatch(kind: Kind, o: string, rest: Pattern, y: string)
    requires IsOpener(kind, o)
    ensures First(Head(kind) + rest, o + y) == After(|o|, First(rest, y))
  {
    match kind
    case ScriptBlock => ScriptHeadMatch(o, rest, y);
    case PullQuote => FirstFixed(PullHead(), rest, o, y);
    case InteractiveComp => InteractiveHeadMatch(o, rest, y);
  }

  lemma CloseMatch(kind: Kind, b: Block, y: string)
    requires IsBlock(kind, b)
    ensures First([Star(Any, false)] + Close(kind), b.body + (b.close + y)) == Some(|b.body| + |b.close|)
  {
    CloseShape(kind);
    assert Close(kind) + [] == Close(kind);
    FirstFixed(Close(kind), [], b.close, y);
    NowhereBefore(Close(kind), b.body, b.close + y, '<');
    FirstLazy(Close(kind), b.body, b.close + y);
  }

  lemma BlockMatch(kind: Kind, b: Block, y: string)
    requires IsBlock(kind, b)
    ensures First(Whole(kind), b.Text() + y) == Some(|b.Text()|)
  {
    var rest := [Star(Any, false)] + Close(kind);
    PatternSplit(Head(kind), [Star(Any, false)], Close(kind));
    TextSplit(b.open, b.body, b.close, y);
    HeadMatch(kind, b.open, rest, b.body + (b.close + y));
    CloseMatch(kind, b, y);
  }

  lemma OpenerBegins(kind: Kind, o: string)
    requires IsOpener(kind, o)
    ensures o != [] && o[0] == '<'
  {
    match kind
    case ScriptBlock =>
      assert Has(FoldLit("<script")[0].cls, o[..7][0]);
    case PullQuote =>
      assert Has(PullHead()[0].cls, o[0]);
    case InteractiveComp =>
      assert o[..4][0] == '<';
  }

  lemma WholeConsumes(kind: Kind)
    ensures Consumes(Whole(kind))
    ensures forall text :: Remover(kind, text) == Replace(Whole(kind), "", text)
  {
    assert Whole(ScriptBlock) == Script() && Whole(PullQuote) == PullTag() &&
           Whole(InteractiveComp) == InteractiveGraphics();
  }

  /** The text is a block of the kind. */
  ghost predicate IsBlockText(kind: Kind, text: string) { exists b :: IsBlock(kind, b) && text == b.Text() }

  lemma BlockTextIsTaken(kind: Kind, text: string)
    requires IsBlockText(kind, text)
    ensures TakesWhole(Whole(kind), text) && text != [] && text[0] == '<'
  {
    var b :| IsBlock(kind, b) && text == b.Text();
    OpenerBegins(kind, b.open);
    forall y ensures First(Whole(kind), text + y) == Some(|text|) {
      BlockMatch(kind, b, y);
    }
  }

  /** Blocks woven between pieces of text go and the pieces stay, wherever the blocks stand. */
  lemma StrippingUndoesWeaving(kind: Kind, parts: seq<Part>, last: string)
    requires forall i :: 0 <= i < |parts| ==> Nowhere(Marker(kind), parts[i].text) && IsBlockText(kind, parts[i].block)
    requires Nowhere(Marker(kind), last)
    ensures Remover(kind, Woven(parts, last)) == Pieces("", parts, last)
  {
    WholeConsumes(kind);
    WholeBeginsWithMarker(kind);
    forall i | 0 <= i < |parts|
      ensures TakesWhole(Whole(kind), parts[i].block) && parts[i].block != [] && parts[i].block[0] == '<'
    {
      BlockTextIsTaken(kind, parts[i].block);
    }
    ReplaceUndoesWeaving(Whole(kind), Marker(kind), '<', "", parts, last);
  }

  // ----- tags, captions and non-breaking spaces -----

  /** '<', no '>' in between, '>' */
  predicate IsTag(t: string) { |t| >= 2 && t[0] == '<' && '>' !in t[1..|t| - 1] && t[|t| - 1] == '>' }

  lemma TagIsTaken(t: string)
    requires IsTag(t)
    ensures TakesWhole(Tag(), t)
  {
    var attrs := t[1..|t| - 1];
    forall i | 0 <= i < |attrs| ensures attrs[i] != '>' {
      assert attrs[i] in attrs;
    }
    forall y ensures First(Tag(), t + y) == Some(|t|) {
      var rest := attrs + (['>'] + y);
      assert t + y == ['<'] + rest;
      assert Tag() == [One(Is('<'))] + ([Star(Not('>'), true)] + ([One(Is('>'))] + []));
      FirstFixed([One(Is('<'))], [Star(Not('>'), true)] + ([One(Is('>'))] + []), ['<'], rest);
      FirstUntil(Not('>'), Is('>'), [], attrs, '>', y);
    }
  }

  /** Tags woven into text that has no '<' go, one by one. */
  lemma TagsUndone(parts: seq<Part>, last: string)
    requires forall i :: 0 <= i < |parts| ==> '<' !in parts[i].text && IsTag(parts[i].block)
    requires '<' !in last
    ensures TagsRemover(Woven(parts, last)) == Pieces("", parts, last)
  {
    var marker := [One(Is('<'))];
    forall text | '<' !in text ensures Nowhere(marker, text) {
      forall i | 0 <= i < |text| ensures First(marker, text[i..]).None? {
        assert text[i] in text;
      }
    }
    forall i | 0 <= i < |parts| ensures TakesWhole(Tag(), parts[i].block) {
      TagIsTaken(parts[i].block);
    }
    assert Tag()[..1] == marker;
    ReplaceUndoesWeaving(Tag(), marker, '<', "", parts, last);
  }

  function CaptionMarker(): Pattern { [One(Is('[')), Maybe(Is('/'))] + Lit("caption") }

  /** "[caption" or "[/caption", no ']' in between, "]" */
  ghost predicate IsCaption(t: string) {
    exists slash: string, attrs: string ::
      (slash == "" || slash == "/") && ']' !in attrs && t == CaptionText(slash, attrs)
  }

  function CaptionText(slash: string, attrs: string): string { "[" + (slash + ("caption" + (attrs + "]"))) }

  lemma CaptionMatch(slash: string, attrs: string, y: string)
    requires (slash == "" || slash == "/") && ']' !in attrs
    ensures First(SquaredCaption(), CaptionText(slash, attrs) + y) == Some(|CaptionText(slash, attrs)|)
  {
    var end := [Star(Not(']'), true)] + ([One(Is(']'))] + []);
    var word := Lit("caption") + end;
    var rest := "caption" + (attrs + ([']'] + y));
    forall i | 0 <= i < |attrs| ensures attrs[i] != ']' {
      assert attrs[i] in attrs;
    }
    FirstUntil(Not(']'), Is(']'), [], attrs, ']', y);
    FirstFixed(Lit("caption"), end, "caption", attrs + ([']'] + y));
    assert First(word, rest) == Some(8 + |attrs|);
    SlashMatch(slash, word, rest);
    var all := [Maybe(Is('/'))] + word;
    FirstFixed([One(Is('['))], all, "[", slash + rest);
    assert SquaredCaption() == [One(Is('['))] + all;
    assert CaptionText(slash, attrs) + y == "[" + (slash + rest);
  }

  /** An optional slash is taken when it is there and what follows it matches. */
  lemma SlashMatch(slash: string, re: Pattern, y: string)
    requires (slash == "" || slash == "/") && First(re, y).Some? && y != [] && y[0] != '/'
    ensures First([Maybe(Is('/'))] + re, slash + y) == After(|slash|, First(re, y))
  {
    assert ([Maybe(Is('/'))] + re)[1..] == re;
    if slash == "" {
      assert slash + y == y;
    } else {
      assert (slash + y)[1..] == y && (slash + y)[0] == '/';
    }
  }

  lemma CaptionMarkerShape()
    ensures BeginsWith(SquaredCaption(), CaptionMarker(), '[')
  {
    assert '[' !in "caption";
    assert forall i :: 0 <= i < |"caption"| ==> "caption"[i] in "caption";
    assert CaptionMarker()[1..] == [Maybe(Is('/'))] + Lit("caption");
    assert SquaredCaption() == CaptionMarker() + [Star(Not(']'), true), One(Is(']'))];
  }

  /** Captions woven into text that has no "[caption" or "[/caption" go, one by one. */
  lemma CaptionsUndone(parts: seq<Part>, last: string)
    requires forall i :: 0 <= i < |parts| ==> Nowhere(CaptionMarker(), parts[i].text) && IsCaption(parts[i].block)
    requires Nowhere(CaptionMarker(), last)
    ensures SquaredCaptionReplacer(Woven(parts, last)) == Pieces("", parts, last)
  {
    CaptionMarkerShape();
    forall i | 0 <= i < |parts|
      ensures TakesWhole(SquaredCaption(), parts[i].block) && parts[i].block != [] && parts[i].block[0] == '['
    {
      var slash: string, attrs: string :|
        (slash == "" || slash == "/") && ']' !in attrs && parts[i].block == CaptionText(slash, attrs);
      forall y ensures First(SquaredCaption(), parts[i].block + y) == Some(|parts[i].block|) {
        CaptionMatch(slash, attrs, y);
      }
    }
    ReplaceUndoesWeaving(SquaredCaption(), CaptionMarker(), '[', "", parts, last);
  }

  /** Every `&nbsp;` becomes a space before the other entities are decoded. */
  lemma NbspBecomesSpace(decode: string -> string, parts: seq<Part>, last: string)
    requires forall i :: 0 <= i < |parts| ==> Nowhere(Nbsp(), parts[i].text) && parts[i].block == "&nbsp;"
    requires Nowhere(Nbsp(), last)
    ensures EntityTransformer(decode, Woven(parts, last)) == decode(Pieces(" ", parts, last))
  {
    NbspShape();
    ReplaceUndoesWeaving(Nbsp(), Nbsp(), '&', " ", parts, last);
  }

  lemma NbspShape()
    ensures BeginsWith(Nbsp(), Nbsp(), '&') && TakesWhole(Nbsp(), "&nbsp;")
  {
    assert "&nbsp;" == "&" + "nbsp;" && '&' !in "nbsp;";
    assert forall i :: 0 <= i < |"nbsp;"| ==> "nbsp;"[i] in "nbsp;";
    assert Nbsp()[1..] == Lit("nbsp;");
    forall y ensures First(Nbsp(), "&nbsp;" + y) == Some(|"&nbsp;"|) {
      assert Nbsp() + [] == Nbsp();
      FirstFixed(Nbsp(), [], "&nbsp;", y);
    }
  }
}
