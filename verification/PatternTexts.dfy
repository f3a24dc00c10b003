/** pkg/html/transformer.go:11-20: the texts that each of the eight patterns stands for. */
module PatternTexts {
  import opened Regex
  import opened Transformer
  import opened Stripping
  import opened Markers

  // ----- pattern by pattern, piece by piece -----

  lemma {:induction false} SpellsMatches(re: Pattern, more: Pattern, w: string, y: string)
    requires Fixed(re) && Spells(re, w) && Matches(more, y)
    ensures Matches(re + more, w + y)
    decreases |re|
  {
    if re == [] {
      assert re + more == more && w + y == y;
    } else {
      assert (re + more)[0] == re[0] && (re + more)[1..] == re[1..] + more;
      assert (w + y)[0] == w[0] && (w + y)[1..] == w[1..] + y;
      SpellsMatches(re[1..], more, w[1..], y);
    }
  }

  /** A fixed beginning takes a text of its length. */
  lemma FixedThen(re: Pattern, more: Pattern, w: string)
    requires Fixed(re)
    ensures Matches(re + more, w) <==> |re| <= |w| && Spells(re, w[..|re|]) && Matches(more, w[|re|..])
  {
    if Matches(re + more, w) {
      MatchesFixed(re, more, w);
    }
    if |re| <= |w| && Spells(re, w[..|re|]) && Matches(more, w[|re|..]) {
      SpellsMatches(re, more, w[..|re|], w[|re|..]);
      assert w == w[..|re|] + w[|re|..];
    }
  }

  ghost predicate AllIn(cls: CharClass, s: string) { forall i :: 0 <= i < |s| ==> Has(cls, s[i]) }

  /** A run of any length and then the rest. */
  lemma {:induction false} StarThen(cls: CharClass, greedy: bool, more: Pattern, w: string)
    ensures Matches([Star(cls, greedy)] + more, w) <==>
            exists n :: 0 <= n <= |w| && AllIn(cls, w[..n]) && Matches(more, w[n..])
    decreases |w|
  {
    var re := [Star(cls, greedy)] + more;
    assert re[1..] == more && w[0..] == w;
    if w != [] {
      StarThen(cls, greedy, more, w[1..]);
      if n :| 0 <= n <= |w[1..]| && AllIn(cls, w[1..][..n]) && Matches(more, w[1..][n..]) && Has(cls, w[0]) {
        assert w[..n + 1] == [w[0]] + w[1..][..n] && w[n + 1..] == w[1..][n..];
        assert AllIn(cls, w[..n + 1]);
      }
      if n :| 0 < n <= |w| && AllIn(cls, w[..n]) && Matches(more, w[n..]) {
        assert w[..n][0] == w[0] && w[1..][..n - 1] == w[..n][1..] && w[1..][n - 1..] == w[n..];
        assert AllIn(cls, w[1..][..n - 1]);
      }
    }
    assert AllIn(cls, w[..0]);
  }

  lemma LitThen(word: string, more: Pattern, w: string)
    ensures Matches(Lit(word) + more, w) <==> exists y: string :: w == word + y && Matches(more, y)
  {
    FixedThen(Lit(word), more, w);
    if Matches(Lit(word) + more, w) {
      SpellsLit(word, w[..|word|]);
      assert w == word + w[|word|..];
    }
    if y: string :| w == word + y && Matches(more, y) {
      assert w[..|word|] == word && w[|word|..] == y;
    }
  }

  lemma RunThen(cls: CharClass, greedy: bool, more: Pattern, w: string)
    ensures Matches([Star(cls, greedy)] + more, w) <==>
            exists run: string, y: string :: w == run + y && AllIn(cls, run) && Matches(more, y)
  {
    StarThen(cls, greedy, more, w);
    if n :| 0 <= n <= |w| && AllIn(cls, w[..n]) && Matches(more, w[n..]) {
      assert w == w[..n] + w[n..];
    }
    if run: string, y: string :| w == run + y && AllIn(cls, run) && Matches(more, y) {
      assert w[..|run|] == run && w[|run|..] == y;
    }
  }

  lemma OneThen(cls: CharClass, more: Pattern, w: string)
    ensures Matches([One(cls)] + more, w) <==> w != [] && Has(cls, w[0]) && Matches(more, w[1..])
  {
    assert ([One(cls)] + more)[1..] == more;
  }

  lemma LitLast(word: string, w: string)
    ensures Matches(Lit(word), w) <==> w == word
  {
    LitThen(word, [], w);
    assert Lit(word) + [] == Lit(word) && word + [] == word;
  }

  lemma OneLast(cls: CharClass, w: string)
    ensures Matches([One(cls)], w) <==> exists c: char :: w == [c] && Has(cls, c)
  {
    assert [One(cls)] + [] == [One(cls)] && [One(cls)][1..] == [];
    if w != [] {
      assert w == [w[0]] + w[1..];
    }
  }

  // ----- the eight patterns -----

  lemma NbspText(w: string)
    ensures Matches(Nbsp(), w) <==> w == "&nbsp;"
  {
    LitLast("&nbsp;", w);
  }

  lemma UntilClose(stop: char, w: string)
    ensures Matches([Star(Not(stop), true)] + [One(Is(stop))], w) <==>
            w != [] && w[|w| - 1] == stop && stop !in w[..|w| - 1]
  {
    RunThen(Not(stop), true, [One(Is(stop))], w);
    if run: string, y: string :| w == run + y && AllIn(Not(stop), run) && Matches([One(Is(stop))], y) {
      OneLast(Is(stop), y);
      assert w[..|w| - 1] == run;
    }
    if w != [] && w[|w| - 1] == stop && stop !in w[..|w| - 1] {
      var n := |w| - 1;
      OneLast(Is(stop), [stop]);
      assert w == w[..n] + [stop];
      assert AllIn(Not(stop), w[..n]) by {
        forall i | 0 <= i < n ensures w[..n][i] != stop {
          assert w[..n][i] in w[..n];
        }
      }
    }
  }

  lemma TagSplit(w: string)
    ensures Matches(Tag(), w) <==>
            w != [] && w[0] == '<' && Matches([Star(Not('>'), true)] + [One(Is('>'))], w[1..])
  {
    assert Tag() == [One(Is('<'))] + ([Star(Not('>'), true)] + [One(Is('>'))]);
    OneThen(Is('<'), [Star(Not('>'), true)] + [One(Is('>'))], w);
  }

  lemma Inside(w: string)
    requires |w| >= 2
    ensures w[1..][..|w| - 2] == w[1..|w| - 1] && w[1..][|w| - 2] == w[|w| - 1]
  {
  }

  /** A tag: '<', no '>', '>'. */
  lemma TagTexts(w: string)
    ensures Matches(Tag(), w) <==> |w| >= 2 && w[0] == '<' && w[|w| - 1] == '>' && '>' !in w[1..|w| - 1]
  {
    TagSplit(w);
    if w != [] {
      UntilClose('>', w[1..]);
    }
    if |w| >= 2 {
      Inside(w);
    }
  }

  function DigitsPattern(): Pattern { [One(Digit)] + ([Star(Digit, true)] + []) }

  lemma EmbedSplit(w: string)
    ensures Matches(Embed(), w) <==> |w| >= 5 && w[..5] == "embed" && Matches(DigitsPattern(), w[5..])
  {
    assert Embed() == Lit("embed") + DigitsPattern();
    LitThen("embed", DigitsPattern(), w);
    if y: string :| w == "embed" + y && Matches(DigitsPattern(), y) {
      assert w[..5] == "embed" && w[5..] == y;
    }
    assert |w| >= 5 ==> w == w[..5] + w[5..];
  }

  /** An embed marker: the word and digits. */
  lemma EmbedTexts(w: string)
    ensures Matches(Embed(), w) <==>
            |w| > 5 && w[..5] == "embed" && forall i :: 5 <= i < |w| ==> '0' <= w[i] <= '9'
  {
    EmbedSplit(w);
    if |w| >= 5 {
      DigitTexts(w[5..]);
      forall i | 5 <= i < |w| ensures w[i] == w[5..][i - 5] {
      }
    }
  }

  lemma DigitTexts(w: string)
    ensures Matches([One(Digit)] + ([Star(Digit, true)] + []), w) <==>
            w != [] && forall i :: 0 <= i < |w| ==> '0' <= w[i] <= '9'
  {
    SomeOf(Digit, w);
  }

  /** One or more of a class. */
  lemma SomeOf(cls: CharClass, w: string)
    ensures Matches([One(cls)] + ([Star(cls, true)] + []), w) <==> w != [] && AllIn(cls, w)
  {
    OneThen(cls, [Star(cls, true)] + [], w);
    if w != [] {
      RunThen(cls, true, [], w[1..]);
      assert w == [w[0]] + w[1..] && w[1..] + [] == w[1..];
      assert AllIn(cls, w) <==> Has(cls, w[0]) && AllIn(cls, w[1..]);
    }
  }

  /** White space: one or more of five characters. */
  lemma WhiteSpaceTexts(w: string)
    ensures Matches(DuplicateWhiteSpace(), w) <==>
            w != [] && forall i :: 0 <= i < |w| ==> w[i] in "\t\n\U{000C}\r "
  {
    assert DuplicateWhiteSpace() == [One(Space)] + ([Star(Space, true)] + []);
    SomeOf(Space, w);
    forall i | 0 <= i < |w| ensures Has(Space, w[i]) <==> w[i] in "\t\n\U{000C}\r " {
      SpacesAre(w[i]);
    }
  }

  /** A gap of any length between a beginning and a closing text. */
  lemma GapThen(close: string, w: string)
    ensures Matches([Star(Any, false)] + Lit(close), w) <==> exists body: string :: w == body + close
  {
    RunThen(Any, false, Lit(close), w);
    LitLast(close, close);
    if run: string, y: string :| w == run + y && AllIn(Any, run) && Matches(Lit(close), y) {
      LitLast(close, y);
    }
    if body: string :| w == body + close {
      assert AllIn(Any, body);
    }
  }

  predicate IsPullSpace(c: char) { c in "\t\n\U{000C}\r >" }

  lemma AfterPull(y: string)
    ensures Matches([One(SpaceOr('>'))] + ([Star(Any, false)] + Lit("</pull-quote>")), y) <==>
            exists c: char, body: string :: IsPullSpace(c) && y == [c] + (body + "</pull-quote>")
  {
    OneThen(SpaceOr('>'), [Star(Any, false)] + Lit("</pull-quote>"), y);
    if y != [] {
      GapThen("</pull-quote>", y[1..]);
      SpacesAre(y[0]);
      assert y == [y[0]] + y[1..];
    }
    if c: char, body: string :| IsPullSpace(c) && y == [c] + (body + "</pull-quote>") {
      assert y[0] == c && y[1..] == body + "</pull-quote>";
    }
  }

  function PullText(c: char, body: string): string { "<pull-quote" + ([c] + (body + "</pull-quote>")) }

  /** A pull quote: the tag's name, white space or '>', anything, the closing tag. */
  lemma PullTexts(w: string)
    ensures Matches(PullTag(), w) <==> exists c: char, body: string :: IsPullSpace(c) && w == PullText(c, body)
  {
    var more := [One(SpaceOr('>'))] + ([Star(Any, false)] + Lit("</pull-quote>"));
    assert PullTag() == Lit("<pull-quote") + more;
    LitThen("<pull-quote", more, w);
    if Matches(PullTag(), w) {
      var y: string :| w == "<pull-quote" + y && Matches(more, y);
      AfterPull(y);
      var c: char, body: string :| IsPullSpace(c) && y == [c] + (body + "</pull-quote>");
      assert w == PullText(c, body);
    }
    if c: char, body: string :| IsPullSpace(c) && w == PullText(c, body) {
      AfterPull([c] + (body + "</pull-quote>"));
    }
  }

  function CompText(gap: string, body: string): string {
    "<div" + (gap + ("class=\"interactive-comp\">" + (body + "</div>")))
  }

  predicate AllSpaces(s: string) { forall i :: 0 <= i < |s| ==> s[i] in "\t\n\U{000C}\r " }

  lemma AllSpacesIs(s: string)
    ensures AllSpaces(s) <==> AllIn(Space, s)
  {
    forall i | 0 <= i < |s| ensures Has(Space, s[i]) <==> s[i] in "\t\n\U{000C}\r " {
      SpacesAre(s[i]);
    }
  }

  lemma AfterGap(z: string)
    ensures Matches(Lit("class=\"interactive-comp\">") + ([Star(Any, false)] + Lit("</div>")), z) <==>
            exists body: string :: z == "class=\"interactive-comp\">" + (body + "</div>")
  {
    LitThen("class=\"interactive-comp\">", [Star(Any, false)] + Lit("</div>"), z);
    if y: string :| z == "class=\"interactive-comp\">" + y && Matches([Star(Any, false)] + Lit("</div>"), y) {
      GapThen("</div>", y);
    }
    if body: string :| z == "class=\"interactive-comp\">" + (body + "</div>") {
      GapThen("</div>", body + "</div>");
    }
  }

  function CompPattern(): Pattern { Lit("class=\"interactive-comp\">") + ([Star(Any, false)] + Lit("</div>")) }

  lemma CompBackward(gap: string, body: string, w: string)
    requires AllSpaces(gap) && w == CompText(gap, body)
    ensures Matches(Lit("<div") + ([Star(Space, true)] + CompPattern()), w)
  {
    var z := "class=\"interactive-comp\">" + (body + "</div>");
    AfterGap(z);
    AllSpacesIs(gap);
    RunThen(Space, true, CompPattern(), gap + z);
    LitThen("<div", [Star(Space, true)] + CompPattern(), w);
  }

  lemma CompForward(w: string) returns (gap: string, body: string)
    requires Matches(Lit("<div") + ([Star(Space, true)] + CompPattern()), w)
    ensures AllSpaces(gap) && w == CompText(gap, body)
  {
    LitThen("<div", [Star(Space, true)] + CompPattern(), w);
    var y: string :| w == "<div" + y && Matches([Star(Space, true)] + CompPattern(), y);
    RunThen(Space, true, CompPattern(), y);
    var z: string;
    gap, z :| y == gap + z && AllIn(Space, gap) && Matches(CompPattern(), z);
    AfterGap(z);
    AllSpacesIs(gap);
    body :| z == "class=\"interactive-comp\">" + (body + "</div>");
  }

  /** An interactive graphic: the tag's name, white space or none, the class, anything, the closing tag. */
  lemma InteractiveTexts(w: string)
    ensures Matches(InteractiveGraphics(), w) <==>
            exists gap: string, body: string :: AllSpaces(gap) && w == CompText(gap, body)
  {
    assert InteractiveGraphics() == Lit("<div") + ([Star(Space, true)] + CompPattern());
    if Matches(InteractiveGraphics(), w) {
      var gap, body := CompForward(w);
    }
    if gap: string, body: string :| AllSpaces(gap) && w == CompText(gap, body) {
      CompBackward(gap, body, w);
    }
  }

  // ----- scripts -----

  /** The tag's name in any case; Unicode folds one more letter to s. */
  predicate IsScriptName(w: string) {
    && |w| == 6 && w[0] in "sS\U{017F}" && w[1] in "cC" && w[2] in "rR" && w[3] in "iI" && w[4] in "pP" && w[5] in "tT"
  }

  lemma FoldedName(w: string)
    ensures Spells(FoldLit("script"), w) <==> IsScriptName(w)
  {
    if |w| == 6 {
      var name := "script";
      assert name[0] == 's' && name[1] == 'c' && name[2] == 'r' && name[3] == 'i' && name[4] == 'p' && name[5] == 't';
      assert forall i :: 0 <= i < 6 ==> FoldLit(name)[i] == One(Fold(name[i]));
    }
  }

  lemma FoldedMark(c: char, m: char)
    requires m == '<' || m == '/' || m == '>'
    ensures FoldsTo(c, m) <==> c == m
  {
  }

  function ScriptText(name: string, attrs: string, body: string, end: string): string {
    "<" + (name + (attrs + (">" + (body + ("</" + (end + ">"))))))
  }

  lemma NameThen(more: Pattern, y: string)
    ensures Matches(FoldLit("script") + more, y) <==>
            exists name: string, z: string :: y == name + z && IsScriptName(name) && Matches(more, z)
  {
    FixedThen(FoldLit("script"), more, y);
    if |y| >= 6 {
      FoldedName(y[..6]);
      assert y == y[..6] + y[6..];
    }
    if name: string, z: string :| y == name + z && IsScriptName(name) && Matches(more, z) {
      FoldedName(name);
      SpellsMatches(FoldLit("script"), more, name, z);
    }
  }

  lemma MarkThen(m: char, more: Pattern, y: string)
    requires m == '<' || m == '/' || m == '>'
    ensures Matches([One(Fold(m))] + more, y) <==> y != [] && y[0] == m && Matches(more, y[1..])
  {
    OneThen(Fold(m), more, y);
    if y != [] { FoldedMark(y[0], m); }
  }

  function EndPattern(): Pattern {
    [One(Fold('<'))] + ([One(Fold('/'))] + (FoldLit("script") + ([One(Fold('>'))] + [])))
  }

  lemma EndTexts(y: string)
    ensures FoldLit("</script>") == EndPattern()
    ensures Matches(EndPattern(), y) <==> exists end: string :: IsScriptName(end) && y == "</" + (end + ">")
  {
    assert FoldLit("</script>") == EndPattern();
    var name := FoldLit("script") + ([One(Fold('>'))] + []);
    MarkThen('<', [One(Fold('/'))] + name, y);
    if y != [] {
      MarkThen('/', name, y[1..]);
    }
    if |y| >= 2 {
      NameThen([One(Fold('>'))] + [], y[2..]);
      assert y[1..][1..] == y[2..];
    }
    if Matches(EndPattern(), y) {
      var end: string, z: string :| y[2..] == end + z && IsScriptName(end) && Matches([One(Fold('>'))] + [], z);
      MarkThen('>', [], z);
      assert z == ">" && y == "</" + (end + ">");
    }
    if end: string :| IsScriptName(end) && y == "</" + (end + ">") {
      assert y[2..] == end + ">";
      MarkThen('>', [], ">");
    }
  }

  function AfterName(): Pattern { [Star(Not('>'), true)] + ([One(Is('>'))] + ([Star(Any, false)] + EndPattern())) }

  function NameRest(attrs: string, body: string, end: string): string {
    attrs + (">" + (body + ("</" + (end + ">"))))
  }

  lemma BodyTexts(y: string)
    ensures Matches([Star(Any, false)] + EndPattern(), y) <==>
            exists body: string, end: string :: IsScriptName(end) && y == body + ("</" + (end + ">"))
  {
    RunThen(Any, false, EndPattern(), y);
    if body: string, z: string :| y == body + z && AllIn(Any, body) && Matches(EndPattern(), z) {
      EndTexts(z);
    }
    if body: string, end: string :| IsScriptName(end) && y == body + ("</" + (end + ">")) {
      EndTexts("</" + (end + ">"));
      assert AllIn(Any, body);
    }
  }

  lemma CloseAngle(y: string)
    ensures Matches([One(Is('>'))] + ([Star(Any, false)] + EndPattern()), y) <==>
            exists body: string, end: string :: IsScriptName(end) && y == ">" + (body + ("</" + (end + ">")))
  {
    OneThen(Is('>'), [Star(Any, false)] + EndPattern(), y);
    if y != [] {
      BodyTexts(y[1..]);
      assert y == [y[0]] + y[1..];
    }
    if body: string, end: string :| IsScriptName(end) && y == ">" + (body + ("</" + (end + ">"))) {
      assert y[1..] == body + ("</" + (end + ">"));
    }
  }

  lemma NotInIs(c: char, s: string)
    ensures c !in s <==> AllIn(Not(c), s)
  {
    forall i | 0 <= i < |s| ensures s[i] in s {
    }
  }

  lemma NameRestForward(y: string) returns (attrs: string, body: string, end: string)
    requires Matches(AfterName(), y)
    ensures '>' !in attrs && IsScriptName(end) && y == NameRest(attrs, body, end)
  {
    var more := [One(Is('>'))] + ([Star(Any, false)] + EndPattern());
    RunThen(Not('>'), true, more, y);
    var z: string;
    attrs, z :| y == attrs + z && AllIn(Not('>'), attrs) && Matches(more, z);
    CloseAngle(z);
    NotInIs('>', attrs);
    body, end :| IsScriptName(end) && z == ">" + (body + ("</" + (end + ">")));
  }

  lemma NameRestTexts(y: string)
    ensures Matches(AfterName(), y) <==>
            exists attrs: string, body: string, end: string ::
              '>' !in attrs && IsScriptName(end) && y == NameRest(attrs, body, end)
  {
    if Matches(AfterName(), y) {
      var attrs, body, end := NameRestForward(y);
    }
    if attrs: string, body: string, end: string :|
      '>' !in attrs && IsScriptName(end) && y == NameRest(attrs, body, end)
    {
      RunThen(Not('>'), true, [One(Is('>'))] + ([Star(Any, false)] + EndPattern()), y);
      CloseAngle(">" + (body + ("</" + (end + ">"))));
      NotInIs('>', attrs);
    }
  }

  ghost predicate IsScriptText(w: string) {
    exists name: string, attrs: string, body: string, end: string ::
      IsScriptName(name) && '>' !in attrs && IsScriptName(end) && w == ScriptText(name, attrs, body, end)
  }

  lemma ScriptParts()
    ensures Script() == [One(Fold('<'))] + (FoldLit("script") + AfterName())
  {
    EndTexts("");
    assert FoldLit("<script") == [One(Fold('<'))] + FoldLit("script");
    assert Script() == FoldLit("<script") + AfterName();
  }

  lemma ScriptForward(w: string)
    requires Matches(Script(), w)
    ensures IsScriptText(w)
  {
    ScriptParts();
    MarkThen('<', FoldLit("script") + AfterName(), w);
    NameThen(AfterName(), w[1..]);
    var name: string, z: string :| w[1..] == name + z && IsScriptName(name) && Matches(AfterName(), z);
    NameRestTexts(z);
    var attrs: string, body: string, end: string :|
      '>' !in attrs && IsScriptName(end) && z == NameRest(attrs, body, end);
    assert w == "<" + w[1..];
    assert w == ScriptText(name, attrs, body, end);
  }

  lemma ScriptBackward(name: string, attrs: string, body: string, end: string, w: string)
    requires IsScriptName(name) && '>' !in attrs && IsScriptName(end) && w == ScriptText(name, attrs, body, end)
    ensures Matches(Script(), w)
  {
    ScriptParts();
    var z := NameRest(attrs, body, end);
    assert w[1..] == name + z;
    NameRestTexts(z);
    NameThen(AfterName(), w[1..]);
    MarkThen('<', FoldLit("script") + AfterName(), w);
  }

  /** A script: the name in any case, attributes, anything, the closing tag in any case. */
  lemma ScriptTexts(w: string)
    ensures Matches(Script(), w) <==> IsScriptText(w)
  {
    if Matches(Script(), w) {
      ScriptForward(w);
    }
    if name: string, attrs: string, body: string, end: string :|
      IsScriptName(name) && '>' !in attrs && IsScriptName(end) && w == ScriptText(name, attrs, body, end)
    {
      ScriptBackward(name, attrs, body, end, w);
    }
  }

  // ----- captions -----

  lemma MaybeThen(cls: CharClass, more: Pattern, w: string)
    ensures Matches([Maybe(cls)] + more, w) <==>
            Matches(more, w) || (w != [] && Has(cls, w[0]) && Matches(more, w[1..]))
  {
    assert ([Maybe(cls)] + more)[1..] == more;
  }

  lemma WordTexts(y: string)
    ensures Matches(Lit("caption") + ([Star(Not(']'), true)] + [One(Is(']'))]), y) <==>
            exists attrs: string :: ']' !in attrs && y == "caption" + (attrs + "]")
  {
    var end := [Star(Not(']'), true)] + [One(Is(']'))];
    LitThen("caption", end, y);
    if z: string :| y == "caption" + z && Matches(end, z) {
      UntilClose(']', z);
      assert z == z[..|z| - 1] + "]";
    }
    if attrs: string :| ']' !in attrs && y == "caption" + (attrs + "]") {
      UntilClose(']', attrs + "]");
      assert (attrs + "]")[..|attrs|] == attrs;
    }
  }

  /** A caption: '[', perhaps '/', the word, no ']', ']'. */
  lemma CaptionTexts(w: string)
    ensures Matches(SquaredCaption(), w) <==> IsCaption(w)
  {
    var word := Lit("caption") + ([Star(Not(']'), true)] + [One(Is(']'))]);
    assert SquaredCaption() == [One(Is('['))] + ([Maybe(Is('/'))] + word);
    OneThen(Is('['), [Maybe(Is('/'))] + word, w);
    if w != [] {
      var y := w[1..];
      assert w == [w[0]] + y;
      MaybeThen(Is('/'), word, y);
      WordTexts(y);
      if y != [] {
        WordTexts(y[1..]);
        assert y == [y[0]] + y[1..];
      }
      if Matches(SquaredCaption(), w) {
        CaptionForward(w, y);
      }
      if slash: string, attrs: string :|
        (slash == "" || slash == "/") && ']' !in attrs && w == CaptionText(slash, attrs)
      {
        assert y == slash + ("caption" + (attrs + "]"));
        WordTexts("caption" + (attrs + "]"));
        assert slash == "/" ==> y[1..] == "caption" + (attrs + "]");
      }
    }
  }

  lemma CaptionForward(w: string, y: string)
    requires w == "[" + y
    requires (exists attrs: string :: ']' !in attrs && y == "caption" + (attrs + "]")) ||
             (exists attrs: string :: ']' !in attrs && y == "/" + ("caption" + (attrs + "]")))
    ensures IsCaption(w)
  {
    if attrs: string :| ']' !in attrs && y == "caption" + (attrs + "]") {
      assert w == CaptionText("", attrs);
    } else {
      var attrs: string :| ']' !in attrs && y == "/" + ("caption" + (attrs + "]"));
      assert w == CaptionText("/", attrs);
    }
  }
}
