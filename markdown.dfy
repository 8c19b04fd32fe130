/** `formatMarkdown`: the ten passes of the converter, applied in order to
    a message or article text. A missing or empty text gives the empty
    string. */
module Markdown {
  import opened Wrappers
  import opened Text
  import opened GlobalReplace
  import opened MarkdownBlocks
  import opened MarkdownInline
  import opened MarkdownLists
  import opened MarkdownBreaks

  /** The passes before line feeds are turned into breaks (lines 10-74). */
  function Structure(text: string): string {
    var fenced := FencePass(text);
    var tabled := TablePass(fenced);
    var linked := LinkPass(tabled);
    var bold := BoldPass(linked);
    var italic := ItalicPass(bold);
    var coded := CodePass(italic);
    var items := ItemPass(coded);
    var spaced := ItemGapPass(items);
    WrapPass(spaced)
  }

  /** The break passes (lines 77-80). */
  function Breaks(html: string): string {
    var broken := NewlinesToBreaks(html);
    var beforeBlocks := BreakBeforeBlockPass(broken);
    var afterBlocks := BreakAfterBlockPass(beforeBlocks);
    ItemBreakPass(afterBlocks)
  }

  /** The converter. `None` stands for `null` and `undefined`; like the
      empty string they are falsy and give `''`. The result never holds a
      line feed. */
  function FormatMarkdown(text: Option<string>): (r: string)
    ensures text.None? || text == Some([]) ==> r == []
    ensures NoChar(r, '\n')
  {
    if text.None? || text.value == [] then []
    else
      var html := Breaks(Structure(text.value));
      BreaksHaveNoLineFeed(Structure(text.value));
      html
  }

  lemma BreaksHaveNoLineFeed(html: string)
    ensures NoChar(Breaks(html), '\n')
  {
    var broken := NewlinesToBreaks(html);
    CleanupKeepsNoLineFeed(broken);
    var beforeBlocks := BreakBeforeBlockPass(broken);
    CleanupKeepsNoLineFeed(beforeBlocks);
    var afterBlocks := BreakAfterBlockPass(beforeBlocks);
    CleanupKeepsNoLineFeed(afterBlocks);
  }

  // ---------------------------------------------------------------------
  // Plain text

  /** A character none of the passes reacts to. */
  predicate IsPlainChar(c: char) {
    c != '`' && c != '|' && c != '[' && c != '*' && c != '_' && c != '<' && c != '-' && !IsDigit(c)
  }

  predicate IsPlain(t: string) {
    forall k :: 0 <= k < |t| ==> IsPlainChar(t[k])
  }

  /** Plain text goes through the structural passes unchanged. */
  lemma PlainStructure(t: string)
    requires IsPlain(t)
    ensures Structure(t) == t
  {
    PlainFence(t);
    PlainTable(t);
    PlainLink(t);
    PlainBold(t);
    PlainItalic(t);
    PlainCode(t);
    PlainItem(t);
    PlainItemGap(t);
    PlainWrap(t);
  }

  lemma PlainFence(t: string)
    requires IsPlain(t)
    ensures FencePass(t) == t
  {
    assert Advancing(t, MatchFence);
    forall j | 0 <= j < |t| ensures MatchFence(t, j).None? {
      MismatchAt(t, j, Fence, 0);
    }
    NoMatchIdentity(t, MatchFence);
  }

  lemma PlainTable(t: string)
    requires IsPlain(t)
    ensures TablePass(t) == t
  {
    assert Advancing(t, MatchTable);
    NoMatchIdentity(t, MatchTable);
  }

  lemma PlainLink(t: string)
    requires IsPlain(t)
    ensures LinkPass(t) == t
  {
    assert Advancing(t, MatchLink);
    NoMatchIdentity(t, MatchLink);
  }

  lemma PlainBold(t: string)
    requires IsPlain(t)
    ensures BoldPass(t) == t
  {
    assert Advancing(t, MatchBold);
    forall j | 0 <= j < |t| ensures MatchBold(t, j).None? {
      MismatchAt(t, j, "**", 0);
      MismatchAt(t, j, "__", 0);
    }
    NoMatchIdentity(t, MatchBold);
  }

  lemma PlainItalic(t: string)
    requires IsPlain(t)
    ensures ItalicPass(t) == t
  {
    assert Advancing(t, MatchItalic);
    forall j | 0 <= j < |t| ensures MatchItalic(t, j).None? {
      MismatchAt(t, j, "*", 0);
      MismatchAt(t, j, "_", 0);
    }
    NoMatchIdentity(t, MatchItalic);
  }

  lemma PlainCode(t: string)
    requires IsPlain(t)
    ensures CodePass(t) == t
  {
    assert Advancing(t, MatchCode);
    NoMatchIdentity(t, MatchCode);
  }

  lemma PlainItem(t: string)
    requires IsPlain(t)
    ensures ItemPass(t) == t
  {
    assert Advancing(t, MatchListItem);
    NoMatchIdentity(t, MatchListItem);
  }

  lemma PlainItemGap(t: string)
    requires IsPlain(t)
    ensures ItemGapPass(t) == t
  {
    assert Advancing(t, MatchItemGap);
    forall j | 0 <= j < |t| ensures MatchItemGap(t, j).None? {
      MismatchAt(t, j, ItemClose, 0);
    }
    NoMatchIdentity(t, MatchItemGap);
  }

  lemma PlainWrap(t: string)
    requires IsPlain(t)
    ensures WrapPass(t) == t
  {
    assert Advancing(t, MatchRun);
    forall j | 0 <= j < |t| ensures MatchRun(t, j).None? {
      MismatchAt(t, j, ItemOpen, 0);
    }
    NoMatchIdentity(t, MatchRun);
  }

  /** Text with no markup character comes out with each line feed turned
      into `<br />` and nothing else changed. */
  lemma PlainTextOnlyGetsBreaks(t: string)
    requires t != [] && IsPlain(t)
    ensures FormatMarkdown(Some(t)) == ReplaceChar(t, '\n', Break)
  {
    PlainStructure(t);
    assert '<' !in t by {
      forall k | 0 <= k < |t| ensures t[k] != '<' {
        assert IsPlainChar(t[k]);
      }
    }
    OnlyBreakTags(t);
    var broken := NewlinesToBreaks(t);
    CleanupOfBreaksOnly(broken);
  }

  /** `Hello\nWorld` becomes `Hello<br />World`. */
  lemma HelloWorld()
    ensures FormatMarkdown(Some("Hello" + ['\n'] + "World")) == "Hello" + Break + "World"
  {
    HelloWorldIsPlain();
    PlainTextOnlyGetsBreaks("Hello" + ['\n'] + "World");
    HelloWorldBreaks();
  }

  lemma HelloWorldIsPlain()
    ensures IsPlain("Hello" + ['\n'] + "World")
  {
  }

  lemma HelloWorldBreaks()
    ensures ReplaceChar("Hello" + ['\n'] + "World", '\n', Break) == "Hello" + Break + "World"
  {
    TwoLines("Hello", "World");
  }

  /** Two lines joined by a line feed. */
  lemma TwoLines(a: string, c: string)
    requires '\n' !in a && '\n' !in c
    ensures ReplaceChar(a + ['\n'] + c, '\n', Break) == a + Break + c
  {
    ReplaceCharAppend(a + ['\n'], c, '\n', Break);
    ReplaceCharAppend(a, ['\n'], '\n', Break);
    ReplaceCharAbsent(a, '\n', Break);
    ReplaceCharAbsent(c, '\n', Break);
  }
}
