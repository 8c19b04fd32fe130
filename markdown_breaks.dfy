/** The last passes of `formatMarkdown`: every line feed becomes `<br />`,
    and the breaks next to block tags and at the start of items are taken
    out again. */
module MarkdownBreaks {
  import opened Wrappers
  import opened Text
  import opened GlobalReplace

  const Break := "<br />"

  /** `\n` becomes `<br />`, everywhere (line 77). */
  function NewlinesToBreaks(s: string): (r: string)
    ensures NoChar(r, '\n')
  {
    ReplaceCharRemoves(s, '\n', Break);
    ReplaceChar(s, '\n', Break)
  }

  /** The length of an `<(?:ul|ol|pre|div)` at `w`. */
  function BlockOpenAt(s: string, w: nat): (r: Option<nat>)
    ensures r == Some(3) <==> OccursAt(s, w, "<ul") || OccursAt(s, w, "<ol")
    ensures r == Some(4) <==> OccursAt(s, w, "<pre") || OccursAt(s, w, "<div")
    ensures r.None? || r == Some(3) || r == Some(4)
    ensures r.Some? ==> w + r.value <= |s| && s[w] == '<'
  {
    BlockOpensDistinct(s, w);
    if !(w < |s| && s[w] == '<') then None
    else if OccursAt(s, w, "<ul") || OccursAt(s, w, "<ol") then Some(3)
    else if OccursAt(s, w, "<pre") || OccursAt(s, w, "<div") then Some(4)
    else None
  }

  /** The length of an `</(?:ul|ol|pre|table|div)>` at `i`. */
  function BlockCloseAt(s: string, i: nat): (r: Option<nat>)
    ensures r == Some(5) <==> OccursAt(s, i, "</ul>") || OccursAt(s, i, "</ol>")
    ensures r == Some(6) <==> OccursAt(s, i, "</pre>") || OccursAt(s, i, "</div>")
    ensures r == Some(8) <==> OccursAt(s, i, "</table>")
    ensures r.None? || r == Some(5) || r == Some(6) || r == Some(8)
    ensures r.Some? ==> i + r.value <= |s| && s[i] == '<' && s[i + 1] == '/'
  {
    BlockClosesDistinct(s, i);
    if !OccursAt(s, i, "</") then None
    else if OccursAt(s, i, "</ul>") || OccursAt(s, i, "</ol>") then Some(5)
    else if OccursAt(s, i, "</pre>") || OccursAt(s, i, "</div>") then Some(6)
    else if OccursAt(s, i, "</table>") then Some(8)
    else None
  }

  /** `hit` keeps the block tag start at `w`, after the break at `i` and
      the blanks behind it. */
  predicate OpenAfterBreak(s: string, i: nat, w: nat, hit: Hit<char>) {
    i + 6 <= w < hit.end <= |s| && AllSpace(s[i + 6..w])
    && hit.out == s[w..hit.end] && BlockOpenAt(s, w) == Some(hit.end - w)
  }

  /** `<br />\s*(<(?:ul|ol|pre|div))` becomes the tag start (line 78). */
  function MatchBreakBeforeBlock(s: string, i: nat): (r: Option<Hit<char>>)
    ensures r.Some? ==> i < r.value.end <= |s|
    ensures r.Some? ==> OccursAt(s, i, Break) && exists w: nat :: OpenAfterBreak(s, i, w, r.value)
  {
    if !OccursAt(s, i, Break) then None
    else
      var w := SkipWhile(s, i + 6, IsSpace);
      match BlockOpenAt(s, w)
      case None => None
      case Some(n) =>
        AllSpaceSlice(s, i + 6, w);
        assert OpenAfterBreak(s, i, w, Hit(w + n, s[w..w + n]));
        Some(Hit(w + n, s[w..w + n]))
  }

  /** `(<\/(?:ul|ol|pre|table|div)>)\s*<br \/>` becomes the closing tag
      (line 79). */
  function MatchBreakAfterBlock(s: string, i: nat): (r: Option<Hit<char>>)
    ensures r.Some? ==> i < r.value.end <= |s|
    ensures r.Some? ==> BlockCloseAt(s, i).Some?
    ensures r.Some? ==>
      var n := BlockCloseAt(s, i).value;
      r.value.out == s[i..i + n] && i + n + 6 <= r.value.end
      && SpaceBetween(s, i + n, r.value.end - 6) && OccursAt(s, r.value.end - 6, Break)
  {
    match BlockCloseAt(s, i)
    case None => None
    case Some(n) =>
      var w := SkipWhile(s, i + n, IsSpace);
      if OccursAt(s, w, Break) then
        AllSpaceSlice(s, i + n, w);
        Some(Hit(w + 6, s[i..i + n]))
      else None
  }

  /** The block tag starts begin with `<` and exclude each other. */
  lemma BlockOpensDistinct(s: string, w: nat)
    ensures OccursAt(s, w, "<ul") || OccursAt(s, w, "<ol") ==> !OccursAt(s, w, "<pre") && !OccursAt(s, w, "<div")
    ensures OccursAt(s, w, "<ul") || OccursAt(s, w, "<ol") || OccursAt(s, w, "<pre") || OccursAt(s, w, "<div")
      ==> w < |s| && s[w] == '<'
  {
    if OccursAt(s, w, "<ul") || OccursAt(s, w, "<ol") {
      if OccursAt(s, w, "<ul") { OccursChars(s, w, "<ul"); } else { OccursChars(s, w, "<ol"); }
      MismatchAt(s, w, "<pre", 1);
      MismatchAt(s, w, "<div", 1);
    } else if OccursAt(s, w, "<pre") {
      OccursChars(s, w, "<pre");
    } else if OccursAt(s, w, "<div") {
      OccursChars(s, w, "<div");
    }
  }

  /** The block closing tags begin with `</` and exclude each other. */
  lemma BlockClosesDistinct(s: string, i: nat)
    ensures OccursAt(s, i, "</ul>") || OccursAt(s, i, "</ol>")
      ==> !OccursAt(s, i, "</pre>") && !OccursAt(s, i, "</div>") && !OccursAt(s, i, "</table>")
    ensures OccursAt(s, i, "</pre>") || OccursAt(s, i, "</div>") ==> !OccursAt(s, i, "</table>")
    ensures (|| OccursAt(s, i, "</ul>") || OccursAt(s, i, "</ol>") || OccursAt(s, i, "</pre>")
             || OccursAt(s, i, "</div>") || OccursAt(s, i, "</table>"))
      ==> OccursAt(s, i, "</")
  {
    if OccursAt(s, i, "</ul>") || OccursAt(s, i, "</ol>") {
      if OccursAt(s, i, "</ul>") { CloseTagFacts(s, i, "</ul>"); } else { CloseTagFacts(s, i, "</ol>"); }
      MismatchAt(s, i, "</pre>", 2);
      MismatchAt(s, i, "</div>", 2);
      MismatchAt(s, i, "</table>", 2);
    } else if OccursAt(s, i, "</pre>") || OccursAt(s, i, "</div>") {
      if OccursAt(s, i, "</pre>") { CloseTagFacts(s, i, "</pre>"); } else { CloseTagFacts(s, i, "</div>"); }
      MismatchAt(s, i, "</table>", 2);
    } else if OccursAt(s, i, "</table>") {
      CloseTagFacts(s, i, "</table>");
    }
  }

  /** A closing tag at `i` starts with `</`, and its third character is
      in place. */
  lemma CloseTagFacts(s: string, i: nat, tag: string)
    requires |tag| >= 3 && tag[0] == '<' && tag[1] == '/' && OccursAt(s, i, tag)
    ensures OccursAt(s, i, "</")
    ensures i + 2 < |s| && s[i + 2] == tag[2]
  {
    assert s[i..i + 2] == s[i..i + |tag|][..2];
    assert s[i..i + |tag|][2] == s[i + 2];
  }

  /** A break, blanks and a block tag start at `w`: the match keeps the
      tag start and drops the rest. */
  lemma BreakBeforeBlockFound(s: string, i: nat, w: nat, n: nat)
    requires OccursAt(s, i, Break) && SpaceBetween(s, i + 6, w) && BlockOpenAt(s, w) == Some(n)
    ensures MatchBreakBeforeBlock(s, i) == Some(Hit(w + n, s[w..w + n]))
  {
    assert SkipWhile(s, i + 6, IsSpace) == w by {
      SpaceBetweenAt(s, i + 6, w);
      SkipWhileStops(s, i + 6, w, IsSpace);
    }
  }

  /** A block closing tag, blanks and a break at `w`: the match keeps the
      closing tag and drops the rest. */
  lemma BreakAfterBlockFound(s: string, i: nat, n: nat, w: nat)
    requires BlockCloseAt(s, i) == Some(n) && SpaceBetween(s, i + n, w) && OccursAt(s, w, Break)
    ensures MatchBreakAfterBlock(s, i) == Some(Hit(w + 6, s[i..i + n]))
  {
    assert s[w] == '<' by {
      assert s[w..w + 6][0] == s[w];
    }
    assert SkipWhile(s, i + n, IsSpace) == w by {
      SpaceBetweenAt(s, i + n, w);
      SkipWhileStops(s, i + n, w, IsSpace);
    }
    BreakAfterBlockAt(s, i, n, w);
  }

  /** The match once the blanks are known to end at `w`. */
  lemma BreakAfterBlockAt(s: string, i: nat, n: nat, w: nat)
    requires BlockCloseAt(s, i) == Some(n) && SkipWhile(s, i + n, IsSpace) == w && OccursAt(s, w, Break)
    ensures MatchBreakAfterBlock(s, i) == Some(Hit(w + 6, s[i..i + n]))
  {
  }

  const ItemBreak := "<li><br />"

  /** `<li><br />` becomes `<li>` (line 80). */
  function MatchItemBreak(s: string, i: nat): (r: Option<Hit<char>>)
    ensures r.Some? ==> i < r.value.end <= |s|
    ensures r.Some? <==> OccursAt(s, i, ItemBreak)
    ensures r.Some? ==> r.value == Hit(i + 10, "<li>")
  {
    if OccursAt(s, i, ItemBreak) then Some(Hit(i + 10, "<li>")) else None
  }

  function BreakBeforeBlockPass(s: string): string {
    assert Advancing(s, MatchBreakBeforeBlock);
    ReplaceAll(s, MatchBreakBeforeBlock)
  }

  function BreakAfterBlockPass(s: string): string {
    assert Advancing(s, MatchBreakAfterBlock);
    ReplaceAll(s, MatchBreakAfterBlock)
  }

  function ItemBreakPass(s: string): string {
    assert Advancing(s, MatchItemBreak);
    ReplaceAll(s, MatchItemBreak)
  }

  // ---------------------------------------------------------------------
  // Properties

  predicate IsNotLineFeed(c: char) {
    c != '\n'
  }

  /** The three clean-up passes bring in no line feed. */
  lemma CleanupKeepsNoLineFeed(s: string)
    requires NoChar(s, '\n')
    ensures NoChar(BreakBeforeBlockPass(s), '\n')
    ensures NoChar(BreakAfterBlockPass(s), '\n')
    ensures NoChar(ItemBreakPass(s), '\n')
  {
    BreakBeforeBlockKeepsNoLineFeed(s);
    BreakAfterBlockKeepsNoLineFeed(s);
    ItemBreakKeepsNoLineFeed(s);
  }

  lemma ItemBreakKeepsNoLineFeed(s: string)
    requires NoChar(s, '\n')
    ensures NoChar(ItemBreakPass(s), '\n')
  {
    assert Advancing(s, MatchItemBreak);
    KeepsElementProperty(s, 0, MatchItemBreak, IsNotLineFeed);
  }

  lemma BreakBeforeBlockKeepsNoLineFeed(s: string)
    requires NoChar(s, '\n')
    ensures NoChar(BreakBeforeBlockPass(s), '\n')
  {
    assert Advancing(s, MatchBreakBeforeBlock);
    forall j | 0 <= j < |s| && MatchBreakBeforeBlock(s, j).Some?
      ensures forall t :: 0 <= t < |MatchBreakBeforeBlock(s, j).value.out| ==> IsNotLineFeed(MatchBreakBeforeBlock(s, j).value.out[t])
    {
      var h := MatchBreakBeforeBlock(s, j).value;
      var w: nat :| j + 6 <= w < h.end && h.out == s[w..h.end];
      SliceKeepsNoLineFeed(s, w, h.end, h.out);
    }
    KeepsElementProperty(s, 0, MatchBreakBeforeBlock, IsNotLineFeed);
  }

  lemma BreakAfterBlockKeepsNoLineFeed(s: string)
    requires NoChar(s, '\n')
    ensures NoChar(BreakAfterBlockPass(s), '\n')
  {
    assert Advancing(s, MatchBreakAfterBlock);
    forall j | 0 <= j < |s| && MatchBreakAfterBlock(s, j).Some?
      ensures forall t :: 0 <= t < |MatchBreakAfterBlock(s, j).value.out| ==> IsNotLineFeed(MatchBreakAfterBlock(s, j).value.out[t])
    {
      var h := MatchBreakAfterBlock(s, j).value;
      var n := BlockCloseAt(s, j).value;
      SliceKeepsNoLineFeed(s, j, j + n, h.out);
    }
    KeepsElementProperty(s, 0, MatchBreakAfterBlock, IsNotLineFeed);
  }

  lemma SliceKeepsNoLineFeed(s: string, a: nat, b: nat, out: string)
    requires NoChar(s, '\n') && a <= b <= |s| && out == s[a..b]
    ensures forall t :: 0 <= t < |out| ==> IsNotLineFeed(out[t])
  {
    assert forall t :: 0 <= t < |out| ==> out[t] == s[a + t];
  }

  /** In text that had no `<`, every `<` after the line-feed pass opens a
      `<br />`. */
  lemma {:induction false} OnlyBreakTags(s: string)
    requires '<' !in s
    ensures var r := NewlinesToBreaks(s);
      forall k :: 0 <= k < |r| && r[k] == '<' ==> OccursAt(r, k, Break)
    decreases |s|
  {
    if s != [] {
      OnlyBreakTags(s[1..]);
      var head := if s[0] == '\n' then Break else [s[0]];
      var rest := NewlinesToBreaks(s[1..]);
      assert NewlinesToBreaks(s) == head + rest;
      BreaksAfterHead(head, rest);
    }
  }

  /** A `<br />` or a character other than `<` in front keeps every `<`
      the opener of a `<br />`. */
  lemma BreaksAfterHead(head: string, rest: string)
    requires head == Break || (|head| == 1 && head[0] != '<')
    requires forall k :: 0 <= k < |rest| && rest[k] == '<' ==> OccursAt(rest, k, Break)
    ensures forall k :: 0 <= k < |head + rest| && (head + rest)[k] == '<' ==> OccursAt(head + rest, k, Break)
  {
    var r := head + rest;
    forall k | 0 <= k < |r| && r[k] == '<' ensures OccursAt(r, k, Break) {
      if k < |head| {
        assert r[k] == head[k];
        BreakOpensOnlyAtStart(head, k);
        PatternInFront(head, rest);
      } else {
        assert r[k] == rest[k - |head|];
        PatternBehind(head, rest, k - |head|, Break);
      }
    }
  }

  /** The only `<` of a `<br />` is its first character. */
  lemma BreakOpensOnlyAtStart(head: string, k: nat)
    requires head == Break || (|head| == 1 && head[0] != '<')
    requires k < |head| && head[k] == '<'
    ensures head == Break && k == 0
  {
  }

  /** A text occurs at the front of itself followed by more. */
  lemma PatternInFront(head: string, rest: string)
    ensures OccursAt(head + rest, 0, head)
  {
    assert (head + rest)[0..|head|] == head;
  }

  /** An occurrence in `rest` stays one behind any `head`. */
  lemma PatternBehind(head: string, rest: string, k: nat, pat: string)
    requires OccursAt(rest, k, pat)
    ensures OccursAt(head + rest, |head| + k, pat)
  {
    assert (head + rest)[|head| + k..|head| + k + |pat|] == rest[k..k + |pat|];
  }

  lemma BreakIsNoBlockOpen(r: string, w: nat)
    requires forall k :: 0 <= k < |r| && r[k] == '<' ==> OccursAt(r, k, Break)
    ensures BlockOpenAt(r, w).None?
  {
    if w < |r| && r[w] == '<' {
      assert r[w..w + 6][1] == 'b';
      MismatchAt(r, w, "<ul", 1);
      MismatchAt(r, w, "<ol", 1);
      MismatchAt(r, w, "<pre", 1);
      MismatchAt(r, w, "<div", 1);
    }
  }

  /** So on such text the three clean-up passes change nothing. */
  lemma CleanupOfBreaksOnly(r: string)
    requires forall k :: 0 <= k < |r| && r[k] == '<' ==> OccursAt(r, k, Break)
    ensures BreakBeforeBlockPass(r) == r
    ensures BreakAfterBlockPass(r) == r
    ensures ItemBreakPass(r) == r
  {
    BeforeBlockOfBreaksOnly(r);
    AfterBlockOfBreaksOnly(r);
    ItemBreakOfBreaksOnly(r);
  }

  /** In such text a `<` is followed by `b`. */
  lemma BreakOpener(r: string, j: nat)
    requires forall k :: 0 <= k < |r| && r[k] == '<' ==> OccursAt(r, k, Break)
    requires j < |r| && r[j] == '<'
    ensures j + 6 <= |r| && r[j + 1] == 'b'
  {
    assert OccursAt(r, j, Break);
    assert r[j..j + 6][1] == 'b';
  }

  lemma BeforeBlockOfBreaksOnly(r: string)
    requires forall k :: 0 <= k < |r| && r[k] == '<' ==> OccursAt(r, k, Break)
    ensures BreakBeforeBlockPass(r) == r
  {
    assert Advancing(r, MatchBreakBeforeBlock);
    forall j | 0 <= j < |r| ensures MatchBreakBeforeBlock(r, j).None? {
      if j + 6 <= |r| {
        BreakIsNoBlockOpen(r, SkipWhile(r, j + 6, IsSpace));
      }
    }
    NoMatchIdentity(r, MatchBreakBeforeBlock);
  }

  lemma AfterBlockOfBreaksOnly(r: string)
    requires forall k :: 0 <= k < |r| && r[k] == '<' ==> OccursAt(r, k, Break)
    ensures BreakAfterBlockPass(r) == r
  {
    assert Advancing(r, MatchBreakAfterBlock);
    forall j | 0 <= j < |r| ensures MatchBreakAfterBlock(r, j).None? {
      if j + 1 < |r| && r[j] == '<' {
        BreakOpener(r, j);
        MismatchAt(r, j, "</", 1);
      }
    }
    NoMatchIdentity(r, MatchBreakAfterBlock);
  }

  lemma ItemBreakOfBreaksOnly(r: string)
    requires forall k :: 0 <= k < |r| && r[k] == '<' ==> OccursAt(r, k, Break)
    ensures ItemBreakPass(r) == r
  {
    assert Advancing(r, MatchItemBreak);
    forall j | 0 <= j < |r| ensures MatchItemBreak(r, j).None? {
      if j + 1 < |r| && r[j] == '<' {
        BreakOpener(r, j);
        MismatchAt(r, j, ItemBreak, 1);
      }
    }
    NoMatchIdentity(r, MatchItemBreak);
  }
}
