/** The list passes of `formatMarkdown`: item lines become `<li>`, the
    space between items is dropped, and each run of items is wrapped. */
module MarkdownLists {
  import opened Wrappers
  import opened Text
  import opened GlobalReplace

  // ---------------------------------------------------------------------
  // Items: ^\s*([*-]|\d+\.)\s+(.*)   global, multiline

  /** A list marker: `*`, `-`, or digits followed by a dot. */
  predicate IsListMarker(t: string) {
    t == "*" || t == "-"
    || (|t| >= 2 && t[|t| - 1] == '.' && forall k :: 0 <= k < |t| - 1 ==> IsDigit(t[k]))
  }

  /** `s[w..e]` is a list marker. */
  predicate MarkerAt(s: string, w: nat, e: nat) {
    w < e <= |s| && IsListMarker(s[w..e])
  }

  /** Where the marker that starts at `w` ends. */
  function MarkerEnd(s: string, w: nat): (r: Option<nat>)
    ensures r.Some? ==> MarkerAt(s, w, r.value)
  {
    if w < |s| && (s[w] == '*' || s[w] == '-') then
      assert s[w..w + 1] == [s[w]];
      Some(w + 1)
    else if w < |s| && IsDigit(s[w]) then
      var d := SkipWhile(s, w, IsDigit);
      if d < |s| && s[d] == '.' then
        assert s[w..d + 1][d - w] == '.';
        Some(d + 1)
      else None
    else None
  }

  /** `s[i..end]` is an item line: blanks (which may cross line breaks), a
      marker, all the blanks after it (at least one), and the item text
      `s[x..end]`, which runs to the end of its line. */
  predicate ItemShape(s: string, i: nat, x: nat, end: nat) {
    IsLineStart(s, i) && i < x <= end <= |s|
    && (exists w: nat, m: nat :: i <= w < m < x && SpaceBetween(s, i, w) && MarkerAt(s, w, m) && SpaceBetween(s, m, x))
    && (x == |s| || !IsSpace(s[x]))
    && LineFree(s, x, end) && (end == |s| || IsLineTerminator(s[end]))
  }

  /** `hit` replaces the item line at `i`, whose text starts at `x`, by
      that text inside `<li>`. */
  predicate ItemHit(s: string, i: nat, x: nat, hit: Hit<char>) {
    ItemShape(s, i, x, hit.end) && hit.out == "<li>" + s[x..hit.end] + "</li>"
  }

  function MatchListItem(s: string, i: nat): (r: Option<Hit<char>>)
    ensures r.Some? ==> i < r.value.end <= |s|
    ensures r.Some? ==> exists x: nat :: ItemHit(s, i, x, r.value)
  {
    if !(i < |s| && IsLineStart(s, i)) then None
    else
      var w := SkipWhile(s, i, IsSpace);
      match MarkerEnd(s, w)
      case None => None
      case Some(m) =>
        var x := SkipWhile(s, m, IsSpace);
        if x == m then None
        else
          var y := SkipWhile(s, x, IsLineChar);
          AllSpaceSlice(s, i, w);
          AllSpaceSlice(s, m, x);
          assert ItemHit(s, i, x, Hit(y, "<li>" + s[x..y] + "</li>"));
          Some(Hit(y, "<li>" + s[x..y] + "</li>"))
  }

  /** Every item line is matched, and as a whole. */
  lemma ListItemFound(s: string, i: nat, x: nat, y: nat)
    requires ItemShape(s, i, x, y)
    ensures MatchListItem(s, i) == Some(Hit(y, "<li>" + s[x..y] + "</li>"))
  {
    var w: nat, m: nat :| i <= w < m < x && SpaceBetween(s, i, w) && MarkerAt(s, w, m) && SpaceBetween(s, m, x);
    SpaceBetweenAt(s, i, w);
    MarkerFound(s, w, m);
    SkipWhileStops(s, i, w, IsSpace);
    SpaceBetweenAt(s, m, x);
    SkipWhileStops(s, m, x, IsSpace);
    SkipWhileStops(s, x, y, IsLineChar);
    ItemFound(s, i, w, m, x, y);
  }

  /** A marker is found whole, and does not start with a blank. */
  lemma MarkerFound(s: string, w: nat, m: nat)
    requires MarkerAt(s, w, m)
    ensures !IsSpace(s[w]) && MarkerEnd(s, w) == Some(m)
  {
    var t := s[w..m];
    assert s[w] == t[0];
    if t != "*" && t != "-" {
      forall k | w <= k < m - 1 ensures IsDigit(s[k]) {
        assert s[k] == t[k - w];
      }
      assert s[m - 1] == t[|t| - 1];
      SkipWhileStops(s, w, m - 1, IsDigit);
    }
  }

  /** The usual item line `- text` at the start of a line, where the text
      does not begin with a blank, becomes `<li>text</li>`. */
  lemma DashItem(pre: string, text: string, post: string)
    requires pre == [] || IsLineTerminator(pre[|pre| - 1])
    requires text != [] && !IsSpace(text[0])
    requires forall t :: 0 <= t < |text| ==> !IsLineTerminator(text[t])
    requires post == [] || IsLineTerminator(post[0])
    ensures MatchListItem(pre + "- " + text + post, |pre|) == Some(Hit(|pre| + 2 + |text|, "<li>" + text + "</li>"))
  {
    var s := pre + "- " + text + post;
    var i := |pre|;
    var e := i + 2 + |text|;
    DashLinePieces(pre, text, post);
    forall t | i + 2 <= t < e ensures IsLineChar(s[t]) {
      assert s[t] == s[i + 2..e][t - i - 2];
    }
    DashLine(s, i, e);
  }

  /** A line `- text` found at `i`, its text running to `e`. */
  lemma DashLine(s: string, i: nat, e: nat)
    requires i + 2 < e <= |s| && IsLineStart(s, i)
    requires s[i] == '-' && s[i + 1] == ' ' && !IsSpace(s[i + 2])
    requires forall t :: i + 2 <= t < e ==> IsLineChar(s[t])
    requires e == |s| || IsLineTerminator(s[e])
    ensures MatchListItem(s, i) == Some(Hit(e, "<li>" + s[i + 2..e] + "</li>"))
  {
    assert SkipWhile(s, i, IsSpace) == i;
    assert MarkerEnd(s, i) == Some(i + 1);
    assert SkipWhile(s, i + 1, IsSpace) == i + 2;
    SkipWhileStops(s, i + 2, e, IsLineChar);
    ItemFound(s, i, i, i + 1, i + 2, e);
  }

  /** `MatchListItem` once the blanks, the marker, the blanks after it and
      the text have been measured. */
  lemma ItemFound(s: string, i: nat, w: nat, m: nat, x: nat, y: nat)
    requires i < |s| && IsLineStart(s, i)
    requires w <= |s| && SkipWhile(s, i, IsSpace) == w && MarkerEnd(s, w) == Some(m)
    requires SkipWhile(s, m, IsSpace) == x && x != m && SkipWhile(s, x, IsLineChar) == y
    ensures MatchListItem(s, i) == Some(Hit(y, "<li>" + s[x..y] + "</li>"))
  {
  }

  /** Where the pieces of a dash item line sit in the line. */
  lemma DashLinePieces(pre: string, text: string, post: string)
    requires text != []
    ensures var s := pre + "- " + text + post; var i := |pre|;
      |s| == i + 2 + |text| + |post| && s[i] == '-' && s[i + 1] == ' ' && s[i + 2] == text[0]
      && s[i + 2..i + 2 + |text|] == text
      && (i > 0 ==> s[i - 1] == pre[i - 1])
      && (post != [] ==> s[i + 2 + |text|] == post[0])
  {
    var s := pre + "- " + text + post;
    var i := |pre|;
    assert s == (pre + "- ") + text + post;
    assert s[i + 2..i + 2 + |text|] == text;
  }

  function ItemPass(s: string): string {
    assert Advancing(s, MatchListItem);
    ReplaceAll(s, MatchListItem)
  }

  // ---------------------------------------------------------------------
  // Spacing between items: (<\/li>\s*<li>) becomes </li><li>

  const ItemClose := "</li>"
  const ItemOpen := "<li>"

  function MatchItemGap(s: string, i: nat): (r: Option<Hit<char>>)
    ensures r.Some? ==> i < r.value.end <= |s|
    ensures r.Some? ==>
      i + 9 <= r.value.end && OccursAt(s, i, ItemClose) && OccursAt(s, r.value.end - 4, ItemOpen) && SpaceBetween(s, i + 5, r.value.end - 4) && r.value.out == ItemClose + ItemOpen
  {
    if !OccursAt(s, i, ItemClose) then None
    else
      var w := SkipWhile(s, i + 5, IsSpace);
      if OccursAt(s, w, ItemOpen) then
        AllSpaceSlice(s, i + 5, w);
        Some(Hit(w + 4, ItemClose + ItemOpen))
      else None
  }

  /** A `</li>`, blanks and a `<li>` at `w` are always joined. */
  lemma ItemGapFound(s: string, i: nat, w: nat)
    requires OccursAt(s, i, ItemClose) && SpaceBetween(s, i + 5, w) && OccursAt(s, w, ItemOpen)
    ensures MatchItemGap(s, i) == Some(Hit(w + 4, ItemClose + ItemOpen))
  {
    SpaceBetweenAt(s, i + 5, w);
    OccursChars(s, w, ItemOpen);
    SkipWhileStops(s, i + 5, w, IsSpace);
  }

  function ItemGapPass(s: string): string {
    assert Advancing(s, MatchItemGap);
    ReplaceAll(s, MatchItemGap)
  }

  // ---------------------------------------------------------------------
  // Wrapping: ((?:<li>.*?<\/li>\s*)+), each run through a callback

  /** `<li>` at `p`, the first `</li>` after it at `j` on the same line,
      and all the blanks after that up to `e`. */
  predicate RunItemShape(s: string, p: nat, j: nat, e: nat) {
    OccursAt(s, p, ItemOpen) && p + 4 <= j && LineFree(s, p + 4, j) && OccursAt(s, j, ItemClose)
    && (forall k :: p + 4 <= k < j ==> !OccursAt(s, k, ItemClose))
    && SpaceBetween(s, j + 5, e) && (e == |s| || !IsSpace(s[e]))
  }

  /** One `<li>.*?</li>\s*` at `p`: where it ends. The item closes at the
      first `</li>` on its line. */
  function RunItem(s: string, p: nat): (r: Option<nat>)
    ensures r.Some? ==> p + 9 <= r.value <= |s| && OccursAt(s, p, ItemOpen)
    ensures r.Some? ==> exists j: nat :: RunItemShape(s, p, j, r.value)
  {
    if !OccursAt(s, p, ItemOpen) then None
    else
      match FindOnLine(s, p + 4, ItemClose)
      case None => None
      case Some(j) =>
        var e := SkipWhile(s, j + 5, IsSpace);
        AllSpaceSlice(s, j + 5, e);
        assert RunItemShape(s, p, j, e);
        Some(e)
  }

  /** Every such item is found, up to the end of its blanks. */
  lemma RunItemFound(s: string, p: nat, j: nat, e: nat)
    requires RunItemShape(s, p, j, e)
    ensures RunItem(s, p) == Some(e)
  {
    assert FindOnLine(s, p + 4, ItemClose) == Some(j);
    SpaceBetweenAt(s, j + 5, e);
    SkipWhileStops(s, j + 5, e, IsSpace);
  }

  /** The end of the greedy run of items from `p`. */
  function RunEnd(s: string, p: nat): (r: nat)
    requires p <= |s|
    ensures p <= r <= |s| && RunItem(s, r).None?
    decreases |s| - p
  {
    match RunItem(s, p)
    case None => p
    case Some(q) => RunEnd(s, q)
  }

  const ListClass := " class=\"list-disc li" + "st-inside pl-4 my-2\">"

  /** `/^\s*\d+\./`: the text starts, after blanks, with a number and a dot. */
  predicate StartsNumbered(m: string) {
    var w := SkipWhile(m, 0, IsSpace);
    var d := SkipWhile(m, w, IsDigit);
    d > w && d < |m| && m[d] == '.'
  }

  /** The callback for one run of items. */
  function WrapRun(m: string): string {
    if Contains(m, "<ol>") || Contains(m, "<ul>") then m
    else if Contains(m, ItemOpen) then
      ListElement(if StartsNumbered(m) then "ol" else "ul", m)
    else m
  }

  /** The run `m` inside a list element `tag` with the list's class. */
  function ListElement(tag: string, m: string): string {
    "<" + tag + ListClass + m + "</" + tag + ">"
  }

  lemma BulletedLiteral(m: string)
    ensures ListElement("ul", m) == "<ul" + ListClass + m + "</ul>"
  {
    assert "<" + "ul" == "<ul";
    assert "</" + "ul" + ">" == "</ul>";
  }

  /** `hit` replaces the run from `i` by what the callback makes of it. */
  predicate RunHit(s: string, i: nat, hit: Hit<char>) {
    i < hit.end <= |s| && hit.out == WrapRun(s[i..hit.end])
  }

  function MatchRun(s: string, i: nat): (r: Option<Hit<char>>)
    ensures r.Some? ==> i < r.value.end <= |s|
    ensures r.Some? ==> OccursAt(s, i, ItemOpen) && RunHit(s, i, r.value)
    ensures r.Some? <==> RunItem(s, i).Some?
    ensures r.Some? ==> i <= |s| && r.value.end == RunEnd(s, i)
  {
    match RunItem(s, i)
    case None => None
    case Some(q) =>
      var e := RunEnd(s, q);
      Some(Hit(e, WrapRun(s[i..e])))
  }

  function WrapPass(s: string): string {
    assert Advancing(s, MatchRun);
    ReplaceAll(s, MatchRun)
  }

  /** The numbered-list test never passes on a run, since a run starts with
      `<li>`: every run is left alone if it already holds a list tag, and is
      wrapped in `<ul>` otherwise. An `<ol>` is never produced. */
  lemma RunIsNeverOrdered(m: string)
    requires OccursAt(m, 0, ItemOpen)
    ensures Contains(m, "<ol>") || Contains(m, "<ul>") ==> WrapRun(m) == m
    ensures !Contains(m, "<ol>") && !Contains(m, "<ul>") ==> WrapRun(m) == "<ul" + ListClass + m + "</ul>"
  {
    assert m[..|ItemOpen|] == ItemOpen && m[0] == m[..|ItemOpen|][0] == '<';
    NotNumbered(m);
    assert OccursAt(m, 0, ItemOpen);
    assert Contains(m, ItemOpen);
    assert !Contains(m, "<ol>") && !Contains(m, "<ul>") ==> WrapRun(m) == ListElement("ul", m);
    BulletedLiteral(m);
  }

  /** Text that starts with `<` does not start with blanks and a number. */
  lemma NotNumbered(m: string)
    requires m != [] && m[0] == '<'
    ensures !StartsNumbered(m)
  {
    assert !IsSpace(m[0]) && !IsDigit(m[0]);
    assert SkipWhile(m, 0, IsSpace) == 0;
    assert SkipWhile(m, 0, IsDigit) == 0;
  }

  /** So whatever the wrap pass puts out for a run is the run itself or the
      run inside `<ul …>…</ul>`. */
  lemma WrapHitIsRunOrBulleted(s: string, i: nat)
    requires MatchRun(s, i).Some?
    ensures var h := MatchRun(s, i).value;
      h.out == s[i..h.end] || h.out == "<ul" + ListClass + s[i..h.end] + "</ul>"
  {
    var h := MatchRun(s, i).value;
    var m := s[i..h.end];
    assert m[0..4] == s[i..i + 4];
    RunIsNeverOrdered(m);
  }
}
