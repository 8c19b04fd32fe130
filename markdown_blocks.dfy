/** The two block passes that `formatMarkdown` runs first: fenced code
    blocks and pipe tables. */
module MarkdownBlocks {
  import opened Wrappers
  import opened Text
  import opened GlobalReplace
  import opened Lists

  // ---------------------------------------------------------------------
  // Escaping of code

  /** The escaping of code text: every `<` becomes `&lt;`, then every `>`
      becomes `&gt;`. Nothing else (not even `&`) is touched. */
  function EscapeAngles(code: string): (r: string)
    ensures NoChar(r, '<') && NoChar(r, '>')
  {
    ReplaceCharRemoves(code, '<', "&lt;");
    var lt := ReplaceChar(code, '<', "&lt;");
    ReplaceCharKeepsAbsent(lt, '>', "&gt;", '<');
    ReplaceCharRemoves(lt, '>', "&gt;");
    ReplaceChar(lt, '>', "&gt;")
  }

  /** What one character of code becomes. */
  function EscapeChar(c: char): string {
    if c == '<' then "&lt;" else if c == '>' then "&gt;" else [c]
  }

  /** The escaping works character by character. */
  lemma EscapeAnglesCons(c: char, rest: string)
    ensures EscapeAngles([c] + rest) == EscapeChar(c) + EscapeAngles(rest)
  {
    var s := [c] + rest;
    assert s[0] == c && s[1..] == rest;
    var lt := ReplaceChar(rest, '<', "&lt;");
    if c == '<' {
      ReplaceCharAppend("&lt;", lt, '>', "&gt;");
      ReplaceCharAbsent("&lt;", '>', "&gt;");
    } else {
      ReplaceCharAppend([c], lt, '>', "&gt;");
    }
  }

  /** The escaping of a concatenation is the concatenation of the
      escapings. */
  lemma EscapeAnglesAppend(a: string, b: string)
    ensures EscapeAngles(a + b) == EscapeAngles(a) + EscapeAngles(b)
  {
    ReplaceCharAppend(a, b, '<', "&lt;");
    ReplaceCharAppend(ReplaceChar(a, '<', "&lt;"), ReplaceChar(b, '<', "&lt;"), '>', "&gt;");
  }

  /** Code without angle brackets is left exactly as it is. */
  lemma EscapeAnglesIdentity(code: string)
    requires '<' !in code && '>' !in code
    ensures EscapeAngles(code) == code
  {
    ReplaceCharAbsent(code, '<', "&lt;");
    ReplaceCharAbsent(code, '>', "&gt;");
  }

  // ---------------------------------------------------------------------
  // Fenced code blocks: ```([\s\S]*?)```, global

  const Fence := "```"
  const PreOpen := "<pre class=\"bg-gray-" + "100 dark:bg-gray-900" + " p-3 rounded-md my-2"
    + " text-sm overflow-x-" + "auto\"><code>"
  const PreClose := "</code></pre>"

  function FenceHtml(code: string): string {
    PreOpen + EscapeAngles(code) + PreClose
  }

  /** A fence opens at `i` and closes at the FIRST later fence that does not
      overlap it; the content may span lines and is escaped. */
  function MatchFence(s: string, i: nat): (r: Option<Hit<char>>)
    ensures r.Some? ==> i < r.value.end <= |s|
    ensures r.Some? <==> OccursAt(s, i, Fence) && exists j :: i + 3 <= j && OccursAt(s, j, Fence)
    ensures r.Some? ==>
      var j := r.value.end - 3;
      i + 3 <= j && OccursAt(s, j, Fence)
      && (forall k :: i + 3 <= k < j ==> !OccursAt(s, k, Fence))
      && r.value.out == FenceHtml(s[i + 3..j])
  {
    if !OccursAt(s, i, Fence) then None
    else
      match Find(s, i + 3, Fence)
      case Some(j) => Some(Hit(j + 3, FenceHtml(s[i + 3..j])))
      case None => None
  }

  function FencePass(s: string): string {
    assert Advancing(s, MatchFence);
    ReplaceAll(s, MatchFence)
  }

  /** Text in which no closing fence follows an opening one is not changed:
      an unclosed fence stays literal. */
  lemma UnclosedFenceIsLiteral(s: string)
    requires forall j, k :: 0 <= j && 0 <= k && OccursAt(s, j, Fence) && OccursAt(s, k, Fence) ==> k < j + 3
    ensures FencePass(s) == s
  {
    assert Advancing(s, MatchFence);
    forall j | 0 <= j < |s| ensures MatchFence(s, j).None? {
    }
    NoMatchIdentity(s, MatchFence);
  }

  // ---------------------------------------------------------------------
  // Tables:
  //   ^\|([^\n]+)\|\r?\n\|([-\|: ]+)\|\r?\n((?:\|[^\n]+\|\r?\n?)*)   global, multiline

  const ThOpen := "<th class=\"p-3 text-" + "left font-semibold\">"
  const ThClose := "</th>"
  const HeadOpen := "<thead><tr class=\"bo" + "rder-b dark:border-g" + "ray-600\">"
  const HeadClose := "</tr></thead>"
  const TdOpen := "<td class=\"p-3 align" + "-top\">"
  const TdClose := "</td>"
  const RowOpen := "<tr class=\"border-b " + "dark:border-gray-700" + " last:border-b-0 hov"
    + "er:bg-gray-50 dark:h" + "over:bg-gray-700/50\">"
  const RowClose := "</tr>"
  const TableOpen := "<div class=\"overflow" + "-x-auto my-4 rounded" + "-lg border dark:bord"
    + "er-gray-700\"><table " + "class=\"w-full text-s" + "m\">"
  const TableClose := "</table></div>"

  /** `split('|').slice(1, -1)`: the cells of a pipe-delimited line, without
      the first and the last piece. */
  function Cells(line: string): seq<string> {
    Inner(Split(line, '|'))
  }

  function HeaderCell(c: string): string {
    ThOpen + Trim(c) + ThClose
  }

  function BodyCell(c: string): string {
    TdOpen + ReplaceChar(Trim(c), '\n', "<br/>") + TdClose
  }

  function HeaderCells(line: string): seq<string> {
    var cs := Cells(line);
    seq(|cs|, k requires 0 <= k < |cs| => HeaderCell(cs[k]))
  }

  function BodyCells(row: string): seq<string> {
    var cs := Cells(row);
    seq(|cs|, k requires 0 <= k < |cs| => BodyCell(cs[k]))
  }

  function TableHead(headerLine: string): string {
    HeadOpen + Join(HeaderCells(headerLine), "") + HeadClose
  }

  function BodyRow(row: string): string {
    RowOpen + Join(BodyCells(row), "") + RowClose
  }

  /** The rows are the trimmed body split at line feeds. */
  function TableRows(bodyLines: string): seq<string> {
    var rows := Split(Trim(bodyLines), '\n');
    seq(|rows|, k requires 0 <= k < |rows| => BodyRow(rows[k]))
  }

  function TableHtml(headerLine: string, bodyLines: string): string {
    TableOpen + TableHead(headerLine) + "<tbody>" + Join(TableRows(bodyLines), "") + "</tbody>" + TableClose
  }

  /** The header row `|…|` at `i`: the index `k` of its closing pipe and the
      index just after its line feed. The captured header is `s[i + 1..k]`. */
  function TableHeaderRow(s: string, i: nat): (r: Option<(nat, nat)>)
    ensures r.Some? ==>
      var (k, g) := r.value;
      i + 2 <= k < g <= |s| && s[k] == '|' && s[g - 1] == '\n'
      && (k == g - 2 || (k == g - 3 && s[g - 2] == '\r'))
      && forall t :: i <= t < g - 1 ==> s[t] != '\n'
  {
    match FindChar(s, i, '\n')
    case None => None
    case Some(e) =>
      if e >= i + 3 && s[e - 1] == '|' then Some((e - 1, e + 1))
      else if e >= i + 4 && s[e - 1] == '\r' && s[e - 2] == '|' then Some((e - 2, e + 1))
      else None
  }

  predicate IsSeparatorChar(c: char) {
    c == '-' || c == '|' || c == ':' || c == ' '
  }

  /** The separator row at `g`: a pipe, separator characters, the last of
      them a pipe at `f - 1` with at least one before it, and then `\n` or
      `\r\n` up to `e`. */
  predicate SeparatorRowShape(s: string, g: nat, f: nat, e: nat) {
    g + 3 <= f < e <= |s| && s[g] == '|' && s[f - 1] == '|'
    && (forall t :: g < t < f ==> IsSeparatorChar(s[t]))
    && ((e == f + 1 && s[f] == '\n') || (e == f + 2 && s[f] == '\r' && s[f + 1] == '\n'))
  }

  /** The separator row `|[-|: ]+|` at `g`, and the index after its line
      feed. */
  function TableSeparatorRow(s: string, g: nat): (r: Option<nat>)
    ensures r.Some? ==> g + 4 <= r.value <= |s| && s[g] == '|' && s[r.value - 1] == '\n'
    ensures r.Some? ==> exists f: nat :: SeparatorRowShape(s, g, f, r.value)
  {
    if !(g < |s| && s[g] == '|') then None
    else
      var f := SkipWhile(s, g + 1, IsSeparatorChar);
      if f >= g + 3 && s[f - 1] == '|' && f < |s| && s[f] == '\n' then
        assert SeparatorRowShape(s, g, f, f + 1);
        Some(f + 1)
      else if f >= g + 3 && s[f - 1] == '|' && f + 1 < |s| && s[f] == '\r' && s[f + 1] == '\n' then
        assert SeparatorRowShape(s, g, f, f + 2);
        Some(f + 2)
      else None
  }

  /** Every separator row is found, with its line break. */
  lemma SeparatorRowFound(s: string, g: nat, f: nat, e: nat)
    requires SeparatorRowShape(s, g, f, e)
    ensures TableSeparatorRow(s, g) == Some(e)
  {
    SkipWhileStops(s, g + 1, f, IsSeparatorChar);
  }

  /** A body row at `h` on the line that ends at `q`: the cells run up to
      the last pipe `p` of the line, at least one character after `h`, and
      the row takes a `\r` and then a line feed after it if they are there,
      up to `e`. */
  predicate BodyRowShape(s: string, h: nat, p: nat, q: nat, e: nat) {
    h + 2 <= p < q <= |s| && s[h] == '|' && s[p] == '|'
    && (forall t :: h < t < q ==> s[t] != '\n') && (q == |s| || s[q] == '\n')
    && (forall t :: p < t < q ==> s[t] != '|')
    && var a := if p + 1 < |s| && s[p + 1] == '\r' then p + 2 else p + 1;
       e == if a < |s| && s[a] == '\n' then a + 1 else a
  }

  /** One body row `\|[^\n]+\|\r?\n?` at `h`: where it ends. The cells run
      up to the LAST pipe of the line. */
  function TableBodyRow(s: string, h: nat): (r: Option<nat>)
    ensures r.Some? ==> h + 3 <= r.value <= |s| && s[h] == '|'
    ensures r.Some? ==> forall t :: h <= t < r.value - 1 ==> s[t] != '\n'
    ensures r.Some? ==> exists p: nat, q: nat :: BodyRowShape(s, h, p, q, r.value)
  {
    if !(h < |s| && s[h] == '|') then None
    else
      var e := SkipWhile(s, h + 1, IsLineFeedFree);
      match LastIndexOf(s, h + 2, e, '|')
      case None => None
      case Some(p) =>
        var a := if p + 1 < |s| && s[p + 1] == '\r' then p + 2 else p + 1;
        var b := if a < |s| && s[a] == '\n' then a + 1 else a;
        assert BodyRowShape(s, h, p, e, b);
        Some(b)
  }

  /** Every body row is found, up to its last pipe and line break. */
  lemma BodyRowFound(s: string, h: nat, p: nat, q: nat, e: nat)
    requires BodyRowShape(s, h, p, q, e)
    ensures TableBodyRow(s, h) == Some(e)
  {
    SkipWhileStops(s, h + 1, q, IsLineFeedFree);
    assert LastIndexOf(s, h + 2, q, '|') == Some(p);
  }

  predicate IsLineFeedFree(c: char) {
    c != '\n'
  }

  /** The end of the greedy run of body rows that starts at `h`. */
  function TableBodyEnd(s: string, h: nat): (r: nat)
    requires h <= |s|
    ensures h <= r <= |s|
    ensures r == h || s[h] == '|'
    ensures TableBodyRow(s, r).None?
    decreases |s| - h
  {
    match TableBodyRow(s, h)
    case None => h
    case Some(n) => TableBodyEnd(s, n)
  }

  /** A table starts at the beginning of a line with a header row and a
      separator row. */
  predicate TableAt(s: string, i: nat) {
    i < |s| && IsLineStart(s, i) && s[i] == '|'
    && TableHeaderRow(s, i).Some? && TableSeparatorRow(s, TableHeaderRow(s, i).value.1).Some?
  }

  /** `hit` replaces the table at `i` by its HTML: the header is the header
      row inside its outer pipes, and the body is the greedy run of body rows
      after the separator row. */
  predicate TableHit(s: string, i: nat, hit: Hit<char>) {
    TableAt(s, i)
    && var (k, g) := TableHeaderRow(s, i).value;
       var h := TableSeparatorRow(s, g).value;
       hit.end == TableBodyEnd(s, h) && hit.out == TableHtml(s[i + 1..k], s[h..hit.end])
  }

  function MatchTable(s: string, i: nat): (r: Option<Hit<char>>)
    ensures r.Some? ==> i < r.value.end <= |s|
    ensures r.Some? ==> IsLineStart(s, i) && s[i] == '|'
    ensures r.Some? <==> TableAt(s, i)
    ensures r.Some? ==> TableHit(s, i, r.value)
  {
    if !(i < |s| && IsLineStart(s, i) && s[i] == '|') then None
    else
      match TableHeaderRow(s, i)
      case None => None
      case Some((k, g)) =>
        match TableSeparatorRow(s, g)
        case None => None
        case Some(h) =>
          var end := TableBodyEnd(s, h);
          Some(Hit(end, TableHtml(s[i + 1..k], s[h..end])))
  }

  function TablePass(s: string): string {
    assert Advancing(s, MatchTable);
    ReplaceAll(s, MatchTable)
  }

  // ---------------------------------------------------------------------
  // Properties of the table rendering

  lemma {:induction false} JoinAppendEmpty(parts: seq<string>, c: char)
    requires |parts| >= 1
    ensures Join(parts + [[]], [c]) == Join(parts, [c]) + [c]
  {
    if |parts| == 1 {
      assert Join(parts + [[]], [c]) == parts[0] + [c] + Join([[]], [c]);
    } else {
      JoinAppendEmpty(parts[1..], c);
      assert (parts + [[]])[1..] == parts[1..] + [[]];
    }
  }

  /** A body row `|c1|…|cn|` keeps all its cells. */
  lemma RowCells(cells: seq<string>)
    requires |cells| >= 1
    requires forall k :: 0 <= k < |cells| ==> '|' !in cells[k]
    ensures Cells("|" + Join(cells, "|") + "|") == cells
  {
    RowSplit(cells);
    InnerOfFramed(cells);
  }

  lemma InnerOfFramed(cells: seq<string>)
    ensures Inner([[]] + (cells + [[]])) == cells
  {
    var pieces := [[]] + (cells + [[]]);
    assert pieces[1..|pieces| - 1] == cells;
  }

  lemma RowSplit(cells: seq<string>)
    requires |cells| >= 1
    requires forall k :: 0 <= k < |cells| ==> '|' !in cells[k]
    ensures Split("|" + Join(cells, "|") + "|", '|') == [[]] + (cells + [[]])
  {
    var j := Join(cells, "|");
    ClosedRowSplit(cells);
    Regroup("|", j, "|");
    assert [] + ['|'] == "|";
    SplitPieceThenSeparator([], '|', j + "|");
  }

  lemma ClosedRowSplit(cells: seq<string>)
    requires |cells| >= 1
    requires forall k :: 0 <= k < |cells| ==> '|' !in cells[k]
    ensures Split(Join(cells, "|") + "|", '|') == cells + [[]]
  {
    var pieces := cells + [[]];
    JoinAppendEmpty(cells, '|');
    assert forall k :: 0 <= k < |pieces| ==> '|' !in pieces[k];
    SplitJoin(pieces, '|');
  }

  /** The header capture `c1|…|cn` (the text between the outer pipes) loses
      its first and its last cell: a table with n columns gets n - 2 header
      cells, the middle ones. */
  lemma HeaderDropsOuterCells(cells: seq<string>)
    requires |cells| >= 2
    requires forall k :: 0 <= k < |cells| ==> '|' !in cells[k]
    ensures Cells(Join(cells, "|")) == cells[1..|cells| - 1]
    ensures |HeaderCells(Join(cells, "|"))| == |cells| - 2
    ensures forall k :: 0 <= k < |cells| - 2 ==> HeaderCells(Join(cells, "|"))[k] == HeaderCell(cells[k + 1])
  {
    SplitJoin(cells, '|');
  }

  /** In particular a two-column table has an empty header row. */
  lemma TwoColumnHeaderIsEmpty(a: string, b: string)
    requires '|' !in a && '|' !in b
    ensures TableHead(a + "|" + b) == HeadOpen + HeadClose
  {
    HeaderDropsOuterCells([a, b]);
    assert Join([a, b], "|") == a + "|" + b;
  }

  /** A table without body rows still gets one empty row. */
  lemma EmptyBodyHasOneEmptyRow()
    ensures TableRows("") == [RowOpen + RowClose]
  {
    TrimOfTrimmed("");
    assert Split("", '\n') == [[]];
    assert Cells("") == [];
    assert BodyCells("") == [];
    assert BodyRow("") == RowOpen + RowClose;
  }

  /** A body cell has no line feed, so the `\n` to `<br/>` replace on it
      changes nothing. */
  lemma BodyCellBreaksAreNoOp(row: string, k: nat)
    requires '\n' !in row
    requires k < |Cells(row)|
    ensures BodyCells(row)[k] == TdOpen + Trim(Cells(row)[k]) + TdClose
  {
    var ps := Split(row, '|');
    JoinSplit(row, '|');
    var c := Cells(row)[k];
    assert c == ps[k + 1];
    PieceOfSplitIsInside(row, '|', k + 1);
    var t := Trim(c);
    assert '\n' !in t;
    ReplaceCharAbsent(t, '\n', "<br/>");
  }

  /** Every piece of a split is made of characters of the input. */
  lemma {:induction false} PieceOfSplitIsInside(s: string, c: char, k: nat)
    requires k < |Split(s, c)|
    ensures forall t :: 0 <= t < |Split(s, c)[k]| ==> Split(s, c)[k][t] in s
    decreases |s|
  {
    if s != [] {
      var rest := Split(s[1..], c);
      if s[0] == c {
        if k > 0 {
          PieceOfSplitIsInside(s[1..], c, k - 1);
        }
      } else if k == 0 {
        PieceOfSplitIsInside(s[1..], c, 0);
      } else {
        PieceOfSplitIsInside(s[1..], c, k);
      }
    }
  }
}
