/** The inline passes of `formatMarkdown`: links, bold, italics and inline
    code, run in that order after the block passes. */
module MarkdownInline {
  import opened Wrappers
  import opened Text
  import opened GlobalReplace
  import opened Lists
  import opened MarkdownBlocks

  // ---------------------------------------------------------------------
  // Links: \[([^\]]+)\]\(([^)]+)\)

  const AnchorOpen := "<a href=\""
  const AnchorMid := "\" target=\"_blank\" r" + "el=\"noopener norefer" + "rer\" class=\"text-ind"
    + "igo-400 hover:underl" + "ine\">"
  const AnchorClose := "</a>"

  function AnchorHtml(title: string, url: string): string {
    AnchorOpen + url + AnchorMid + title + AnchorClose
  }

  /** `[title](url)` at `i`, the title closed by the `]` at `p` and the url
      by the `)` at `q`; neither may be empty, the title holds no `]` and
      the url no `)`. Both may span lines. */
  predicate LinkShape(s: string, i: nat, p: nat, q: nat) {
    i + 2 <= p && p + 3 <= q < |s| && s[i] == '[' && s[p] == ']' && s[p + 1] == '(' && s[q] == ')'
    && (forall t :: i < t < p ==> s[t] != ']')
    && (forall t :: p + 1 < t < q ==> s[t] != ')')
  }

  function MatchLink(s: string, i: nat): (r: Option<Hit<char>>)
    ensures r.Some? ==> i < r.value.end <= |s|
    ensures r.Some? ==>
      exists p: nat, q: nat :: LinkShape(s, i, p, q) && r.value == Hit(q + 1, AnchorHtml(s[i + 1..p], s[p + 2..q]))
  {
    if !(i < |s| && s[i] == '[') then None
    else
      match FindChar(s, i + 1, ']')
      case None => None
      case Some(p) =>
        if !(p >= i + 2 && p + 1 < |s| && s[p + 1] == '(') then None
        else
          match FindChar(s, p + 2, ')')
          case None => None
          case Some(q) =>
            if q >= p + 3 then
              var h := Hit(q + 1, AnchorHtml(s[i + 1..p], s[p + 2..q]));
              LinkShapeFound(s, i, p, q, h);
              Some(h)
            else None
  }

  /** The `]` and the `)` the match finds close a link shape, and the hit
      made from them is one the contract describes. */
  lemma LinkShapeFound(s: string, i: nat, p: nat, q: nat, h: Hit<char>)
    requires i < |s| && s[i] == '[' && FindChar(s, i + 1, ']') == Some(p)
    requires p >= i + 2 && p + 1 < |s| && s[p + 1] == '('
    requires FindChar(s, p + 2, ')') == Some(q) && q >= p + 3
    requires h == Hit(q + 1, AnchorHtml(s[i + 1..p], s[p + 2..q]))
    ensures LinkShape(s, i, p, q)
    ensures exists p': nat, q': nat :: LinkShape(s, i, p', q') && h == Hit(q' + 1, AnchorHtml(s[i + 1..p'], s[p' + 2..q']))
  {
    assert LinkShape(s, i, p, q);
  }

  /** Every `[title](url)` shape is found: the leftmost match at `i` is the
      one with the first `]` and the first `)`. */
  lemma LinkFound(s: string, i: nat, p: nat, q: nat)
    requires LinkShape(s, i, p, q)
    ensures MatchLink(s, i) == Some(Hit(q + 1, AnchorHtml(s[i + 1..p], s[p + 2..q])))
  {
    assert FindChar(s, i + 1, ']') == Some(p);
    assert FindChar(s, p + 2, ')') == Some(q);
  }

  function LinkPass(s: string): string {
    assert Advancing(s, MatchLink);
    ReplaceAll(s, MatchLink)
  }

  // ---------------------------------------------------------------------
  // Bold and italics: \*\*(.*?)\*\*|__(.*?)__  and  \*(.*?)\*|_(.*?)_

  /** `d(.*?)d` at `i`: the closing delimiter at `j` is the first one after
      the opening one, on the same line; the text between may be empty. */
  predicate SpanShape(s: string, i: nat, d: string, j: nat) {
    OccursAt(s, i, d) && i + |d| <= j && OccursAt(s, j, d) && LineFree(s, i + |d|, j)
    && forall k :: i + |d| <= k < j ==> !OccursAt(s, k, d)
  }

  /** Where the lazy span `d(.*?)d` that opens at `i` closes. */
  function MatchSpan(s: string, i: nat, d: string): (r: Option<nat>)
    ensures r.Some? ==> SpanShape(s, i, d, r.value)
    ensures r.None? ==> forall j: nat :: !SpanShape(s, i, d, j)
  {
    if OccursAt(s, i, d) then FindOnLine(s, i + |d|, d) else None
  }

  /** `<tag>body</tag>`. */
  function Tagged(tag: string, body: string): string {
    "<" + tag + ">" + body + "</" + tag + ">"
  }

  /** The first alternative that closes wins: `open` is tried before
      `other`. */
  function MatchEmphasis(s: string, i: nat, open: string, other: string, tag: string): (r: Option<Hit<char>>)
    requires |open| == |other| > 0
    ensures r.Some? ==> i < r.value.end <= |s|
    ensures r.Some? <==> (exists j: nat :: SpanShape(s, i, open, j)) || (exists j: nat :: SpanShape(s, i, other, j))
    ensures r.Some? ==>
      exists j: nat :: (SpanShape(s, i, open, j) || SpanShape(s, i, other, j))
        && r.value == Hit(j + |open|, Tagged(tag, s[i + |open|..j]))
  {
    match MatchSpan(s, i, open)
    case Some(j) => Some(Hit(j + |open|, Tagged(tag, s[i + |open|..j])))
    case None =>
      match MatchSpan(s, i, other)
      case Some(j) => Some(Hit(j + |open|, Tagged(tag, s[i + |open|..j])))
      case None => None
  }

  function MatchBold(s: string, i: nat): (r: Option<Hit<char>>)
    ensures r.Some? ==> i < r.value.end <= |s|
    ensures r == MatchEmphasis(s, i, "**", "__", "strong")
  {
    MatchEmphasis(s, i, "**", "__", "strong")
  }

  function MatchItalic(s: string, i: nat): (r: Option<Hit<char>>)
    ensures r.Some? ==> i < r.value.end <= |s|
    ensures r == MatchEmphasis(s, i, "*", "_", "em")
  {
    MatchEmphasis(s, i, "*", "_", "em")
  }

  function BoldPass(s: string): string {
    assert Advancing(s, MatchBold);
    ReplaceAll(s, MatchBold)
  }

  function ItalicPass(s: string): string {
    assert Advancing(s, MatchItalic);
    ReplaceAll(s, MatchItalic)
  }

  // ---------------------------------------------------------------------
  // Inline code: `([^`]+)`

  const CodeOpen := "<code class=\"bg-gray" + "-200 dark:bg-gray-70" + "0 px-1 py-0.5 rounde" + "d text-sm\">"
  const CodeClose := "</code>"

  /** Code opened by the backtick at `i` and closed by the next one, at
      `q`, with at least one character between. */
  predicate CodeShape(s: string, i: nat, q: nat) {
    i + 2 <= q < |s| && s[i] == '`' && s[q] == '`' && forall t :: i < t < q ==> s[t] != '`'
  }

  function MatchCode(s: string, i: nat): (r: Option<Hit<char>>)
    ensures r.Some? ==> i < r.value.end <= |s|
    ensures r.Some? ==>
      exists q: nat :: CodeShape(s, i, q) && r.value == Hit(q + 1, CodeOpen + EscapeAngles(s[i + 1..q]) + CodeClose)
  {
    if !(i < |s| && s[i] == '`') then None
    else
      match FindChar(s, i + 1, '`')
      case None => None
      case Some(q) =>
        if q >= i + 2 then
          assert CodeShape(s, i, q);
          Some(Hit(q + 1, CodeOpen + EscapeAngles(s[i + 1..q]) + CodeClose))
        else None
  }

  /** Every backtick pair with text between is found. */
  lemma CodeFound(s: string, i: nat, q: nat)
    requires CodeShape(s, i, q)
    ensures MatchCode(s, i) == Some(Hit(q + 1, CodeOpen + EscapeAngles(s[i + 1..q]) + CodeClose))
  {
    assert FindChar(s, i + 1, '`') == Some(q);
  }

  function CodePass(s: string): string {
    assert Advancing(s, MatchCode);
    ReplaceAll(s, MatchCode)
  }

  // ---------------------------------------------------------------------
  // Properties

  predicate NoEmphasisChar(s: string) {
    NoChar(s, '*') && NoChar(s, '_')
  }

  /** At a character that opens neither alternative there is no span. */
  lemma NoItalicWithoutDelimiter(s: string, j: nat)
    requires j < |s| && s[j] != '*' && s[j] != '_'
    ensures MatchItalic(s, j).None?
  {
    assert !OccursAt(s, j, "*") && !OccursAt(s, j, "_");
  }

  /** A one-character span `d…d` closes at the next `d` on the line. */
  lemma OneCharSpan(s: string, a: nat, c: nat, d: char)
    requires a < c < |s| && s[a] == d && s[c] == d
    requires forall t :: a < t < c ==> s[t] != d && !IsLineTerminator(s[t])
    ensures MatchSpan(s, a, [d]) == Some(c)
  {
    assert OccursAt(s, a, [d]) && OccursAt(s, c, [d]);
    assert forall k :: a + 1 <= k < c ==> !OccursAt(s, k, [d]) by {
      forall k | a + 1 <= k < c ensures !OccursAt(s, k, [d]) {
        assert s[k..k + 1][0] == s[k];
      }
    }
    var r := MatchSpan(s, a, [d]);
    assert SpanShape(s, a, [d], c);
  }

  /** An italic span `d x d` with `d` one of the delimiters inside text
      that has no other `*` or `_` becomes `<em>x</em>`, and the rest is
      copied. */
  lemma {:induction false} ItalicSplice(p: string, d: char, x: string, q: string)
    requires d == '*' || d == '_'
    requires NoEmphasisChar(p) && NoEmphasisChar(x) && NoEmphasisChar(q)
    requires forall t :: 0 <= t < |x| ==> !IsLineTerminator(x[t])
    ensures ItalicPass(p + [d] + x + [d] + q) == p + Tagged("em", x) + q
  {
    var s := p + [d] + x + [d] + q;
    var a := |p|;
    var c := a + 1 + |x|;
    SplicedItalicFound(p, d, x, q);
    NoItalicAroundSplice(p, d, x, q);
    assert Advancing(s, MatchItalic);
    ReplaceOneHit(s, a, MatchItalic);
    assert s[..a] == p && s[c + 1..] == q;
  }

  /** The span itself is found where it opens. */
  lemma SplicedItalicFound(p: string, d: char, x: string, q: string)
    requires d == '*' || d == '_'
    requires NoChar(x, d)
    requires forall t :: 0 <= t < |x| ==> !IsLineTerminator(x[t])
    ensures MatchItalic(p + [d] + x + [d] + q, |p|) == Some(Hit(|p| + |x| + 2, Tagged("em", x)))
  {
    var s := p + [d] + x + [d] + q;
    var a := |p|;
    var c := a + 1 + |x|;
    assert MatchSpan(s, a, [d]) == Some(c) by {
      assert s[a] == d && s[c] == d;
      assert forall t :: a < t < c ==> s[t] == x[t - a - 1];
      OneCharSpan(s, a, c, d);
    }
    assert s[a + 1..c] == x;
    if d == '*' {
      assert MatchSpan(s, a, "*") == Some(c);
    } else {
      assert !OccursAt(s, a, "*");
      assert MatchSpan(s, a, "*") == None;
      assert MatchSpan(s, a, "_") == Some(c);
    }
  }

  /** No span opens before or after it. */
  lemma NoItalicAroundSplice(p: string, d: char, x: string, q: string)
    requires NoEmphasisChar(p) && NoEmphasisChar(q)
    ensures var s := p + [d] + x + [d] + q;
      forall j :: 0 <= j < |p| || |p| + |x| + 2 <= j < |s| ==> MatchItalic(s, j).None?
  {
    var s := p + [d] + x + [d] + q;
    var a := |p|;
    var c := a + 1 + |x|;
    assert forall t :: 0 <= t < a ==> s[t] == p[t];
    assert forall t :: c < t < |s| ==> s[t] == q[t - c - 1];
    forall j | 0 <= j < a || c + 1 <= j < |s| ensures MatchItalic(s, j).None? {
      NoItalicWithoutDelimiter(s, j);
    }
  }

  lemma FenceWrapperHasNoEmphasis()
    ensures NoEmphasisChar(PreOpen) && NoEmphasisChar(PreClose)
  {
    var a, b, c := "<pre class=\"bg-gray-", "100 dark:bg-gray-900", " p-3 rounded-md my-2";
    var d, e := " text-sm overflow-x-", "auto\"><code>";
    assert NoEmphasisChar(a) && NoEmphasisChar(b) && NoEmphasisChar(c);
    assert NoEmphasisChar(d) && NoEmphasisChar(e);
    NoEmphasisAppend(a, b);
    NoEmphasisAppend(a + b, c);
    NoEmphasisAppend(a + b + c, d);
    NoEmphasisAppend(a + b + c + d, e);
    assert NoEmphasisChar(PreClose);
  }

  lemma NoEmphasisAppend(a: string, b: string)
    requires NoEmphasisChar(a) && NoEmphasisChar(b)
    ensures NoEmphasisChar(a + b)
  {
    assert forall k :: 0 <= k < |a + b| ==> (a + b)[k] == if k < |a| then a[k] else b[k - |a|];
  }

  /** The code block rendering does not shield its content from the later
      passes: an italic span inside a fenced block is still turned into
      `<em>`. */
  lemma FencedItalicIsStillRendered(x: string)
    requires NoEmphasisChar(x) && '<' !in x && '>' !in x
    requires forall t :: 0 <= t < |x| ==> !IsLineTerminator(x[t])
    ensures ItalicPass(FenceHtml("*" + x + "*")) == PreOpen + Tagged("em", x) + PreClose
  {
    EscapeAnglesIdentity("*" + x + "*");
    FenceWrapperHasNoEmphasis();
    ItalicSplice(PreOpen, '*', x, PreClose);
    Regroup(PreOpen, "*" + x, "*");
    Regroup(PreOpen, "*", x);
  }

  /** An underscore-joined word such as `snake_case_name` is read as an
      italic span. */
  lemma SnakeCaseBecomesItalic(a: string, b: string, c: string)
    requires NoEmphasisChar(a) && NoEmphasisChar(b) && NoEmphasisChar(c)
    requires forall t :: 0 <= t < |b| ==> !IsLineTerminator(b[t])
    ensures ItalicPass(a + "_" + b + "_" + c) == a + Tagged("em", b) + c
  {
    ItalicSplice(a, '_', b, c);
    assert a + "_" + b + "_" + c == a + ['_'] + b + ['_'] + c;
  }

  /** A bold opener without its closer survives the bold pass, and the
      italic pass then reads its two asterisks as an empty italic span:
      `**a` becomes `<em></em>a`. */
  lemma UnclosedBoldBecomesEmptyItalic(x: string)
    requires NoEmphasisChar(x)
    ensures BoldPass("**" + x) == "**" + x
    ensures ItalicPass(BoldPass("**" + x)) == Tagged("em", "") + x
  {
    UnclosedBoldKept(x);
    var s := "**" + x;
    assert ItalicPass(s) == Tagged("em", "") + x by {
      ItalicSplice([], '*', [], x);
      assert [] + ['*'] + [] + ['*'] == "**";
      assert [] + Tagged("em", []) == Tagged("em", "");
    }
  }

  lemma UnclosedBoldKept(x: string)
    requires NoEmphasisChar(x)
    ensures BoldPass("**" + x) == "**" + x
  {
    NoBoldInUnclosed(x);
    assert Advancing("**" + x, MatchBold);
    NoMatchIdentity("**" + x, MatchBold);
  }

  lemma NoBoldInUnclosed(x: string)
    requires NoEmphasisChar(x)
    ensures forall j :: 0 <= j < |"**" + x| ==> MatchBold("**" + x, j).None?
  {
    var s := "**" + x;
    assert forall t :: 2 <= t < |s| ==> s[t] == x[t - 2];
    forall j | 0 <= j < |s| ensures MatchBold(s, j).None? {
      MismatchAt(s, j, "__", 0);
      if j == 0 {
        forall k | 2 <= k ensures !OccursAt(s, k, "**") {
          if k < |s| {
            MismatchAt(s, k, "**", 0);
          }
        }
      } else if j + 1 < |s| {
        MismatchAt(s, j, "**", 1);
      }
    }
  }

  /** Code runs after the emphasis passes, so emphasis written inside
      backticks reaches it as markup and is shown as escaped text. */
  lemma EmphasisInCodeIsEscaped(x: string)
    requires '`' !in x && '<' !in x && '>' !in x
    ensures CodePass("`" + Tagged("em", x) + "`") == CodeOpen + "&lt;em&gt;" + x + "&lt;/em&gt;" + CodeClose
  {
    var t := Tagged("em", x);
    var s := "`" + t + "`";
    EscapedEmphasis(x);
    assert forall k :: 0 < k < |s| - 1 ==> s[k] == t[k - 1];
    assert CodeShape(s, 0, |s| - 1);
    CodeFound(s, 0, |s| - 1);
    assert s[1..|s| - 1] == t;
    assert Advancing(s, MatchCode);
    ReplaceOneHit(s, 0, MatchCode);
    assert s[..0] == [] && s[|s|..] == [];
  }

  lemma EscapedEmphasis(x: string)
    requires '`' !in x && '<' !in x && '>' !in x
    ensures '`' !in Tagged("em", x)
    ensures EscapeAngles(Tagged("em", x)) == "&lt;em&gt;" + x + "&lt;/em&gt;"
  {
    EscapedTagged("em", x);
    assert "&lt;" + "em" + "&gt;" == "&lt;em&gt;";
    assert "&lt;/" + "em" + "&gt;" == "&lt;/em&gt;";
    assert Tagged("em", x) == "<em>" + x + "</em>";
  }

  /** `<tag>x</tag>` escapes tag by tag. */
  lemma EscapedTagged(tag: string, x: string)
    requires '<' !in tag && '>' !in tag && '<' !in x && '>' !in x
    ensures EscapeAngles(Tagged(tag, x)) == "&lt;" + tag + "&gt;" + x + "&lt;/" + tag + "&gt;"
  {
    var open := "<" + tag + ">";
    var close := "<" + ("/" + tag) + ">";
    assert Tagged(tag, x) == open + x + close;
    EscapeAnglesAppend(open + x, close);
    EscapeAnglesAppend(open, x);
    EscapeAnglesIdentity(x);
    EscapedTag(tag);
    EscapedTag("/" + tag);
  }

  /** `<name>` escapes to `&lt;name&gt;`. */
  lemma EscapedTag(name: string)
    requires '<' !in name && '>' !in name
    ensures EscapeAngles("<" + name + ">") == "&lt;" + name + "&gt;"
  {
    EscapeAnglesAppend3("<", name, ">");
    EscapedLt();
    EscapedGt();
    EscapeAnglesIdentity(name);
  }

  lemma EscapeAnglesAppend3(a: string, b: string, c: string)
    ensures EscapeAngles(a + b + c) == EscapeAngles(a) + EscapeAngles(b) + EscapeAngles(c)
  {
    EscapeAnglesAppend(a + b, c);
    EscapeAnglesAppend(a, b);
  }

  lemma EscapedLt()
    ensures EscapeAngles("<") == "&lt;"
  {
    EscapeAnglesCons('<', []);
    EscapeAnglesIdentity([]);
    assert ['<'] + [] == "<";
  }

  lemma EscapedGt()
    ensures EscapeAngles(">") == "&gt;"
  {
    EscapeAnglesCons('>', []);
    EscapeAnglesIdentity([]);
    assert ['>'] + [] == ">";
  }
}
