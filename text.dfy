/** String primitives of JavaScript that the modelled code relies on: the
    character classes of its regular expressions, `indexOf`-style search,
    `trim`, `split`, `join`, `substring(0, n)` and decimal `toString`.
    Strings are sequences of characters. */
module Text {
  import opened Wrappers

  /** The JavaScript line terminators: what a regex `.` refuses and what
      `^` under the `m` flag may follow. */
  predicate IsLineTerminator(c: char) {
    c == '\n' || c == '\r' || c == '\U{2028}' || c == '\U{2029}'
  }

  /** The JavaScript regex class `\s`; `String.prototype.trim` strips the
      same set (WhiteSpace and LineTerminator). */
  predicate IsSpace(c: char) {
    || c == '\t' || c == '\n' || c == '\U{000B}' || c == '\U{000C}' || c == '\r' || c == ' '
    || c == '\U{00A0}' || c == '\U{1680}' || ('\U{2000}' <= c <= '\U{200A}')
    || c == '\U{2028}' || c == '\U{2029}' || c == '\U{202F}' || c == '\U{205F}'
    || c == '\U{3000}' || c == '\U{FEFF}'
  }

  /** The regex class `\d`. */
  predicate IsDigit(c: char) {
    '0' <= c <= '9'
  }

  predicate AllSpace(s: string) {
    forall k :: 0 <= k < |s| ==> IsSpace(s[k])
  }

  /** `s[a..b]` is a stretch of blanks. */
  predicate SpaceBetween(s: string, a: int, b: int) {
    0 <= a <= b <= |s| && AllSpace(s[a..b])
  }

  /** A stretch of blanks read off the indices. */
  lemma AllSpaceSlice(s: string, a: nat, b: nat)
    requires a <= b <= |s|
    requires forall t :: a <= t < b ==> IsSpace(s[t])
    ensures AllSpace(s[a..b])
  {
    forall k | 0 <= k < b - a ensures IsSpace(s[a..b][k]) {
      assert s[a..b][k] == s[a + k];
    }
  }

  /** `pat` occurs in `s` starting at index `k`. */
  predicate OccursAt(s: string, k: nat, pat: string) {
    k + |pat| <= |s| && s[k..k + |pat|] == pat
  }

  /** A pattern cannot occur where one of its characters is missing. */
  lemma MismatchAt(s: string, k: nat, pat: string, t: nat)
    requires t < |pat| && k + t < |s| && s[k + t] != pat[t]
    ensures !OccursAt(s, k, pat)
  {
    if k + |pat| <= |s| {
      assert s[k..k + |pat|][t] == s[k + t];
    }
  }

  /** Where a pattern occurs, each of its characters is in place. */
  lemma OccursChars(s: string, k: nat, pat: string)
    requires OccursAt(s, k, pat)
    ensures forall t :: 0 <= t < |pat| ==> s[k + t] == pat[t]
  {
    forall t | 0 <= t < |pat| ensures s[k + t] == pat[t] {
      assert s[k..k + |pat|][t] == s[k + t];
    }
  }

  /** The blanks of a stretch, one index at a time. */
  lemma SpaceBetweenAt(s: string, a: int, b: int)
    requires SpaceBetween(s, a, b)
    ensures forall t :: a <= t < b ==> IsSpace(s[t])
  {
    forall t | a <= t < b ensures IsSpace(s[t]) {
      assert s[t] == s[a..b][t - a];
    }
  }

  /** No line terminator in `s[a..b]`: a regex `.*` can span it. */
  predicate LineFree(s: string, a: nat, b: nat) {
    a <= b <= |s| && forall t :: a <= t < b ==> !IsLineTerminator(s[t])
  }

  /** The first occurrence of `pat` at or after `from`. */
  function Find(s: string, from: nat, pat: string): (r: Option<nat>)
    ensures r.Some? ==> from <= r.value && OccursAt(s, r.value, pat)
    ensures r.Some? ==> forall k :: from <= k < r.value ==> !OccursAt(s, k, pat)
    ensures r.None? ==> forall k :: from <= k ==> !OccursAt(s, k, pat)
    decreases |s| - from
  {
    if from + |pat| > |s| then None
    else if OccursAt(s, from, pat) then Some(from)
    else Find(s, from + 1, pat)
  }

  /** What a lazy `.*?pat` finds when it starts at `from`: the first
      occurrence of `pat` that is not separated from `from` by a line
      terminator. */
  function FindOnLine(s: string, from: nat, pat: string): (r: Option<nat>)
    ensures r.Some? ==> from <= r.value && OccursAt(s, r.value, pat) && LineFree(s, from, r.value)
    ensures r.Some? ==> forall k :: from <= k < r.value ==> !OccursAt(s, k, pat)
    ensures r.None? ==> forall k :: from <= k && OccursAt(s, k, pat) ==> !LineFree(s, from, k)
    decreases |s| - from
  {
    if from + |pat| > |s| then None
    else if OccursAt(s, from, pat) then Some(from)
    else if IsLineTerminator(s[from]) then None
    else FindOnLine(s, from + 1, pat)
  }

  /** The first index at or after `from` that holds `c`: `indexOf(c, from)`. */
  function FindChar(s: string, from: nat, c: char): (r: Option<nat>)
    ensures r.Some? ==> from <= r.value < |s| && s[r.value] == c
    ensures r.Some? ==> forall k :: from <= k < r.value ==> s[k] != c
    ensures r.None? ==> forall k :: from <= k < |s| ==> s[k] != c
    decreases |s| - from
  {
    if from >= |s| then None
    else if s[from] == c then Some(from)
    else FindChar(s, from + 1, c)
  }

  /** The last index in `[lo, hi)` that holds `c`: where a greedy `.*c`
      that is confined to `s[lo..hi]` stops. */
  function LastIndexOf(s: string, lo: nat, hi: nat, c: char): (r: Option<nat>)
    requires hi <= |s|
    ensures r.Some? ==> lo <= r.value < hi && s[r.value] == c
    ensures r.Some? ==> forall t :: r.value < t < hi ==> s[t] != c
    ensures r.None? ==> forall t :: lo <= t < hi ==> s[t] != c
    decreases hi
  {
    if hi <= lo then None
    else if s[hi - 1] == c then Some(hi - 1)
    else LastIndexOf(s, lo, hi - 1, c)
  }

  /** Where `^` matches under the `m` flag. */
  predicate IsLineStart(s: string, i: nat) {
    i == 0 || (0 < i <= |s| && IsLineTerminator(s[i - 1]))
  }

  /** A character a regex `.` accepts. */
  predicate IsLineChar(c: char) {
    !IsLineTerminator(c)
  }

  /** `c` occurs nowhere in `s`. */
  predicate NoChar(s: string, c: char) {
    forall k :: 0 <= k < |s| ==> s[k] != c
  }

  /** `String.prototype.includes`. */
  predicate Contains(s: string, pat: string)
    ensures Contains(s, pat) <==> exists k :: 0 <= k && OccursAt(s, k, pat)
  {
    Find(s, 0, pat).Some?
  }

  /** The end of the longest run of characters satisfying `p` from `k`:
      what a greedy `p*` consumes. */
  function SkipWhile(s: string, k: nat, p: char -> bool): (r: nat)
    requires k <= |s|
    ensures k <= r <= |s|
    ensures forall t :: k <= t < r ==> p(s[t])
    ensures r == |s| || !p(s[r])
    decreases |s| - k
  {
    if k == |s| || !p(s[k]) then k else SkipWhile(s, k + 1, p)
  }

  /** A run of `p` characters that stops at `e` is what `SkipWhile`
      consumes. */
  lemma SkipWhileStops(s: string, k: nat, e: nat, p: char -> bool)
    requires k <= e <= |s|
    requires forall t :: k <= t < e ==> p(s[t])
    requires e == |s| || !p(s[e])
    ensures SkipWhile(s, k, p) == e
  {
  }

  /** `s` has no surrounding JavaScript whitespace. */
  predicate Trimmed(s: string) {
    s == [] || (!IsSpace(s[0]) && !IsSpace(s[|s| - 1]))
  }

  function TrimEnd(s: string): (r: string)
    ensures |r| <= |s| && r == s[..|r|] && AllSpace(s[|r|..])
    ensures r == [] || !IsSpace(r[|r| - 1])
  {
    if s != [] && IsSpace(s[|s| - 1]) then TrimEnd(s[..|s| - 1]) else s
  }

  /** `String.prototype.trim`: the result is a slice of `s` with only
      whitespace cut off on either side, and it has none left at its ends. */
  function Trim(s: string): (r: string)
    ensures Trimmed(r)
    ensures exists a, b :: 0 <= a <= b <= |s| && r == s[a..b] && AllSpace(s[..a]) && AllSpace(s[b..])
  {
    var a := SkipWhile(s, 0, IsSpace);
    var r := TrimEnd(s[a..]);
    assert r == s[a..a + |r|] && s[a + |r|..] == s[a..][|r|..];
    r
  }

  /** `String.prototype.split` with a one-character separator. */
  function Split(s: string, c: char): (r: seq<string>)
    ensures |r| >= 1
    ensures forall k :: 0 <= k < |r| ==> c !in r[k]
    decreases |s|
  {
    if s == [] then [[]]
    else
      var rest := Split(s[1..], c);
      if s[0] == c then [[]] + rest else [[s[0]] + rest[0]] + rest[1..]
  }

  /** `Array.prototype.join`. */
  function Join(parts: seq<string>, sep: string): string {
    if |parts| == 0 then []
    else if |parts| == 1 then parts[0]
    else parts[0] + sep + Join(parts[1..], sep)
  }

  /** Joining one more part adds the separator and the part. */
  lemma {:induction false} JoinSnoc(parts: seq<string>, x: string, sep: string)
    requires parts != []
    ensures Join(parts + [x], sep) == Join(parts, sep) + sep + x
    decreases |parts|
  {
    if |parts| == 1 {
      assert (parts + [x])[1..] == [x];
    } else {
      assert (parts + [x])[1..] == parts[1..] + [x];
      JoinSnoc(parts[1..], x, sep);
    }
  }

  /** `Array.prototype.slice(1, -1)`: everything but the first and the last. */
  function Inner<T>(xs: seq<T>): (r: seq<T>)
    ensures |xs| >= 2 ==> r == xs[1..|xs| - 1]
    ensures |xs| < 2 ==> r == []
  {
    if |xs| >= 2 then xs[1..|xs| - 1] else []
  }

  /** A global replace of the one-character pattern `c` by `with`. */
  function ReplaceChar(s: string, c: char, with: string): string {
    if s == [] then []
    else (if s[0] == c then with else [s[0]]) + ReplaceChar(s[1..], c, with)
  }

  /** `substring(0, n)`. */
  function Take(s: string, n: nat): (r: string)
    ensures |r| == if |s| < n then |s| else n
    ensures r == s[..|r|]
  {
    if |s| <= n then s else s[..n]
  }

  function DigitChar(d: nat): (c: char)
    requires d < 10
    ensures IsDigit(c)
  {
    ['0', '1', '2', '3', '4', '5', '6', '7', '8', '9'][d]
  }

  /** `Number.prototype.toString()` for a natural number. */
  function NatToString(n: nat): (r: string)
    ensures r != [] && forall k :: 0 <= k < |r| ==> IsDigit(r[k])
    ensures n > 0 ==> r[0] != '0'
  {
    if n < 10 then [DigitChar(n)] else NatToString(n / 10) + [DigitChar(n % 10)]
  }

  /** The value of a string of decimal digits. */
  function DecimalValue(s: string): int
    requires forall k :: 0 <= k < |s| ==> IsDigit(s[k])
  {
    if s == [] then 0 else DecimalValue(s[..|s| - 1]) * 10 + (s[|s| - 1] as int - '0' as int)
  }

  // ---------------------------------------------------------------------
  // Lemmas

  lemma {:induction false} NatToStringRoundTrip(n: nat)
    ensures DecimalValue(NatToString(n)) == n
  {
    if n >= 10 {
      NatToStringRoundTrip(n / 10);
      var r := NatToString(n);
      assert r[..|r| - 1] == NatToString(n / 10);
    }
  }

  /** Distinct numbers print differently. */
  lemma NatToStringInjective(m: nat, n: nat)
    requires NatToString(m) == NatToString(n)
    ensures m == n
  {
    NatToStringRoundTrip(m);
    NatToStringRoundTrip(n);
  }

  lemma {:induction false} SplitNoSeparator(s: string, c: char)
    requires c !in s
    ensures Split(s, c) == [s]
    decreases |s|
  {
    if s != [] {
      SplitNoSeparator(s[1..], c);
      assert [s[0]] + s[1..] == s;
    }
  }

  lemma {:induction false} SplitPieceThenSeparator(p: string, c: char, rest: string)
    requires c !in p
    ensures Split(p + [c] + rest, c) == [p] + Split(rest, c)
    decreases |p|
  {
    if p == [] {
      assert p + [c] + rest == [c] + rest;
      assert ([c] + rest)[1..] == rest;
    } else {
      SplitPieceThenSeparator(p[1..], c, rest);
      assert (p + [c] + rest)[1..] == p[1..] + [c] + rest;
      assert [p[0]] + p[1..] == p;
    }
  }

  /** One step of `Split` on a text that starts with the separator. */
  lemma SplitConsSeparator(s: string, c: char)
    ensures Split([c] + s, c) == [[]] + Split(s, c)
  {
    assert ([c] + s)[1..] == s;
  }

  /** One step of `Split` on a text that starts with another character. */
  lemma SplitConsOther(x: char, s: string, c: char)
    requires x != c
    ensures Split([x] + s, c) == [[x] + Split(s, c)[0]] + Split(s, c)[1..]
  {
    assert ([x] + s)[0] == x;
    assert ([x] + s)[1..] == s;
  }

  /** Extending the first piece of a split commutes with appending more
      pieces behind it. */
  lemma ExtendFirstPiece(x: char, left: seq<string>, right: seq<string>)
    requires |left| >= 1
    ensures [[x] + (left + right)[0]] + (left + right)[1..] == ([[x] + left[0]] + left[1..]) + right
  {
    assert (left + right)[0] == left[0];
    assert (left + right)[1..] == left[1..] + right;
  }

  /** The step of `SplitAppend` for a leading separator. */
  lemma SplitAppendSeparatorStep(rest: string, c: char, b: string)
    requires Split(rest + [c] + b, c) == Split(rest, c) + Split(b, c)
    ensures Split([c] + (rest + [c] + b), c) == Split([c] + rest, c) + Split(b, c)
  {
    SplitConsSeparator(rest + [c] + b, c);
    SplitConsSeparator(rest, c);
    PrependAssoc([], Split(rest, c), Split(b, c));
  }

  /** Putting one element in front of a concatenation. */
  lemma PrependAssoc<T>(x: T, left: seq<T>, right: seq<T>)
    ensures [x] + (left + right) == ([x] + left) + right
  {
  }

  /** The step of `SplitAppend` for a leading character that is not the
      separator. */
  lemma SplitAppendOtherStep(x: char, rest: string, c: char, b: string)
    requires x != c
    requires Split(rest + [c] + b, c) == Split(rest, c) + Split(b, c)
    ensures Split([x] + (rest + [c] + b), c) == Split([x] + rest, c) + Split(b, c)
  {
    SplitConsOther(x, rest + [c] + b, c);
    SplitConsOther(x, rest, c);
    ExtendFirstPiece(x, Split(rest, c), Split(b, c));
  }

  /** Splitting text joined at a separator gives the pieces of each
      side. */
  lemma {:induction false} SplitAppend(a: string, c: char, b: string)
    ensures Split(a + [c] + b, c) == Split(a, c) + Split(b, c)
    decreases |a|
  {
    if a == [] {
      assert a + [c] + b == [c] + b;
      SplitConsSeparator(b, c);
    } else {
      SplitRegroup(a, c, b);
      SplitAppend(a[1..], c, b);
      if a[0] == c {
        SplitAppendSeparatorStep(a[1..], c, b);
      } else {
        SplitAppendOtherStep(a[0], a[1..], c, b);
      }
    }
  }

  /** The regrouping `SplitAppend` needs, with no `Split` in sight. */
  lemma SplitRegroup(a: string, c: char, b: string)
    requires a != []
    ensures a + [c] + b == [a[0]] + (a[1..] + [c] + b)
    ensures a == [a[0]] + a[1..]
  {
  }

  /** Splitting undoes joining when no piece holds the separator. */
  lemma {:induction false} SplitJoin(parts: seq<string>, c: char)
    requires |parts| >= 1
    requires forall k :: 0 <= k < |parts| ==> c !in parts[k]
    ensures Split(Join(parts, [c]), c) == parts
  {
    if |parts| == 1 {
      SplitNoSeparator(parts[0], c);
    } else {
      SplitJoin(parts[1..], c);
      SplitPieceThenSeparator(parts[0], c, Join(parts[1..], [c]));
      assert [parts[0]] + parts[1..] == parts;
    }
  }

  /** Joining undoes splitting. */
  lemma {:induction false} JoinSplit(s: string, c: char)
    ensures Join(Split(s, c), [c]) == s
    decreases |s|
  {
    if s != [] {
      JoinSplit(s[1..], c);
      var rest := Split(s[1..], c);
      if s[0] != c {
        if |rest| > 1 {
          assert ([[s[0]] + rest[0]] + rest[1..])[1..] == rest[1..];
          assert rest == [rest[0]] + rest[1..];
        }
      } else {
        assert ([[]] + rest)[1..] == rest;
      }
    }
  }

  lemma TrimOfTrimmed(s: string)
    requires Trimmed(s)
    ensures Trim(s) == s
  {
    var a := SkipWhile(s, 0, IsSpace);
    if s != [] {
      assert a == 0;
    }
  }

  /** One leading blank is dropped by `trim` and nothing else is. */
  lemma TrimAfterBlank(s: string)
    requires Trimmed(s)
    ensures Trim([' '] + s) == s
  {
    var t := [' '] + s;
    var a := SkipWhile(t, 0, IsSpace);
    assert t[1..] == s;
    if s != [] {
      assert !IsSpace(t[1]);
      assert a == 1;
    }
  }

  lemma {:induction false} ReplaceCharAppend(a: string, b: string, c: char, with: string)
    ensures ReplaceChar(a + b, c, with) == ReplaceChar(a, c, with) + ReplaceChar(b, c, with)
    decreases |a|
  {
    if a != [] {
      ReplaceCharAppend(a[1..], b, c, with);
      assert (a + b)[0] == a[0] && (a + b)[1..] == a[1..] + b;
    } else {
      assert a + b == b;
    }
  }

  lemma {:induction false} ReplaceCharAbsent(s: string, c: char, with: string)
    requires c !in s
    ensures ReplaceChar(s, c, with) == s
    decreases |s|
  {
    if s != [] {
      ReplaceCharAbsent(s[1..], c, with);
      assert [s[0]] + s[1..] == s;
    }
  }

  /** A replace that brings in no `d` leaves a text without `d` without one. */
  lemma {:induction false} ReplaceCharKeepsAbsent(s: string, c: char, with: string, d: char)
    requires d !in s && d !in with
    ensures d !in ReplaceChar(s, c, with)
    decreases |s|
  {
    if s != [] {
      ReplaceCharKeepsAbsent(s[1..], c, with, d);
      assert s[0] != d;
    }
  }

  /** After a global replace of `c` with a text without `c`, no `c` is left. */
  lemma {:induction false} ReplaceCharRemoves(s: string, c: char, with: string)
    requires c !in with
    ensures c !in ReplaceChar(s, c, with)
    decreases |s|
  {
    if s != [] {
      ReplaceCharRemoves(s[1..], c, with);
    }
  }
}
