/** The build script that rewrites the string literals of a source file so
    that every non-ASCII UTF-16 code unit inside them is written as a
    `\uXXXX` escape. Text is a sequence of UTF-16 code units: a lone
    surrogate is a unit like any other. */
module EscapeUnicode {
  import opened Wrappers
  import opened GlobalReplace
  import opened Lists

  type CodeUnit = u: int | 0 <= u <= 0xFFFF

  const Backslash: CodeUnit := 0x5C
  const LowerU: CodeUnit := 0x75
  const Zero: CodeUnit := 0x30
  const SingleQuote: CodeUnit := 0x27
  const DoubleQuote: CodeUnit := 0x22

  predicate IsAscii(u: CodeUnit) {
    u <= 0x7F
  }

  // ---------------------------------------------------------------------
  // Hexadecimal digits: `cp.toString(16).padStart(4, '0')`

  /** The lower-case digit for `d`. */
  function HexDigit(d: nat): (u: CodeUnit)
    requires d < 16
    ensures IsHexDigit(u) && DigitValue(u) == d
    ensures IsLowerHexDigit(u)
  {
    if d < 10 then 0x30 + d else 0x61 + (d - 10)
  }

  predicate IsHexDigit(u: CodeUnit) {
    (0x30 <= u <= 0x39) || (0x41 <= u <= 0x46) || (0x61 <= u <= 0x66)
  }

  /** The digits `toString(16)` writes: `0`-`9` and `a`-`f`. */
  predicate IsLowerHexDigit(u: CodeUnit) {
    (0x30 <= u <= 0x39) || (0x61 <= u <= 0x66)
  }

  function DigitValue(u: CodeUnit): (d: nat)
    requires IsHexDigit(u)
    ensures d < 16
  {
    if u <= 0x39 then u - 0x30 else if u <= 0x46 then u - 0x41 + 10 else u - 0x61 + 10
  }

  predicate AllHex(ds: seq<CodeUnit>) {
    forall k :: 0 <= k < |ds| ==> IsHexDigit(ds[k])
  }

  /** The number a string of hex digits denotes, most significant first. */
  function HexValue(ds: seq<CodeUnit>): nat
    requires AllHex(ds)
  {
    if ds == [] then 0 else HexValue(ds[..|ds| - 1]) * 16 + DigitValue(ds[|ds| - 1])
  }

  function Pow16(n: nat): nat {
    if n == 0 then 1 else 16 * Pow16(n - 1)
  }

  lemma {:induction false} HexValueBound(ds: seq<CodeUnit>)
    requires AllHex(ds)
    ensures HexValue(ds) < Pow16(|ds|)
    decreases |ds|
  {
    if ds != [] {
      HexValueBound(ds[..|ds| - 1]);
    }
  }

  /** `n.toString(16)`: lower-case digits without leading zeros. */
  function ToHex(n: nat): (r: seq<CodeUnit>)
    ensures r != [] && AllHex(r)
    ensures forall k :: 0 <= k < |r| ==> IsLowerHexDigit(r[k])
  {
    if n < 16 then [HexDigit(n)] else ToHex(n / 16) + [HexDigit(n % 16)]
  }

  /** `padStart(width, '0')`. */
  function PadStart(ds: seq<CodeUnit>, width: nat): (r: seq<CodeUnit>)
    ensures |r| == if |ds| < width then width else |ds|
    ensures forall k :: 0 <= k < |r| - |ds| ==> r[k] == Zero
    ensures r[|r| - |ds|..] == ds
    decreases width - |ds|
  {
    if |ds| >= width then ds else PadStart([Zero] + ds, width)
  }

  function Hex4(u: CodeUnit): seq<CodeUnit> {
    PadStart(ToHex(u), 4)
  }

  /** `'\\u' + cp.toString(16).padStart(4, '0')`. */
  function EscapeUnit(u: CodeUnit): seq<CodeUnit> {
    [Backslash, LowerU] + Hex4(u)
  }

  lemma {:induction false} ToHexRoundTrip(n: nat)
    ensures HexValue(ToHex(n)) == n
  {
    if n >= 16 {
      ToHexRoundTrip(n / 16);
      var r := ToHex(n);
      assert r[..|r| - 1] == ToHex(n / 16);
    }
  }

  lemma {:induction false} ToHexLength(n: nat)
    requires n < 0x1_0000
    ensures |ToHex(n)| <= 4
  {
    if n >= 16 {
      ToHexLength(n / 16);
      if n < 0x100 {
        assert n / 16 < 16;
      } else if n < 0x1000 {
        assert n / 16 < 0x100;
        ToHexShort(n / 16);
      } else {
        assert n / 16 < 0x1000;
        ToHexShorter(n / 16);
      }
    }
  }

  lemma ToHexShort(n: nat)
    requires n < 0x100
    ensures |ToHex(n)| <= 2
  {
  }

  lemma ToHexShorter(n: nat)
    requires n < 0x1000
    ensures |ToHex(n)| <= 3
  {
    if n >= 16 {
      ToHexShort(n / 16);
    }
  }

  /** Leading zeros do not change the value. */
  lemma {:induction false} LeadingZeroValue(ds: seq<CodeUnit>)
    requires AllHex(ds)
    ensures AllHex([Zero] + ds) && HexValue([Zero] + ds) == HexValue(ds)
    decreases |ds|
  {
    if ds != [] {
      LeadingZeroValue(ds[..|ds| - 1]);
      assert ([Zero] + ds)[..|ds|] == [Zero] + ds[..|ds| - 1];
    }
  }

  lemma {:induction false} PadStartValue(ds: seq<CodeUnit>, width: nat)
    requires AllHex(ds)
    ensures AllHex(PadStart(ds, width)) && HexValue(PadStart(ds, width)) == HexValue(ds)
    decreases width - |ds|
  {
    if |ds| < width {
      LeadingZeroValue(ds);
      PadStartValue([Zero] + ds, width);
    }
  }

  /** The four digits are exactly four, lower-case hex, and denote the
      unit. */
  lemma Hex4RoundTrip(u: CodeUnit)
    ensures |Hex4(u)| == 4 && AllHex(Hex4(u))
    ensures forall k :: 0 <= k < 4 ==> IsLowerHexDigit(Hex4(u)[k])
    ensures HexValue(Hex4(u)) == u
  {
    ToHexLength(u);
    ToHexRoundTrip(u);
    PadStartValue(ToHex(u), 4);
    var ds := ToHex(u);
    var r := Hex4(u);
    forall k | 0 <= k < 4 ensures IsLowerHexDigit(r[k]) {
      if k >= 4 - |ds| {
        assert r[k] == r[4 - |ds|..][k - (4 - |ds|)] == ds[k - (4 - |ds|)];
      }
    }
  }

  // ---------------------------------------------------------------------
  // The body of one literal

  /** What the loop builds from a literal body: a backslash is copied with
      the unit after it (or alone at the end), a non-ASCII unit becomes its
      `\uXXXX` escape, anything else is copied. */
  function EscapeBody(body: seq<CodeUnit>): seq<CodeUnit>
    decreases |body|
  {
    if body == [] then []
    else if body[0] == Backslash then
      if |body| >= 2 then body[..2] + EscapeBody(body[2..]) else body
    else if !IsAscii(body[0]) then EscapeUnit(body[0]) + EscapeBody(body[1..])
    else [body[0]] + EscapeBody(body[1..])
  }

  /** `lit.slice(1, -1)`. */
  function Body(lit: seq<CodeUnit>): seq<CodeUnit> {
    if |lit| >= 2 then lit[1..|lit| - 1] else []
  }

  /** The whole rewritten literal; the quote is the literal's first unit. */
  function EscapeLiteral(lit: seq<CodeUnit>): seq<CodeUnit>
    requires |lit| >= 1
  {
    [lit[0]] + EscapeBody(Body(lit)) + [lit[0]]
  }

  /** `escapeNonAsciiInStringLiteral`. The loop index moves by two over a
      backslash and the unit it escapes. Since `body[i]` is one code unit,
      `codePointAt(0)` is that unit and never exceeds 0xFFFF, so the
      `\u{…}` branch cannot run. */
  method EscapeNonAsciiInStringLiteral(lit: seq<CodeUnit>) returns (out: seq<CodeUnit>)
    requires |lit| >= 1
    ensures out == [lit[0]] + EscapeBody(Body(lit)) + [lit[0]]
  {
    var quote := lit[0];
    var body := Body(lit);
    var escaped: seq<CodeUnit> := [];
    var i := 0;
    while i < |body|
      invariant 0 <= i <= |body|
      invariant escaped + EscapeBody(body[i..]) == EscapeBody(body)
    {
      var ch := body[i];
      var cp: int := ch;
      if ch == Backslash {
        if i + 1 < |body| {
          EscapePairStep(body, i, escaped);
        } else {
          EscapeLastStep(body, i, escaped);
        }
        escaped := escaped + [ch];
        if i + 1 < |body| {
          i := i + 1;
          escaped := escaped + [body[i]];
        }
        i := i + 1;
        continue;
      }
      EscapeUnitStep(body, i, escaped);
      if cp > 0x7F {
        if cp <= 0xFFFF {
          escaped := escaped + ([Backslash, LowerU] + Hex4(ch));
        } else {
          assert false;
        }
      } else {
        escaped := escaped + [ch];
      }
      i := i + 1;
    }
    out := [quote] + escaped + [quote];
  }

  /** The steps of the loop, on what is left of the body behind the output
      `done` built so far: a backslash with the unit after it, a backslash
      at the end, and one other unit. */
  lemma EscapePairStep(body: seq<CodeUnit>, i: nat, done: seq<CodeUnit>)
    requires i + 1 < |body| && body[i] == Backslash
    ensures done + EscapeBody(body[i..]) == done + [body[i]] + [body[i + 1]] + EscapeBody(body[i + 2..])
  {
    var rest := body[i..];
    assert rest[..2] == [body[i]] + [body[i + 1]];
    assert rest[2..] == body[i + 2..];
  }

  lemma EscapeLastStep(body: seq<CodeUnit>, i: nat, done: seq<CodeUnit>)
    requires i + 1 == |body| && body[i] == Backslash
    ensures done + EscapeBody(body[i..]) == done + [body[i]] + EscapeBody(body[i + 1..])
  {
    assert body[i..] == [body[i]];
  }

  lemma EscapeUnitStep(body: seq<CodeUnit>, i: nat, done: seq<CodeUnit>)
    requires i < |body| && body[i] != Backslash
    ensures !IsAscii(body[i]) ==> done + EscapeBody(body[i..]) == done + EscapeUnit(body[i]) + EscapeBody(body[i + 1..])
    ensures IsAscii(body[i]) ==> done + EscapeBody(body[i..]) == done + [body[i]] + EscapeBody(body[i + 1..])
  {
    var rest := body[i..];
    assert rest[0] == body[i];
    assert rest[1..] == body[i + 1..];
  }

  /** Hex digits are ASCII, and so is an escape throughout. */
  lemma HexIsAscii(ds: seq<CodeUnit>)
    requires AllHex(ds)
    ensures AllAscii(ds)
  {
    forall k | 0 <= k < |ds| ensures IsAscii(ds[k]) {
      assert IsHexDigit(ds[k]);
    }
  }

  lemma EscapeUnitAscii(u: CodeUnit)
    ensures AllAscii(EscapeUnit(u))
  {
    PadStartValue(ToHex(u), 4);
    var h := Hex4(u);
    HexIsAscii(h);
    var e := EscapeUnit(u);
    assert e == [Backslash, LowerU] + h;
    forall k | 0 <= k < |e| ensures IsAscii(e[k]) {
      if k >= 2 {
        assert e[k] == h[k - 2];
      }
    }
  }

  /** The number of units the loop escapes. */
  function EscapedCount(body: seq<CodeUnit>): nat
    decreases |body|
  {
    if body == [] then 0
    else if body[0] == Backslash then (if |body| >= 2 then EscapedCount(body[2..]) else 0)
    else (if IsAscii(body[0]) then 0 else 1) + EscapedCount(body[1..])
  }

  /** Each escaped unit grows by five: `\u` and four digits for one. */
  lemma {:induction false} EscapeBodyLength(body: seq<CodeUnit>)
    ensures |EscapeBody(body)| == |body| + 5 * EscapedCount(body)
    decreases |body|
  {
    if body != [] {
      if body[0] == Backslash {
        if |body| >= 2 {
          EscapeBodyLength(body[2..]);
        }
      } else {
        EscapeBodyLength(body[1..]);
        if !IsAscii(body[0]) {
          Hex4RoundTrip(body[0]);
        }
      }
    }
  }

  predicate AllAscii(s: seq<CodeUnit>) {
    forall k :: 0 <= k < |s| ==> IsAscii(s[k])
  }

  /** An all-ASCII body is copied as it is. */
  lemma {:induction false} AsciiBodyUnchanged(body: seq<CodeUnit>)
    requires AllAscii(body)
    ensures EscapeBody(body) == body
    decreases |body|
  {
    if body != [] {
      if body[0] == Backslash {
        if |body| >= 2 {
          AsciiBodyUnchanged(body[2..]);
          assert body[..2] + body[2..] == body;
        }
      } else {
        AsciiBodyUnchanged(body[1..]);
        assert [body[0]] + body[1..] == body;
      }
    }
  }

  /** The escaped body starts with an ASCII unit. */
  lemma FirstUnitAscii(body: seq<CodeUnit>)
    requires body != []
    ensures EscapeBody(body) != [] && IsAscii(EscapeBody(body)[0])
  {
  }

  /** A non-ASCII unit survives only right behind a backslash: the one
      escaped by it in the input. */
  predicate OnlyEscapedNonAscii(e: seq<CodeUnit>) {
    forall k :: 0 <= k < |e| && !IsAscii(e[k]) ==> k > 0 && e[k - 1] == Backslash
  }

  /** Putting ASCII units, or a backslash and any unit, in front keeps the
      property when the rest starts with ASCII. */
  lemma PrefixKeepsOnlyEscaped(p: seq<CodeUnit>, e: seq<CodeUnit>)
    requires OnlyEscapedNonAscii(p) && OnlyEscapedNonAscii(e)
    requires e == [] || IsAscii(e[0])
    ensures OnlyEscapedNonAscii(p + e)
  {
    var r := p + e;
    forall k | 0 <= k < |r| && !IsAscii(r[k]) ensures k > 0 && r[k - 1] == Backslash {
      if k < |p| {
        assert r[k] == p[k] && r[k - 1] == p[k - 1];
      } else {
        assert r[k] == e[k - |p|];
        assert r[k - 1] == e[k - |p| - 1];
      }
    }
  }

  lemma {:induction false} NonAsciiOnlyAfterBackslash(body: seq<CodeUnit>)
    ensures OnlyEscapedNonAscii(EscapeBody(body))
    decreases |body|
  {
    if body == [] {
    } else if body[0] == Backslash {
      if |body| >= 2 {
        NonAsciiOnlyAfterBackslash(body[2..]);
        PairKeepsOnlyEscaped(body);
      }
    } else {
      NonAsciiOnlyAfterBackslash(body[1..]);
      UnitKeepsOnlyEscaped(body);
    }
  }

  lemma PairKeepsOnlyEscaped(body: seq<CodeUnit>)
    requires |body| >= 2 && body[0] == Backslash
    requires OnlyEscapedNonAscii(EscapeBody(body[2..]))
    ensures OnlyEscapedNonAscii(EscapeBody(body))
  {
    PairCopied(body);
    if body[2..] != [] {
      FirstUnitAscii(body[2..]);
    }
    PairPrefixKeeps(body, EscapeBody(body), EscapeBody(body[2..]));
  }

  /** A backslash and any unit in front of a rest that starts with ASCII
      keep the property. */
  lemma PairPrefixKeeps(body: seq<CodeUnit>, whole: seq<CodeUnit>, e: seq<CodeUnit>)
    requires |body| >= 2 && body[0] == Backslash && whole == body[..2] + e
    requires OnlyEscapedNonAscii(e) && (e == [] || IsAscii(e[0]))
    ensures OnlyEscapedNonAscii(whole)
  {
    assert body[..2] == [Backslash, body[1]];
    EscapedPairOnlyEscaped(body[1]);
    PrefixKeepsOnlyEscaped(body[..2], e);
  }

  lemma EscapedPairOnlyEscaped(u: CodeUnit)
    ensures OnlyEscapedNonAscii([Backslash, u])
  {
    var p := [Backslash, u];
    forall k | 0 <= k < |p| && !IsAscii(p[k]) ensures k > 0 && p[k - 1] == Backslash {
      assert k == 1;
    }
  }

  /** A backslash is copied together with the unit after it. */
  lemma PairCopied(body: seq<CodeUnit>)
    requires |body| >= 2 && body[0] == Backslash
    ensures EscapeBody(body) == body[..2] + EscapeBody(body[2..])
  {
  }

  lemma UnitKeepsOnlyEscaped(body: seq<CodeUnit>)
    requires body != [] && body[0] != Backslash
    requires OnlyEscapedNonAscii(EscapeBody(body[1..]))
    ensures OnlyEscapedNonAscii(EscapeBody(body))
  {
    var e := EscapeBody(body[1..]);
    if body[1..] != [] {
      FirstUnitAscii(body[1..]);
    }
    var head := if IsAscii(body[0]) then [body[0]] else EscapeUnit(body[0]);
    if !IsAscii(body[0]) {
      EscapeUnitAscii(body[0]);
    }
    assert OnlyEscapedNonAscii(head);
    assert EscapeBody(body) == head + e;
    PrefixKeepsOnlyEscaped(head, e);
  }

  /** The output keeps the quotes of the input and rewrites the body only;
      an all-ASCII literal comes out as it went in. */
  lemma LiteralShape(lit: seq<CodeUnit>)
    requires |lit| >= 2
    ensures var out := EscapeLiteral(lit);
      out[0] == lit[0] && out[|out| - 1] == lit[0] && out[1..|out| - 1] == EscapeBody(lit[1..|lit| - 1])
    ensures AllAscii(lit) && lit[|lit| - 1] == lit[0] ==> EscapeLiteral(lit) == lit
  {
    var b := EscapeBody(lit[1..|lit| - 1]);
    assert EscapeLiteral(lit) == [lit[0]] + b + [lit[0]];
    Framed(lit[0], b);
    if AllAscii(lit) && lit[|lit| - 1] == lit[0] {
      var inner := lit[1..|lit| - 1];
      assert AllAscii(inner) by {
        forall k | 0 <= k < |inner| ensures IsAscii(inner[k]) {
          assert inner[k] == lit[k + 1];
        }
      }
      AsciiBodyUnchanged(inner);
      FramedWhole(lit);
    }
  }

  /** A sequence between two copies of `q`. */
  lemma Framed<T>(q: T, b: seq<T>)
    ensures var out := [q] + b + [q];
      |out| == |b| + 2 && out[0] == q && out[|out| - 1] == q && out[1..|out| - 1] == b
  {
    var out := [q] + b + [q];
    assert out[1..|out| - 1] == b;
  }

  /** A sequence of two or more is its ends around its inside. */
  lemma FramedWhole<T>(lit: seq<T>)
    requires |lit| >= 2
    ensures [lit[0]] + lit[1..|lit| - 1] + [lit[|lit| - 1]] == lit
  {
  }

  // ---------------------------------------------------------------------
  // What a literal body denotes

  /** One element of a literal's value: a code unit, an escape other than
      `\uXXXX` (which yields the same value wherever it stands, since the
      units that may follow it as part of it are ASCII and copied), or a
      backslash that ends the body. */
  datatype Piece = Unit(u: CodeUnit) | Escaped(c: CodeUnit) | Dangling

  /** How a JavaScript literal body reads. */
  function Value(e: seq<CodeUnit>): seq<Piece>
    decreases |e|
  {
    if e == [] then []
    else if e[0] == Backslash then
      if |e| == 1 then [Dangling]
      else if e[1] == LowerU && |e| >= 6 && AllHex(e[2..6]) then
        HexValueBound(e[2..6]);
        assert Pow16(4) == 0x1_0000;
        [Unit(HexValue(e[2..6]) as CodeUnit)] + Value(e[6..])
      else [Escaped(e[1])] + Value(e[2..])
    else [Unit(e[0])] + Value(e[1..])
  }

  /** An ASCII unit other than a backslash is copied. */
  lemma CopiedUnit(t: seq<CodeUnit>)
    requires t != [] && t[0] != Backslash && IsAscii(t[0])
    ensures EscapeBody(t) == [t[0]] + EscapeBody(t[1..])
  {
  }

  /** A unit the loop copies as it is. */
  predicate IsCopiedUnit(u: CodeUnit) {
    u != Backslash && IsAscii(u)
  }

  /** Plain units in front of a body are copied as they are. */
  lemma {:induction false} PlainCopied(h: seq<CodeUnit>, r: seq<CodeUnit>)
    requires forall k :: 0 <= k < |h| ==> IsCopiedUnit(h[k])
    ensures EscapeBody(h + r) == h + EscapeBody(r)
    decreases |h|
  {
    if h != [] {
      var x := h + r;
      assert x[0] == h[0] && IsCopiedUnit(x[0]);
      assert x[1..] == h[1..] + r;
      CopiedUnit(x);
      PlainCopied(h[1..], r);
      Regroup([h[0]], h[1..], EscapeBody(r));
      assert [h[0]] + h[1..] == h;
    } else {
      assert h + r == r;
    }
  }

  lemma HexArePlain(t: seq<CodeUnit>, n: nat)
    requires n <= |t| && forall j :: 0 <= j < n ==> IsHexDigit(t[j])
    ensures forall k :: 0 <= k < |t[..n]| ==> IsCopiedUnit(t[..n][k])
  {
  }

  /** Hex digits at the front of a body are copied as they are. */
  lemma HexPrefixCopied(t: seq<CodeUnit>, n: nat)
    requires n <= |t| && forall j :: 0 <= j < n ==> IsHexDigit(t[j])
    ensures EscapeBody(t) == t[..n] + EscapeBody(t[n..])
  {
    HexArePlain(t, n);
    PlainCopied(t[..n], t[n..]);
    assert t[..n] + t[n..] == t;
  }

  /** A unit that is no hex digit stays one: it is copied, or it becomes an
      escape, which starts with a backslash. */
  lemma FirstNonHexStays(t: seq<CodeUnit>)
    requires t != [] && !IsHexDigit(t[0])
    ensures EscapeBody(t) != [] && !IsHexDigit(EscapeBody(t)[0])
  {
  }

  /** So the body does not start with four hex digits after escaping unless
      it did before. */
  lemma NoHexQuadStays(t: seq<CodeUnit>)
    requires !(|t| >= 4 && AllHex(t[..4]))
    ensures !(|EscapeBody(t)| >= 4 && AllHex(EscapeBody(t)[..4]))
  {
    var e := EscapeBody(t);
    var n := if |t| < 4 then |t| else 4;
    var k := 0;
    while k < n && IsHexDigit(t[k])
      invariant 0 <= k <= n
      invariant forall j :: 0 <= j < k ==> IsHexDigit(t[j])
    {
      k := k + 1;
    }
    HexPrefixCopied(t, k);
    if k < n {
      FirstNonHexStays(t[k..]);
      if |e| >= 4 {
        assert e[..4][k] == EscapeBody(t[k..])[0];
      }
    } else {
      assert t[k..] == [];
    }
  }

  /** Escaping does not change what a body denotes: a non-ASCII unit and its
      `\uXXXX` escape read as the same unit, and every escape sequence of
      the input is read the same way before and after. */
  lemma {:induction false} EscapePreservesValue(b: seq<CodeUnit>)
    ensures Value(EscapeBody(b)) == Value(b)
    decreases |b|
  {
    if b == [] {
    } else if b[0] == Backslash {
      if |b| >= 2 {
        EscapePreservesValue(b[2..]);
        if b[1] == LowerU && |b| >= 6 && AllHex(b[2..6]) {
          EscapePreservesValue(b[6..]);
          HexEscapeKept(b);
        } else {
          OtherEscapeKept(b);
        }
      }
    } else {
      EscapePreservesValue(b[1..]);
      UnitKept(b);
    }
  }

  lemma HexEscapeKept(b: seq<CodeUnit>)
    requires |b| >= 6 && b[0] == Backslash && b[1] == LowerU && AllHex(b[2..6])
    requires Value(EscapeBody(b[6..])) == Value(b[6..])
    ensures Value(EscapeBody(b)) == Value(b)
  {
    var e := EscapeBody(b);
    assert e[..6] == b[..6] && e[6..] == EscapeBody(b[6..]) by {
      HexEscapeCopied(b);
    }
    SameHexHead(e, b);
  }

  /** Two bodies that start with the same `\uXXXX` escape and go on with
      the same value have the same value. */
  lemma SameHexHead(e: seq<CodeUnit>, b: seq<CodeUnit>)
    requires |e| >= 6 && |b| >= 6 && e[..6] == b[..6]
    requires b[0] == Backslash && b[1] == LowerU && AllHex(b[2..6])
    requires Value(e[6..]) == Value(b[6..])
    ensures Value(e) == Value(b)
  {
    assert e[0] == e[..6][0] && e[1] == e[..6][1] && e[2..6] == e[..6][2..6];
    assert b[0] == b[..6][0] && b[1] == b[..6][1] && b[2..6] == b[..6][2..6];
  }

  /** A `\uXXXX` escape of the input is copied as it is. */
  lemma HexEscapeCopied(b: seq<CodeUnit>)
    requires |b| >= 6 && b[0] == Backslash && b[1] == LowerU && AllHex(b[2..6])
    ensures EscapeBody(b) == b[..6] + EscapeBody(b[6..])
  {
    var t := b[2..];
    assert EscapeBody(b) == b[..2] + EscapeBody(t) by {
      PairCopied(b);
    }
    assert EscapeBody(t) == b[2..6] + EscapeBody(b[6..]) by {
      assert forall j :: 0 <= j < 4 ==> t[j] == b[2..6][j];
      HexPrefixCopied(t, 4);
      assert t[..4] == b[2..6] && t[4..] == b[6..];
    }
    Regroup(b[..2], b[2..6], EscapeBody(b[6..]));
    assert b[..2] + b[2..6] == b[..6];
  }

  lemma OtherEscapeKept(b: seq<CodeUnit>)
    requires |b| >= 2 && b[0] == Backslash
    requires !(b[1] == LowerU && |b| >= 6 && AllHex(b[2..6]))
    requires Value(EscapeBody(b[2..])) == Value(b[2..])
    ensures Value(EscapeBody(b)) == Value(b)
  {
    var e := EscapeBody(b);
    assert e == b[..2] + EscapeBody(b[2..]);
    assert e[0] == Backslash && e[1] == b[1] && e[2..] == EscapeBody(b[2..]);
    OtherEscapeStays(b, e);
    assert Value(e) == [Escaped(e[1])] + Value(e[2..]);
  }

  /** The escaped copy of an escape other than `\uXXXX` is no `\uXXXX`
      either. */
  lemma OtherEscapeStays(b: seq<CodeUnit>, e: seq<CodeUnit>)
    requires |b| >= 2 && !(b[1] == LowerU && |b| >= 6 && AllHex(b[2..6]))
    requires |e| >= 2 && e[1] == b[1] && e[2..] == EscapeBody(b[2..])
    ensures !(e[1] == LowerU && |e| >= 6 && AllHex(e[2..6]))
  {
    var t := b[2..];
    if b[1] == LowerU {
      if |t| >= 4 {
        assert t[..4] == b[2..6];
      }
      NoHexQuadStays(t);
      if |e| >= 6 {
        assert e[2..6] == EscapeBody(t)[..4];
      }
    }
  }

  lemma UnitKept(b: seq<CodeUnit>)
    requires b != [] && b[0] != Backslash
    requires Value(EscapeBody(b[1..])) == Value(b[1..])
    ensures Value(EscapeBody(b)) == Value(b)
  {
    assert Value(b) == [Unit(b[0])] + Value(b[1..]);
    if IsAscii(b[0]) {
      CopiedUnitKept(b);
    } else {
      EscapedUnitKept(b);
    }
  }

  lemma CopiedUnitKept(b: seq<CodeUnit>)
    requires b != [] && b[0] != Backslash && IsAscii(b[0])
    ensures Value(EscapeBody(b)) == [Unit(b[0])] + Value(EscapeBody(b[1..]))
  {
    var e := EscapeBody(b);
    CopiedUnit(b);
    assert e[0] == b[0] && e[1..] == EscapeBody(b[1..]);
  }

  lemma EscapedUnitKept(b: seq<CodeUnit>)
    requires b != [] && !IsAscii(b[0])
    ensures Value(EscapeBody(b)) == [Unit(b[0])] + Value(EscapeBody(b[1..]))
  {
    var e := EscapeBody(b);
    Hex4RoundTrip(b[0]);
    assert e == EscapeUnit(b[0]) + EscapeBody(b[1..]);
    assert e[0] == Backslash && e[1] == LowerU;
    assert e[2..6] == Hex4(b[0]);
    assert e[6..] == EscapeBody(b[1..]);
  }

  // ---------------------------------------------------------------------
  // The whole file: code.replace(stringRe, escapeNonAsciiInStringLiteral)

  predicate IsQuote(u: CodeUnit) {
    u == SingleQuote || u == DoubleQuote
  }

  /** The units `.` does not match: line feed, carriage return, line
      separator, paragraph separator. */
  predicate IsLineTerminatorUnit(u: CodeUnit) {
    u == 0x0A || u == 0x0D || u == 0x2028 || u == 0x2029
  }

  /** Where the lazy loop `(?:\\.|(?!\1)[\s\S])*?\1` that starts at `p`
      ends, for the opening quote `q`. The lazy loop tries to close first;
      otherwise it tries a backslash with the unit after it (not a line
      terminator), and when that leads nowhere it backtracks and takes the
      unit that is not the quote on its own: a backslash among them, so a
      quote behind a backslash can still close the literal. */
  function Explore(s: seq<CodeUnit>, q: CodeUnit, p: nat): (r: Option<nat>)
    ensures r.Some? ==> p < r.value <= |s| && s[r.value - 1] == q
    decreases |s| - p
  {
    if p >= |s| then None
    else if s[p] == q then Some(p + 1)
    else if s[p] == Backslash && p + 1 < |s| && !IsLineTerminatorUnit(s[p + 1]) then
      match Explore(s, q, p + 2)
      case Some(e) => Some(e)
      case None => Explore(s, q, p + 1)
    else Explore(s, q, p + 1)
  }

  /** The plain reading of a literal's end, without backtracking: a
      backslash is skipped together with the unit after it (unless that is
      a line terminator), and the first quote of the opening kind left over
      closes the literal. */
  function ScanEnd(s: seq<CodeUnit>, q: CodeUnit, p: nat): (r: Option<nat>)
    ensures r.Some? ==> p < r.value <= |s| && s[r.value - 1] == q
    decreases |s| - p
  {
    if p >= |s| then None
    else if s[p] == q then Some(p + 1)
    else if s[p] == Backslash && p + 1 < |s| && !IsLineTerminatorUnit(s[p + 1]) then ScanEnd(s, q, p + 2)
    else ScanEnd(s, q, p + 1)
  }

  /** When the plain reading closes the literal, the lazy loop closes it
      at the same quote: never earlier, so an escaped quote does not end
      it, and never later. */
  lemma {:induction false} ExploreFollowsScan(s: seq<CodeUnit>, q: CodeUnit, p: nat)
    requires ScanEnd(s, q, p).Some?
    ensures Explore(s, q, p) == ScanEnd(s, q, p)
    decreases |s| - p
  {
    if s[p] != q {
      if s[p] == Backslash && p + 1 < |s| && !IsLineTerminatorUnit(s[p + 1]) {
        ExploreFollowsScan(s, q, p + 2);
      } else {
        ExploreFollowsScan(s, q, p + 1);
      }
    }
  }

  /** When every quote of the kind is escaped in the plain reading, the
      loop backtracks and the literal ends at the last such quote. */
  lemma {:induction false} ExploreBacktracksToLast(s: seq<CodeUnit>, q: CodeUnit, p: nat, j: nat)
    requires ScanEnd(s, q, p).None?
    requires p <= j < |s| && s[j] == q && forall k :: j < k < |s| ==> s[k] != q
    ensures Explore(s, q, p) == Some(j + 1)
    decreases |s| - p
  {
    if s[p] == Backslash && p + 1 < |s| && !IsLineTerminatorUnit(s[p + 1]) {
      if j >= p + 2 {
        ExploreBacktracksToLast(s, q, p + 2, j);
      } else {
        ExploreFindsQuote(s, q, p + 2);
      }
    } else {
      ExploreBacktracksToLast(s, q, p + 1, j);
    }
  }

  /** With no backslash before it, the first quote of the kind closes the
      literal. */
  lemma {:induction false} ExploreFirstQuote(s: seq<CodeUnit>, q: CodeUnit, p: nat, j: nat)
    requires p <= j < |s| && s[j] == q
    requires forall k :: p <= k < j ==> s[k] != q && s[k] != Backslash
    ensures Explore(s, q, p) == Some(j + 1)
    decreases j - p
  {
    if p < j {
      ExploreFirstQuote(s, q, p + 1, j);
    }
  }

  /** The search only fails when no quote of the same kind follows. */
  lemma {:induction false} ExploreFindsQuote(s: seq<CodeUnit>, q: CodeUnit, p: nat)
    ensures Explore(s, q, p).Some? <==> exists j :: p <= j < |s| && s[j] == q
    decreases |s| - p
  {
    if p < |s| && s[p] != q {
      ExploreFindsQuote(s, q, p + 1);
      if s[p] == Backslash && p + 1 < |s| && !IsLineTerminatorUnit(s[p + 1]) {
        ExploreFindsQuote(s, q, p + 2);
      }
      assert (exists j :: p <= j < |s| && s[j] == q) <==> (exists j :: p + 1 <= j < |s| && s[j] == q);
    }
  }

  /** `hit` replaces the literal from the quote at `i` to the matching
      quote by its rewrite. */
  predicate LiteralHit(s: seq<CodeUnit>, i: nat, hit: Hit<CodeUnit>) {
    i + 2 <= hit.end <= |s| && IsQuote(s[i]) && s[hit.end - 1] == s[i]
    && hit.out == EscapeLiteral(s[i..hit.end])
  }

  /** `stringRe` at `i`: a quote, then the lazy loop. The match is handed to
      the literal rewriter. */
  function MatchLiteral(s: seq<CodeUnit>, i: nat): (r: Option<Hit<CodeUnit>>)
    ensures r.Some? ==> i < r.value.end <= |s|
    ensures r.Some? ==> LiteralHit(s, i, r.value)
  {
    if !(i < |s| && IsQuote(s[i])) then None
    else
      match Explore(s, s[i], i + 1)
      case None => None
      case Some(e) => Some(Hit(e, EscapeLiteral(s[i..e])))
  }

  /** A literal that the plain reading closes is matched up to that quote
      and rewritten. */
  lemma LiteralEndsAtScan(s: seq<CodeUnit>, i: nat, e: nat)
    requires i < |s| && IsQuote(s[i]) && ScanEnd(s, s[i], i + 1) == Some(e)
    ensures MatchLiteral(s, i) == Some(Hit(e, EscapeLiteral(s[i..e])))
  {
    ExploreFollowsScan(s, s[i], i + 1);
  }

  /** The script's rewrite of a whole file. */
  function EscapeFile(code: seq<CodeUnit>): seq<CodeUnit> {
    assert Advancing(code, MatchLiteral);
    ReplaceAll(code, MatchLiteral)
  }

  /** A quote opens a literal exactly when another quote of its kind comes
      later in the file. */
  lemma LiteralAt(s: seq<CodeUnit>, i: nat)
    requires i < |s| && IsQuote(s[i])
    ensures MatchLiteral(s, i).Some? <==> exists j :: i < j < |s| && s[j] == s[i]
  {
    ExploreFindsQuote(s, s[i], i + 1);
  }

  /** A file with no non-ASCII unit comes out exactly as it went in. */
  lemma AsciiFileUnchanged(code: seq<CodeUnit>)
    requires AllAscii(code)
    ensures EscapeFile(code) == code
  {
    assert Advancing(code, MatchLiteral);
    forall j | 0 <= j < |code| && MatchLiteral(code, j).Some?
      ensures MatchLiteral(code, j).value.out == code[j..MatchLiteral(code, j).value.end]
    {
      AsciiLiteralCopied(code, j, MatchLiteral(code, j).value);
    }
    CopyingHitsIdentity(code, 0, MatchLiteral);
  }

  /** A literal with no non-ASCII unit is replaced by itself. */
  lemma AsciiLiteralCopied(code: seq<CodeUnit>, j: nat, h: Hit<CodeUnit>)
    requires AllAscii(code) && MatchLiteral(code, j) == Some(h)
    ensures h.out == code[j..h.end]
  {
    assert LiteralHit(code, j, h);
    var lit := code[j..h.end];
    AsciiSlice(code, j, h.end);
    assert lit[|lit| - 1] == code[h.end - 1] && lit[0] == code[j];
    LiteralShape(lit);
  }

  lemma AsciiSlice(code: seq<CodeUnit>, a: nat, b: nat)
    requires a <= b <= |code| && AllAscii(code)
    ensures AllAscii(code[a..b])
  {
    assert forall k :: 0 <= k < b - a ==> code[a..b][k] == code[a + k];
  }

  /** Each rewritten literal keeps its quotes and denotes what the original
      literal denoted. */
  lemma LiteralKeepsValue(lit: seq<CodeUnit>)
    requires |lit| >= 2
    ensures Body(EscapeLiteral(lit)) == EscapeBody(Body(lit))
    ensures Value(Body(EscapeLiteral(lit))) == Value(Body(lit))
  {
    LiteralShape(lit);
    EscapePreservesValue(Body(lit));
  }
}
