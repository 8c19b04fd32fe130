/** The semantics of JavaScript's `String.prototype.replace` with a global
    regular expression, for patterns that never match the empty string.
    A pattern is given as a matcher: at a position it either finds no
    match, or returns where the match ends and the text that replaces it.
    The driver tries the positions left to right, emits the replacement of
    each match, and resumes right after it, so matches never overlap and
    the leftmost one wins. */
module GlobalReplace {
  import opened Wrappers
  import opened Lists

  /** A match that ends at `end` and is replaced by `out`. */
  datatype Hit<T> = Hit(end: nat, out: seq<T>)

  /** Every match the matcher reports in `s` is non-empty and lies inside `s`. */
  ghost predicate Advancing<T>(s: seq<T>, m: (seq<T>, nat) -> Option<Hit<T>>) {
    forall i: nat :: m(s, i).Some? ==> i < m(s, i).value.end <= |s|
  }

  /** The result of the global replace on `s[i..]`. */
  function ReplaceFrom<T>(s: seq<T>, i: nat, m: (seq<T>, nat) -> Option<Hit<T>>): seq<T>
    requires i <= |s|
    requires Advancing(s, m)
    decreases |s| - i
  {
    if i == |s| then []
    else
      match m(s, i)
      case Some(h) => h.out + ReplaceFrom(s, h.end, m)
      case None => [s[i]] + ReplaceFrom(s, i + 1, m)
  }

  /** `s.replace(re, …)` for a global `re`. */
  function ReplaceAll<T>(s: seq<T>, m: (seq<T>, nat) -> Option<Hit<T>>): seq<T>
    requires Advancing(s, m)
  {
    ReplaceFrom(s, 0, m)
  }

  /** A stretch where the pattern matches nowhere is copied as it is. */
  lemma {:induction false} CopyStretch<T>(s: seq<T>, i: nat, k: nat, m: (seq<T>, nat) -> Option<Hit<T>>)
    requires i <= k <= |s|
    requires Advancing(s, m)
    requires forall j :: i <= j < k ==> m(s, j).None?
    ensures ReplaceFrom(s, i, m) == s[i..k] + ReplaceFrom(s, k, m)
    decreases k - i
  {
    if i < k {
      assert m(s, i).None?;
      assert ReplaceFrom(s, i, m) == [s[i]] + ReplaceFrom(s, i + 1, m);
      CopyStretch(s, i + 1, k, m);
      assert [s[i]] + s[i + 1..k] == s[i..k];
    }
  }

  /** Where the pattern matches nowhere, the replace is the identity. */
  lemma NoMatchIdentity<T>(s: seq<T>, m: (seq<T>, nat) -> Option<Hit<T>>)
    requires Advancing(s, m)
    requires forall j :: 0 <= j < |s| ==> m(s, j).None?
    ensures ReplaceAll(s, m) == s
  {
    CopyStretch(s, 0, |s|, m);
  }

  /** A property of single elements that the input has everywhere, and
      that every replacement has, holds of the whole result. */
  lemma {:induction false} KeepsElementProperty<T>(s: seq<T>, i: nat, m: (seq<T>, nat) -> Option<Hit<T>>, p: T -> bool)
    requires i <= |s|
    requires Advancing(s, m)
    requires forall j :: i <= j < |s| ==> p(s[j])
    requires forall j :: i <= j < |s| && m(s, j).Some? ==> forall t :: 0 <= t < |m(s, j).value.out| ==> p(m(s, j).value.out[t])
    ensures forall t :: 0 <= t < |ReplaceFrom(s, i, m)| ==> p(ReplaceFrom(s, i, m)[t])
    decreases |s| - i
  {
    if i < |s| {
      match m(s, i)
      case Some(h) => KeepsElementProperty(s, h.end, m, p);
      case None => KeepsElementProperty(s, i + 1, m, p);
    }
  }

  /** A text with exactly one match: the part before it and the part after
      it are copied, the match is replaced. */
  lemma ReplaceOneHit<T>(s: seq<T>, a: nat, m: (seq<T>, nat) -> Option<Hit<T>>)
    requires Advancing(s, m)
    requires a < |s| && m(s, a).Some?
    requires forall j :: 0 <= j < a ==> m(s, j).None?
    requires forall j :: m(s, a).value.end <= j < |s| ==> m(s, j).None?
    ensures ReplaceAll(s, m) == s[..a] + m(s, a).value.out + s[m(s, a).value.end..]
  {
    var h := m(s, a).value;
    assert ReplaceFrom(s, 0, m) == s[..a] + ReplaceFrom(s, a, m) by {
      CopyStretch(s, 0, a, m);
      assert s[0..a] == s[..a];
    }
    assert ReplaceFrom(s, a, m) == h.out + ReplaceFrom(s, h.end, m);
    assert ReplaceFrom(s, h.end, m) == s[h.end..] by {
      CopyStretch(s, h.end, |s|, m);
      assert s[h.end..|s|] == s[h.end..];
    }
    Regroup(s[..a], h.out, s[h.end..]);
  }

  /** A pattern whose every match is replaced by the text it matched
      changes nothing. */
  lemma {:induction false} CopyingHitsIdentity<T>(s: seq<T>, i: nat, m: (seq<T>, nat) -> Option<Hit<T>>)
    requires i <= |s|
    requires Advancing(s, m)
    requires forall j :: i <= j < |s| && m(s, j).Some? ==> m(s, j).value.out == s[j..m(s, j).value.end]
    ensures ReplaceFrom(s, i, m) == s[i..]
    decreases |s| - i
  {
    if i < |s| {
      match m(s, i)
      case Some(h) =>
        CopyingHitsIdentity(s, h.end, m);
        assert s[i..h.end] + s[h.end..] == s[i..];
      case None =>
        CopyingHitsIdentity(s, i + 1, m);
        assert [s[i]] + s[i + 1..] == s[i..];
    }
  }
}
