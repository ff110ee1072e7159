/** Display-width truncation `truncate_display`
    (scripts/deploy/yaml_log.py:67-83).

    The terminal width of one character is a parameter `w`; the width of a
    string is the sum over its characters. */
module Truncate {

  /** The column budget the report applies to every value cell. */
  const MaxValueWidth: int := 60

  const Ellipsis: string := "..."

  /** The display width of s: the sum of w over its characters. */
  function Width(w: char -> nat, s: string): nat
  {
    if s == [] then 0 else Width(w, s[..|s| - 1]) + w(s[|s| - 1])
  }

  lemma {:induction false} WidthConcat(w: char -> nat, a: string, b: string)
    ensures Width(w, a + b) == Width(w, a) + Width(w, b)
  {
    if b == [] {
      assert a + b == a;
    } else {
      assert (a + b)[..|a + b| - 1] == a + b[..|b| - 1];
      WidthConcat(w, a, b[..|b| - 1]);
    }
  }

  lemma EllipsisWidth(w: char -> nat)
    ensures Width(w, Ellipsis) == 3 * w('.')
  {
    var two, one: string := "..", ".";
    assert Ellipsis[..2] == two && two[..1] == one && one[..0] == "";
    assert Width(w, one) == w('.');
    assert Width(w, two) == 2 * w('.');
  }

  /** Characters at most k columns wide make a string at most k * |s| wide. */
  lemma {:induction false} WidthAtMost(w: char -> nat, s: string, k: nat)
    requires forall c :: w(c) <= k
    ensures Width(w, s) <= k * |s|
  {
    if s != [] {
      WidthAtMost(w, s[..|s| - 1], k);
      assert k * (|s| - 1) + k == k * |s|;
    }
  }

  /** How many leading characters of s the greedy loop takes with a budget:
      it stops at the first character that would exceed what is left. */
  function FitCount(w: char -> nat, s: string, budget: int): (n: nat)
    ensures n <= |s|
  {
    if s == [] || w(s[0]) > budget then 0
    else 1 + FitCount(w, s[1..], budget - w(s[0]))
  }

  lemma WidthCons(w: char -> nat, c: char, t: string)
    ensures Width(w, [c] + t) == w(c) + Width(w, t)
  {
    WidthConcat(w, [c], t);
    assert [c][..0] == [];
  }

  /** The greedy prefix stays within a non-negative budget, and the next
      character of s would push it past the budget. */
  lemma {:induction false} FitCountGreedy(w: char -> nat, s: string, budget: int)
    ensures FitCount(w, s, budget) == 0 || Width(w, s[..FitCount(w, s, budget)]) <= budget
    ensures budget >= 0 ==> Width(w, s[..FitCount(w, s, budget)]) <= budget
    ensures FitCount(w, s, budget) < |s| ==>
              Width(w, s[..FitCount(w, s, budget) + 1]) > budget
    decreases |s|, 1
  {
    if s != [] {
      if w(s[0]) > budget {
        WidthCons(w, s[0], []);
        assert s[..1] == [s[0]] + [];
      } else {
        FitCountGreedyStep(w, s, budget);
      }
    }
  }

  lemma {:induction false} FitCountGreedyStep(w: char -> nat, s: string, budget: int)
    requires s != [] && w(s[0]) <= budget
    ensures Width(w, s[..FitCount(w, s, budget)]) <= budget
    ensures FitCount(w, s, budget) < |s| ==>
              Width(w, s[..FitCount(w, s, budget) + 1]) > budget
    decreases |s|, 0
  {
    var n := FitCount(w, s, budget);
    var rest, left := s[1..], budget - w(s[0]);
    var m := FitCount(w, rest, left);
    assert n == m + 1;
    FitCountGreedy(w, rest, left);
    assert s[..n] == [s[0]] + rest[..m];
    WidthCons(w, s[0], rest[..m]);
    if n < |s| {
      assert s[..n + 1] == [s[0]] + rest[..m + 1];
      WidthCons(w, s[0], rest[..m + 1]);
    }
  }

  /** What `truncate_display(s, max_width)` returns. */
  function Truncated(w: char -> nat, s: string, maxWidth: int): string
  {
    if Width(w, s) <= maxWidth then s
    else
      var n := FitCount(w, s, maxWidth - 3);
      s[..n] + (if n < |s| then Ellipsis else "")
  }

  method TruncateDisplay(w: char -> nat, s: string, maxWidth: int) returns (r: string)
    ensures r == Truncated(w, s, maxWidth)
  {
    if Width(w, s) <= maxWidth {
      return s;
    }
    var out := "";
    var width := 0;
    for i := 0 to |s|
      invariant out == s[..i]
      invariant width == Width(w, s[..i])
      invariant FitCount(w, s, maxWidth - 3) == i + FitCount(w, s[i..], maxWidth - 3 - width)
    {
      var cw := w(s[i]);
      if width + cw > maxWidth - 3 {
        out := out + Ellipsis;
        break;
      }
      assert s[..i + 1][..i] == s[..i];
      assert s[i..][1..] == s[i + 1..];
      out := out + [s[i]];
      width := width + cw;
    }
    return out;
  }

  // ---------------------------------------------------------------------
  // Laws of truncation

  /** A string that fits is returned unchanged. */
  lemma TruncateIdentity(w: char -> nat, s: string, maxWidth: int)
    requires Width(w, s) <= maxWidth
    ensures Truncated(w, s, maxWidth) == s
  {
  }

  /** A non-empty string that does not fit becomes a prefix p of it followed
      by "...", where p is the longest prefix the greedy loop accepts:
      within maxWidth - 3 columns, and one more character would exceed it. */
  lemma TruncateClipped(w: char -> nat, s: string, maxWidth: int)
    requires Width(w, s) > maxWidth && s != ""
    ensures var n := FitCount(w, s, maxWidth - 3);
            n < |s| &&
            Truncated(w, s, maxWidth) == s[..n] + Ellipsis &&
            (maxWidth >= 3 ==> Width(w, s[..n]) <= maxWidth - 3) &&
            Width(w, s[..n + 1]) > maxWidth - 3
  {
    FitCountGreedy(w, s, maxWidth - 3);
    assert s[..|s|] == s;
  }

  /** Below 3 columns nothing but the ellipsis is left of a string that does
      not fit, so the result is 3 columns wide however small the budget. */
  lemma TruncateNarrow(w: char -> nat, s: string, maxWidth: int)
    requires maxWidth < 3 && Width(w, s) > maxWidth && s != ""
    ensures Truncated(w, s, maxWidth) == Ellipsis
  {
    assert s[..0] == "";
  }

  /** The empty string is returned as it is, even for a negative budget:
      the loop then runs no iteration and never appends the ellipsis. */
  lemma TruncateEmpty(w: char -> nat, maxWidth: int)
    ensures Truncated(w, "", maxWidth) == ""
  {
  }

  /** With "." one column wide and a budget of at least 3, the result fits. */
  lemma TruncateBudget(w: char -> nat, s: string, maxWidth: int)
    requires w('.') == 1 && maxWidth >= 3
    ensures Width(w, Truncated(w, s, maxWidth)) <= maxWidth
  {
    if Width(w, s) > maxWidth && s != "" {
      TruncateClipped(w, s, maxWidth);
      var n := FitCount(w, s, maxWidth - 3);
      WidthConcat(w, s[..n], Ellipsis);
      EllipsisWidth(w);
    }
  }

  /** Truncating a second time with the same budget changes nothing. */
  lemma TruncateIdempotent(w: char -> nat, s: string, maxWidth: int)
    requires w('.') == 1
    ensures Truncated(w, Truncated(w, s, maxWidth), maxWidth) == Truncated(w, s, maxWidth)
  {
    if Width(w, s) > maxWidth && s != "" {
      TruncateClipped(w, s, maxWidth);
      EllipsisWidth(w);
      if maxWidth >= 3 {
        TruncateBudget(w, s, maxWidth);
      } else {
        var n := FitCount(w, s, maxWidth - 3);
        assert n == 0;
        assert s[..n] + Ellipsis == Ellipsis;
        assert Ellipsis[0] == '.' && Ellipsis[..0] == "";
      }
    }
  }
}
