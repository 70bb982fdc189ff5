/**
 * The parts of Python's `str` that the flashcard parser relies on:
 * `strip()` with no argument, `split(sep)` with a non-empty separator,
 * `sep.join(pieces)` and the search behind them.
 */
module PyStr {

  // ---------------------------------------------------------------------
  // Whitespace and strip()
  // ---------------------------------------------------------------------

  /** The characters for which `str.isspace()` holds, which `strip()` removes. */
  predicate IsSpace(c: char)
  {
    || ('\t' <= c <= '\r')
    || ('\U{1C}' <= c <= '\U{1F}')
    || c == ' '
    || c == '\U{85}'
    || c == '\U{A0}'
    || c == '\U{1680}'
    || ('\U{2000}' <= c <= '\U{200A}')
    || c == '\U{2028}'
    || c == '\U{2029}'
    || c == '\U{202F}'
    || c == '\U{205F}'
    || c == '\U{3000}'
  }

  predicate AllSpace(s: string)
  {
    forall i | 0 <= i < |s| :: IsSpace(s[i])
  }

  /** The first index at or after `k` that does not hold whitespace, or `|s|`. */
  function SpanStart(s: string, k: nat): (n: nat)
    requires k <= |s|
    ensures k <= n <= |s|
    ensures forall i | k <= i < n :: IsSpace(s[i])
    ensures n < |s| ==> !IsSpace(s[n])
    decreases |s| - k
  {
    if k < |s| && IsSpace(s[k]) then SpanStart(s, k + 1) else k
  }

  /** The least `n <= k` such that `s[n..k]` is all whitespace. */
  function SpanEnd(s: string, k: nat): (n: nat)
    requires k <= |s|
    ensures n <= k
    ensures forall i | n <= i < k :: IsSpace(s[i])
    ensures n > 0 ==> !IsSpace(s[n - 1])
    decreases k
  {
    if k > 0 && IsSpace(s[k - 1]) then SpanEnd(s, k - 1) else k
  }

  /** `s.lstrip()`. */
  function TrimStart(s: string): string
  {
    s[SpanStart(s, 0)..]
  }

  /** `s.rstrip()`. */
  function TrimEnd(s: string): string
  {
    s[..SpanEnd(s, |s|)]
  }

  /** Neither starts nor ends with whitespace. */
  predicate Stripped(s: string)
  {
    s == [] || (!IsSpace(s[0]) && !IsSpace(s[|s| - 1]))
  }

  /**
   * `s.strip()`: the result neither starts nor ends with whitespace, and
   * (StripBounds) it is what is left of `s` once whitespace is removed from
   * both ends.
   */
  function Strip(s: string): (r: string)
    ensures |r| <= |s|
    ensures Stripped(r)
  {
    var i := SpanStart(s, 0);
    var j := SpanEnd(s, |s|);
    if j <= i then [] else s[i..j]
  }

  /** Where the result of `strip()` lies in its argument. */
  lemma StripBounds(s: string) returns (i: nat, j: nat)
    ensures i <= j <= |s| && Strip(s) == s[i..j]
    ensures AllSpace(s[..i]) && AllSpace(s[j..])
  {
    i, j := SpanStart(s, 0), SpanEnd(s, |s|);
    if j <= i {
      // Then nothing but whitespace is left of the end found.
      assert j == 0;
      i, j := |s|, |s|;
    }
  }

  /**
   * `strip()` is determined by what it promises: whitespace around a core
   * that neither starts nor ends with whitespace is removed, and only that.
   */
  lemma StripSurrounded(p: string, m: string, t: string)
    requires AllSpace(p) && AllSpace(t)
    requires Stripped(m)
    ensures Strip(p + m + t) == m
  {
    var s := p + m + t;
    var i, j := SpanStart(s, 0), SpanEnd(s, |s|);
    if m == [] {
      assert forall k | 0 <= k < |s| :: IsSpace(s[k]);
      assert i == |s|;
    } else {
      assert s[|p|] == m[0];
      assert s[|p| + |m| - 1] == m[|m| - 1];
      assert i == |p|;
      assert j == |p| + |m|;
      assert s[i..j] == m;
    }
  }

  /** The texts `strip()` leaves alone are exactly the stripped ones. */
  lemma StripFixed(s: string)
    ensures Strip(s) == s <==> Stripped(s)
  {
    if Stripped(s) {
      assert [] + s + [] == s;
      StripSurrounded([], s, []);
    }
  }

  /** `rstrip()` stops at the last non-whitespace character. */
  lemma TrimEndAfter(u: string, v: string)
    requires u != [] && !IsSpace(u[|u| - 1])
    ensures TrimEnd(u + v) == u + TrimEnd(v)
  {
    var s := u + v;
    var e := SpanEnd(v, |v|);
    assert forall i | |u| + e <= i < |s| :: IsSpace(s[i]) by {
      forall i | |u| + e <= i < |s| ensures IsSpace(s[i]) {
        assert s[i] == v[i - |u|];
      }
    }
    if e > 0 {
      assert s[|u| + e - 1] == v[e - 1];
    } else {
      assert s[|u| - 1] == u[|u| - 1];
    }
    assert SpanEnd(s, |s|) == |u| + e;
    assert s[..|u| + e] == u + v[..e];
  }

  /** Stripping the right-stripped text is stripping the text. */
  lemma StripTrimEnd(a: string)
    ensures Strip(TrimEnd(a)) == Strip(a)
  {
    var i, j := StripBounds(a);
    var m := Strip(a);
    var t := TrimEnd(a);
    if m == [] {
      assert forall k | 0 <= k < |a| :: IsSpace(a[k]) by {
        forall k | 0 <= k < |a| ensures IsSpace(a[k]) {
          if k < i { assert a[k] == a[..i][k]; } else { assert a[k] == a[j..][k - j]; }
        }
      }
      assert AllSpace(t);
      StripSurrounded(t, [], []);
      assert t + [] + [] == t;
    } else {
      assert a[j - 1] == m[|m| - 1];
      assert forall k | j <= k < |a| :: IsSpace(a[k]) by {
        forall k | j <= k < |a| ensures IsSpace(a[k]) { assert a[k] == a[j..][k - j]; }
      }
      assert SpanEnd(a, |a|) == j;
      assert t == a[..i] + m + [];
      StripSurrounded(a[..i], m, []);
    }
  }

  lemma StripIdempotent(s: string)
    ensures Strip(Strip(s)) == Strip(s)
  {
    var m := Strip(s);
    assert [] + m + [] == m;
    StripSurrounded([], m, []);
  }

  // ---------------------------------------------------------------------
  // Occurrences of a separator
  // ---------------------------------------------------------------------

  /** The number of positions of `s` at which `sep` starts. */
  function Occurrences(s: string, sep: string): nat
    requires sep != []
  {
    if s == [] then 0
    else (if sep <= s then 1 else 0) + Occurrences(s[1..], sep)
  }

  /** `sep in s`. */
  predicate Contains(s: string, sep: string)
    requires sep != []
  {
    Occurrences(s, sep) > 0
  }

  /**
   * The separators the parser splits on ("Q:" and "A:"): two different
   * characters, so that two occurrences can never overlap.
   */
  predicate Marker(sep: string)
  {
    |sep| == 2 && sep[0] != sep[1]
  }

  /**
   * Counting is additive over a concatenation, plus one for an occurrence
   * of a two-character separator that straddles the join.
   */
  lemma {:induction false} OccurrencesConcat(x: string, y: string, sep: string)
    requires |sep| == 2
    ensures Occurrences(x + y, sep) ==
            Occurrences(x, sep) + Occurrences(y, sep)
            + (if x != [] && y != [] && x[|x| - 1] == sep[0] && y[0] == sep[1] then 1 else 0)
    decreases |x|
  {
    if x == [] {
      assert x + y == y;
    } else {
      assert (x + y)[1..] == x[1..] + y;
      OccurrencesConcat(x[1..], y, sep);
      if |x| >= 2 {
        assert sep <= x + y <==> sep <= x by {
          assert (x + y)[..2] == x[..2];
        }
      } else {
        assert x[1..] == [];
        assert !(sep <= x);
      }
    }
  }

  lemma NoSepInConcat(x: string, y: string, sep: string)
    requires Marker(sep)
    requires !Contains(x, sep) && !Contains(y, sep)
    requires x == [] || y == [] || x[|x| - 1] != sep[0] || y[0] != sep[1]
    ensures !Contains(x + y, sep)
  {
    OccurrencesConcat(x, y, sep);
  }

  /** A slice of a text without `sep` has no `sep` either. */
  lemma NoSepInSlice(s: string, i: int, j: int, sep: string)
    requires |sep| == 2
    requires 0 <= i <= j <= |s|
    requires !Contains(s, sep)
    ensures !Contains(s[i..j], sep)
  {
    assert s == s[..i] + s[i..j] + s[j..];
    OccurrencesConcat(s[..i], s[i..j], sep);
    OccurrencesConcat(s[..i] + s[i..j], s[j..], sep);
  }

  // ---------------------------------------------------------------------
  // split() and join()
  // ---------------------------------------------------------------------

  /**
   * `s.split(sep)`: scanning from the left, every occurrence of `sep` that
   * does not overlap an earlier cut ends a piece.
   */
  function Split(s: string, sep: string): (r: seq<string>)
    requires sep != []
    ensures |r| >= 1 && r[0] <= s
    ensures forall k | 0 <= k < |r| :: !Contains(r[k], sep)
    decreases |s|
  {
    if s == [] then [""]
    else if sep <= s then [""] + Split(s[|sep|..], sep)
    else
      var rest := Split(s[1..], sep);
      assert [s[0]] + rest[0] <= s;
      [[s[0]] + rest[0]] + rest[1..]
  }

  /** `sep.join(pieces)`. */
  function Join(pieces: seq<string>, sep: string): (r: string)
    ensures pieces == [] ==> r == ""
    ensures pieces != [] ==> pieces[0] <= r
  {
    if pieces == [] then ""
    else if |pieces| == 1 then pieces[0]
    else pieces[0] + sep + Join(pieces[1..], sep)
  }

  lemma JoinExtendFirst(c: char, pieces: seq<string>, sep: string)
    requires pieces != []
    ensures Join([[c] + pieces[0]] + pieces[1..], sep) == [c] + Join(pieces, sep)
  {
    var q := [[c] + pieces[0]] + pieces[1..];
    assert q[0] == [c] + pieces[0] && q[1..] == pieces[1..];
    if |pieces| > 1 {
      var tail := Join(pieces[1..], sep);
      assert Join(q, sep) == ([c] + pieces[0]) + sep + tail;
      assert Join(pieces, sep) == pieces[0] + sep + tail;
    }
  }

  /** Joining the pieces of a split with the same separator gives the text back. */
  lemma {:induction false} JoinSplit(s: string, sep: string)
    requires sep != []
    ensures Join(Split(s, sep), sep) == s
    decreases |s|
  {
    if s == [] {
    } else if sep <= s {
      var rest := s[|sep|..];
      JoinSplit(rest, sep);
      var r := Split(rest, sep);
      assert ([""] + r)[1..] == r;
      assert s == sep + rest;
    } else {
      JoinSplit(s[1..], sep);
      JoinExtendFirst(s[0], Split(s[1..], sep), sep);
    }
  }

  /** Splitting a marker-free head followed by the marker peels off that head. */
  lemma {:induction false} SplitCons(x: string, sep: string, y: string)
    requires Marker(sep)
    requires !Contains(x, sep)
    ensures Split(x + sep + y, sep) == [x] + Split(y, sep)
    decreases |x|
  {
    var s := x + sep + y;
    if x == [] {
      assert s == sep + y;
      assert s[|sep|..] == y;
    } else {
      assert !(sep <= x + sep + y) by {
        if |x| >= 2 {
          assert s[..2] == x[..2];
          assert !(sep <= x);
        } else {
          assert s[1] == sep[0];
        }
      }
      assert Occurrences(x[1..], sep) == 0;
      assert s[1..] == x[1..] + sep + y;
      SplitCons(x[1..], sep, y);
      assert [s[0]] + x[1..] == x;
    }
  }

  lemma {:induction false} SplitWithout(s: string, sep: string)
    requires Marker(sep)
    requires !Contains(s, sep)
    ensures Split(s, sep) == [s]
    decreases |s|
  {
    if s != [] {
      assert !(sep <= s);
      SplitWithout(s[1..], sep);
      assert [s[0]] + s[1..] == s;
    }
  }

  /** Splitting a join of marker-free pieces gives the pieces back. */
  lemma {:induction false} SplitJoin(pieces: seq<string>, sep: string)
    requires Marker(sep)
    requires |pieces| >= 1
    requires forall k | 0 <= k < |pieces| :: !Contains(pieces[k], sep)
    ensures Split(Join(pieces, sep), sep) == pieces
    decreases |pieces|
  {
    if |pieces| == 1 {
      SplitWithout(pieces[0], sep);
    } else {
      SplitJoin(pieces[1..], sep);
      SplitCons(pieces[0], sep, Join(pieces[1..], sep));
      assert pieces == [pieces[0]] + pieces[1..];
    }
  }

  /** A split on a marker yields one piece more than the marker has occurrences. */
  lemma {:induction false} SplitCount(s: string, sep: string)
    requires Marker(sep)
    ensures |Split(s, sep)| == Occurrences(s, sep) + 1
    decreases |s|
  {
    if s == [] {
    } else if sep <= s {
      SplitCount(s[2..], sep);
      assert s[1..][1..] == s[2..];
      assert !(sep <= s[1..]);
    } else {
      SplitCount(s[1..], sep);
    }
  }

  lemma JoinSnoc(pieces: seq<string>, sep: string, last: string)
    requires pieces != []
    ensures Join(pieces + [last], sep) == Join(pieces, sep) + sep + last
    decreases |pieces|
  {
    if |pieces| == 1 {
    } else {
      assert (pieces + [last])[1..] == pieces[1..] + [last];
      JoinSnoc(pieces[1..], sep, last);
    }
  }

  /** `strip()` never creates an occurrence: it only removes characters. */
  lemma StripOccurrences(s: string, sep: string)
    requires |sep| == 2
    ensures Occurrences(Strip(s), sep) <= Occurrences(s, sep)
  {
    var i, j := StripBounds(s);
    var p, r, t := s[..i], s[i..j], s[j..];
    assert s == p + r + t;
    OccurrencesConcat(p, r, sep);
    OccurrencesConcat(p + r, t, sep);
  }

  // ---------------------------------------------------------------------
  // endswith()
  // ---------------------------------------------------------------------

  /** `s.endswith(suffix)`, case-sensitive. */
  predicate EndsWith(s: string, suffix: string)
    ensures EndsWith(s, suffix) <==> |suffix| <= |s| && s == s[..|s| - |suffix|] + suffix
  {
    |suffix| <= |s| && s[|s| - |suffix|..] == suffix
  }
}
