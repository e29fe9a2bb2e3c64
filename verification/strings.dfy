/**
 * The pieces of Python's `str` that the log annotator relies on: substring
 * membership (`x in s`), `str.replace`, `''.join`, `str.strip` and the
 * whitespace class that both `strip()` and the regular-expression class `\s`
 * use.
 */
module Strings {

  /** `p` occurs in `s` starting at index `i`. */
  predicate OccursAt(s: string, p: string, i: nat)
  {
    i <= |s| && p <= s[i..]
  }

  /** Python's `p in s` for strings, scanning `s` from the left. */
  function Contains(s: string, p: string): (r: bool)
    ensures p <= s ==> r
    ensures r ==> |p| <= |s|
    decreases |s|
  {
    if p <= s then true else if s == [] then false else Contains(s[1..], p)
  }

  /** `p in s` holds exactly when some index of `s` starts an occurrence of `p`. */
  lemma {:induction false} ContainsOccurs(s: string, p: string)
    ensures Contains(s, p) <==> exists i :: 0 <= i <= |s| && OccursAt(s, p, i)
    decreases |s|
  {
    if p <= s {
      assert OccursAt(s, p, 0);
    } else if s != [] {
      ContainsOccurs(s[1..], p);
      if Contains(s[1..], p) {
        var i :| 0 <= i <= |s| - 1 && OccursAt(s[1..], p, i);
        assert s[1..][i..] == s[i + 1..];
        assert OccursAt(s, p, i + 1);
      }
      if exists i :: 0 <= i <= |s| && OccursAt(s, p, i) {
        var i :| 0 <= i <= |s| && OccursAt(s, p, i);
        assert i != 0 by {
          assert s[0..] == s;
        }
        assert s[1..][i - 1..] == s[i..];
        assert OccursAt(s[1..], p, i - 1);
      }
    }
  }

  /** Python's `''.join(parts)`. */
  function Concat(parts: seq<string>): (r: string)
    ensures parts == [] ==> r == []
    ensures |parts| == 1 ==> r == parts[0]
    ensures parts != [] ==> parts[0] <= r
  {
    if parts == [] then [] else parts[0] + Concat(parts[1..])
  }

  /** Joining two lists of fragments is joining each and concatenating. */
  lemma {:induction false} ConcatAppend(a: seq<string>, b: seq<string>)
    ensures Concat(a + b) == Concat(a) + Concat(b)
  {
    if a == [] {
      assert a + b == b;
    } else {
      assert (a + b)[1..] == a[1..] + b;
      ConcatAppend(a[1..], b);
    }
  }

  /**
   * The characters Python's `str.isspace()` accepts: they are both what
   * `str.strip()` removes and what the regular-expression class `\s`
   * matches in a `str` pattern.
   */
  predicate IsSpace(c: char)
  {
    ('\t' <= c <= '\r') || ('\U{1C}' <= c <= ' ') || c == '\U{85}' || c == '\U{A0}'
    || c == '\U{1680}' || ('\U{2000}' <= c <= '\U{200A}') || c == '\U{2028}' || c == '\U{2029}'
    || c == '\U{202F}' || c == '\U{205F}' || c == '\U{3000}'
  }

  /** Every character of `s` is whitespace. */
  predicate AllSpace(s: string)
  {
    forall k :: 0 <= k < |s| ==> IsSpace(s[k])
  }

  /** Drops the leading whitespace of `s`. */
  function TrimStart(s: string): (r: string)
    ensures |r| <= |s| && r == s[|s| - |r|..]
    ensures AllSpace(s[..|s| - |r|])
    ensures r == [] || !IsSpace(r[0])
  {
    if s != [] && IsSpace(s[0]) then
      var r := TrimStart(s[1..]);
      assert s[..|s| - |r|] == [s[0]] + s[1..][..|s| - 1 - |r|];
      r
    else
      s
  }

  /** Drops the trailing whitespace of `s`. */
  function TrimEnd(s: string): (r: string)
    ensures |r| <= |s| && r == s[..|r|]
    ensures AllSpace(s[|r|..])
    ensures r == [] || !IsSpace(r[|r| - 1])
  {
    if s != [] && IsSpace(s[|s| - 1]) then
      var r := TrimEnd(s[..|s| - 1]);
      assert s[|r|..] == s[..|s| - 1][|r|..] + [s[|s| - 1]];
      r
    else
      s
  }

  /**
   * Python's `s.strip()`: whitespace removed from both ends, so the result
   * neither starts nor ends with whitespace.
   */
  function Trim(s: string): (r: string)
    ensures |r| <= |s|
    ensures r == [] || (!IsSpace(r[0]) && !IsSpace(r[|r| - 1]))
  {
    TrimEnd(TrimStart(s))
  }

  /** The text from `a` on is the slice up to `b` followed by the text from `b` on. */
  lemma SliceSplit(s: string, a: nat, b: nat)
    requires a <= b <= |s|
    ensures s[a..] == s[a..b] + s[b..|s|]
  {
  }

  /** Whitespace in front of the text makes no difference to `lstrip()`. */
  lemma {:induction false} TrimStartSkips(w: string, x: string)
    requires AllSpace(w)
    ensures TrimStart(w + x) == TrimStart(x)
  {
    if w != [] {
      assert (w + x)[0] == w[0];
      assert (w + x)[1..] == w[1..] + x;
      TrimStartSkips(w[1..], x);
    } else {
      assert w + x == x;
    }
  }

  /** Whitespace in front of the text makes no difference to `strip()`. */
  lemma TrimSkips(w: string, x: string)
    requires AllSpace(w)
    ensures Trim(w + x) == Trim(x)
  {
    TrimStartSkips(w, x);
  }

  /**
   * What `strip()` keeps is a slice `s[a..b]` with only whitespace before
   * and after it.
   */
  lemma TrimIsSlice(s: string)
    ensures exists a, b :: 0 <= a <= b <= |s| && Trim(s) == s[a..b] && AllSpace(s[..a]) && AllSpace(s[b..])
  {
    var t := TrimStart(s);
    var r := TrimEnd(t);
    var a := |s| - |t|;
    var b := a + |r|;
    SuffixSlices(s, a, |r|);
    assert r == s[a..b] && AllSpace(s[b..]);
  }

  /** Slicing the text from `a` on is slicing the text, shifted by `a`. */
  lemma SuffixSlices(s: string, a: nat, n: nat)
    requires a + n <= |s|
    ensures s[a..][..n] == s[a..a + n] && s[a..][n..] == s[a + n..]
  {
  }

  /** Stripping never brings in a character the text did not hold. */
  lemma TrimKeeps(s: string, ch: char)
    requires ch !in s
    ensures ch !in Trim(s)
  {
    var t := TrimStart(s);
    SliceKeeps(s, |s| - |t|, ch);
    SliceKeeps(t, 0, ch);
    assert Trim(s) == t[0..|Trim(s)|];
  }

  /** A slice from `a` to the end holds no character the text did not hold. */
  lemma SliceKeeps(s: string, a: nat, ch: char)
    requires ch !in s && a <= |s|
    ensures forall b :: a <= b <= |s| ==> ch !in s[a..b]
  {
    forall b, k | a <= b <= |s| && 0 <= k < b - a
      ensures s[a..b][k] != ch
    {
      assert s[a..b][k] == s[a + k];
    }
  }

  /**
   * Python's `s.replace(pat, rep)` for a non-empty `pat`: scanning from the
   * left, every occurrence of `pat` that does not overlap an earlier replaced
   * one becomes `rep`.
   */
  function ReplaceAll(s: string, pat: string, rep: string): (r: string)
    requires pat != []
    ensures !Contains(s, pat) ==> r == s
    decreases |s|
  {
    if s == [] then
      []
    else if pat <= s then
      rep + ReplaceAll(s[|pat|..], pat, rep)
    else
      [s[0]] + ReplaceAll(s[1..], pat, rep)
  }

  /**
   * Replacing leaves a prefix `u` alone when no occurrence of `pat` starts
   * inside it.
   */
  lemma {:induction false} ReplaceAllSkips(u: string, x: string, pat: string, rep: string)
    requires pat != []
    requires forall j :: 0 <= j < |u| ==> !OccursAt(u + x, pat, j)
    ensures ReplaceAll(u + x, pat, rep) == u + ReplaceAll(x, pat, rep)
  {
    if u == [] {
      assert u + x == x;
    } else {
      var s := u + x;
      assert !OccursAt(s, pat, 0);
      assert !(pat <= s);
      assert s[1..] == u[1..] + x;
      forall j | 0 <= j < |u| - 1
        ensures !OccursAt(u[1..] + x, pat, j)
      {
        assert s[j + 1..] == (u[1..] + x)[j..];
        assert !OccursAt(s, pat, j + 1);
      }
      calc {
        ReplaceAll(s, pat, rep);
        [s[0]] + ReplaceAll(s[1..], pat, rep);
        { ReplaceAllSkips(u[1..], x, pat, rep); }
        [u[0]] + (u[1..] + ReplaceAll(x, pat, rep));
        { assert [u[0]] + u[1..] == u; }
        u + ReplaceAll(x, pat, rep);
      }
    }
  }
}
