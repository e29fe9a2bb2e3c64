/**
 * Removal of the terminal colour and erase-line control sequences from a
 * chunk of log text, as `re.sub(r'\x1B\[[0-9;]*[mK]', '', data)` does it:
 * ESC, `[`, any run of digits and semicolons, then `m` (SGR, select graphic
 * rendition) or `K` (EL, erase in line), the two control sequences of
 * ECMA-48 that coloured terminal output uses.
 */
module Ansi {

  const Esc: char := '\U{1B}'

  /** A parameter character: `[0-9;]`. */
  predicate IsParam(c: char)
  {
    '0' <= c <= '9' || c == ';'
  }

  /** A final character: `[mK]`. */
  predicate IsFinal(c: char)
  {
    c == 'm' || c == 'K'
  }

  /** `t` is, in full, one control sequence the pattern matches. */
  predicate IsEscape(t: string)
  {
    |t| >= 3 && t[0] == Esc && t[1] == '[' && IsFinal(t[|t| - 1])
    && forall k :: 2 <= k < |t| - 1 ==> IsParam(t[k])
  }

  /** Some slice of `s` is a control sequence. */
  ghost predicate HasEscape(s: string)
  {
    exists i, k :: 0 <= i <= k <= |s| && IsEscape(s[i..k])
  }

  /** The end of the run of parameter characters that starts at `i`. */
  function ParamRunEnd(s: string, i: nat): (j: nat)
    requires i <= |s|
    ensures i <= j <= |s|
    ensures forall k :: i <= k < j ==> IsParam(s[k])
    ensures j == |s| || !IsParam(s[j])
    decreases |s| - i
  {
    if i < |s| && IsParam(s[i]) then ParamRunEnd(s, i + 1) else i
  }

  /**
   * The length of the control sequence at the very start of `s`, or 0 when
   * the pattern does not match there. Since `[0-9;]*` is greedy and cannot
   * swallow the final `m` or `K`, at most one length matches.
   */
  function EscapeLen(s: string): (n: nat)
    ensures n <= |s|
    ensures n > 0 ==> IsEscape(s[..n])
    ensures forall k :: 0 <= k <= |s| && IsEscape(s[..k]) ==> k == n
  {
    if |s| >= 2 && s[0] == Esc && s[1] == '[' then
      var j := ParamRunEnd(s, 2);
      var n := if j < |s| && IsFinal(s[j]) then j + 1 else 0;
      assert forall k :: 0 <= k <= |s| && IsEscape(s[..k]) ==> k == n by {
        forall k | 0 <= k <= |s| && IsEscape(s[..k])
          ensures k == n
        {
          assert IsFinal(s[k - 1]) && !IsParam(s[k - 1]);
        }
      }
      n
    else
      0
  }

  /**
   * The chunk with every control sequence the left-to-right scan finds
   * deleted; the scan resumes after each deletion, so it is a single pass.
   */
  function StripAnsi(s: string): (r: string)
    ensures |r| <= |s|
    decreases |s|
  {
    if s == [] then
      []
    else
      var n := EscapeLen(s);
      if n > 0 then StripAnsi(s[n..]) else [s[0]] + StripAnsi(s[1..])
  }

  /** A chunk without control sequences passes through unchanged, and only such a chunk does. */
  lemma {:induction false} StripAnsiUnchanged(s: string)
    ensures StripAnsi(s) == s <==> !HasEscape(s)
  {
    if HasEscape(s) {
      StripAnsiShrinks(s);
    } else {
      StripAnsiKeeps(s);
    }
  }

  lemma {:induction false} StripAnsiKeeps(s: string)
    requires !HasEscape(s)
    ensures StripAnsi(s) == s
    decreases |s|
  {
    if s != [] {
      var n := EscapeLen(s);
      assert !IsEscape(s[0..n]);
      forall i, k | 0 <= i <= k <= |s| - 1
        ensures !IsEscape(s[1..][i..k])
      {
        assert s[1..][i..k] == s[i + 1..k + 1];
      }
      StripAnsiKeeps(s[1..]);
    }
  }

  lemma {:induction false} StripAnsiShrinks(s: string)
    requires HasEscape(s)
    ensures |StripAnsi(s)| < |s|
    decreases |s|
  {
    var i, k :| 0 <= i <= k <= |s| && IsEscape(s[i..k]);
    var n := EscapeLen(s);
    if n == 0 {
      assert s[0..k] == s[..k];
      assert s[1..][i - 1..k - 1] == s[i..k];
      StripAnsiShrinks(s[1..]);
    }
  }

  /**
   * When every ESC of the chunk starts a control sequence, the cleaned text
   * holds no ESC at all, hence no control sequence.
   */
  lemma {:induction false} StripAnsiClean(s: string)
    requires forall i :: 0 <= i < |s| && s[i] == Esc ==> EscapeLen(s[i..]) > 0
    ensures Esc !in StripAnsi(s)
    ensures !HasEscape(StripAnsi(s))
    decreases |s|
  {
    if s != [] {
      var n := EscapeLen(s);
      var rest := if n > 0 then s[n..] else s[1..];
      var d := |s| - |rest|;
      forall i | 0 <= i < |rest| && rest[i] == Esc
        ensures EscapeLen(rest[i..]) > 0
      {
        assert rest[i..] == s[i + d..];
      }
      StripAnsiClean(rest);
      if n == 0 {
        assert s[0..] == s;
      }
    }
  }

  /**
   * One pass can splice a new control sequence together: in
   * ESC ESC `[m[m` the scan keeps the first ESC, deletes ESC `[m`, and the
   * kept ESC meets the trailing `[m`.
   */
  lemma StripAnsiSplices()
    ensures StripAnsi([Esc, Esc, '[', 'm', '[', 'm']) == [Esc, '[', 'm']
    ensures HasEscape(StripAnsi([Esc, Esc, '[', 'm', '[', 'm']))
  {
    var s := [Esc, Esc, '[', 'm', '[', 'm'];
    assert EscapeLen(s) == 0;
    assert s[1..][..3] == [Esc, '[', 'm'];
    assert EscapeLen(s[1..]) == 3;
    assert s[1..][3..] == ['[', 'm'];
    assert EscapeLen(['[', 'm']) == 0 && EscapeLen(['m']) == 0;
    assert StripAnsi(['[', 'm']) == ['['] + StripAnsi(['m']);
    assert StripAnsi(['m']) == ['m'] + StripAnsi([]);
    var r := [Esc, '[', 'm'];
    assert r[0..3] == r;
    assert IsEscape(r[0..3]);
  }

  /** A chunk without ESC characters passes through unchanged. */
  lemma StripAnsiPlain(s: string)
    requires Esc !in s
    ensures StripAnsi(s) == s
  {
    forall i, k | 0 <= i <= k <= |s|
      ensures !IsEscape(s[i..k])
    {
      if k - i >= 3 {
        assert s[i..k][0] == s[i];
      }
    }
    StripAnsiUnchanged(s);
  }
}
