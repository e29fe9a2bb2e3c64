/**
 * Extraction of the task label that the annotator shows as a notification.
 * Two regular expressions are searched for, both case-insensitively:
 *
 *   the quoted form  `"task"\s*:\s*"(.*?)"`  and
 *   the loose form   `task\s*:\s*([^\n]*)`.
 *
 * Each search reports the leftmost position where its pattern matches.
 * Each pattern is written here as a matcher at one position, and a "shape"
 * predicate says declaratively which slices of the text make up a match. The
 * matcher's contract ties the two, including the uniqueness of the match that
 * greedy `\s*` and lazy `.*?` make.
 */
module TaskLabel {
  import opened Strings

  datatype Option<+T> = None | Some(value: T)

  /**
   * The four characters of `task` under IGNORECASE. Python's Unicode case
   * folding also lets `s` match LATIN SMALL LETTER LONG S (U+017F) and `k`
   * match KELVIN SIGN (U+212A).
   */
  predicate IsTaskKey(w: string)
  {
    |w| == 4 && w[0] in "tT" && w[1] in "aA" && w[2] in "sS\U{17F}" && w[3] in "kK\U{212A}"
  }

  /** Text that `.*?` may cover before the closing quote: no quote and no line break. */
  predicate Unquoted(t: string)
  {
    '"' !in t && '\n' !in t
  }

  /** Greedy `\s*` from `i`: the end of the whitespace run. */
  function SkipSpace(s: string, i: nat): (j: nat)
    requires i <= |s|
    ensures i <= j <= |s| && AllSpace(s[i..j]) && (j == |s| || !IsSpace(s[j]))
    decreases |s| - i
  {
    if i < |s| && IsSpace(s[i]) then
      var j := SkipSpace(s, i + 1);
      assert s[i..j] == [s[i]] + s[i + 1..j];
      j
    else
      i
  }

  /** Only one whitespace run ends at a non-space: greedy `\s*` has no other choice. */
  lemma {:induction false} SkipSpaceUnique(s: string, i: nat, c: nat)
    requires i <= c <= |s| && AllSpace(s[i..c]) && (c == |s| || !IsSpace(s[c]))
    ensures SkipSpace(s, i) == c
    decreases |s| - i
  {
    if i < c {
      assert s[i..c][0] == s[i];
      assert s[i + 1..c] == s[i..c][1..];
      SkipSpaceUnique(s, i + 1, c);
    }
  }

  /** Lazy `(.*?)"` from `i`: the first quote, provided no line break comes before it. */
  function ClosingQuote(s: string, i: nat): (q: Option<nat>)
    requires i <= |s|
    ensures q.Some? ==> i <= q.value < |s| && s[q.value] == '"' && Unquoted(s[i..q.value])
    decreases |s| - i
  {
    if i == |s| then
      None
    else if s[i] == '"' then
      Some(i)
    else if s[i] == '\n' then
      None
    else
      var q := ClosingQuote(s, i + 1);
      assert q.Some? ==> s[i..q.value] == [s[i]] + s[i + 1..q.value];
      q
  }

  /** A quote reached without crossing a quote or a line break is the one lazy `.*?` stops at. */
  lemma {:induction false} ClosingQuoteFirst(s: string, i: nat, k: nat)
    requires i <= k < |s| && s[k] == '"' && Unquoted(s[i..k])
    ensures ClosingQuote(s, i) == Some(k)
    decreases |s| - i
  {
    if i < k {
      assert s[i..k][0] == s[i];
      assert s[i + 1..k] == s[i..k][1..];
      ClosingQuoteFirst(s, i + 1, k);
    }
  }

  /** The end of the line that starts at `p`: greedy `[^\n]*`. */
  function LineEnd(s: string, p: nat): (q: nat)
    requires p <= |s|
    ensures p <= q <= |s| && '\n' !in s[p..q] && (q == |s| || s[q] == '\n')
    decreases |s| - p
  {
    if p < |s| && s[p] != '\n' then
      var q := LineEnd(s, p + 1);
      assert s[p..q] == [s[p]] + s[p + 1..q];
      q
    else
      p
  }

  /** Only one stretch without line breaks ends at a line break or at the end. */
  lemma {:induction false} LineEndUnique(s: string, p: nat, k: nat)
    requires p <= k <= |s| && '\n' !in s[p..k] && (k == |s| || s[k] == '\n')
    ensures LineEnd(s, p) == k
    decreases |s| - p
  {
    if p < k {
      assert s[p..k][0] == s[p];
      assert s[p + 1..k] == s[p..k][1..];
      LineEndUnique(s, p + 1, k);
    }
  }

  /**
   * The quoted form matches at `i` with the key quote at `i`, the colon at
   * `c`, the opening quote of the value at `p` and its closing quote at `q`.
   */
  predicate ObjectShape(s: string, i: nat, c: nat, p: nat, q: nat)
  {
    i + 6 <= c < p < q < |s|
    && s[i] == '"' && IsTaskKey(s[i + 1..i + 5]) && s[i + 5] == '"'
    && AllSpace(s[i + 6..c]) && s[c] == ':'
    && AllSpace(s[c + 1..p]) && s[p] == '"'
    && Unquoted(s[p + 1..q]) && s[q] == '"'
  }

  /** The quoted form tried at position `i`: the captured value, if it matches there. */
  function ObjectMatchAt(s: string, i: nat): (r: Option<string>)
    requires i <= |s|
    ensures r.Some? ==> Unquoted(r.value)
  {
    if i + 6 <= |s| && s[i] == '"' && IsTaskKey(s[i + 1..i + 5]) && s[i + 5] == '"' then
      var c := SkipSpace(s, i + 6);
      if c < |s| && s[c] == ':' then
        var p := SkipSpace(s, c + 1);
        if p < |s| && s[p] == '"' then
          match ClosingQuote(s, p + 1)
          case Some(q) =>
            Some(s[p + 1..q])
          case None =>
            None
        else
          None
      else
        None
    else
      None
  }

  /**
   * The quoted form matches at `i` exactly when the text there has its shape,
   * and then the captured value is the one slice the shape allows.
   */
  lemma ObjectMatchAtShape(s: string, i: nat)
    requires i <= |s|
    ensures ObjectMatchAt(s, i).Some? <==> exists c: nat, p: nat, q: nat :: ObjectShape(s, i, c, p, q)
    ensures forall c: nat, p: nat, q: nat :: ObjectShape(s, i, c, p, q) ==> ObjectMatchAt(s, i) == Some(s[p + 1..q])
  {
    forall c: nat, p: nat, q: nat | ObjectShape(s, i, c, p, q)
      ensures ObjectMatchAt(s, i) == Some(s[p + 1..q])
    {
      ObjectShapeDetermined(s, i, c, p, q);
    }
    var r := ObjectMatchAt(s, i);
    if r.Some? {
      var c := SkipSpace(s, i + 6);
      var p := SkipSpace(s, c + 1);
      var q := ClosingQuote(s, p + 1).value;
      assert ObjectShape(s, i, c, p, q);
    }
  }

  /** The positions of a quoted-form shape are those the matcher computes. */
  lemma ObjectShapeDetermined(s: string, i: nat, c: nat, p: nat, q: nat)
    requires ObjectShape(s, i, c, p, q)
    ensures SkipSpace(s, i + 6) == c && SkipSpace(s, c + 1) == p && ClosingQuote(s, p + 1) == Some(q)
    ensures ObjectMatchAt(s, i) == Some(s[p + 1..q])
  {
    SkipSpaceUnique(s, i + 6, c);
    SkipSpaceUnique(s, c + 1, p);
    ClosingQuoteFirst(s, p + 1, q);
    ObjectMatchAtSteps(s, i, c, p, q);
  }

  /** The matcher's steps, once each has its result, give the captured value. */
  lemma ObjectMatchAtSteps(s: string, i: nat, c: nat, p: nat, q: nat)
    requires i + 6 <= |s| && s[i] == '"' && IsTaskKey(s[i + 1..i + 5]) && s[i + 5] == '"'
    requires SkipSpace(s, i + 6) == c && c < |s| && s[c] == ':'
    requires SkipSpace(s, c + 1) == p && p < |s| && s[p] == '"'
    requires ClosingQuote(s, p + 1) == Some(q)
    ensures ObjectMatchAt(s, i) == Some(s[p + 1..q])
  {
  }

  /** No match of the quoted form starts in `[k, i)`. */
  ghost predicate NoObjectBetween(s: string, k: nat, i: nat)
    requires k <= i <= |s|
  {
    forall j :: k <= j < i ==> ObjectMatchAt(s, j).None?
  }

  /** A position where the quoted form fails extends a stretch without matches to the left. */
  lemma NoObjectBetweenExtend(s: string, k: nat, i: nat)
    requires k < i <= |s| && ObjectMatchAt(s, k).None? && NoObjectBetween(s, k + 1, i)
    ensures NoObjectBetween(s, k, i)
  {
  }

  /** The leftmost match of the quoted form at or after position `k`. */
  function FindObjectFrom(s: string, k: nat): (r: Option<string>)
    requires k <= |s|
    ensures r.None? ==> forall i :: k <= i <= |s| ==> ObjectMatchAt(s, i).None?
    ensures r.Some? ==> exists i :: k <= i <= |s| && ObjectMatchAt(s, i) == r && NoObjectBetween(s, k, i)
    decreases |s| - k
  {
    var m := ObjectMatchAt(s, k);
    if m.Some? || k == |s| then
      assert NoObjectBetween(s, k, k);
      m
    else
      var r := FindObjectFrom(s, k + 1);
      assert r.Some? ==> exists i :: k <= i <= |s| && ObjectMatchAt(s, i) == r && NoObjectBetween(s, k, i) by {
        if r.Some? {
          var i :| k + 1 <= i <= |s| && ObjectMatchAt(s, i) == r && NoObjectBetween(s, k + 1, i);
          NoObjectBetweenExtend(s, k, i);
        }
      }
      r
  }

  /** `re.search` with the quoted form: the value of its leftmost match. */
  function FindObjectTask(s: string): (r: Option<string>)
    ensures r.Some? ==> Unquoted(r.value)
  {
    FindObjectFrom(s, 0)
  }

  /** The quoted form is found exactly when some slice of the chunk has its shape. */
  lemma FindObjectTaskFinds(s: string)
    ensures FindObjectTask(s).None? <==> forall i: nat, c: nat, p: nat, q: nat :: !ObjectShape(s, i, c, p, q)
  {
    if FindObjectTask(s).None? {
      forall i: nat, c: nat, p: nat, q: nat
        ensures !ObjectShape(s, i, c, p, q)
      {
        if ObjectShape(s, i, c, p, q) {
          ObjectShapeDetermined(s, i, c, p, q);
        }
      }
    } else {
      var i :| 0 <= i <= |s| && ObjectMatchAt(s, i) == FindObjectTask(s) && NoObjectBetween(s, 0, i);
      ObjectMatchAtShape(s, i);
    }
  }

  /**
   * The loose form matches at `i` with the colon at `c` and the captured
   * text `s[p..q]`; greedy `\s*` runs to `p` (and may cross line breaks),
   * greedy `[^\n]*` to the end of that line.
   */
  predicate LooseShape(s: string, i: nat, c: nat, p: nat, q: nat)
  {
    i + 4 <= c < p <= q <= |s|
    && IsTaskKey(s[i..i + 4])
    && AllSpace(s[i + 4..c]) && s[c] == ':'
    && AllSpace(s[c + 1..p]) && (p == |s| || !IsSpace(s[p]))
    && '\n' !in s[p..q] && (q == |s| || s[q] == '\n')
  }

  /** The loose form tried at position `i`: the captured text, if it matches there. */
  function LooseMatchAt(s: string, i: nat): (r: Option<string>)
    requires i <= |s|
    ensures r.Some? ==> '\n' !in r.value && (r.value == [] || !IsSpace(r.value[0]))
  {
    if i + 4 <= |s| && IsTaskKey(s[i..i + 4]) then
      var c := SkipSpace(s, i + 4);
      if c < |s| && s[c] == ':' then
        var p := SkipSpace(s, c + 1);
        var q := LineEnd(s, p);
        Some(s[p..q])
      else
        None
    else
      None
  }

  /**
   * The loose form matches at `i` exactly when the text there has its shape,
   * and then the captured text is the one slice the shape allows.
   */
  lemma LooseMatchAtShape(s: string, i: nat)
    requires i <= |s|
    ensures LooseMatchAt(s, i).Some? <==> exists c: nat, p: nat, q: nat :: LooseShape(s, i, c, p, q)
    ensures forall c: nat, p: nat, q: nat :: LooseShape(s, i, c, p, q) ==> LooseMatchAt(s, i) == Some(s[p..q])
  {
    forall c: nat, p: nat, q: nat | LooseShape(s, i, c, p, q)
      ensures LooseMatchAt(s, i) == Some(s[p..q])
    {
      LooseShapeDetermined(s, i, c, p, q);
    }
    var r := LooseMatchAt(s, i);
    if r.Some? {
      var c := SkipSpace(s, i + 4);
      var p := SkipSpace(s, c + 1);
      var q := LineEnd(s, p);
      assert LooseShape(s, i, c, p, q);
    }
  }

  /** The positions of a loose-form shape are those the matcher computes. */
  lemma LooseShapeDetermined(s: string, i: nat, c: nat, p: nat, q: nat)
    requires LooseShape(s, i, c, p, q)
    ensures SkipSpace(s, i + 4) == c && SkipSpace(s, c + 1) == p && LineEnd(s, p) == q
    ensures LooseMatchAt(s, i) == Some(s[p..q])
  {
    SkipSpaceUnique(s, i + 4, c);
    SkipSpaceUnique(s, c + 1, p);
    LineEndUnique(s, p, q);
    LooseMatchAtSteps(s, i, c, p, q);
  }

  /** The matcher's steps, once each has its result, give the captured text. */
  lemma LooseMatchAtSteps(s: string, i: nat, c: nat, p: nat, q: nat)
    requires i + 4 <= |s| && IsTaskKey(s[i..i + 4])
    requires SkipSpace(s, i + 4) == c && c < |s| && s[c] == ':'
    requires SkipSpace(s, c + 1) == p && LineEnd(s, p) == q
    ensures LooseMatchAt(s, i) == Some(s[p..q])
  {
  }

  /** No match of the loose form starts in `[k, i)`. */
  ghost predicate NoLooseBetween(s: string, k: nat, i: nat)
    requires k <= i <= |s|
  {
    forall j :: k <= j < i ==> LooseMatchAt(s, j).None?
  }

  /** A position where the loose form fails extends a stretch without matches to the left. */
  lemma NoLooseBetweenExtend(s: string, k: nat, i: nat)
    requires k < i <= |s| && LooseMatchAt(s, k).None? && NoLooseBetween(s, k + 1, i)
    ensures NoLooseBetween(s, k, i)
  {
  }

  /** The leftmost match of the loose form at or after position `k`. */
  function FindLooseFrom(s: string, k: nat): (r: Option<string>)
    requires k <= |s|
    ensures r.None? ==> forall i :: k <= i <= |s| ==> LooseMatchAt(s, i).None?
    ensures r.Some? ==> exists i :: k <= i <= |s| && LooseMatchAt(s, i) == r && NoLooseBetween(s, k, i)
    decreases |s| - k
  {
    var m := LooseMatchAt(s, k);
    if m.Some? || k == |s| then
      assert NoLooseBetween(s, k, k);
      m
    else
      var r := FindLooseFrom(s, k + 1);
      assert r.Some? ==> exists i :: k <= i <= |s| && LooseMatchAt(s, i) == r && NoLooseBetween(s, k, i) by {
        if r.Some? {
          var i :| k + 1 <= i <= |s| && LooseMatchAt(s, i) == r && NoLooseBetween(s, k + 1, i);
          NoLooseBetweenExtend(s, k, i);
        }
      }
      r
  }

  /** `re.search` with the loose form: the text of its leftmost match. */
  function FindLooseTask(s: string): (r: Option<string>)
    ensures r.Some? ==> '\n' !in r.value && (r.value == [] || !IsSpace(r.value[0]))
  {
    FindLooseFrom(s, 0)
  }

  /** The loose form is found exactly when some slice of the chunk has its shape. */
  lemma FindLooseTaskFinds(s: string)
    ensures FindLooseTask(s).None? <==> forall i: nat, c: nat, p: nat, q: nat :: !LooseShape(s, i, c, p, q)
  {
    if FindLooseTask(s).None? {
      forall i: nat, c: nat, p: nat, q: nat
        ensures !LooseShape(s, i, c, p, q)
      {
        if LooseShape(s, i, c, p, q) {
          LooseShapeDetermined(s, i, c, p, q);
        }
      }
    } else {
      var i :| 0 <= i <= |s| && LooseMatchAt(s, i) == FindLooseTask(s) && NoLooseBetween(s, 0, i);
      LooseMatchAtShape(s, i);
    }
  }

  /**
   * The label of a chunk: the quoted form's value, untrimmed, whenever that
   * form matches anywhere (even when the value is empty); otherwise the loose
   * form's text with surrounding whitespace stripped; otherwise nothing.
   */
  function TaskLabel(s: string): (r: Option<string>)
    ensures r.Some? <==> FindObjectTask(s).Some? || FindLooseTask(s).Some?
    ensures r.Some? ==> '\n' !in r.value
  {
    match FindObjectTask(s)
    case Some(v) => Some(v)
    case None =>
      match FindLooseTask(s)
      case Some(v) =>
        TrimKeeps(v, '\n');
        Some(Trim(v))
      case None => None
  }

  /** The notifications one chunk raises: one, for a non-empty label, else none. */
  function Notification(s: string): (toasts: seq<string>)
    ensures |toasts| <= 1
    ensures toasts != [] <==> TaskLabel(s).Some? && TaskLabel(s).value != []
    ensures toasts != [] ==> toasts[0] == ":robot_face: " + TaskLabel(s).value
  {
    match TaskLabel(s)
    case Some(v) => if v != [] then [":robot_face: " + v] else []
    case None => []
  }

  /** A match of the quoted form with none before it is the one the search reports. */
  lemma FindObjectLeftmost(s: string, i: nat)
    requires i <= |s| && ObjectMatchAt(s, i).Some? && NoObjectBetween(s, 0, i)
    ensures FindObjectTask(s) == ObjectMatchAt(s, i)
  {
    var r := FindObjectTask(s);
    var j :| 0 <= j <= |s| && ObjectMatchAt(s, j) == r && NoObjectBetween(s, 0, j);
    assert !(j < i) && !(i < j);
  }

  /**
   * A chunk whose first quote opens a `"task": "<v>"` pair is labelled with
   * `v` exactly as written, untrimmed and even when empty, whatever follows
   * and whether or not the loose form also matches.
   */
  lemma QuotedLabelWins(u: string, key: string, v: string, w: string)
    requires '"' !in u && IsTaskKey(key) && Unquoted(v)
    ensures TaskLabel(u + "\"" + key + "\": \"" + v + "\"" + w) == Some(v)
  {
    var s := u + "\"" + key + "\": \"" + v + "\"" + w;
    var i := |u|;
    var q := i + 9 + |v|;
    assert s[i + 1..i + 5] == key;
    assert s[i + 9..q] == v;
    assert ObjectShape(s, i, i + 6, i + 8, q);
    ObjectShapeDetermined(s, i, i + 6, i + 8, q);
    forall j | 0 <= j < i
      ensures ObjectMatchAt(s, j).None?
    {
      assert s[j] == u[j];
    }
    FindObjectLeftmost(s, i);
  }

  /**
   * A chunk without quotes of the form `task:<v>`, with `v` on one line, is
   * labelled with `v` stripped; whitespace after the colon is skipped by the
   * pattern and any that is left is removed by `strip()`.
   */
  lemma LooseLabelTrimmed(key: string, v: string)
    requires IsTaskKey(key) && '"' !in v && '\n' !in v
    ensures TaskLabel(key + ":" + v) == Some(Trim(v))
  {
    var s := key + ":" + v;
    KeyColon(key, v);
    var p := SkipSpace(s, 5);
    LooseAtStart(s, p);
    UnquotedHasNoObject(s);
    FindObjectTaskFinds(s);
    LabelFromLoose(s, 0, 4, p, |s|);
    TrimAfterColon(s, p);
  }

  /** The pieces of `key:v` where the loose form looks for them. */
  lemma KeyColon(key: string, v: string)
    requires IsTaskKey(key) && '"' !in v && '\n' !in v
    ensures var s := key + ":" + v;
      |s| >= 5 && IsTaskKey(s[0..4]) && s[4] == ':' && s[5..] == v && '\n' !in s && '"' !in s
  {
    var s := key + ":" + v;
    assert s[0..4] == key;
    KeyIsPlain(key);
  }

  /** Skipping the whitespace after the colon does not change what `strip()` gives. */
  lemma TrimAfterColon(s: string, p: nat)
    requires |s| >= 5 && p == SkipSpace(s, 5)
    ensures Trim(s[p..|s|]) == Trim(s[5..])
  {
    SliceSplit(s, 5, p);
    TrimSkips(s[5..p], s[p..|s|]);
  }

  /** The key `task` holds no quote and no line break, in any case. */
  lemma KeyIsPlain(key: string)
    requires IsTaskKey(key)
    ensures '"' !in key && '\n' !in key
  {
    assert key == [key[0], key[1], key[2], key[3]];
  }

  /**
   * A chunk that opens with `task:` and holds no line break has a loose
   * shape running from the end of the whitespace after the colon to the end
   * of the chunk.
   */
  lemma LooseAtStart(s: string, p: nat)
    requires |s| >= 5 && IsTaskKey(s[0..4]) && s[4] == ':' && '\n' !in s
    requires p == SkipSpace(s, 5)
    ensures LooseShape(s, 0, 4, p, |s|)
  {
    SliceKeeps(s, p, '\n');
    assert '\n' !in s[p..|s|];
    assert AllSpace(s[4..4]);
  }

  /**
   * Wherever the leftmost match of the quoted form lies, the label is its
   * value, untrimmed and even when empty, whatever else the chunk holds.
   */
  lemma LabelFromQuoted(s: string, i: nat, c: nat, p: nat, q: nat)
    requires ObjectShape(s, i, c, p, q) && NoObjectBetween(s, 0, i)
    ensures TaskLabel(s) == Some(s[p + 1..q])
  {
    ObjectShapeDetermined(s, i, c, p, q);
    FindObjectLeftmost(s, i);
  }

  /** A match of the loose form with none before it is the one the search reports. */
  lemma FindLooseLeftmost(s: string, i: nat)
    requires i <= |s| && LooseMatchAt(s, i).Some? && NoLooseBetween(s, 0, i)
    ensures FindLooseTask(s) == LooseMatchAt(s, i)
  {
    var r := FindLooseTask(s);
    var j :| 0 <= j <= |s| && LooseMatchAt(s, j) == r && NoLooseBetween(s, 0, j);
    assert !(j < i) && !(i < j);
  }

  /**
   * When the quoted form matches nowhere, the label is the text of the
   * leftmost match of the loose form, stripped.
   */
  lemma LabelFromLoose(s: string, i: nat, c: nat, p: nat, q: nat)
    requires LooseShape(s, i, c, p, q) && NoLooseBetween(s, 0, i)
    requires forall i: nat, c: nat, p: nat, q: nat :: !ObjectShape(s, i, c, p, q)
    ensures TaskLabel(s) == Some(Trim(s[p..q]))
  {
    FindObjectTaskFinds(s);
    LooseShapeDetermined(s, i, c, p, q);
    FindLooseLeftmost(s, i);
  }

  /** Without a quote character the quoted form cannot match. */
  lemma UnquotedHasNoObject(s: string)
    requires '"' !in s
    ensures FindObjectTask(s).None?
  {
  }
}
