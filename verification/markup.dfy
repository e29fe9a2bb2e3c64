/**
 * Colour tagging of the structural markers in the log text. The source wraps
 * each of five literal markers as `:<colour>[<marker>]` (Streamlit's coloured
 * text markup) with one `str.replace` call per marker. This module gives an
 * independent single-pass description of that rewrite, `Annotate`, which
 * tokenises the text into plain characters and markers. It proves that the
 * chain of five replacements equals it, whatever the text, and that
 * `Unannotate` undoes it.
 */
module Markup {
  import opened Strings

  const ChainEntered: string := "Entering new CrewAgentExecutor chain"
  const MarketResearchAnalyst: string := "Market Research Analyst"
  const BusinessDevelopmentConsultant: string := "Business Development Consultant"
  const TechnologyExpert: string := "Technology Expert"
  const ChainFinished: string := "Finished chain."

  /** The markers in the order the source replaces them. */
  const Markers: seq<string> :=
    [ChainEntered, MarketResearchAnalyst, BusinessDevelopmentConsultant, TechnologyExpert, ChainFinished]

  /** The markup that shows `m` in colour `colour`. */
  function Tag(colour: string, m: string): (t: string)
    ensures |t| == |colour| + |m| + 3 && t[0] == ':' && t[|t| - 1] == ']'
  {
    ":" + colour + "[" + m + "]"
  }

  /** Text without the three characters that delimit a tag. */
  predicate Bare(t: string)
  {
    ':' !in t && '[' !in t && ']' !in t
  }

  /** Every marker has at least two characters, none of which delimits a tag. */
  predicate WellFormed(ms: seq<string>)
  {
    forall k :: 0 <= k < |ms| ==> |ms[k]| > 1 && Bare(ms[k])
  }

  /** The index of the first marker of `ms` that starts `s`, or `|ms|` when none does. */
  function FirstMarker(ms: seq<string>, s: string): (k: nat)
    ensures k <= |ms|
    ensures k < |ms| ==> ms[k] <= s
    ensures forall j :: 0 <= j < k ==> !(ms[j] <= s)
  {
    if ms == [] then 0 else if ms[0] <= s then 0 else 1 + FirstMarker(ms[1..], s)
  }

  /** No marker of `ms` starts at any index of `s` before `n`. */
  ghost predicate NoMarkerBefore(ms: seq<string>, s: string, n: nat)
    requires n <= |s|
  {
    forall j :: 0 <= j < n ==> FirstMarker(ms, s[j..]) == |ms|
  }

  /**
   * The single-pass rewrite: scanning from the left, a marker that starts
   * here is emitted as its tag and skipped, any other character is copied.
   */
  function Annotate(ms: seq<string>, colour: string, s: string): (r: string)
    requires WellFormed(ms)
    decreases |s|
  {
    if s == [] then
      []
    else
      var k := FirstMarker(ms, s);
      if k < |ms| then Tag(colour, ms[k]) + Annotate(ms, colour, s[|ms[k]|..])
      else [s[0]] + Annotate(ms, colour, s[1..])
  }

  /** The tags of all markers in one colour. */
  function Tags(ms: seq<string>, colour: string): (ts: seq<string>)
    ensures |ts| == |ms| && forall k :: 0 <= k < |ms| ==> ts[k] == Tag(colour, ms[k])
  {
    seq(|ms|, k requires 0 <= k < |ms| => Tag(colour, ms[k]))
  }

  /** The inverse rewrite: every tag found scanning from the left becomes its bare marker. */
  function Unannotate(ms: seq<string>, colour: string, t: string): (r: string)
    decreases |t|
  {
    if t == [] then
      []
    else
      var k := FirstMarker(Tags(ms, colour), t);
      if k < |ms| then ms[k] + Unannotate(ms, colour, t[|Tag(colour, ms[k])|..])
      else [t[0]] + Unannotate(ms, colour, t[1..])
  }

  /** Where no marker starts, the rewrite copies the text. */
  lemma {:induction false} AnnotateCopies(ms: seq<string>, colour: string, s: string, n: nat)
    requires WellFormed(ms) && n <= |s| && NoMarkerBefore(ms, s, n)
    ensures Annotate(ms, colour, s) == s[..n] + Annotate(ms, colour, s[n..])
    decreases n
  {
    if n > 0 {
      assert FirstMarker(ms, s) == |ms| by {
        assert s[0..] == s;
      }
      assert NoMarkerBefore(ms, s[1..], n - 1) by {
        forall j | 0 <= j < n - 1
          ensures FirstMarker(ms, s[1..][j..]) == |ms|
        {
          assert s[1..][j..] == s[j + 1..];
        }
      }
      AnnotateCopies(ms, colour, s[1..], n - 1);
      ConsSplit(s, n, Annotate(ms, colour, s[n..]));
    }
  }

  /** Putting the first character back in front of a cut made one further along. */
  lemma ConsSplit(s: string, n: nat, x: string)
    requires 0 < n <= |s|
    ensures s[1..][n - 1..] == s[n..]
    ensures [s[0]] + (s[1..][..n - 1] + x) == s[..n] + x
  {
    assert s[..n] == [s[0]] + s[1..][..n - 1];
  }

  /** Text in which no marker occurs is left exactly as it was. */
  lemma AnnotatePlain(ms: seq<string>, colour: string, s: string)
    requires WellFormed(ms) && NoMarkerBefore(ms, s, |s|)
    ensures Annotate(ms, colour, s) == s
  {
    AnnotateCopies(ms, colour, s, |s|);
    assert s[..|s|] == s;
  }

  /** A prefix of the rewritten text without a colon was copied from the original. */
  lemma {:induction false} CopiedPrefix(ms: seq<string>, colour: string, s: string, q: string)
    requires WellFormed(ms) && q <= Annotate(ms, colour, s) && ':' !in q
    ensures q <= s
    decreases |s|
  {
    if s != [] && q != [] {
      var k := FirstMarker(ms, s);
      assert q[0] in q;
      if k == |ms| {
        assert q[0] == s[0];
        assert q[1..] <= Annotate(ms, colour, s[1..]);
        CopiedPrefix(ms, colour, s[1..], q[1..]);
        assert q == s[..|q|] by {
          forall i | 0 <= i < |q|
            ensures q[i] == s[i]
          {
            if i > 0 {
              assert q[i] == q[1..][i - 1] == s[1..][i - 1];
            }
          }
        }
      }
    }
  }

  /** No marker starts inside the part of the original that a colon-free prefix of the rewrite copied. */
  lemma {:induction false} CopiedUnmarked(ms: seq<string>, colour: string, s: string, q: string)
    requires WellFormed(ms) && q <= Annotate(ms, colour, s) && ':' !in q
    ensures |q| <= |s| && NoMarkerBefore(ms, s, |q|)
    decreases |s|
  {
    CopiedPrefix(ms, colour, s, q);
    if s != [] && q != [] {
      var k := FirstMarker(ms, s);
      assert q[0] in q;
      if k == |ms| {
        assert q[1..] <= Annotate(ms, colour, s[1..]);
        CopiedUnmarked(ms, colour, s[1..], q[1..]);
        forall j | 0 <= j < |q|
          ensures FirstMarker(ms, s[j..]) == |ms|
        {
          if j > 0 {
            assert s[j..] == s[1..][j - 1..];
          } else {
            assert s[0..] == s;
          }
        }
      }
    }
  }

  /** The rewrite is undone by `Unannotate`: tagging loses nothing of the text. */
  lemma {:induction false} UnannotateAnnotate(ms: seq<string>, colour: string, s: string)
    requires WellFormed(ms) && ':' !in colour
    ensures Unannotate(ms, colour, Annotate(ms, colour, s)) == s
    decreases |s|
  {
    if s != [] {
      var k := FirstMarker(ms, s);
      if k < |ms| {
        var m := ms[k];
        UnannotateTag(ms, colour, s, Annotate(ms, colour, s[|m|..]));
        UnannotateAnnotate(ms, colour, s[|m|..]);
        assert m + s[|m|..] == s;
      } else {
        UnannotateCopied(ms, colour, s);
        UnannotateAnnotate(ms, colour, s[1..]);
      }
    }
  }

  /** At a marker the rewrite emitted, the inverse finds that marker's tag and no other. */
  lemma UnannotateTag(ms: seq<string>, colour: string, s: string, x: string)
    requires WellFormed(ms) && FirstMarker(ms, s) < |ms|
    ensures var m := ms[FirstMarker(ms, s)];
            Unannotate(ms, colour, Tag(colour, m) + x) == m + Unannotate(ms, colour, x)
  {
    var k := FirstMarker(ms, s);
    var m := ms[k];
    var ts := Tags(ms, colour);
    var t := Tag(colour, m) + x;
    forall j | 0 <= j < k
      ensures !(ts[j] <= t)
    {
      if ts[j] <= t {
        TagPrefixOfTag(colour, ms[j], m, x);
      }
    }
    assert FirstMarker(ts, t) == k;
    assert t[|Tag(colour, m)|..] == x;
  }

  /** At a character the rewrite copied, the inverse finds no tag. */
  lemma UnannotateCopied(ms: seq<string>, colour: string, s: string)
    requires WellFormed(ms) && ':' !in colour && s != [] && FirstMarker(ms, s) == |ms|
    ensures var x := Annotate(ms, colour, s[1..]);
            Unannotate(ms, colour, [s[0]] + x) == [s[0]] + Unannotate(ms, colour, x)
  {
    var x := Annotate(ms, colour, s[1..]);
    var t := [s[0]] + x;
    var ts := Tags(ms, colour);
    forall j | 0 <= j < |ms|
      ensures !(ts[j] <= t)
    {
      NoTagAfterCopy(ms, colour, s[0], s[1..], j);
    }
    assert FirstMarker(ts, t) == |ms|;
    assert t[1..] == x;
  }

  /** A copied character followed by rewritten text never starts a tag. */
  lemma NoTagAfterCopy(ms: seq<string>, colour: string, c: char, s: string, j: nat)
    requires WellFormed(ms) && ':' !in colour && j < |ms|
    ensures !(Tag(colour, ms[j]) <= [c] + Annotate(ms, colour, s))
  {
    var x := Annotate(ms, colour, s);
    var q := colour + "[" + ms[j] + "]";
    if Tag(colour, ms[j]) <= [c] + x {
      assert Tag(colour, ms[j]) == [':'] + q;
      assert q <= x by {
        forall i | 0 <= i < |q|
          ensures q[i] == x[i]
        {
          assert q[i] == Tag(colour, ms[j])[i + 1] == ([c] + x)[i + 1];
        }
      }
      CopiedPrefix(ms, colour, s, q);
      var n := |colour| + 1;
      assert ms[j] <= s[n..] by {
        assert q[n..n + |ms[j]|] == ms[j];
        assert s[n..n + |ms[j]|] == q[n..n + |ms[j]|];
      }
      CopiedUnmarked(ms, colour, s, q);
    }
  }

  /** The tag of a marker is a prefix of the tag of another only when the marker is a prefix of it. */
  lemma TagPrefixOfTag(colour: string, a: string, m: string, x: string)
    requires ']' !in a
    requires Tag(colour, a) <= Tag(colour, m) + x
    ensures a <= m
  {
    var n := |colour| + 2;
    var ta := Tag(colour, a);
    var t := Tag(colour, m) + x;
    assert ta == t[..|ta|];
    assert ta[n..] == a + "]";
    assert t[n..] == m + "]" + x;
    var w := a + "]";
    assert w == (m + "]" + x)[..|w|] by {
      forall i | 0 <= i < |w|
        ensures w[i] == (m + "]" + x)[i]
      {
        assert w[i] == ta[n + i] == t[n + i];
      }
    }
    assert (m + "]" + x)[|m|] == ']';
    assert |a| <= |m|;
    assert a == m[..|a|] by {
      forall i | 0 <= i < |a|
        ensures a[i] == m[i]
      {
        assert a[i] == w[i];
      }
    }
  }

  /**
   * Neither of the first two characters of `m` can follow into `p`: no
   * occurrence of `m` starts strictly inside an occurrence of `p`.
   */
  predicate Apart(p: string, m: string)
  {
    |m| > 1 && forall j :: 1 <= j < |p| ==> p[j] != m[0] || (j + 1 < |p| && p[j + 1] != m[1])
  }

  /** A marker `p` longer than the colour, whose first character `m` lacks, does not occur inside a tag of `m`. */
  lemma TagHidesMarker(colour: string, m: string, x: string, p: string)
    requires p != [] && Bare(p) && |colour| < |p| && p[0] !in m
    ensures forall j :: 0 <= j < |Tag(colour, m)| ==> !OccursAt(Tag(colour, m) + x, p, j)
  {
    var u := Tag(colour, m);
    var t := u + x;
    forall j | 0 <= j < |u|
      ensures !OccursAt(t, p, j)
    {
      if 1 <= j <= |colour| {
        assert t[|colour| + 1] == '[';
      } else if |colour| + 2 <= j < |u| - 1 {
        assert u[j] == m[j - |colour| - 2];
      }
    }
  }

  /**
   * One more `str.replace` pass over the single-pass rewrite with markers `ms`
   * is the single-pass rewrite with `p` added as the last marker.
   */
  lemma {:induction false} ReplaceAfterAnnotate(ms: seq<string>, colour: string, p: string, s: string)
    requires WellFormed(ms) && WellFormed(ms + [p]) && |colour| < |p|
    requires forall k :: 0 <= k < |ms| ==> p[0] !in ms[k] && Apart(p, ms[k])
    ensures ReplaceAll(Annotate(ms, colour, s), p, Tag(colour, p)) == Annotate(ms + [p], colour, s)
    decreases |s|
  {
    assert (ms + [p])[|ms|] == p;
    if s != [] {
      var k := FirstMarker(ms, s);
      if k < |ms| {
        ReplaceAfterAnnotate(ms, colour, p, s[|ms[k]|..]);
        ReplaceAfterTag(ms, colour, p, s);
      } else if p <= s {
        ReplaceAfterAnnotate(ms, colour, p, s[|p|..]);
        ReplaceAfterNew(ms, colour, p, s);
      } else {
        ReplaceAfterAnnotate(ms, colour, p, s[1..]);
        ReplaceAfterCopy(ms, colour, p, s);
      }
    }
  }

  /** The step of `ReplaceAfterAnnotate` where a marker of `ms` starts the text. */
  lemma ReplaceAfterTag(ms: seq<string>, colour: string, p: string, s: string)
    requires WellFormed(ms) && WellFormed(ms + [p]) && |p| > 1 && Bare(p) && |colour| < |p|
    requires forall k :: 0 <= k < |ms| ==> p[0] !in ms[k]
    requires s != [] && FirstMarker(ms, s) < |ms|
    requires ReplaceAll(Annotate(ms, colour, s[|ms[FirstMarker(ms, s)]|..]), p, Tag(colour, p))
          == Annotate(ms + [p], colour, s[|ms[FirstMarker(ms, s)]|..])
    ensures ReplaceAll(Annotate(ms, colour, s), p, Tag(colour, p)) == Annotate(ms + [p], colour, s)
  {
    var m := ms[FirstMarker(ms, s)];
    var x := Annotate(ms, colour, s[|m|..]);
    FirstMarkerAppend(ms, p, s);
    TagHidesMarker(colour, m, x, p);
    ReplaceAllSkips(Tag(colour, m), x, p, Tag(colour, p));
  }

  /** The step of `ReplaceAfterAnnotate` where no marker of `ms` but `p` starts the text. */
  lemma ReplaceAfterNew(ms: seq<string>, colour: string, p: string, s: string)
    requires WellFormed(ms) && WellFormed(ms + [p]) && |p| > 1
    requires forall k :: 0 <= k < |ms| ==> Apart(p, ms[k])
    requires s != [] && FirstMarker(ms, s) == |ms| && p <= s
    requires ReplaceAll(Annotate(ms, colour, s[|p|..]), p, Tag(colour, p)) == Annotate(ms + [p], colour, s[|p|..])
    ensures ReplaceAll(Annotate(ms, colour, s), p, Tag(colour, p)) == Annotate(ms + [p], colour, s)
  {
    assert (ms + [p])[|ms|] == p;
    FirstMarkerAppend(ms, p, s);
    forall j | 0 <= j < |p|
      ensures FirstMarker(ms, s[j..]) == |ms|
    {
      if j > 0 {
        ApartAt(p, s, j, ms);
      } else {
        assert s[0..] == s;
      }
    }
    AnnotateCopies(ms, colour, s, |p|);
    var x := Annotate(ms, colour, s[|p|..]);
    assert s[..|p|] == p;
    assert (p + x)[|p|..] == x;
  }

  /** The step of `ReplaceAfterAnnotate` where no marker at all starts the text. */
  lemma ReplaceAfterCopy(ms: seq<string>, colour: string, p: string, s: string)
    requires WellFormed(ms) && WellFormed(ms + [p]) && |p| > 1 && Bare(p)
    requires s != [] && FirstMarker(ms, s) == |ms| && !(p <= s)
    requires ReplaceAll(Annotate(ms, colour, s[1..]), p, Tag(colour, p)) == Annotate(ms + [p], colour, s[1..])
    ensures ReplaceAll(Annotate(ms, colour, s), p, Tag(colour, p)) == Annotate(ms + [p], colour, s)
  {
    FirstMarkerAppend(ms, p, s);
    var x := Annotate(ms, colour, s[1..]);
    var t := [s[0]] + x;
    assert Annotate(ms, colour, s) == t;
    assert t[1..] == x;
    if p <= t {
      PrefixTail(p, t);
      CopiedPrefix(ms, colour, s[1..], p[1..]);
      PrefixFromTail(p, s);
    }
  }

  /** Dropping the first character of a prefix and of the text keeps it a prefix. */
  lemma PrefixTail(p: string, t: string)
    requires p != [] && p <= t
    ensures p[0] == t[0] && p[1..] <= t[1..]
  {
    assert p == t[..|p|];
    assert p[1..] == t[1..][..|p| - 1];
  }

  /** Equal first characters and a prefix after them make a prefix. */
  lemma PrefixFromTail(p: string, s: string)
    requires p != [] && s != [] && p[0] == s[0] && p[1..] <= s[1..]
    ensures p <= s
  {
    assert p == [p[0]] + p[1..];
    assert s == [s[0]] + s[1..];
  }

  /** Adding a marker at the end of the list only matters where no earlier marker starts. */
  lemma {:induction false} FirstMarkerAppend(ms: seq<string>, p: string, s: string)
    ensures FirstMarker(ms + [p], s) ==
      if FirstMarker(ms, s) < |ms| then FirstMarker(ms, s) else if p <= s then |ms| else |ms| + 1
  {
    if ms != [] {
      assert (ms + [p])[1..] == ms[1..] + [p];
      FirstMarkerAppend(ms[1..], p, s);
    }
  }

  /** Where `p` occurs, no marker of `ms` starts at any later index inside the occurrence. */
  lemma ApartAt(p: string, s: string, j: nat, ms: seq<string>)
    requires p <= s && 0 < j < |p|
    requires forall k :: 0 <= k < |ms| ==> Apart(p, ms[k])
    ensures FirstMarker(ms, s[j..]) == |ms|
  {
    var t := s[j..];
    forall k | 0 <= k < |ms|
      ensures !(ms[k] <= t)
    {
      var m := ms[k];
      assert Apart(p, m);
      assert p[j] != m[0] || (j + 1 < |p| && p[j + 1] != m[1]);
      if p[j] != m[0] {
        assert t[0] == p[j];
      } else {
        assert j + 1 < |p|;
        assert t[1] == p[j + 1];
      }
    }
  }

  /** The single pass with no markers copies the text. */
  lemma AnnotateNothing(colour: string, s: string)
    ensures Annotate([], colour, s) == s
  {
    AnnotatePlain([], colour, s);
  }

  /** Each marker is well formed and longer than any colour name of fewer than 15 characters. */
  lemma MarkersWellFormed()
    ensures WellFormed(Markers)
    ensures forall k :: 0 <= k < |Markers| ==> |Markers[k]| >= 15
  {
    BareMarker0();
    BareMarker1();
    BareMarker2();
    BareMarker3();
    BareMarker4();
  }

  lemma BareMarker0()
    ensures |ChainEntered| >= 15 && Bare(ChainEntered)
  {
    MarkerBare(ChainEntered);
  }

  lemma BareMarker1()
    ensures |MarketResearchAnalyst| >= 15 && Bare(MarketResearchAnalyst)
  {
    MarkerBare(MarketResearchAnalyst);
  }

  lemma BareMarker2()
    ensures |BusinessDevelopmentConsultant| >= 15 && Bare(BusinessDevelopmentConsultant)
  {
    MarkerBare(BusinessDevelopmentConsultant);
  }

  lemma BareMarker3()
    ensures |TechnologyExpert| >= 15 && Bare(TechnologyExpert)
  {
    MarkerBare(TechnologyExpert);
  }

  lemma BareMarker4()
    ensures |ChainFinished| >= 15 && Bare(ChainFinished)
  {
    MarkerBare(ChainFinished);
  }

  /** Text made of letters, spaces and full stops holds no tag delimiter. */
  lemma MarkerBare(m: string)
    requires forall k :: 0 <= k < |m| ==> m[k] == ' ' || m[k] == '.' || 'a' <= m[k] <= 'z' || 'A' <= m[k] <= 'Z'
    ensures Bare(m)
  {
  }

  /** A later marker starts with a character no earlier marker holds, and never overlaps one. */
  lemma MarkersSeparated()
    ensures Separated(Markers)
  {
    Separated10();
    Separated20();
    Separated21();
    Separated30();
    Separated31();
    Separated32();
    Separated40();
    Separated41();
    Separated42();
    Separated43();
  }

  lemma Separated10()
    ensures MarketResearchAnalyst[0] !in ChainEntered && Apart(MarketResearchAnalyst, ChainEntered)
  {
  }

  lemma Separated20()
    ensures BusinessDevelopmentConsultant[0] !in ChainEntered && Apart(BusinessDevelopmentConsultant, ChainEntered)
  {
  }

  lemma Separated21()
    ensures BusinessDevelopmentConsultant[0] !in MarketResearchAnalyst && Apart(BusinessDevelopmentConsultant, MarketResearchAnalyst)
  {
  }

  lemma Separated30()
    ensures TechnologyExpert[0] !in ChainEntered && Apart(TechnologyExpert, ChainEntered)
  {
  }

  lemma Separated31()
    ensures TechnologyExpert[0] !in MarketResearchAnalyst && Apart(TechnologyExpert, MarketResearchAnalyst)
  {
  }

  lemma Separated32()
    ensures TechnologyExpert[0] !in BusinessDevelopmentConsultant && Apart(TechnologyExpert, BusinessDevelopmentConsultant)
  {
  }

  lemma Separated40()
    ensures ChainFinished[0] !in ChainEntered && Apart(ChainFinished, ChainEntered)
  {
  }

  lemma Separated41()
    ensures ChainFinished[0] !in MarketResearchAnalyst && Apart(ChainFinished, MarketResearchAnalyst)
  {
  }

  lemma Separated42()
    ensures ChainFinished[0] !in BusinessDevelopmentConsultant && Apart(ChainFinished, BusinessDevelopmentConsultant)
  {
  }

  lemma Separated43()
    ensures ChainFinished[0] !in TechnologyExpert && Apart(ChainFinished, TechnologyExpert)
  {
  }

  /**
   * The source's rewrite, cut after the first `n` markers: one `str.replace`
   * per marker, in the order of `Markers`, each wrapping every occurrence of
   * its marker in a tag of `colour`.
   */
  function Replaced(colour: string, s: string, n: nat): (r: string)
    requires n <= |Markers|
    ensures n == 0 ==> r == s
  {
    if n == 0 then
      s
    else
      MarkersWellFormed();
      var p := Markers[n - 1];
      ReplaceAll(Replaced(colour, s, n - 1), p, Tag(colour, p))
  }

  /** Every marker starts with a character no earlier marker holds, and never overlaps one. */
  predicate Separated(ms: seq<string>)
  {
    forall i, k :: 0 <= k < i < |ms| && |ms[i]| > 0 ==> ms[i][0] !in ms[k] && Apart(ms[i], ms[k])
  }

  /** One `str.replace` per marker of `ms`, in order, each wrapping its marker in a tag of `colour`. */
  function ReplaceEach(ms: seq<string>, colour: string, s: string): (r: string)
    requires WellFormed(ms)
    ensures ms == [] ==> r == s
    decreases |ms|
  {
    if ms == [] then
      s
    else
      var p := ms[|ms| - 1];
      ReplaceAll(ReplaceEach(ms[..|ms| - 1], colour, s), p, Tag(colour, p))
  }

  /**
   * For separated markers all longer than the colour name, replacing them one
   * after the other is the single pass over them: no replacement rewrites
   * the inside of an earlier tag.
   */
  lemma {:induction false} ReplaceEachIsAnnotate(ms: seq<string>, colour: string, s: string)
    requires WellFormed(ms) && Separated(ms)
    requires forall k :: 0 <= k < |ms| ==> |colour| < |ms[k]|
    ensures ReplaceEach(ms, colour, s) == Annotate(ms, colour, s)
    decreases |ms|
  {
    if ms == [] {
      AnnotateNothing(colour, s);
    } else {
      var ms' := ms[..|ms| - 1];
      var p := ms[|ms| - 1];
      assert ms == ms' + [p];
      ReplaceEachIsAnnotate(ms', colour, s);
      ReplaceAfterAnnotate(ms', colour, p, s);
    }
  }

  /** The source's chain, cut after `n` markers, is `ReplaceEach` over those markers. */
  lemma {:induction false} ReplacedIsEach(colour: string, s: string, n: nat)
    requires n <= |Markers|
    ensures WellFormed(Markers[..n])
    ensures Replaced(colour, s, n) == ReplaceEach(Markers[..n], colour, s)
  {
    MarkersWellFormed();
    if n > 0 {
      var ms := Markers[..n];
      assert ms[..n - 1] == Markers[..n - 1];
      assert ms[n - 1] == Markers[n - 1];
      ReplacedIsEach(colour, s, n - 1);
    }
  }

  /**
   * For a colour name shorter than every marker, the replacements for the
   * first `n` markers, one after the other, are the single pass over those
   * markers.
   */
  lemma ReplacedIsAnnotate(colour: string, s: string, n: nat)
    requires n <= |Markers| && |colour| < 15
    ensures WellFormed(Markers[..n])
    ensures Replaced(colour, s, n) == Annotate(Markers[..n], colour, s)
  {
    ReplacedIsEach(colour, s, n);
    MarkersSeparated();
    MarkersWellFormed();
    ReplaceEachIsAnnotate(Markers[..n], colour, s);
  }

  /** The five replacements of the source are the single pass over all markers. */
  lemma ReplaceMarkersIsAnnotate(colour: string, s: string)
    requires |colour| < 15
    ensures WellFormed(Markers)
    ensures Replaced(colour, s, |Markers|) == Annotate(Markers, colour, s)
  {
    ReplacedIsAnnotate(colour, s, |Markers|);
    assert Markers[..|Markers|] == Markers;
  }

  /** Text shorter than every marker holds none, so the rewrite leaves it as it is. */
  lemma ShortTextPlain(colour: string, s: string)
    requires |s| < 15
    ensures WellFormed(Markers)
    ensures Annotate(Markers, colour, s) == s
  {
    MarkersWellFormed();
    forall j | 0 <= j < |s|
      ensures FirstMarker(Markers, s[j..]) == |Markers|
    {
    }
    AnnotatePlain(Markers, colour, s);
  }

  /** Text in which no marker occurs is left as it is by the rewrite over all markers. */
  lemma AbsentMarkersPlain(colour: string, s: string)
    requires forall k :: 0 <= k < |Markers| ==> !Contains(s, Markers[k])
    ensures WellFormed(Markers)
    ensures Annotate(Markers, colour, s) == s
  {
    MarkersWellFormed();
    forall j | 0 <= j < |s|
      ensures FirstMarker(Markers, s[j..]) == |Markers|
    {
      var k := FirstMarker(Markers, s[j..]);
      if k < |Markers| {
        ContainsOccurs(s, Markers[k]);
        assert OccursAt(s, Markers[k], j);
      }
    }
    AnnotatePlain(Markers, colour, s);
  }
}
