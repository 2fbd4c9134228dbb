/** The text side of rendering: `doctor`, the two regex rewrites run.py applies to the
    exporter's markdown, and the header block both files put in front of the body. */
module Markdown {
  import opened Wrappers
  import opened Text

  /** Number of `\n` at the start of `s`. */
  function NewlineRun(s: string): (n: nat)
    ensures n <= |s|
    ensures forall k :: 0 <= k < n ==> s[k] == '\n'
    ensures n < |s| ==> s[n] != '\n'
    decreases |s|
  {
    if s != [] && s[0] == '\n' then 1 + NewlineRun(s[1..]) else 0
  }

  /** Number of non-whitespace characters at the start of `s` (what `\S+` takes). */
  function NonSpaceRun(s: string): (n: nat)
    ensures n <= |s|
    ensures forall k :: 0 <= k < n ==> !IsSpace(s[k])
    ensures n < |s| ==> IsSpace(s[n])
    decreases |s|
  {
    if s != [] && !IsSpace(s[0]) then 1 + NonSpaceRun(s[1..]) else 0
  }

  // ---------------------------------------------------------------------------
  // First pass: re.sub(r'(```)(\n+)', r'\1\n\n', s)

  predicate FenceAt(s: string) {
    |s| >= 4 && s[..3] == "```" && s[3] == '\n'
  }

  /** The first rewrite as a left-to-right scanner: at each position where ``` is
      followed by newlines, the whole newline run becomes exactly two; the scan then
      resumes after the run. */
  function PostCodePass(s: string): string
    decreases |s|
  {
    if FenceAt(s) then "```\n\n" + PostCodePass(s[3 + NewlineRun(s[3..])..])
    else if s == [] then []
    else [s[0]] + PostCodePass(s[1..])
  }

  // ---------------------------------------------------------------------------
  // Second pass: re.sub(r'(\s{4}\S+)(\n+)(\s{4})', r'\1\n\3', s)

  /** The regex `(\s{4}\S+)(\n+)(\s{4})` tried at the start of `s`, with Python's
      backtracking: `\S+` is maximal, and `\n+` is the longest run that still leaves four
      whitespace characters for the last group, so it may give back up to all but one of
      its newlines. The result is the length matched and the replacement `\1\n\3`. */
  function InterOutputMatch(s: string): (r: Option<(nat, string)>)
    ensures r.Some? ==> 10 <= r.value.0 <= |s|
    ensures r.Some? ==> Visible(r.value.1) == Visible(s[..r.value.0]) && |r.value.1| <= r.value.0
  {
    if |s| < 5 || !(IsSpace(s[0]) && IsSpace(s[1]) && IsSpace(s[2]) && IsSpace(s[3])) || IsSpace(s[4]) then None
    else
      var j := 4 + NonSpaceRun(s[4..]);
      if j == |s| || s[j] != '\n' then None
      else
        var e := j + NewlineRun(s[j..]);
        var w := LeadingSpaces(s[e..]);
        var back := if w >= 4 then 0 else 4 - w;
        if back > e - j - 1 then None
        else Some((e - back + 4, Replacement(s, j, e - back)))
  }

  /** `\1\n\3`: the text up to the newline run at `j`, one newline, then the four
      whitespace characters starting at `m`. */
  function Replacement(s: string, j: nat, m: nat): (r: string)
    requires j < m && m + 4 <= |s| && m <= j + NewlineRun(s[j..])
    ensures Visible(r) == Visible(s[..m + 4]) && |r| <= m + 4
  {
    ReplacementVisible(s, j, m);
    s[..j] + "\n" + s[m..m + 4]
  }

  /** The second rewrite as a left-to-right, non-overlapping scanner. */
  function InterOutputPass(s: string): string
    decreases |s|
  {
    match InterOutputMatch(s)
    case Some((n, replacement)) => replacement + InterOutputPass(s[n..])
    case None => if s == [] then [] else [s[0]] + InterOutputPass(s[1..])
  }

  /** `doctor`: the first rewrite, then the second. */
  function Doctor(s: string): string {
    InterOutputPass(PostCodePass(s))
  }

  // ---------------------------------------------------------------------------
  // Both passes only insert or delete newlines.

  /** `s` with every `\n` removed. */
  function Visible(s: string): string
    decreases |s|
  {
    if s == [] then [] else (if s[0] == '\n' then [] else [s[0]]) + Visible(s[1..])
  }

  lemma {:induction false} VisibleAppend(a: string, b: string)
    ensures Visible(a + b) == Visible(a) + Visible(b)
    decreases |a|
  {
    if a == [] {
      assert a + b == b;
    } else {
      assert (a + b)[0] == a[0] && (a + b)[1..] == a[1..] + b;
      VisibleAppend(a[1..], b);
    }
  }

  lemma {:induction false} VisibleOfNewlines(s: string)
    requires forall k :: 0 <= k < |s| ==> s[k] == '\n'
    ensures Visible(s) == []
    decreases |s|
  {
    if s != [] {
      VisibleOfNewlines(s[1..]);
    }
  }

  /** A fence followed only by newlines shows as the fence alone. */
  lemma VisibleOfFence(p: string)
    requires |p| >= 3 && p[..3] == "```"
    requires forall k :: 3 <= k < |p| ==> p[k] == '\n'
    ensures Visible(p) == "```"
  {
    assert p == p[..3] + p[3..];
    VisibleAppend(p[..3], p[3..]);
    VisibleOfNewlines(p[3..]);
    var f := "```";
    assert f[1..] == "``" && f[1..][1..] == "`" && f[1..][1..][1..] == [];
    assert Visible(f) == "```";
  }

  /** The fence branch of the first pass keeps the visible text, given that the rest does. */
  lemma VisibleFenceStep(s: string, n: nat, r: string)
    requires 3 <= n <= |s| && s[..3] == "```"
    requires forall k :: 3 <= k < n ==> s[k] == '\n'
    requires Visible(r) == Visible(s[n..])
    ensures Visible("```\n\n" + r) == Visible(s)
  {
    VisibleAppend("```\n\n", r);
    VisibleOfFence("```\n\n");
    assert s == s[..n] + s[n..];
    VisibleAppend(s[..n], s[n..]);
    VisibleOfFence(s[..n]);
  }

  /** A character copied in front keeps the visible text, given that the rest does. */
  lemma VisibleConsStep(s: string, r: string)
    requires s != [] && Visible(r) == Visible(s[1..])
    ensures Visible([s[0]] + r) == Visible(s)
  {
    VisibleAppend([s[0]], r);
    VisibleAppend([s[0]], s[1..]);
    assert s == [s[0]] + s[1..];
  }

  lemma {:induction false} PostCodePassVisible(s: string)
    ensures Visible(PostCodePass(s)) == Visible(s)
    decreases |s|
  {
    if FenceAt(s) {
      var n := 3 + NewlineRun(s[3..]);
      PostCodePassVisible(s[n..]);
      VisibleFenceStep(s, n, PostCodePass(s[n..]));
    } else if s != [] {
      PostCodePassVisible(s[1..]);
      VisibleConsStep(s, PostCodePass(s[1..]));
    }
  }

  /** Replacing a run of newlines by a single one keeps the visible text. */
  lemma VisibleSplice(a: string, m: string, c: string)
    requires forall k :: 0 <= k < |m| ==> m[k] == '\n'
    ensures Visible(a + m + c) == Visible(a + "\n" + c)
  {
    VisibleAppend(a + m, c);
    VisibleAppend(a, m);
    VisibleOfNewlines(m);
    VisibleAppend(a + "\n", c);
    VisibleAppend(a, "\n");
    VisibleOfNewlines("\n");
  }

  /** Dropping the newlines between `j` and `m` in favour of one keeps the visible text. */
  lemma ReplacementVisible(s: string, j: nat, m: nat)
    requires j <= m && m + 4 <= |s| && m <= j + NewlineRun(s[j..])
    ensures Visible(s[..j] + "\n" + s[m..m + 4]) == Visible(s[..m + 4])
  {
    var mid := s[j..m];
    forall k | 0 <= k < |mid| ensures mid[k] == '\n' {
      assert mid[k] == s[j..][k];
    }
    assert s[..m + 4] == s[..j] + mid + s[m..m + 4];
    VisibleSplice(s[..j], mid, s[m..m + 4]);
  }

  /** A replaced prefix keeps the visible text, given that the rest does. */
  lemma VisibleReplaceStep(s: string, n: nat, replacement: string, r: string)
    requires n <= |s| && Visible(replacement) == Visible(s[..n])
    requires Visible(r) == Visible(s[n..])
    ensures Visible(replacement + r) == Visible(s)
  {
    VisibleAppend(replacement, r);
    VisibleAppend(s[..n], s[n..]);
    assert s == s[..n] + s[n..];
  }

  lemma {:induction false} InterOutputPassVisible(s: string)
    ensures Visible(InterOutputPass(s)) == Visible(s)
    ensures |InterOutputPass(s)| <= |s|
    decreases |s|
  {
    match InterOutputMatch(s)
    case Some((n, replacement)) =>
      InterOutputPassVisible(s[n..]);
      VisibleReplaceStep(s, n, replacement, InterOutputPass(s[n..]));
    case None =>
      if s != [] {
        InterOutputPassVisible(s[1..]);
        VisibleConsStep(s, InterOutputPass(s[1..]));
      }
  }

  /** `doctor` only inserts or deletes `\n`: every other character is kept, in order. */
  lemma DoctorKeepsVisible(s: string)
    ensures Visible(Doctor(s)) == Visible(s)
  {
    PostCodePassVisible(s);
    InterOutputPassVisible(PostCodePass(s));
  }

  // ---------------------------------------------------------------------------
  // Text without newlines is left alone.

  lemma {:induction false} PostCodePassNoNewline(s: string)
    requires '\n' !in s
    ensures PostCodePass(s) == s
    decreases |s|
  {
    if s != [] {
      assert !FenceAt(s) by { if |s| >= 4 { assert s[3] in s; } }
      assert '\n' !in s[1..] by { forall k | 0 <= k < |s[1..]| ensures s[1..][k] != '\n' { assert s[1..][k] == s[k + 1]; } }
      PostCodePassNoNewline(s[1..]);
    }
  }

  lemma {:induction false} InterOutputPassNoNewline(s: string)
    requires '\n' !in s
    ensures InterOutputPass(s) == s
    decreases |s|
  {
    if s != [] {
      assert InterOutputMatch(s).None? by {
        if |s| >= 5 && IsSpace(s[0]) && IsSpace(s[1]) && IsSpace(s[2]) && IsSpace(s[3]) && !IsSpace(s[4]) {
          var j := 4 + NonSpaceRun(s[4..]);
          if j < |s| { assert s[j] in s; }
        }
      }
      assert '\n' !in s[1..] by { forall k | 0 <= k < |s[1..]| ensures s[1..][k] != '\n' { assert s[1..][k] == s[k + 1]; } }
      InterOutputPassNoNewline(s[1..]);
    }
  }

  /** A string containing no `\n` comes out of `doctor` unchanged. */
  lemma DoctorNoNewline(s: string)
    requires '\n' !in s
    ensures Doctor(s) == s
  {
    PostCodePassNoNewline(s);
    InterOutputPassNoNewline(s);
  }

  // ---------------------------------------------------------------------------
  // After the first pass every fence is followed by no newline or by exactly two.

  /** Every ``` that is followed by a newline is followed by exactly two. */
  ghost predicate FencesNormal(t: string) {
    forall i :: 0 <= i <= |t| && FenceAt(t[i..]) ==> i + 5 <= |t| && t[i + 4] == '\n' && (i + 5 == |t| || t[i + 5] != '\n')
  }

  lemma PostCodePassFirst(s: string)
    ensures |PostCodePass(s)| == 0 <==> s == []
    ensures s != [] ==> PostCodePass(s)[0] == s[0]
  {
  }

  /** An output that starts with a fence and a newline comes from an input that does. */
  lemma FenceStart(s: string)
    requires FenceAt(PostCodePass(s))
    ensures FenceAt(s)
  {
    PostCodePassFirst(s);
    if |s| > 1 { PostCodePassFirst(s[1..]); }
    if |s| > 2 { PostCodePassFirst(s[2..]); }
    if |s| > 3 { PostCodePassFirst(s[3..]); }
  }

  lemma {:induction false} PostCodePassFencesNormal(s: string)
    ensures FencesNormal(PostCodePass(s))
    decreases |s|
  {
    var out := PostCodePass(s);
    if FenceAt(s) {
      var rest := s[3 + NewlineRun(s[3..])..];
      var r := PostCodePass(rest);
      PostCodePassFencesNormal(rest);
      PostCodePassFirst(rest);
      assert out == "```\n\n" + r;
      assert out[1] == '`' && out[2] == '`' && out[3] == '\n' && out[4] == '\n';
      assert |out| > 5 ==> out[5] == r[0] != '\n';
      forall i | 0 <= i <= |out| && FenceAt(out[i..])
        ensures i + 5 <= |out| && out[i + 4] == '\n' && (i + 5 == |out| || out[i + 5] != '\n')
      {
        if i >= 5 {
          assert out[i..] == r[i - 5..];
          assert FenceAt(r[i - 5..]);
        }
      }
    } else if s != [] {
      var r := PostCodePass(s[1..]);
      PostCodePassFencesNormal(s[1..]);
      assert !FenceAt(out) by {
        if FenceAt(out) { FenceStart(s); }
      }
      forall i | 0 <= i <= |out| && FenceAt(out[i..])
        ensures i + 5 <= |out| && out[i + 4] == '\n' && (i + 5 == |out| || out[i + 5] != '\n')
      {
        if i > 0 {
          assert out[i..] == r[i - 1..];
          assert FenceAt(r[i - 1..]);
        }
      }
    }
  }

  /** Two newlines followed by anything but a newline make a run of two. */
  lemma NewlineRunTwo(r: string)
    requires r == [] || r[0] != '\n'
    ensures NewlineRun("\n\n" + r) == 2
  {
    var t := "\n\n" + r;
    assert t[1..] == "\n" + r && t[1..][1..] == r;
  }

  /** Running the first pass again changes nothing. */
  lemma {:induction false} PostCodePassIdempotent(s: string)
    ensures PostCodePass(PostCodePass(s)) == PostCodePass(s)
    decreases |s|
  {
    var out := PostCodePass(s);
    if FenceAt(s) {
      var rest := s[3 + NewlineRun(s[3..])..];
      var r := PostCodePass(rest);
      PostCodePassIdempotent(rest);
      PostCodePassFirst(rest);
      assert out == "```\n\n" + r;
      assert FenceAt(out) by { assert out[..3] == "```"; }
      assert out[3..] == "\n\n" + r;
      NewlineRunTwo(r);
      assert out[5..] == r;
      assert PostCodePass(out) == "```\n\n" + PostCodePass(r);
    } else if s != [] {
      PostCodePassIdempotent(s[1..]);
      assert !FenceAt(out) by { if FenceAt(out) { FenceStart(s); } }
      assert out[1..] == PostCodePass(s[1..]);
    }
  }

  // ---------------------------------------------------------------------------
  // The rendered document: '\n'.join(('---', front_matter, '---', '<!--more-->', body))

  const Marker := "\n---\n<!--more-->\n"

  /** The post text both files write: the front matter between `---` lines, the
      `<!--more-->` summary cut, then the body. */
  function Assemble(frontMatter: string, body: string): (text: string)
    ensures StartsWith(text, "---\n") && EndsWith(text, body)
    ensures |text| == 4 + |frontMatter| + |Marker| + |body|
  {
    "---\n" + frontMatter + Marker + body
  }

  /** A header that no line inside it can end early: no newline in it is followed by `-`.
      The output of `json.dumps(..., indent=2)` has this shape. */
  predicate HeaderSafe(frontMatter: string) {
    forall i :: 0 <= i < |frontMatter| - 1 && frontMatter[i] == '\n' ==> frontMatter[i + 1] != '-'
  }

  /** The first position at or after `from` where `pat` occurs in `s`. */
  function IndexFrom(s: string, pat: string, from: nat): (r: Option<nat>)
    requires from <= |s|
    ensures r.Some? ==> from <= r.value && r.value + |pat| <= |s| && s[r.value..r.value + |pat|] == pat
    decreases |s| - from
  {
    if StartsWith(s[from..], pat) then Some(from)
    else if from == |s| then None
    else IndexFrom(s, pat, from + 1)
  }

  /** How a reader of the post (Hugo) cuts it back into header and body. */
  function SplitPost(text: string): Option<(string, string)> {
    if !StartsWith(text, "---\n") then None
    else
      var rest := text[4..];
      match IndexFrom(rest, Marker, 0)
      case None => None
      case Some(p) => Some((rest[..p], rest[p + |Marker|..]))
  }

  lemma {:induction false} MarkerFirstAt(frontMatter: string, body: string, from: nat)
    requires HeaderSafe(frontMatter)
    requires from <= |frontMatter|
    ensures IndexFrom(frontMatter + Marker + body, Marker, from) == Some(|frontMatter|)
    decreases |frontMatter| - from
  {
    var t := frontMatter + Marker + body;
    if from == |frontMatter| {
      assert t[from..][..|Marker|] == Marker;
    } else {
      assert t[from] == frontMatter[from];
      if from + 1 < |frontMatter| {
        assert t[from + 1] == frontMatter[from + 1];
      } else {
        assert t[from + 1] == '\n';
      }
      assert !StartsWith(t[from..], Marker);
      MarkerFirstAt(frontMatter, body, from + 1);
    }
  }

  /** Reading the post back yields the header and the body that were written. */
  lemma SplitAssemble(frontMatter: string, body: string)
    requires HeaderSafe(frontMatter)
    ensures SplitPost(Assemble(frontMatter, body)) == Some((frontMatter, body))
  {
    var text := Assemble(frontMatter, body);
    assert text[4..] == frontMatter + Marker + body;
    MarkerFirstAt(frontMatter, body, 0);
    var rest := text[4..];
    assert rest[..|frontMatter|] == frontMatter;
    assert rest[|frontMatter| + |Marker|..] == body;
  }
}
