/** The string operations of Python's `str` and `pathlib.PurePath` that the notebook
    tooling relies on, on `string` = `seq<char>`. */
module Text {

  /** `str.isspace()` for one character. Python's `\s` in a `str` pattern and the
      no-argument `str.strip()` use exactly this class of characters. */
  predicate IsSpace(c: char) {
    ('\t' <= c <= '\r') || ('\U{1C}' <= c <= ' ') || c == '\U{85}' || c == '\U{A0}'
    || c == '\U{1680}' || ('\U{2000}' <= c <= '\U{200A}') || c == '\U{2028}' || c == '\U{2029}'
    || c == '\U{202F}' || c == '\U{205F}' || c == '\U{3000}'
  }

  ghost predicate AllSpace(s: string) {
    forall k :: 0 <= k < |s| ==> IsSpace(s[k])
  }

  predicate StartsWith(s: string, prefix: string) {
    |prefix| <= |s| && s[..|prefix|] == prefix
  }

  predicate EndsWith(s: string, suffix: string) {
    |suffix| <= |s| && s[|s| - |suffix|..] == suffix
  }

  /** Consing `f(paths[0])` onto the images of `paths[1..]` gives the images of `paths`. */
  lemma MappedCons(f: string -> string, paths: seq<string>, all: seq<string>, rest: seq<string>)
    requires paths != [] && all == [f(paths[0])] + rest && |rest| == |paths| - 1
    requires forall i :: 0 <= i < |rest| ==> rest[i] == f(paths[1..][i])
    ensures |all| == |paths| && forall i :: 0 <= i < |paths| ==> all[i] == f(paths[i])
  {
    forall i | 0 < i < |paths|
      ensures all[i] == f(paths[i])
    {
      assert all[i] == rest[i - 1] && paths[1..][i - 1] == paths[i];
    }
  }

  /** `sub in s`. */
  predicate Contains(s: string, sub: string)
    decreases |s|
  {
    StartsWith(s, sub) || (s != [] && Contains(s[1..], sub))
  }

  /** A string whose first character never occurs in `s` is not in `s`. */
  lemma {:induction false} NotContainsWithoutHead(s: string, sub: string)
    requires sub != [] && sub[0] !in s
    ensures !Contains(s, sub)
    decreases |s|
  {
    if s != [] {
      assert s[1..] == s[1..] && forall k :: 0 <= k < |s[1..]| ==> s[1..][k] == s[k + 1];
      assert sub[0] !in s[1..];
      NotContainsWithoutHead(s[1..], sub);
    }
  }

  /** `sub in s` when `sub` starts at position `at`. */
  lemma {:induction false} ContainsAt(s: string, sub: string, at: nat)
    requires at <= |s| && StartsWith(s[at..], sub)
    ensures Contains(s, sub)
    decreases at
  {
    if at > 0 {
      assert s[1..][at - 1..] == s[at..];
      ContainsAt(s[1..], sub, at - 1);
    }
  }

  /** A `sub` that can only start inside `b` is in `a + b` exactly when it is in `b`. */
  lemma {:induction false} ContainsSkip(a: string, b: string, sub: string)
    requires sub != [] && sub[0] !in a
    ensures Contains(a + b, sub) <==> Contains(b, sub)
    decreases |a|
  {
    if a == [] {
      assert a + b == b;
    } else {
      assert (a + b)[0] == a[0] != sub[0];
      assert (a + b)[1..] == a[1..] + b;
      assert sub[0] !in a[1..] by {
        forall k | 0 <= k < |a[1..]| ensures a[1..][k] != sub[0] { assert a[1..][k] == a[k + 1]; }
      }
      ContainsSkip(a[1..], b, sub);
    }
  }

  /** `sub in s` only when `sub` starts at some position of `s`; with ContainsAt, an
      if-and-only-if. */
  lemma {:induction false} ContainsSomewhere(s: string, sub: string)
    requires Contains(s, sub)
    ensures exists at :: 0 <= at <= |s| && StartsWith(s[at..], sub)
    decreases |s|
  {
    if StartsWith(s, sub) {
      assert s[0..] == s;
    } else {
      ContainsSomewhere(s[1..], sub);
      var at :| 0 <= at <= |s[1..]| && StartsWith(s[1..][at..], sub);
      assert s[1..][at..] == s[at + 1..];
    }
  }

  /** `str.lower()` on one character (ASCII letters only). */
  function LowerChar(c: char): char {
    if 'A' <= c <= 'Z' then (c as int + 32) as char else c
  }

  function Lower(s: string): (t: string)
    ensures |t| == |s|
    ensures forall k :: 0 <= k < |t| ==> !('A' <= t[k] <= 'Z')
    ensures forall k :: 0 <= k < |s| && !('A' <= s[k] <= 'Z') ==> t[k] == s[k]
    ensures forall k :: 0 <= k < |s| && 'A' <= s[k] <= 'Z' ==> t[k] as int == s[k] as int + 32
  {
    seq(|s|, i requires 0 <= i < |s| => LowerChar(s[i]))
  }

  /** A lower-case letter that occurs in neither case in `s` does not occur in `Lower(s)`. */
  lemma LowerAvoids(s: string, c: char)
    requires 'a' <= c <= 'z'
    requires c !in s && (c as int - 32) as char !in s
    ensures c !in Lower(s)
  {
    forall k | 0 <= k < |s| ensures Lower(s)[k] != c {
      assert s[k] != c && s[k] != (c as int - 32) as char;
    }
  }

  /** `s.replace(from, to)` for single characters. */
  function ReplaceChar(s: string, from: char, to: char): string {
    seq(|s|, i requires 0 <= i < |s| => if s[i] == from then to else s[i])
  }

  /** The default slug of run.py: `title.lower().replace(' ', '-')`. */
  function Slugify(title: string): (slug: string)
    ensures |slug| == |title|
    ensures ' ' !in slug
    ensures forall k :: 0 <= k < |slug| ==> !('A' <= slug[k] <= 'Z')
    ensures forall k :: 0 <= k < |title| && title[k] != ' ' ==> slug[k] == LowerChar(title[k])
    ensures forall k :: 0 <= k < |title| && title[k] == ' ' ==> slug[k] == '-'
  {
    ReplaceChar(Lower(title), ' ', '-')
  }

  lemma SlugifyIdempotent(title: string)
    ensures Slugify(Slugify(title)) == Slugify(title)
  {
    var s := Slugify(title);
    forall k | 0 <= k < |s| ensures Slugify(s)[k] == s[k] {
      assert s[k] != ' ';
    }
  }

  lemma SlugifyHelloWorld()
    ensures Slugify("Hello World") == "hello-world"
  {
  }

  /** Number of whitespace characters at the start of `s`. */
  function LeadingSpaces(s: string): (n: nat)
    ensures n <= |s|
    ensures forall k :: 0 <= k < n ==> IsSpace(s[k])
    ensures n < |s| ==> !IsSpace(s[n])
    decreases |s|
  {
    if s != [] && IsSpace(s[0]) then 1 + LeadingSpaces(s[1..]) else 0
  }

  /** Number of whitespace characters at the end of `s`. */
  function TrailingSpaces(s: string): (n: nat)
    ensures n <= |s|
    ensures forall k :: |s| - n <= k < |s| ==> IsSpace(s[k])
    ensures n < |s| ==> !IsSpace(s[|s| - n - 1])
    decreases |s|
  {
    if s != [] && IsSpace(s[|s| - 1]) then 1 + TrailingSpaces(s[..|s| - 1]) else 0
  }

  /** `str.strip()` with no argument. */
  function Strip(s: string): (r: string)
    ensures |r| <= |s|
    ensures r == [] <==> AllSpace(s)
    ensures r != [] ==> !IsSpace(r[0]) && !IsSpace(r[|r| - 1])
    ensures r != [] ==> var a := LeadingSpaces(s);
      a + |r| <= |s| && r == s[a..a + |r|] && AllSpace(s[a + |r|..])
  {
    var a := LeadingSpaces(s);
    if a == |s| then
      []
    else
      var t := TrailingSpaces(s);
      s[a..|s| - t]
  }

  lemma StripIdempotent(s: string)
    ensures Strip(Strip(s)) == Strip(s)
  {
    var r := Strip(s);
    if r != [] {
      assert LeadingSpaces(r) == 0;
      assert TrailingSpaces(r) == 0;
    }
  }

  /** `s.rfind(c)`: the last index holding `c`, or -1. */
  function LastIndexOf(s: string, c: char): (i: int)
    ensures -1 <= i < |s|
    ensures i >= 0 ==> s[i] == c
    ensures forall k :: i < k < |s| ==> s[k] != c
    decreases |s|
  {
    if s == [] then -1
    else if s[|s| - 1] == c then |s| - 1
    else LastIndexOf(s[..|s| - 1], c)
  }

  /** `PurePath(path).name`: what follows the last `/`. */
  function Name(path: string): (name: string)
    ensures '/' !in name
    ensures EndsWith(path, name)
  {
    path[LastIndexOf(path, '/') + 1..]
  }

  /** `PurePath(path).stem`: the name without its last suffix; a name whose only dot
      is its first or last character keeps it. */
  function Stem(path: string): (stem: string)
    ensures '/' !in stem
    ensures StartsWith(Name(path), stem)
  {
    var name := Name(path);
    var i := LastIndexOf(name, '.');
    if 0 < i < |name| - 1 then name[..i] else name
  }

  /** The last occurrence of `c` is at `i` when `s[i]` is `c` and no `c` follows it. */
  lemma {:induction false} LastIndexOfIs(s: string, c: char, i: int)
    requires -1 <= i < |s| && (i >= 0 ==> s[i] == c)
    requires forall k :: i < k < |s| ==> s[k] != c
    ensures LastIndexOf(s, c) == i
    decreases |s|
  {
    if s != [] && s[|s| - 1] != c {
      var t := s[..|s| - 1];
      assert forall k :: i < k < |t| ==> t[k] == s[k];
      LastIndexOfIs(t, c, i);
    }
  }

  /** The name of `<dir>/<rest>` is `<rest>` when `rest` has no `/`. */
  lemma NameAfterSlash(dir: string, rest: string)
    requires dir == [] || EndsWith(dir, "/")
    requires '/' !in rest
    ensures Name(dir + rest) == rest
  {
    var path := dir + rest;
    forall k | |dir| <= k < |path| ensures path[k] != '/' {
      assert path[k] == rest[k - |dir|];
    }
    if dir != [] {
      assert path[|dir| - 1] == dir[|dir| - 1] == '/';
    }
    LastIndexOfIs(path, '/', |dir| - 1);
    assert path[|dir|..] == rest;
  }

  /** A name `<base>.ipynb` with a non-empty base has stem `<base>`. */
  lemma StemOfIpynb(path: string, base: string)
    requires base != [] && Name(path) == base + ".ipynb"
    ensures Stem(path) == base
  {
    var name := base + ".ipynb";
    forall k | |base| < k < |name| ensures name[k] != '.' {
      assert name[k] == ".ipynb"[k - |base|];
    }
    LastIndexOfIs(name, '.', |base|);
    assert name[..|base|] == base;
  }

  /** The stem of a notebook saved as `<dir>/<base>.ipynb` (or `<base>.ipynb`) is `<base>`. */
  lemma StemOfNotebook(dir: string, base: string)
    requires dir == [] || EndsWith(dir, "/")
    requires base != [] && '/' !in base
    ensures Stem(dir + base + ".ipynb") == base
  {
    var rest := base + ".ipynb";
    assert '/' !in rest by {
      forall k | 0 <= k < |rest| ensures rest[k] != '/' {
        if k < |base| { assert rest[k] == base[k]; } else { assert rest[k] == ".ipynb"[k - |base|]; }
      }
    }
    assert dir + base + ".ipynb" == dir + rest;
    NameAfterSlash(dir, rest);
    StemOfIpynb(dir + rest, base);
  }

  /** The `if not render_to.endswith('/'): render_to += '/'` step. */
  function EnsureTrailingSlash(dir: string): (r: string)
    ensures EndsWith(r, "/")
    ensures r == dir <==> EndsWith(dir, "/")
    ensures r != dir ==> r == dir + "/"
  {
    if EndsWith(dir, "/") then dir else dir + "/"
  }

  lemma EnsureTrailingSlashIdempotent(dir: string)
    ensures EnsureTrailingSlash(EnsureTrailingSlash(dir)) == EnsureTrailingSlash(dir)
  {
  }
}
