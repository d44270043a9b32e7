/**
 * The RBAC naming rules: the filename pattern, the object name a file implies,
 * and the object-name pattern. Everything here is a pure function of strings; the two
 * regular expressions are written as scans over characters, and lemmas relate each scan
 * to the shape the expression describes.
 */
module Naming {

  /** The index of the last occurrence of `c` in `s`, or -1 (`str.rfind`). */
  function LastIndexOf(s: string, c: char): (k: int)
    ensures -1 <= k < |s|
    ensures k >= 0 ==> s[k] == c && c !in s[k + 1..]
    ensures k < 0 ==> c !in s
  {
    if s == [] then -1
    else if s[|s| - 1] == c then |s| - 1
    else
      var k := LastIndexOf(s[..|s| - 1], c);
      assert k >= 0 ==> s[k + 1..] == s[..|s| - 1][k + 1..] + [s[|s| - 1]];
      assert k < 0 ==> s == s[..|s| - 1] + [s[|s| - 1]];
      k
  }

  /** The index of the first occurrence of `c` in `s`. */
  function FirstIndexOf(s: string, c: char): (k: nat)
    requires c in s
    ensures k < |s| && s[k] == c && c !in s[..k]
  {
    if s[0] == c then 0
    else
      var k := FirstIndexOf(s[1..], c);
      assert s[..k + 1] == [s[0]] + s[1..][..k];
      k + 1
  }

  /** `os.path.basename` on a POSIX path: the text after the last '/'. */
  function Basename(path: string): (b: string)
    ensures '/' !in b
    ensures |b| <= |path| && b == path[|path| - |b|..]
    ensures |b| < |path| ==> path[|path| - |b| - 1] == '/'
  {
    if path == [] || path[|path| - 1] == '/' then []
    else
      var b := Basename(path[..|path| - 1]);
      assert path[|path| - |b| - 1..] == path[..|path| - 1][|path| - |b| - 1..] + [path[|path| - 1]];
      b + [path[|path| - 1]]
  }

  /** The basename of `dir/name` is `name` when `name` holds no '/'. */
  lemma {:induction false} BasenameOfJoin(dir: string, name: string)
    requires '/' !in name
    ensures Basename(dir + "/" + name) == name
  {
    var path := dir + "/" + name;
    if name == [] {
      assert path[|path| - 1] == '/';
    } else {
      var init := name[..|name| - 1];
      BasenameOfJoin(dir, init);
      assert path[..|path| - 1] == dir + "/" + init;
      assert name == init + [name[|name| - 1]];
    }
  }

  /** `s.endswith(".yml")`. */
  predicate EndsWithYml(s: string)
  {
    |s| >= 4 && s[|s| - 4..] == ".yml"
  }

  /** `[^_/]+` matched by the whole of `s`. */
  predicate NamePart(s: string)
  {
    |s| > 0 && '_' !in s && '/' !in s
  }

  /**
   * `[^_/]+-[^_/]+` matched by the whole of `s`: no '_' and no '/', and a '-' with at
   * least one character on each side (the segments themselves may hold more '-').
   */
  predicate HyphenBody(s: string)
  {
    '_' !in s && '/' !in s && |s| >= 3 && '-' in s[1..|s| - 1]
  }

  /** `^[^_/]+-[^_/]+\.yml` up to the very end of `s`. */
  predicate HyphenYml(s: string)
  {
    EndsWithYml(s) && HyphenBody(s[..|s| - 4])
  }

  /**
   * `re.match(r"^[^_/]+-[^_/]+\.yml$", b)`: Python's `$` matches at the end of the text
   * and also just before a newline that ends it.
   */
  predicate FilenamePattern(b: string)
  {
    HyphenYml(b) || (|b| > 0 && b[|b| - 1] == '\n' && HyphenYml(b[..|b| - 1]))
  }

  /** `check_filename_convention`: the pattern applied to the basename. */
  predicate FilenameConvention(path: string)
  {
    FilenamePattern(Basename(path))
  }

  /** `b` is `a-c.yml`, optionally followed by one newline. */
  predicate HyphenYmlOf(b: string, a: string, c: string)
  {
    b == a + "-" + c + ".yml" || b == a + "-" + c + ".yml\n"
  }

  /** The pattern holds exactly of `a-c.yml` (optionally with one final newline), `a`, `c` in `[^_/]+`. */
  lemma FilenamePatternIff(b: string)
    ensures FilenamePattern(b) <==> exists a, c :: NamePart(a) && NamePart(c) && HyphenYmlOf(b, a, c)
  {
    if FilenamePattern(b) {
      var a, c := FilenamePatternSplit(b);
    }
    if exists a, c :: NamePart(a) && NamePart(c) && HyphenYmlOf(b, a, c) {
      var a, c :| NamePart(a) && NamePart(c) && HyphenYmlOf(b, a, c);
      FilenamePatternJoin(b, a, c);
    }
  }

  /** For a basename without a newline the pattern holds exactly of `a-c.yml`. */
  lemma FilenamePatternNoNewline(b: string)
    requires '\n' !in b
    ensures FilenamePattern(b) <==>
      exists a, c :: NamePart(a) && NamePart(c) && b == a + "-" + c + ".yml"
  {
    FilenamePatternIff(b);
    forall a, c | HyphenYmlOf(b, a, c) ensures b == a + "-" + c + ".yml" {
      var x := a + "-" + c + ".yml\n";
      assert x[|x| - 1] == '\n';
    }
  }

  /** A basename the filename rule accepts holds a '-' and no '_'. */
  lemma FilenamePatternChars(b: string)
    ensures FilenamePattern(b) ==> '_' !in b && '-' in b
  {
    if FilenamePattern(b) {
      var a, c := FilenamePatternSplit(b);
      assert b[|a|] == '-';
    }
  }

  /** Helper: a character absent from a text is absent from each of its slices. */
  lemma NotInSlice(s: string, x: char, i: int, j: int)
    requires x !in s && 0 <= i <= j <= |s|
    ensures x !in s[i..j]
  {
  }

  /** Helper: the segments of a basename the pattern matches. */
  lemma FilenamePatternSplit(b: string) returns (a: string, c: string)
    requires FilenamePattern(b)
    ensures NamePart(a) && NamePart(c) && HyphenYmlOf(b, a, c)
  {
    var s := if HyphenYml(b) then b else b[..|b| - 1];
    a, c := SplitHyphenYml(s);
    if !HyphenYml(b) {
      assert b == s + "\n";
    }
  }

  /** Helper: the two segments around a '-' in a text that `^[^_/]+-[^_/]+\.yml` matches to its end. */
  lemma SplitHyphenYml(s: string) returns (a: string, c: string)
    requires HyphenYml(s)
    ensures NamePart(a) && NamePart(c) && s == a + "-" + c + ".yml"
  {
    var body := s[..|s| - 4];
    var j :| 0 <= j < |body| - 2 && body[1..|body| - 1][j] == '-';
    var k := j + 1;
    a, c := body[..k], body[k + 1..];
    NotInSlice(body, '_', 0, k);
    NotInSlice(body, '/', 0, k);
    NotInSlice(body, '_', k + 1, |body|);
    NotInSlice(body, '/', k + 1, |body|);
    assert body == a + "-" + c;
    assert s == body + ".yml";
  }

  /** Helper: the pattern matches `a-c.yml` and `a-c.yml` with a final newline. */
  lemma FilenamePatternJoin(b: string, a: string, c: string)
    requires NamePart(a) && NamePart(c) && HyphenYmlOf(b, a, c)
    ensures FilenamePattern(b)
  {
    var s := a + "-" + c + ".yml";
    var body := a + "-" + c;
    assert s[..|s| - 4] == body;
    assert body[1..|body| - 1][|a| - 1] == '-';
    assert HyphenYml(s);
    if b != s {
      assert b[..|b| - 1] == s;
    }
  }

  /** `b.rsplit(".", 1)[0]`: everything before the last '.', or all of `b` when it has none. */
  function Stem(b: string): (st: string)
    ensures st <= b
    ensures '.' !in b ==> st == b
    ensures '.' in b ==> |st| < |b| && b[|st|] == '.' && '.' !in b[|st| + 1..]
  {
    var k := LastIndexOf(b, '.');
    if k < 0 then b else b[..k]
  }

  /** `s.replace("-", ".")`. */
  function ReplaceHyphens(s: string): (r: string)
    ensures |r| == |s|
    ensures forall i :: 0 <= i < |s| ==> r[i] == (if s[i] == '-' then '.' else s[i])
    ensures '-' !in r
  {
    if s == [] then []
    else [if s[0] == '-' then '.' else s[0]] + ReplaceHyphens(s[1..])
  }

  /**
   * `get_expected_object_name`: the stem of the basename with every '-' turned into '.';
   * it is as long as the stem and holds no '-'.
   */
  function ExpectedObjectName(path: string): (e: string)
    ensures |e| == |Stem(Basename(path))|
    ensures '-' !in e
  {
    ReplaceHyphens(Stem(Basename(path)))
  }

  /**
   * `[^.]+\.[^.]+` matched by the whole of `s`: the first '.' has text before it, text
   * after it, and no other '.' after it.
   */
  predicate DotShape(s: string)
  {
    '.' in s &&
    var k := FirstIndexOf(s, '.');
    0 < k < |s| - 1 && '.' !in s[k + 1..]
  }

  /** `re.match(r"^[^.]+\.[^.]+$", name)`, with Python's `$` as in FilenamePattern. */
  predicate DotPattern(name: string)
  {
    DotShape(name) || (|name| > 0 && name[|name| - 1] == '\n' && DotShape(name[..|name| - 1]))
  }

  /** The check of `check_object_name_convention`, on the extracted name. */
  predicate NameMatchesFile(name: string, path: string)
  {
    DotPattern(name) && name == ExpectedObjectName(path)
  }

  /** `[^.]+`: a non-empty text without '.'. */
  predicate DotFree(s: string)
  {
    |s| > 0 && '.' !in s
  }

  /** The dot scan holds exactly of `a.c` with `a` and `c` in `[^.]+`. */
  lemma DotShapeIff(s: string)
    ensures DotShape(s) <==> exists a, c :: DotFree(a) && DotFree(c) && s == a + "." + c
  {
    if DotShape(s) {
      var k := FirstIndexOf(s, '.');
      var a, c := s[..k], s[k + 1..];
      assert s == a + "." + c;
      assert DotFree(a) && DotFree(c);
    }
    if exists a, c :: DotFree(a) && DotFree(c) && s == a + "." + c {
      var a, c :| DotFree(a) && DotFree(c) && s == a + "." + c;
      var k := FirstIndexOf(s, '.');
      assert s[..|a|] == a;
      assert k == |a|;
      assert s[k + 1..] == c;
    }
  }

  /** Number of occurrences of `c` in `s`. */
  function Count(s: string, c: char): nat
  {
    if s == [] then 0 else (if s[0] == c then 1 else 0) + Count(s[1..], c)
  }

  lemma {:induction false} CountAppend(s: string, t: string, c: char)
    ensures Count(s + t, c) == Count(s, c) + Count(t, c)
  {
    if s != [] {
      assert (s + t)[1..] == s[1..] + t;
      CountAppend(s[1..], t, c);
    } else {
      assert s + t == t;
    }
  }

  lemma {:induction false} CountZero(s: string, c: char)
    ensures Count(s, c) == 0 <==> c !in s
  {
    if s != [] {
      CountZero(s[1..], c);
      assert s == [s[0]] + s[1..];
    }
  }

  /** Replacing '-' by '.' turns every '-' and every '.' into a '.'. */
  lemma {:induction false} CountReplaceHyphens(s: string)
    ensures Count(ReplaceHyphens(s), '.') == Count(s, '-') + Count(s, '.')
  {
    if s != [] {
      CountReplaceHyphens(s[1..]);
      var r := ReplaceHyphens(s);
      assert r[1..] == ReplaceHyphens(s[1..]);
    }
  }

  /** Helper: a '.' at `k` with none before it; the count is one exactly when there is none after it. */
  lemma DotCount(s: string, k: nat)
    requires k < |s| && s[k] == '.' && '.' !in s[..k]
    ensures Count(s, '.') == 1 <==> '.' !in s[k + 1..]
  {
    assert s == s[..k] + [s[k]] + s[k + 1..];
    CountAppend(s[..k] + [s[k]], s[k + 1..], '.');
    CountAppend(s[..k], [s[k]], '.');
    CountZero(s[..k], '.');
    CountZero(s[k + 1..], '.');
  }

  /** The dot scan holds exactly of texts with one '.' that is neither first nor last. */
  lemma DotShapeCount(s: string)
    ensures DotShape(s) <==> |s| > 0 && Count(s, '.') == 1 && s[0] != '.' && s[|s| - 1] != '.'
  {
    CountZero(s, '.');
    if '.' in s {
      var k := FirstIndexOf(s, '.');
      DotCount(s, k);
      if 0 < k {
        assert s[..k][0] == s[0];
      }
      if k + 1 < |s| {
        assert s[k + 1..][|s| - k - 2] == s[|s| - 1];
      }
    }
  }

  /** The dot pattern holds exactly of names with one '.' that is neither first nor last. */
  lemma DotPatternIff(s: string)
    ensures DotPattern(s) <==> |s| > 0 && Count(s, '.') == 1 && s[0] != '.' && s[|s| - 1] != '.'
  {
    DotShapeCount(s);
    if |s| > 0 && s[|s| - 1] == '\n' {
      var t := s[..|s| - 1];
      DotShapeCount(t);
      assert s == t + "\n";
      CountAppend(t, "\n", '.');
    }
  }

  /** A stem with exactly one '-' or '.', and that separator is neither its first nor its last character. */
  predicate OneInnerSeparator(st: string)
  {
    |st| > 0 && Count(st, '-') + Count(st, '.') == 1 &&
    st[0] != '-' && st[0] != '.' && st[|st| - 1] != '-' && st[|st| - 1] != '.'
  }

  /**
   * The object-name rule passes exactly when the name is the expected one and the stem of
   * the basename has one inner separator.
   */
  lemma NameMatchesFileIff(name: string, path: string)
    ensures NameMatchesFile(name, path) <==>
      name == ExpectedObjectName(path) && OneInnerSeparator(Stem(Basename(path)))
  {
    if name == ExpectedObjectName(path) {
      ReplacedDotPatternIff(Stem(Basename(path)));
    }
  }

  /** Helper: NameMatchesFileIff for the expected name, on the stem. */
  lemma ReplacedDotPatternIff(st: string)
    ensures DotPattern(ReplaceHyphens(st)) <==> OneInnerSeparator(st)
  {
    var e := ReplaceHyphens(st);
    DotPatternIff(e);
    CountReplaceHyphens(st);
    if |st| > 0 {
      assert e[0] == '.' <==> st[0] == '-' || st[0] == '.';
      assert e[|e| - 1] == '.' <==> st[|st| - 1] == '-' || st[|st| - 1] == '.';
    }
  }

  /** `[^_/.-]+`: a segment the two rules together accept. */
  predicate Plain(s: string)
  {
    |s| > 0 && '_' !in s && '/' !in s && '.' !in s && '-' !in s
  }

  /** Helper: a plain segment has no separator and is left alone by the replacement. */
  lemma PlainHasNoSeparator(s: string)
    requires Plain(s)
    ensures Count(s, '-') == 0 && Count(s, '.') == 0 && ReplaceHyphens(s) == s && NamePart(s)
  {
    CountZero(s, '-');
    CountZero(s, '.');
    ReplaceWithoutHyphens(s);
  }

  /** The expected object name of `dir/body.yml` is `body` with every '-' turned into '.'. */
  lemma ExpectedOfYml(dir: string, body: string)
    requires '/' !in body
    ensures ExpectedObjectName(dir + "/" + (body + ".yml")) == ReplaceHyphens(body)
  {
    BasenameOfJoin(dir, body + ".yml");
    StemOfYml(body, body + ".yml");
  }

  /** Replacing '-' leaves a text without '-' unchanged. */
  lemma ReplaceWithoutHyphens(s: string)
    requires '-' !in s
    ensures ReplaceHyphens(s) == s
  {
    var r := ReplaceHyphens(s);
    forall i | 0 <= i < |s| ensures r[i] == s[i] {
      assert s[i] in s;
    }
  }

  /** Helper: a name segment with no '-' and no '.' is plain. */
  lemma NamePartPlain(s: string)
    requires NamePart(s) && Count(s, '-') == 0 && Count(s, '.') == 0
    ensures Plain(s)
  {
    CountZero(s, '-');
    CountZero(s, '.');
  }

  /** Helper: the separators of `a-c`. */
  lemma CountHyphenJoin(a: string, c: string)
    ensures Count(a + "-" + c, '-') == Count(a, '-') + 1 + Count(c, '-')
    ensures Count(a + "-" + c, '.') == Count(a, '.') + Count(c, '.')
  {
    CountAppend(a + "-", c, '-');
    CountAppend(a, "-", '-');
    CountAppend(a + "-", c, '.');
    CountAppend(a, "-", '.');
  }

  /** The name `a.c` and the basename `a-c.yml` (optionally with one final newline), `a`, `c` plain. */
  predicate ConformingPair(name: string, b: string, a: string, c: string)
  {
    Plain(a) && Plain(c) && name == a + "." + c && HyphenYmlOf(b, a, c)
  }

  /**
   * Both rules pass for a file exactly when its basename is `a-c.yml` (optionally with one
   * final newline) for segments `a`, `c` free of '_', '/', '.' and '-', and the name is `a.c`.
   */
  lemma BothConventionsIff(name: string, path: string)
    ensures FilenameConvention(path) && NameMatchesFile(name, path) ==>
      exists a, c :: ConformingPair(name, Basename(path), a, c)
    ensures (exists a, c :: ConformingPair(name, Basename(path), a, c)) ==>
      FilenameConvention(path) && NameMatchesFile(name, path)
  {
    BothPatternsIff(name, Basename(path));
  }

  /** Helper: BothConventionsIff on the basename. */
  lemma BothPatternsIff(name: string, b: string)
    ensures FilenamePattern(b) && DotPattern(name) && name == ReplaceHyphens(Stem(b)) <==>
      exists a, c :: ConformingPair(name, b, a, c)
  {
    if FilenamePattern(b) && DotPattern(name) && name == ReplaceHyphens(Stem(b)) {
      var a, c := BothConventionsSplit(name, b);
    }
    forall a, c | ConformingPair(name, b, a, c)
      ensures FilenamePattern(b) && DotPattern(name) && name == ReplaceHyphens(Stem(b))
    {
      BothConventionsJoin(name, b, a, c);
    }
  }

  /** Helper: the segments of a basename and a name that pass both rules. */
  lemma BothConventionsSplit(name: string, b: string) returns (a: string, c: string)
    requires FilenamePattern(b) && DotPattern(name) && name == ReplaceHyphens(Stem(b))
    ensures ConformingPair(name, b, a, c)
  {
    a, c := FilenamePatternSplit(b);
    var body := a + "-" + c;
    StemOfYml(body, b);
    ReplacedDotPatternIff(body);
    CountHyphenJoin(a, c);
    assert Count(a, '-') == 0 && Count(c, '-') == 0 && Count(a, '.') == 0 && Count(c, '.') == 0;
    NamePartPlain(a);
    NamePartPlain(c);
    PlainHasNoSeparator(a);
    PlainHasNoSeparator(c);
    ReplaceJoin(a, c);
  }

  /** Helper: both rules pass for `a-c.yml` and the name `a.c`. */
  lemma BothConventionsJoin(name: string, b: string, a: string, c: string)
    requires ConformingPair(name, b, a, c)
    ensures FilenamePattern(b) && DotPattern(name) && name == ReplaceHyphens(Stem(b))
  {
    PlainHasNoSeparator(a);
    PlainHasNoSeparator(c);
    FilenamePatternJoin(b, a, c);
    StemOfYml(a + "-" + c, b);
    ReplaceJoin(a, c);
    DotShapeIff(name);
    assert DotFree(a) && DotFree(c);
  }

  /** Helper: the replacement on `a-c` for separator-free `a` and `c`. */
  lemma ReplaceJoin(a: string, c: string)
    requires ReplaceHyphens(a) == a && ReplaceHyphens(c) == c
    ensures ReplaceHyphens(a + "-" + c) == a + "." + c
  {
    var r := ReplaceHyphens(a + "-" + c);
    var x := a + "-" + c;
    forall i | 0 <= i < |r| ensures r[i] == (a + "." + c)[i] {
      if i < |a| {
        assert x[i] == a[i];
        assert ReplaceHyphens(a)[i] == a[i];
      } else if i > |a| {
        assert x[i] == c[i - |a| - 1];
        assert ReplaceHyphens(c)[i - |a| - 1] == c[i - |a| - 1];
      }
    }
  }

  /** Helper: the stem of `body.yml` (or `body.yml` and a newline) is `body`. */
  lemma StemOfYml(body: string, b: string)
    requires b == body + ".yml" || b == body + ".yml\n"
    ensures Stem(b) == body
  {
    var tail := if b == body + ".yml" then ".yml" else ".yml\n";
    assert b == body + tail;
    assert forall i :: |body| <= i < |b| ==> b[i] == tail[i - |body|];
    assert b[|body|] == '.';
    assert forall i :: |body| < i < |b| ==> b[i] != '.';
    var st := Stem(b);
    assert |st| == |body|;
  }
}
