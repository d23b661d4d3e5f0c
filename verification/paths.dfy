/** The path-name helpers the report generator calls on image references and
    on its output path: POSIX `os.path.basename`, POSIX `os.path.splitext`,
    and `str.replace`. */
module PathNames {
  import opened Options
  import opened Strings

  /** Python's `str.rfind` for one character, with None in place of -1. */
  function LastIndexOf(s: string, c: char): (r: Option<nat>)
    ensures r.None? <==> c !in s
    ensures r.Some? ==> r.value < |s| && s[r.value] == c && c !in s[r.value + 1..]
  {
    if s == [] then None
    else if s[|s| - 1] == c then Some(|s| - 1)
    else
      var r := LastIndexOf(s[..|s| - 1], c);
      assert r.Some? ==> s[r.value + 1..] == s[..|s| - 1][r.value + 1..] + [s[|s| - 1]];
      assert s == s[..|s| - 1] + [s[|s| - 1]];
      r
  }

  /** A character that `b` lacks and `a` ends with is last found at `|a| - 1`. */
  lemma {:induction false} LastIndexOfBefore(a: string, b: string, c: char)
    requires c !in b && a != [] && a[|a| - 1] == c
    ensures LastIndexOf(a + b, c) == Some(|a| - 1)
    decreases |b|
  {
    var s := a + b;
    if b == [] {
      assert s == a;
    } else {
      var b' := b[..|b| - 1];
      assert s[|s| - 1] == b[|b| - 1] != c;
      assert s[..|s| - 1] == a + b';
      LastIndexOfBefore(a, b', c);
    }
  }

  /** `os.path.basename` (POSIX): everything after the last '/'. The result is
      the longest suffix of `p` without a '/'. */
  function Basename(p: string): (r: string)
    ensures '/' !in r
    ensures |r| <= |p| && p[|p| - |r|..] == r
    ensures |r| == |p| || p[|p| - |r| - 1] == '/'
  {
    match LastIndexOf(p, '/')
    case None => p
    case Some(i) => p[i + 1..]
  }

  /** The name after a directory prefix ending in '/' is the basename. */
  lemma BasenameAfterDir(dir: string, name: string)
    requires dir == [] || dir[|dir| - 1] == '/'
    requires '/' !in name
    ensures Basename(dir + name) == name
  {
    var p := dir + name;
    assert p[|dir|..] == name;
    if dir != [] {
      LastIndexOfBefore(dir, name, '/');
    } else {
      assert p == name;
    }
  }

  predicate AllDots(s: string) {
    forall k :: 0 <= k < |s| ==> s[k] == '.'
  }

  /** `os.path.splitext` (POSIX): splits at the last '.' of the last path
      component, unless everything in that component before the dot is a
      dot (so ".bashrc" and "..x" have no extension). */
  function SplitExt(p: string): (r: (string, string))
    ensures r.0 + r.1 == p
    ensures r.1 == [] || (r.1[0] == '.' && '.' !in r.1[1..] && '/' !in r.1)
  {
    var sep: int := match LastIndexOf(p, '/') case None => -1 case Some(i) => i;
    match LastIndexOf(p, '.')
    case None => (p, [])
    case Some(d) =>
      if sep < d && !AllDots(p[sep + 1..d]) then
        assert '/' !in p[d..] by {
          assert p[d..] == p[sep + 1..][d - sep - 1..];
        }
        (p[..d], p[d..])
      else (p, [])
  }

  /** The caption of a PDF page: `os.path.splitext(os.path.basename(p))[0]`.
      It is a prefix of the basename and never holds a '/'. */
  function Stem(p: string): (r: string)
    ensures '/' !in r
    ensures StartsWith(Basename(p), r)
  {
    var b := Basename(p);
    assert b == SplitExt(b).0 + SplitExt(b).1;
    assert b[..|SplitExt(b).0|] == SplitExt(b).0;
    SplitExt(b).0
  }

  /** The stem is a piece of the path, so it holds no character the path
      lacks. */
  lemma StemWithin(p: string, c: char)
    requires c !in p
    ensures c !in Stem(p)
  {
    var b, r := Basename(p), Stem(p);
    forall j | 0 <= j < |r| ensures r[j] != c {
      assert r[j] == b[j] == p[|p| - |b| + j];
    }
  }

  /** A basename without a dot is its own stem. */
  lemma StemWithoutDot(p: string)
    requires '.' !in Basename(p)
    ensures Stem(p) == Basename(p)
  {
  }

  /** Splitting "name.ext" without a directory: at the last dot, unless the
      name before it is made only of dots. */
  lemma SplitExtOfName(name: string, ext: string)
    requires '/' !in name && '/' !in ext && '.' !in ext
    ensures SplitExt(name + "." + ext)
         == if AllDots(name) then (name + "." + ext, []) else (name, "." + ext)
  {
    var file := name + "." + ext;
    assert '/' !in file;
    assert file == (name + ".") + ext;
    LastIndexOfBefore(name + ".", ext, '.');
    assert file[..|name|] == name;
    assert file[|name|..] == "." + ext;
  }

  /** The stem of "dir/name.ext": the name, unless the name is made only of
      dots (a hidden file such as ".bashrc"), when nothing is stripped. */
  lemma StemOfName(dir: string, name: string, ext: string)
    requires dir == [] || dir[|dir| - 1] == '/'
    requires '/' !in name && '/' !in ext && '.' !in ext
    ensures Stem(dir + name + "." + ext) == if AllDots(name) then name + "." + ext else name
  {
    var file := name + "." + ext;
    assert dir + name + "." + ext == dir + file;
    BasenameAfterDir(dir, file);
    SplitExtOfName(name, ext);
  }

  /** The example the generator's PDF captions follow. */
  lemma StemExample()
    ensures Stem("/x/y/plot_01.png") == "plot_01"
  {
    var dir, name, ext := "/x/y/", "plot_01", "png";
    assert dir + name + "." + ext == "/x/y/plot_01.png";
    assert name[0] != '.';
    StemOfName(dir, name, ext);
  }

  /** `pat` occurs in `s` at index `i`. */
  predicate OccursAt(s: string, pat: string, i: int) {
    0 <= i && i + |pat| <= |s| && s[i..i + |pat|] == pat
  }

  predicate Contains(s: string, pat: string) {
    exists i :: 0 <= i <= |s| - |pat| && OccursAt(s, pat, i)
  }

  /** Python's `s.replace(pat, rep)` for a non-empty `pat`: every occurrence,
      scanning left to right, non-overlapping, is replaced by `rep`. */
  function ReplaceAll(s: string, pat: string, rep: string): (r: string)
    requires pat != []
    ensures |rep| <= |pat| ==> |r| <= |s|
    decreases |s|
  {
    if |s| < |pat| then s
    else if s[..|pat|] == pat then rep + ReplaceAll(s[|pat|..], pat, rep)
    else [s[0]] + ReplaceAll(s[1..], pat, rep)
  }

  /** Without an occurrence of `pat` nothing is replaced. */
  lemma {:induction false} ReplaceAllAbsent(s: string, pat: string, rep: string)
    requires pat != [] && !Contains(s, pat)
    ensures ReplaceAll(s, pat, rep) == s
    decreases |s|
  {
    if |s| >= |pat| {
      assert !OccursAt(s, pat, 0);
      assert !Contains(s[1..], pat) by {
        forall i | OccursAt(s[1..], pat, i) ensures false {
          assert s[i + 1..i + 1 + |pat|] == s[1..][i..i + |pat|];
          assert OccursAt(s, pat, i + 1);
        }
      }
      ReplaceAllAbsent(s[1..], pat, rep);
    }
  }

  /** With an occurrence of `pat`, and a shorter `rep`, the text shrinks. */
  lemma {:induction false} ReplaceAllShrinks(s: string, pat: string, rep: string)
    requires pat != [] && |rep| < |pat| && Contains(s, pat)
    ensures |ReplaceAll(s, pat, rep)| < |s|
    decreases |s|
  {
    var i :| 0 <= i <= |s| - |pat| && OccursAt(s, pat, i);
    if s[..|pat|] != pat {
      assert i != 0;
      assert s[1..][i - 1..i - 1 + |pat|] == s[i..i + |pat|];
      assert OccursAt(s[1..], pat, i - 1);
      ReplaceAllShrinks(s[1..], pat, rep);
    }
  }

  /** When the first character of `pat` does not recur in it, no occurrence
      can overlap a trailing copy of `pat`, which is therefore replaced. */
  lemma {:induction false} ReplaceAllTrailing(t: string, pat: string, rep: string)
    requires pat != []
    requires forall k :: 0 < k < |pat| ==> pat[k] != pat[0]
    ensures ReplaceAll(t + pat, pat, rep) == ReplaceAll(t, pat, rep) + rep
    decreases |t|
  {
    var s := t + pat;
    if t == [] {
      assert s == pat && s[|pat|..] == [];
    } else {
      if |t| < |pat| {
        // The copy of pat[0] at index |t| would have to be pat[|t|].
        assert s[..|pat|] != pat by {
          assert s[..|pat|][|t|] == pat[0];
        }
      }
      if s[..|pat|] == pat {
        var u := t[|pat|..];
        assert t[..|pat|] == pat;
        assert s[|pat|..] == u + pat;
        ReplaceAllTrailing(u, pat, rep);
        assert ReplaceAll(s, pat, rep) == rep + (ReplaceAll(u, pat, rep) + rep);
        assert ReplaceAll(t, pat, rep) == rep + ReplaceAll(u, pat, rep);
        Regroup(rep, ReplaceAll(u, pat, rep), rep);
      } else {
        var u := t[1..];
        assert s[1..] == u + pat;
        ReplaceAllTrailing(u, pat, rep);
        assert ReplaceAll(s, pat, rep) == [t[0]] + (ReplaceAll(u, pat, rep) + rep);
        if |t| >= |pat| {
          assert t[..|pat|] == s[..|pat|];
        }
        assert ReplaceAll(t, pat, rep) == [t[0]] + ReplaceAll(u, pat, rep);
        Regroup([t[0]], ReplaceAll(u, pat, rep), rep);
      }
    }
  }

  /** An occurrence that is not at the front lies in the tail. */
  lemma ContainsAfterFirst(s: string, pat: string)
    requires Contains(s, pat) && !OccursAt(s, pat, 0)
    ensures Contains(s[1..], pat)
  {
    var i :| 0 <= i <= |s| - |pat| && OccursAt(s, pat, i);
    assert s[1..][i - 1..i - 1 + |pat|] == s[i..i + |pat|];
    assert OccursAt(s[1..], pat, i - 1);
  }

  /** A text without `pat` has a tail without `pat`. */
  lemma NoneInTail(a: string, pat: string)
    requires a != [] && !Contains(a, pat)
    ensures !Contains(a[1..], pat)
  {
    forall j | 0 <= j <= |a[1..]| - |pat| ensures !OccursAt(a[1..], pat, j) {
      assert a[1..][j..j + |pat|] == a[j + 1..j + 1 + |pat|];
      assert !OccursAt(a, pat, j + 1);
    }
  }

  /** A text whose front is no `pat` and whose tail has none has none. */
  lemma NoneInCons(a: string, pat: string)
    requires a != [] && !OccursAt(a, pat, 0) && !Contains(a[1..], pat)
    ensures !Contains(a, pat)
  {
    var u := a[1..];
    forall j | 1 <= j <= |a| - |pat| ensures !OccursAt(a, pat, j) {
      assert u[j - 1..j - 1 + |pat|] == a[j..j + |pat|];
      assert !OccursAt(u, pat, j - 1);
    }
  }

  /** The first occurrence of `pat` splits `s` into a text free of `pat`,
      `pat` itself, and the rest. */
  lemma {:induction false} FirstOccurrence(s: string, pat: string) returns (a: string, b: string)
    requires pat != [] && Contains(s, pat)
    ensures s == a + pat + b && !Contains(a, pat)
    decreases |s|
  {
    if OccursAt(s, pat, 0) {
      a, b := [], s[|pat|..];
      assert s == a + pat + b;
    } else {
      ContainsAfterFirst(s, pat);
      var a', b' := FirstOccurrence(s[1..], pat);
      a, b := [s[0]] + a', b';
      assert s == a + pat + b;
      assert a[1..] == a';
      assert !OccursAt(a, pat, 0) by {
        if |pat| <= |a| {
          assert a[..|pat|] == s[..|pat|];
        }
      }
      NoneInCons(a, pat);
    }
  }

  /** When the first character of `pat` does not recur in it, a text that
      does not start with `pat` does not start with `pat` once `pat` is
      appended either. */
  lemma NotAtFront(a: string, pat: string, b: string)
    requires pat != [] && a != []
    requires forall k :: 0 < k < |pat| ==> pat[k] != pat[0]
    requires !OccursAt(a, pat, 0)
    ensures !OccursAt(a + pat + b, pat, 0)
  {
    var s := a + pat + b;
    if |a| < |pat| {
      // The copy of pat[0] at index |a| would have to be pat[|a|].
      assert s[..|pat|][|a|] == pat[0];
    } else {
      assert s[..|pat|] == a[..|pat|];
    }
  }

  /** When the first character of `pat` does not recur in it, a text free of
      `pat` is copied up to the next `pat`, which is replaced, whatever
      follows it. */
  lemma {:induction false} ReplaceAllSplit(a: string, pat: string, rep: string, b: string)
    requires pat != []
    requires forall k :: 0 < k < |pat| ==> pat[k] != pat[0]
    requires !Contains(a, pat)
    ensures ReplaceAll(a + pat + b, pat, rep) == a + rep + ReplaceAll(b, pat, rep)
    decreases |a|
  {
    var s := a + pat + b;
    if a == [] {
      assert s == pat + b;
      assert s[..|pat|] == pat && s[|pat|..] == b;
    } else {
      assert !OccursAt(a, pat, 0);
      NotAtFront(a, pat, b);
      var u := a[1..];
      NoneInTail(a, pat);
      assert s[1..] == u + pat + b;
      ReplaceAllSplit(u, pat, rep, b);
      var r := ReplaceAll(b, pat, rep);
      assert ReplaceAll(s, pat, rep) == [a[0]] + (u + rep + r);
      assert a == [a[0]] + u;
      Regroup([a[0]], u, rep);
      Regroup([a[0]], u + rep, r);
    }
  }

  const HtmlSuffix: string := ".html"
  const PdfSuffix: string := ".pdf"

  /** The PDF output path as the generator derives it:
      `outhtmlfile.replace(".html", ".pdf")`. */
  function PdfPath(htmlPath: string): (r: string)
    ensures |r| <= |htmlPath|
  {
    ReplaceAll(htmlPath, HtmlSuffix, PdfSuffix)
  }

  /** The PDF path differs from the HTML path exactly when the HTML path
      contains ".html". */
  lemma PdfPathUnchangedIff(htmlPath: string)
    ensures PdfPath(htmlPath) == htmlPath <==> !Contains(htmlPath, HtmlSuffix)
  {
    if Contains(htmlPath, HtmlSuffix) {
      ReplaceAllShrinks(htmlPath, HtmlSuffix, PdfSuffix);
    } else {
      ReplaceAllAbsent(htmlPath, HtmlSuffix, PdfSuffix);
    }
  }

  /** A trailing ".html" always becomes ".pdf", whatever precedes it. */
  lemma PdfPathOfHtmlName(t: string)
    ensures PdfPath(t + HtmlSuffix) == PdfPath(t) + PdfSuffix
  {
    ReplaceAllTrailing(t, HtmlSuffix, PdfSuffix);
  }

  /** Every ".html" is replaced, not only the last: the text before the
      first one is kept, that one becomes ".pdf", and the rest of the path
      is treated the same way. */
  lemma PdfPathSplit(a: string, b: string)
    requires !Contains(a, HtmlSuffix)
    ensures PdfPath(a + HtmlSuffix + b) == a + PdfSuffix + PdfPath(b)
  {
    ReplaceAllSplit(a, HtmlSuffix, PdfSuffix, b);
  }

  /** ".pdf" placed between two texts free of ".html" makes no ".html". */
  lemma NoHtmlAcross(x: string, y: string)
    requires !Contains(x, HtmlSuffix) && !Contains(y, HtmlSuffix)
    ensures !Contains(x + PdfSuffix + y, HtmlSuffix)
  {
    var z := x + PdfSuffix + y;
    forall i | 0 <= i <= |z| - |HtmlSuffix| ensures !OccursAt(z, HtmlSuffix, i) {
      var w := z[i..i + |HtmlSuffix|];
      if i + |HtmlSuffix| <= |x| {
        assert x[i..i + |HtmlSuffix|] == w;
        assert !OccursAt(x, HtmlSuffix, i);
      } else if i >= |x| + |PdfSuffix| {
        var j := i - |x| - |PdfSuffix|;
        assert y[j..j + |HtmlSuffix|] == w;
        assert !OccursAt(y, HtmlSuffix, j);
      } else if i <= |x| {
        // The '.' of ".pdf" can only be the '.' of ".html", and 'p' follows it.
        assert w[|x| - i] == z[|x|] == '.';
        assert w[1] == z[i + 1];
      } else {
        assert w[0] == z[i] == PdfSuffix[i - |x|];
      }
    }
  }

  /** No ".html" is left in the PDF path. */
  lemma {:induction false} PdfPathLeavesNoHtml(p: string)
    ensures !Contains(PdfPath(p), HtmlSuffix)
    decreases |p|
  {
    if Contains(p, HtmlSuffix) {
      var a, b := FirstOccurrence(p, HtmlSuffix);
      PdfPathSplit(a, b);
      PdfPathLeavesNoHtml(b);
      NoHtmlAcross(a, PdfPath(b));
    } else {
      ReplaceAllAbsent(p, HtmlSuffix, PdfSuffix);
    }
  }

  /** For a name that contains ".html" only as its extension, the PDF path
      is the same name with the extension ".pdf". */
  lemma PdfPathOfPlainName(t: string)
    requires !Contains(t, HtmlSuffix)
    ensures PdfPath(t + HtmlSuffix) == t + PdfSuffix
  {
    PdfPathOfHtmlName(t);
    ReplaceAllAbsent(t, HtmlSuffix, PdfSuffix);
  }

  /** As written, an output path without ".html" (here "gallery.htm") gives a
      PDF path equal to it, so the PDF is written over the HTML gallery. */
  lemma PdfPathOverwritesGallery(g: string)
    requires g == "gallery.htm"
    ensures PdfPath(g) == g
  {
    forall i | 0 <= i <= |g| - |HtmlSuffix| ensures !OccursAt(g, HtmlSuffix, i) {
      assert g[i..i + |HtmlSuffix|][0] == g[i] != '.';
    }
    PdfPathUnchangedIff(g);
  }

  predicate EndsWith(s: string, q: string) {
    |q| <= |s| && s[|s| - |q|..] == q
  }

  /** The PDF path the generator evidently intends: a final ".html" is
      swapped for ".pdf", any other name gets ".pdf" appended. It always
      ends with ".pdf" and never equals the HTML path. */
  function IntendedPdfPath(htmlPath: string): (r: string)
    ensures EndsWith(r, PdfSuffix)
    ensures r != htmlPath
  {
    var r := if EndsWith(htmlPath, HtmlSuffix)
      then htmlPath[..|htmlPath| - |HtmlSuffix|] + PdfSuffix
      else htmlPath + PdfSuffix;
    assert |r| != |htmlPath|;
    r
  }

  /** On a name whose only ".html" is its extension, the intended path is
      what the generator computes. */
  lemma IntendedPdfPathAgrees(t: string)
    requires !Contains(t, HtmlSuffix)
    ensures IntendedPdfPath(t + HtmlSuffix) == PdfPath(t + HtmlSuffix) == t + PdfSuffix
  {
    PdfPathOfPlainName(t);
    var p := t + HtmlSuffix;
    assert p[..|p| - |HtmlSuffix|] == t;
    assert EndsWith(p, HtmlSuffix);
  }

  /** As written, a ".html" inside a directory name is replaced as well, so
      the PDF goes to a directory other than the gallery's. */
  lemma PdfPathRenamesDirectory(d: string, n: string)
    requires !Contains(d, HtmlSuffix) && !Contains(n, HtmlSuffix)
    ensures PdfPath(d + HtmlSuffix + "/" + n + HtmlSuffix) == d + PdfSuffix + "/" + n + PdfSuffix
  {
    var m := "/" + n;
    assert !Contains(m, HtmlSuffix) by {
      forall j | 0 <= j <= |m| - |HtmlSuffix| ensures !OccursAt(m, HtmlSuffix, j) {
        if j > 0 {
          assert m[j..j + |HtmlSuffix|] == n[j - 1..j - 1 + |HtmlSuffix|];
          assert !OccursAt(n, HtmlSuffix, j - 1);
        } else {
          assert m[j..j + |HtmlSuffix|][0] == '/';
        }
      }
    }
    var b := m + HtmlSuffix;
    assert d + HtmlSuffix + "/" + n + HtmlSuffix == d + HtmlSuffix + b;
    PdfPathSplit(d, b);
    PdfPathOfPlainName(m);
    assert d + PdfSuffix + (m + PdfSuffix) == d + PdfSuffix + "/" + n + PdfSuffix;
  }

  /** When `p` ends with `q`, each of the last |q| characters of `p` is
      one of `q`'s. */
  lemma EndsWithWithin(p: string, q: string, i: nat)
    requires |p| - |q| <= i < |p|
    ensures EndsWith(p, q) ==> p[i] in q
  {
    if EndsWith(p, q) {
      assert q[i - (|p| - |q|)] == p[i];
    }
  }

  /** A path ends with a suffix free of '/' exactly when its file name
      does. */
  lemma EndingAfterDir(d: string, n: string, q: string)
    requires '/' !in q
    ensures EndsWith(d + "/" + n, q) <==> EndsWith(n, q)
  {
    var p := d + "/" + n;
    if |n| < |q| {
      // The '/' would lie inside `q`.
      EndsWithWithin(p, q, |d|);
      assert p[|d|] == '/';
    } else {
      assert p[|p| - |q|..] == n[|n| - |q|..];
    }
  }

  /** The corrected path changes the file name only, never the directory. */
  lemma IntendedPdfPathKeepsDirectory(d: string, n: string)
    ensures IntendedPdfPath(d + "/" + n) == d + "/" + IntendedPdfPath(n)
  {
    var dir := d + "/";
    var p := dir + n;
    EndingAfterDir(d, n, HtmlSuffix);
    if EndsWith(n, HtmlSuffix) {
      var k := |n| - |HtmlSuffix|;
      assert p[..|p| - |HtmlSuffix|] == dir + n[..k];
      Regroup(dir, n[..k], PdfSuffix);
    } else {
      Regroup(dir, n, PdfSuffix);
    }
  }
}
