/** The usual Some/None wrapper, used for searches and parsers that may fail. */
module Options {
  datatype Option<+T> = None | Some(value: T)
}

/** The pieces of Python's `str` that the report generator relies on:
    `isspace`, `strip`, and character search. Strings are `seq<char>`. */
module Strings {
  import opened Options

  /** Python's `str.isspace()` for one character: the ASCII controls
      \t \n \v \f \r, the separators \x1c-\x1f, the space, and the
      Unicode space separators and line/paragraph separators. */
  predicate IsSpace(c: char) {
    || c == ' '
    || ('\t' <= c <= '\r')
    || ('\U{1C}' <= c <= '\U{1F}')
    || c == '\U{85}'
    || c == '\U{A0}'
    || c == '\U{1680}'
    || ('\U{2000}' <= c <= '\U{200A}')
    || c == '\U{2028}'
    || c == '\U{2029}'
    || c == '\U{202F}'
    || c == '\U{205F}'
    || c == '\U{3000}'
  }

  predicate AllSpace(s: string) {
    forall k :: 0 <= k < |s| ==> IsSpace(s[k])
  }

  /** The number of whitespace characters at the front of `s`. */
  function LeadingSpaces(s: string): (n: nat)
    ensures n <= |s|
  {
    if s != [] && IsSpace(s[0]) then 1 + LeadingSpaces(s[1..]) else 0
  }

  /** `LeadingSpaces` counts the longest all-whitespace prefix. */
  lemma {:induction false} LeadingSpacesSpec(s: string)
    ensures forall k :: 0 <= k < LeadingSpaces(s) ==> IsSpace(s[k])
    ensures LeadingSpaces(s) == |s| || !IsSpace(s[LeadingSpaces(s)])
  {
    if s != [] && IsSpace(s[0]) {
      LeadingSpacesSpec(s[1..]);
      forall k | 1 <= k < LeadingSpaces(s) ensures IsSpace(s[k]) {
        assert s[k] == s[1..][k - 1];
      }
    }
  }

  /** The number of whitespace characters at the back of `s`. */
  function TrailingSpaces(s: string): (n: nat)
    ensures n <= |s|
  {
    if s != [] && IsSpace(s[|s| - 1]) then 1 + TrailingSpaces(s[..|s| - 1]) else 0
  }

  /** `TrailingSpaces` counts the longest all-whitespace suffix. */
  lemma {:induction false} TrailingSpacesSpec(s: string)
    ensures forall k :: |s| - TrailingSpaces(s) <= k < |s| ==> IsSpace(s[k])
    ensures TrailingSpaces(s) == |s| || !IsSpace(s[|s| - TrailingSpaces(s) - 1])
  {
    if s != [] && IsSpace(s[|s| - 1]) {
      var s' := s[..|s| - 1];
      TrailingSpacesSpec(s');
      forall k | |s| - TrailingSpaces(s) <= k < |s| - 1 ensures IsSpace(s[k]) {
        assert s[k] == s'[k];
      }
    }
  }

  /** Python's `str.strip()` with no argument: `s` without its leading and
      trailing whitespace. */
  function Trim(s: string): (r: string)
    ensures |r| <= |s|
  {
    var t := s[LeadingSpaces(s)..];
    t[..|t| - TrailingSpaces(t)]
  }

  /** What `strip` keeps is the slice of `s` from its first non-space
      character to its last one; only whitespace is cut off either side. */
  lemma TrimSlice(s: string)
    ensures LeadingSpaces(s) + |Trim(s)| <= |s|
    ensures Trim(s) == s[LeadingSpaces(s)..LeadingSpaces(s) + |Trim(s)|]
    ensures forall k :: 0 <= k < LeadingSpaces(s) ==> IsSpace(s[k])
    ensures forall k :: LeadingSpaces(s) + |Trim(s)| <= k < |s| ==> IsSpace(s[k])
    ensures Trim(s) == [] || (!IsSpace(Trim(s)[0]) && !IsSpace(Trim(s)[|Trim(s)| - 1]))
  {
    var a := LeadingSpaces(s);
    var t := s[a..];
    LeadingSpacesSpec(s);
    TrailingSpacesSpec(t);
    StripSlice(s, a, TrailingSpaces(t));
  }

  /** The slice left once `a` leading and `n` trailing whitespace characters,
      each run maximal, are cut from `s`. */
  lemma StripSlice(s: string, a: nat, n: nat)
    requires a <= |s| && n <= |s| - a
    requires forall k :: 0 <= k < a ==> IsSpace(s[k])
    requires a == |s| || !IsSpace(s[a])
    requires forall k :: |s[a..]| - n <= k < |s[a..]| ==> IsSpace(s[a..][k])
    requires n == |s[a..]| || !IsSpace(s[a..][|s[a..]| - n - 1])
    ensures var r := s[a..][..|s| - a - n];
      && r == s[a..a + |r|]
      && (forall k :: a + |r| <= k < |s| ==> IsSpace(s[k]))
      && (r == [] || (!IsSpace(r[0]) && !IsSpace(r[|r| - 1])))
  {
    var t := s[a..];
    var m := |t| - n;
    forall k | a + m <= k < |s| ensures IsSpace(s[k]) {
      assert t[k - a] == s[k];
    }
    if m > 0 {
      assert t[..m][0] == s[a];
      assert t[..m][m - 1] == t[m - 1];
    }
  }

  /** Whitespace in front of a text that does not start with whitespace is
      exactly what `LeadingSpaces` counts. */
  lemma {:induction false} LeadingOfPadded(w: string, y: string)
    requires AllSpace(w)
    requires y == [] || !IsSpace(y[0])
    ensures LeadingSpaces(w + y) == |w|
  {
    if w != [] {
      assert (w + y)[1..] == w[1..] + y;
      LeadingOfPadded(w[1..], y);
    }
  }

  /** Whitespace behind a text that does not end with whitespace is exactly
      what `TrailingSpaces` counts. */
  lemma {:induction false} TrailingOfPadded(y: string, w: string)
    requires AllSpace(w)
    requires y == [] || !IsSpace(y[|y| - 1])
    ensures TrailingSpaces(y + w) == |w|
  {
    if w != [] {
      assert (y + w)[..|y + w| - 1] == y + w[..|w| - 1];
      TrailingOfPadded(y, w[..|w| - 1]);
    }
  }

  /** Stripping is determined by its result: whitespace around a text whose
      ends are not whitespace is exactly what `strip` removes. */
  lemma TrimPadded(front: string, x: string, back: string)
    requires AllSpace(front) && AllSpace(back)
    requires x == [] || (!IsSpace(x[0]) && !IsSpace(x[|x| - 1]))
    ensures Trim(front + x + back) == x
  {
    var s := front + x + back;
    if x == [] {
      assert s == (front + back) + [];
      LeadingOfPadded(front + back, []);
    } else {
      assert s == front + (x + back);
      LeadingOfPadded(front, x + back);
      assert s[|front|..] == x + back;
      TrailingOfPadded(x, back);
    }
  }

  /** Stripping twice is stripping once. */
  lemma TrimIdempotent(s: string)
    ensures Trim(Trim(s)) == Trim(s)
  {
    TrimSlice(s);
    TrimPadded([], Trim(s), []);
    assert [] + Trim(s) + [] == Trim(s);
  }

  /** `s` begins with `p`. */
  predicate StartsWith(s: string, p: string) {
    |p| <= |s| && s[..|p|] == p
  }

  /** The index of the first `c` in `s`, like Python's `str.find` for one
      character, with None in place of -1. */
  function IndexOf(s: string, c: char): (r: Option<nat>)
    ensures r.None? <==> c !in s
    ensures r.Some? ==> r.value < |s| && s[r.value] == c && c !in s[..r.value]
  {
    if s == [] then None
    else if s[0] == c then Some(0)
    else match IndexOf(s[1..], c)
      case None => None
      case Some(i) => assert s[..i + 1] == [s[0]] + s[1..][..i]; Some(i + 1)
  }

  /** A character that `a` lacks and `b` starts with is found at `|a|`. */
  lemma IndexOfAfter(a: string, b: string, c: char)
    requires c !in a && b != [] && b[0] == c
    ensures IndexOf(a + b, c) == Some(|a|)
  {
    assert (a + b)[|a|] == c;
  }

  /** Concatenation regrouped to the right. */
  lemma Regroup(a: string, b: string, c: string)
    ensures a + b + c == a + (b + c)
  {
  }

  /** A text that starts with `h` and ends with `f`, without overlap, is
      `h`, the text between, and `f`. */
  lemma Framed(s: string, h: string, f: string)
    requires |h| + |f| <= |s| && s[..|h|] == h && s[|s| - |f|..] == f
    ensures s == h + s[|h|..|s| - |f|] + f
  {
  }

  /** The pieces of `h + body + f` are found where `Framed` looks for them. */
  lemma FrameOf(h: string, body: string, f: string)
    ensures (h + body + f)[..|h|] == h
    ensures (h + body + f)[|h + body + f| - |f|..] == f
    ensures (h + body + f)[|h|..|h + body + f| - |f|] == body
  {
  }

  /** `s` without the prefix `p`, if `s` starts with it. */
  function Expect(s: string, p: string): (r: Option<string>)
    ensures r.Some? <==> StartsWith(s, p)
    ensures r.Some? ==> s == p + r.value
  {
    if StartsWith(s, p) then Some(s[|p|..]) else None
  }

  lemma ExpectOf(p: string, rest: string)
    ensures Expect(p + rest, p) == Some(rest)
  {
    assert (p + rest)[..|p|] == p;
  }

  /** `s` split just before its first `c`: the text before it, and the
      rest, which starts with `c`. */
  function SplitAt(s: string, c: char): (r: Option<(string, string)>)
    ensures r.None? <==> c !in s
    ensures r.Some? ==> s == r.value.0 + r.value.1 && c !in r.value.0
    ensures r.Some? ==> r.value.1 != [] && r.value.1[0] == c
  {
    match IndexOf(s, c)
    case None => None
    case Some(i) => assert s == s[..i] + s[i..]; Some((s[..i], s[i..]))
  }

  lemma SplitAtOf(x: string, rest: string, c: char)
    requires c !in x && rest != [] && rest[0] == c
    ensures SplitAt(x + rest, c) == Some((x, rest))
  {
    IndexOfAfter(x, rest, c);
    assert (x + rest)[..|x|] == x && (x + rest)[|x|..] == rest;
  }
}
