/** The manifest: the lines of the image-list file, consumed two at a time
    as (image reference, caption). Lines are given as read, each still
    carrying its line terminator, which stripping removes. */
module Manifest {
  import opened Strings

  /** One gallery entry: an image reference and its caption. */
  datatype Entry = Entry(image: string, caption: string)

  /** The pairs the generator's loops visit: for i = 0, 2, 4, ... while
      i < |lines| - 1, line i (stripped) is the image reference and line
      i + 1 (stripped) its caption. A trailing unpaired line is dropped. */
  function Pairs(lines: seq<string>): (r: seq<Entry>)
    ensures 2 * |r| <= |lines|
    decreases |lines|
  {
    if |lines| < 2 then []
    else [Entry(Trim(lines[0]), Trim(lines[1]))] + Pairs(lines[2..])
  }

  /** There are as many entries as whole pairs of lines. */
  lemma {:induction false} PairsCount(lines: seq<string>)
    ensures |Pairs(lines)| == |lines| / 2
    decreases |lines|
  {
    if |lines| >= 2 {
      PairsCount(lines[2..]);
    }
  }

  /** Entry k comes from lines 2k and 2k + 1, stripped. */
  lemma {:induction false} PairAt(lines: seq<string>, k: nat)
    requires k < |Pairs(lines)|
    ensures 2 * k + 1 < |lines|
    ensures Pairs(lines)[k] == Entry(Trim(lines[2 * k]), Trim(lines[2 * k + 1]))
    decreases k
  {
    assert |lines| >= 2;
    var rest := lines[2..];
    assert Pairs(lines) == [Entry(Trim(lines[0]), Trim(lines[1]))] + Pairs(rest);
    if k > 0 {
      PairAt(rest, k - 1);
      assert Pairs(lines)[k] == Pairs(rest)[k - 1];
      assert rest[2 * (k - 1)] == lines[2 * k];
      assert rest[2 * (k - 1) + 1] == lines[2 * k + 1];
    }
  }

  /** A manifest of fewer than two lines has no entries. */
  lemma PairsOfShortManifest(lines: seq<string>)
    requires |lines| < 2
    ensures Pairs(lines) == []
  {
  }

  /** An unpaired line after an even number of lines adds no entry. */
  lemma PairsDropTrailing(lines: seq<string>, extra: string)
    requires |lines| % 2 == 0
    ensures Pairs(lines + [extra]) == Pairs(lines)
  {
    var ps, qs := Pairs(lines + [extra]), Pairs(lines);
    PairsCount(lines + [extra]);
    PairsCount(lines);
    forall k | 0 <= k < |qs| ensures ps[k] == qs[k] {
      PairAt(lines + [extra], k);
      PairAt(lines, k);
      assert (lines + [extra])[2 * k] == lines[2 * k];
      assert (lines + [extra])[2 * k + 1] == lines[2 * k + 1];
    }
  }

  /** Two manifests placed one after the other, the first of even length,
      give the entries of the first followed by those of the second. */
  lemma {:induction false} PairsAppend(a: seq<string>, b: seq<string>)
    requires |a| % 2 == 0
    ensures Pairs(a + b) == Pairs(a) + Pairs(b)
    decreases |a|
  {
    if a != [] {
      assert (a + b)[2..] == a[2..] + b;
      assert (a + b)[0] == a[0] && (a + b)[1] == a[1];
      PairsAppend(a[2..], b);
    } else {
      assert a + b == b;
    }
  }

  /** `n` is even. */
  predicate Even(n: int) {
    n % 2 == 0
  }

  lemma EvenStep(n: int)
    requires Even(n)
    ensures Even(n + 2)
  {
  }

  lemma EvenDouble(n: int)
    ensures Even(2 * n)
  {
  }

  /** A line followed by another is one of the paired lines. */
  lemma PairedLine(n: nat, k: nat)
    requires k + 1 < n
    ensures k < n - n % 2
  {
  }

  /** Both lines of pair k are paired lines. */
  lemma PairedLines(n: nat, k: nat)
    requires 2 * k + 1 < n
    ensures 2 * k + 1 < n - n % 2
  {
  }

  /** Consuming two more lines adds the entry they make. */
  lemma PairsStep(lines: seq<string>, i: nat)
    requires Even(i) && i + 1 < |lines|
    ensures Pairs(lines[..i + 2]) == Pairs(lines[..i]) + [Entry(Trim(lines[i]), Trim(lines[i + 1]))]
  {
    var two := lines[i..i + 2];
    assert lines[..i + 2] == lines[..i] + two;
    PairsAppend(lines[..i], two);
    assert two[2..] == [];
  }

  lemma LastSplit(lines: seq<string>, i: nat)
    requires i + 1 == |lines|
    ensures lines == lines[..i] + [lines[i]]
  {
  }

  /** Once fewer than two lines remain, the lines consumed give all the entries. */
  lemma PairsDone(lines: seq<string>, i: nat)
    requires Even(i) && |lines| - 1 <= i <= |lines|
    ensures Pairs(lines[..i]) == Pairs(lines)
  {
    if i < |lines| {
      LastSplit(lines, i);
      PairsDropTrailing(lines[..i], lines[i]);
    } else {
      assert lines[..i] == lines;
    }
  }
}
