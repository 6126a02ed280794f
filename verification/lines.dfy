/**
 Text as Python's line-oriented file iteration sees it: a file's contents is
 split into lines that keep their trailing newline, and writing those lines
 back out verbatim reproduces the contents. Substring containment models
 Python's `needle in line` test on strings.
 */
module Lines {

  /* `needle` occurs in `hay` starting at offset `i`. */
  predicate OccursAt(hay: string, needle: string, i: nat) {
    i + |needle| <= |hay| && hay[i..i + |needle|] == needle
  }

  /* Python's `needle in hay` for strings: substring containment. */
  predicate Contains(hay: string, needle: string) {
    exists i: nat :: i <= |hay| && OccursAt(hay, needle, i)
  }

  /* A non-empty needle can only occur in a string that holds its first character. */
  lemma ContainsFirstChar(hay: string, needle: string)
    requires |needle| > 0 && Contains(hay, needle)
    ensures needle[0] in hay
  {
    var i: nat :| i <= |hay| && OccursAt(hay, needle, i);
    assert hay[i] == hay[i..i + |needle|][0] == needle[0];
  }

  /* Containment is preserved by adding text on either side. */
  lemma ContainsWithin(pre: string, hay: string, post: string, needle: string)
    requires Contains(hay, needle)
    ensures Contains(pre + hay + post, needle)
  {
    var i: nat :| i <= |hay| && OccursAt(hay, needle, i);
    var j: nat := |pre| + i;
    assert (pre + hay + post)[j..j + |needle|] == hay[i..i + |needle|];
    assert OccursAt(pre + hay + post, needle, j);
  }

  predicate EndsWithNewline(s: string) {
    |s| > 0 && s[|s| - 1] == '\n'
  }

  /* One line as file iteration yields it: non-empty, and a newline, if any, only at its end. */
  predicate IsLine(l: string) {
    |l| > 0 && forall k :: 0 <= k < |l| - 1 ==> l[k] != '\n'
  }

  /* A sequence of lines that file iteration could have produced: every line but the last ends in a newline. */
  predicate WellFormed(ls: seq<string>) {
    forall i :: 0 <= i < |ls| ==> IsLine(ls[i]) && (i < |ls| - 1 ==> EndsWithNewline(ls[i]))
  }

  /* Dropping the first line of a well-formed sequence leaves a well-formed sequence. */
  lemma WellFormedTail(ls: seq<string>)
    requires WellFormed(ls) && ls != []
    ensures WellFormed(ls[1..])
  {
    forall i | 0 <= i < |ls[1..]|
      ensures IsLine(ls[1..][i]) && (i < |ls[1..]| - 1 ==> EndsWithNewline(ls[1..][i]))
    {
      assert ls[1..][i] == ls[i + 1];
    }
  }

  /* Length of the first line of `s`: up to and including the first newline, or all of `s`. */
  function LineEnd(s: string): (n: nat)
    requires |s| > 0
    ensures 0 < n <= |s|
    ensures forall k :: 0 <= k < n - 1 ==> s[k] != '\n'
    ensures n < |s| ==> s[n - 1] == '\n'
  {
    if s[0] == '\n' || |s| == 1 then 1 else 1 + LineEnd(s[1..])
  }

  /* The first line ends exactly at the first newline. */
  lemma LineEndAt(s: string, m: nat)
    requires 0 < m <= |s| && s[m - 1] == '\n'
    requires forall k :: 0 <= k < m - 1 ==> s[k] != '\n'
    ensures LineEnd(s) == m
  {
    var n := LineEnd(s);
    assert n >= m;
  }

  /* Writes lines out verbatim, one after the other. */
  function Join(ls: seq<string>): string {
    if ls == [] then [] else ls[0] + Join(ls[1..])
  }

  /* Splits a file's contents into lines, each keeping its trailing newline. */
  function SplitLines(s: string): (ls: seq<string>)
    ensures Join(ls) == s
    ensures WellFormed(ls)
    ensures s == [] <==> ls == []
    decreases |s|
  {
    if s == [] then []
    else
      var n := LineEnd(s);
      var rest := SplitLines(s[n..]);
      assert s[..n] + s[n..] == s;
      assert rest != [] ==> EndsWithNewline(s[..n]);
      [s[..n]] + rest
  }

  lemma {:induction false} JoinAppend(a: seq<string>, b: seq<string>)
    ensures Join(a + b) == Join(a) + Join(b)
    decreases |a|
  {
    if a == [] {
      assert a + b == b;
    } else {
      assert (a + b)[1..] == a[1..] + b;
      JoinAppend(a[1..], b);
    }
  }

  /* Text after a newline does not move the end of the first line. */
  lemma LineEndOfAppend(a: string, b: string)
    requires EndsWithNewline(a)
    ensures LineEnd(a + b) == LineEnd(a)
  {
    var n := LineEnd(a);
    assert a[n - 1] == '\n';
    assert forall k :: 0 <= k < n ==> (a + b)[k] == a[k];
    LineEndAt(a + b, n);
  }

  /* One step of splitting, with the first line and the rest named by the caller. */
  lemma SplitLinesStep(s: string, n: nat, x: string, r: string)
    requires s != [] && n == LineEnd(s) && x == s[..n] && r == s[n..]
    ensures SplitLines(s) == [x] + SplitLines(r)
  {
  }

  /* What follows the first line of text ending in a newline is empty or ends in a newline. */
  lemma RestEndsWithNewline(a: string)
    requires EndsWithNewline(a)
    ensures var r := a[LineEnd(a)..]; r == [] || EndsWithNewline(r)
  {
  }

  /* Putting an element in front of a concatenation. */
  lemma ConsAssoc<T>(x: T, p: seq<T>, q: seq<T>)
    ensures [x] + (p + q) == ([x] + p) + q
  {
  }

  /* Splitting text that ends in a newline and then more text splits the two parts separately. */
  lemma {:induction false} SplitAppend(a: string, b: string)
    requires a == [] || EndsWithNewline(a)
    ensures SplitLines(a + b) == SplitLines(a) + SplitLines(b)
    decreases |a|
  {
    if a == [] {
      assert a + b == b;
    } else {
      var n := LineEnd(a);
      var ab := a + b;
      var x, r, rb := a[..n], a[n..], a[n..] + b;
      assert ab[..n] == x;
      assert ab[n..] == rb;
      LineEndOfAppend(a, b);
      RestEndsWithNewline(a);
      SplitLinesStep(a, n, x, r);
      SplitLinesStep(ab, n, x, rb);
      SplitAppend(r, b);
      ConsAssoc(a[..n], SplitLines(a[n..]), SplitLines(b));
    }
  }

  /* A line followed by more text: the line is read back first, then the text. */
  lemma SplitAfterLine(l: string, t: string)
    requires IsLine(l) && (t != [] ==> EndsWithNewline(l))
    ensures SplitLines(l + t) == [l] + SplitLines(t)
  {
    var s := l + t;
    assert s[..|l|] == l && s[|l|..] == t;
    if EndsWithNewline(l) {
      LineEndAt(s, |l|);
    } else {
      assert LineEnd(s) == |l|;
    }
    SplitLinesStep(s, |l|, l, t);
  }

  /* Joining well-formed lines and splitting the result gives back the same lines. */
  lemma {:induction false} SplitJoin(ls: seq<string>)
    requires WellFormed(ls)
    ensures SplitLines(Join(ls)) == ls
    decreases |ls|
  {
    if ls != [] {
      var l := ls[0];
      var j := Join(ls[1..]);
      WellFormedTail(ls);
      SplitJoin(ls[1..]);
      if ls[1..] == [] {
        assert l + j == l;
        if l[|l| - 1] == '\n' {
          LineEndAt(l, |l|);
        }
        assert LineEnd(l) == |l|;
        assert l[|l|..] == [];
      } else {
        assert EndsWithNewline(l);
        LineEndAt(l + j, |l|);
        assert (l + j)[..|l|] == l;
        assert (l + j)[|l|..] == j;
      }
    }
  }
}
