/**
 * The JavaScript string operations the linter relies on (`indexOf`, `split`,
 * `join`, `startsWith`, `substring`, `trim`, `trimLeft`), stated on
 * `seq<char>`, and the division of a text stream into terminated lines and a
 * pending tail.
 */
module Text {

  /** What JavaScript treats as white space in `\s`, `trim` and `trimLeft`:
      the WhiteSpace and LineTerminator code points. */
  const Spaces: set<char> := {
    '\t', '\n', '\U{B}', '\U{C}', '\r', ' ', '\U{A0}', '\U{1680}',
    '\U{2000}', '\U{2001}', '\U{2002}', '\U{2003}', '\U{2004}', '\U{2005}',
    '\U{2006}', '\U{2007}', '\U{2008}', '\U{2009}', '\U{200A}',
    '\U{2028}', '\U{2029}', '\U{202F}', '\U{205F}', '\U{3000}', '\U{FEFF}'}

  predicate IsSpace(c: char) {
    c in Spaces
  }

  /** The characters a regular-expression `.` does not match. */
  predicate IsLineTerminator(c: char) {
    c == '\n' || c == '\r' || c == '\U{2028}' || c == '\U{2029}'
  }

  predicate NoLineTerminator(s: string) {
    forall k :: 0 <= k < |s| ==> !IsLineTerminator(s[k])
  }

  /** `s.indexOf(c)`: the first position of `c` in `s`, or -1. */
  function IndexOf(s: string, c: char): (i: int)
    ensures -1 <= i < |s|
    ensures 0 <= i ==> s[i] == c && c !in s[..i]
    ensures i == -1 <==> c !in s
  {
    if |s| == 0 then -1
    else if s[0] == c then 0
    else
      var j := IndexOf(s[1..], c);
      assert s == [s[0]] + s[1..];
      if j < 0 then -1
      else
        assert s[..j + 1] == [s[0]] + s[1..][..j];
        j + 1
  }

  /** The contract of IndexOf determines its result. */
  lemma IndexOfIs(s: string, c: char, i: nat)
    requires i < |s| && s[i] == c && c !in s[..i]
    ensures IndexOf(s, c) == i
  {
    assert s[i] in s;
  }

  /** `s.startsWith(prefix)`. */
  predicate StartsWith(s: string, prefix: string) {
    |prefix| <= |s| && s[..|prefix|] == prefix
  }

  /** `s.substring(start)`: a start beyond the end gives the empty string. */
  function Substring(s: string, start: nat): (r: string)
    ensures start <= |s| ==> s == s[..start] + r
    ensures |s| <= start ==> r == ""
  {
    if start <= |s| then s[start..] else ""
  }

  /** `s.split(sep)` for a one-character separator: never empty, and the
      pieces are the maximal separator-free runs in order. */
  function Split(s: string, sep: char): (parts: seq<string>)
    ensures |parts| >= 1
    ensures forall k :: 0 <= k < |parts| ==> sep !in parts[k]
    decreases |s|
  {
    var i := IndexOf(s, sep);
    if i < 0 then [s] else [s[..i]] + Split(s[i + 1..], sep)
  }

  /** `parts.join(sep)`. */
  function Join(parts: seq<string>, sep: char): string {
    if |parts| == 0 then ""
    else if |parts| == 1 then parts[0]
    else parts[0] + [sep] + Join(parts[1..], sep)
  }

  lemma JoinCons(first: string, rest: seq<string>, sep: char)
    requires |rest| >= 1
    ensures Join([first] + rest, sep) == first + [sep] + Join(rest, sep)
  {
    assert ([first] + rest)[1..] == rest;
  }

  /** Splitting and rejoining gives back the text: no separator is lost. */
  lemma {:induction false} JoinSplit(s: string, sep: char)
    ensures Join(Split(s, sep), sep) == s
    decreases |s|
  {
    var i := IndexOf(s, sep);
    if 0 <= i {
      JoinSplit(s[i + 1..], sep);
      JoinCons(s[..i], Split(s[i + 1..], sep), sep);
      assert s == s[..i] + [sep] + s[i + 1..];
    }
  }

  /** Joining separator-free pieces and splitting gives back the pieces. */
  lemma {:induction false} SplitJoin(parts: seq<string>, sep: char)
    requires |parts| >= 1
    requires forall k :: 0 <= k < |parts| ==> sep !in parts[k]
    ensures Split(Join(parts, sep), sep) == parts
    decreases |parts|
  {
    if |parts| == 1 {
      assert IndexOf(parts[0], sep) == -1;
    } else {
      var rest := Join(parts[1..], sep);
      var s := parts[0] + [sep] + rest;
      JoinCons(parts[0], parts[1..], sep);
      assert parts == [parts[0]] + parts[1..];
      assert s[..|parts[0]|] == parts[0];
      IndexOfIs(s, sep, |parts[0]|);
      assert s[|parts[0]| + 1..] == rest;
      SplitJoin(parts[1..], sep);
    }
  }

  /** Splitting `a + b`: the finished pieces of `a` followed by the pieces of
      `a`'s last, unfinished piece continued with `b`. */
  lemma {:induction false} SplitAppend(a: string, b: string, sep: char)
    ensures var pa := Split(a, sep);
      Split(a + b, sep) == pa[..|pa| - 1] + Split(pa[|pa| - 1] + b, sep)
    decreases |a|
  {
    var i := IndexOf(a, sep);
    if 0 <= i {
      SplitFirstPiece(a, b, sep, i);
      SplitAppend(a[i + 1..], b, sep);
      var pr := Split(a[i + 1..], sep);
      DropLast([a[..i]], pr);
      Assoc([a[..i]], pr[..|pr| - 1], Split(pr[|pr| - 1] + b, sep));
    } else {
      SplitWhole(a, sep);
    }
  }

  /** Without a separator, `a` is its own single piece. */
  lemma SplitWhole(a: string, sep: char)
    requires IndexOf(a, sep) < 0
    ensures Split(a, sep) == [a]
  {
  }

  /** The first separator of `a` ends its first piece. */
  lemma SplitAtFirst(a: string, sep: char, i: nat)
    requires i < |a| && i == IndexOf(a, sep)
    ensures Split(a, sep) == [a[..i]] + Split(a[i + 1..], sep)
  {
  }

  /** A separator in `a` ends the first piece of both `a` and `a + b`. */
  lemma SplitFirstPiece(a: string, b: string, sep: char, i: nat)
    requires i < |a| && i == IndexOf(a, sep)
    ensures Split(a, sep) == [a[..i]] + Split(a[i + 1..], sep)
    ensures Split(a + b, sep) == [a[..i]] + Split(a[i + 1..] + b, sep)
  {
    SplitAtFirst(a, sep, i);
    assert (a + b)[..i] == a[..i];
    IndexOfIs(a + b, sep, i);
    assert (a + b)[i + 1..] == a[i + 1..] + b;
    SplitAtFirst(a + b, sep, i);
  }

  /** `s.trimLeft()`. */
  function TrimLeft(s: string): string {
    if |s| > 0 && IsSpace(s[0]) then TrimLeft(s[1..]) else s
  }

  /** `s.trimRight()`. */
  function TrimRight(s: string): string {
    if |s| > 0 && IsSpace(s[|s| - 1]) then TrimRight(s[..|s| - 1]) else s
  }

  /** `s.trim()`. */
  function Trim(s: string): string {
    TrimRight(TrimLeft(s))
  }

  /** `TrimLeft` drops the leading white space and nothing else. */
  lemma {:induction false} TrimLeftDropsLeadingSpace(s: string)
    ensures var r := TrimLeft(s);
      |r| <= |s| && r == s[|s| - |r|..] &&
      (forall k :: 0 <= k < |s| - |r| ==> IsSpace(s[k])) &&
      (r == [] || !IsSpace(r[0]))
    decreases |s|
  {
    if |s| > 0 && IsSpace(s[0]) {
      TrimLeftDropsLeadingSpace(s[1..]);
    }
  }

  /** `TrimRight` drops the trailing white space and nothing else. */
  lemma {:induction false} TrimRightDropsTrailingSpace(s: string)
    ensures var r := TrimRight(s);
      |r| <= |s| && r == s[..|r|] &&
      (forall k :: |r| <= k < |s| ==> IsSpace(s[k])) &&
      (r == [] || !IsSpace(r[|r| - 1]))
    decreases |s|
  {
    if |s| > 0 && IsSpace(s[|s| - 1]) {
      TrimRightDropsTrailingSpace(s[..|s| - 1]);
    }
  }

  /** Trimming adds no character: one absent from `s` is absent from `Trim(s)`. */
  lemma TrimAddsNothing(s: string, c: char)
    requires c !in s
    ensures c !in Trim(s)
  {
    TrimKeepsCore(s);
    var a, b :| 0 <= a <= b <= |s| && Trim(s) == s[a..b];
    forall k | 0 <= k < |Trim(s)|
      ensures Trim(s)[k] != c
    {
      assert Trim(s)[k] == s[a + k];
    }
  }

  /** What `Trim` keeps is a contiguous piece of `s` with no white space at
      either end, and everything outside it is white space. */
  lemma TrimKeepsCore(s: string)
    ensures Trim(s) == [] || (!IsSpace(Trim(s)[0]) && !IsSpace(Trim(s)[|Trim(s)| - 1]))
    ensures exists a, b ::
      0 <= a <= b <= |s| && Trim(s) == s[a..b] &&
      (forall k :: 0 <= k < a ==> IsSpace(s[k])) && (forall k :: b <= k < |s| ==> IsSpace(s[k]))
  {
    var l := TrimLeft(s);
    TrimLeftDropsLeadingSpace(s);
    TrimRightDropsTrailingSpace(l);
    var r := TrimRight(l);
    var a := |s| - |l|;
    var b := a + |r|;
    assert r == s[a..b];
    TrailingSpace(s, l, a, b);
    assert 0 <= a <= b <= |s| && Trim(s) == s[a..b] &&
      (forall k :: 0 <= k < a ==> IsSpace(s[k])) && (forall k :: b <= k < |s| ==> IsSpace(s[k]));
  }

  /** White space after the kept part of a suffix is white space of the whole. */
  lemma TrailingSpace(s: string, l: string, a: nat, b: nat)
    requires a <= b <= |s| && l == s[a..]
    requires forall k :: b - a <= k < |l| ==> IsSpace(l[k])
    ensures forall k :: b <= k < |s| ==> IsSpace(s[k])
  {
    forall k | b <= k < |s| ensures IsSpace(s[k]) {
      assert s[k] == l[k - a];
    }
  }

  /** Text with no white space at either end is its own trim. */
  lemma TrimUntouched(s: string)
    requires s == [] || (!IsSpace(s[0]) && !IsSpace(s[|s| - 1]))
    ensures TrimLeft(s) == s && Trim(s) == s
  {
  }

  // ---- Line division of a stream ----

  /** The newline-terminated lines at the front of `s`, without their `'\n'`. */
  function CompleteLines(s: string): (lines: seq<string>)
    ensures forall k :: 0 <= k < |lines| ==> '\n' !in lines[k]
  {
    var p := Split(s, '\n');
    p[..|p| - 1]
  }

  /** What follows the last `'\n'` of `s` (all of `s` when there is none). */
  function Pending(s: string): (rest: string)
    ensures '\n' !in rest
  {
    var p := Split(s, '\n');
    p[|p| - 1]
  }

  /** Lines with their terminators put back. */
  function Terminated(lines: seq<string>): string {
    if lines == [] then "" else lines[0] + "\n" + Terminated(lines[1..])
  }

  /** One more line adds itself and its terminator at the end. */
  lemma {:induction false} TerminatedSnoc(lines: seq<string>, line: string)
    ensures Terminated(lines + [line]) == Terminated(lines) + line + "\n"
    decreases |lines|
  {
    if lines != [] {
      assert (lines + [line])[1..] == lines[1..] + [line];
      TerminatedSnoc(lines[1..], line);
    } else {
      assert lines + [line] == [line];
    }
  }

  lemma {:induction false} TerminatedJoin(lines: seq<string>, tail: string)
    ensures Terminated(lines) + tail == Join(lines + [tail], '\n')
    decreases |lines|
  {
    if lines != [] {
      TerminatedJoin(lines[1..], tail);
      assert (lines + [tail])[1..] == lines[1..] + [tail];
    }
  }

  /** A stream is exactly its complete lines, each followed by `'\n'`, and
      then its pending tail; and that is the only such division. */
  lemma StreamDivision(s: string)
    ensures s == Terminated(CompleteLines(s)) + Pending(s)
  {
    var p := Split(s, '\n');
    JoinSplit(s, '\n');
    assert p == p[..|p| - 1] + [p[|p| - 1]];
    TerminatedJoin(p[..|p| - 1], p[|p| - 1]);
  }

  lemma TerminatedLines(lines: seq<string>, tail: string)
    requires forall k :: 0 <= k < |lines| ==> '\n' !in lines[k]
    requires '\n' !in tail
    ensures CompleteLines(Terminated(lines) + tail) == lines
    ensures Pending(Terminated(lines) + tail) == tail
  {
    TerminatedJoin(lines, tail);
    var parts := lines + [tail];
    assert forall k :: 0 <= k < |parts| ==> '\n' !in parts[k] by {
      forall k | 0 <= k < |parts| ensures '\n' !in parts[k] {
        if k < |lines| { assert parts[k] == lines[k]; }
      }
    }
    SplitJoin(parts, '\n');
    assert parts[..|parts| - 1] == lines;
  }

  /** Handing over `a` and then `b` divides into the same lines as handing
      over `a + b` at once. */
  lemma LinesAppend(a: string, b: string)
    ensures CompleteLines(a + b) == CompleteLines(a) + CompleteLines(Pending(a) + b)
    ensures Pending(a + b) == Pending(Pending(a) + b)
  {
    SplitAppend(a, b, '\n');
    var pa := Split(a, '\n');
    var pb := Split(pa[|pa| - 1] + b, '\n');
    DropLast(pa[..|pa| - 1], pb);
  }

  /** Dropping the last element of a concatenation whose second part is not
      empty. */
  lemma DropLast<T>(x: seq<T>, y: seq<T>)
    requires |y| >= 1
    ensures (x + y)[..|x + y| - 1] == x + y[..|y| - 1]
    ensures (x + y)[|x + y| - 1] == y[|y| - 1]
  {
  }

  lemma Assoc<T>(x: seq<T>, y: seq<T>, z: seq<T>)
    ensures x + (y + z) == (x + y) + z
  {
  }

  lemma Regroup<T>(x: seq<T>, e: T, y: seq<T>)
    ensures x + ([e] + y) == (x + [e]) + y
  {
  }

  /** The complete lines of a text holding a `'\n'`: its first line, then
      the complete lines of the rest. */
  lemma LinesCons(s: string)
    requires '\n' in s
    ensures var i := IndexOf(s, '\n');
      CompleteLines(s) == [s[..i]] + CompleteLines(s[i + 1..]) && Pending(s) == Pending(s[i + 1..])
  {
    var i := IndexOf(s, '\n');
    var p, q := Split(s, '\n'), Split(s[i + 1..], '\n');
    assert p == [s[..i]] + q by {
      SplitAtFirst(s, '\n', i);
    }
    assert p[..|p| - 1] == [s[..i]] + q[..|q| - 1] && p[|p| - 1] == q[|q| - 1] by {
      DropLast([s[..i]], q);
    }
  }

  lemma NoLines(s: string)
    requires '\n' !in s
    ensures CompleteLines(s) == [] && Pending(s) == s
  {
  }
}
