/**
 Text in a buffer: written from a place on, and zero-terminated.
*/
module Buffers {

  /** The buffer with t written from `at` on. */
  function Written(buf: seq<char>, at: nat, t: string): (r: seq<char>)
    requires at + |t| <= |buf|
    ensures |r| == |buf|
  {
    buf[..at] + t + buf[at + |t|..]
  }

  lemma WriteStep(buf: seq<char>, at: nat, t: string, c: char)
    requires at + |t| < |buf|
    ensures Written(buf, at, "") == buf
    ensures Written(buf, at, t)[at + |t| := c] == Written(buf, at, t + [c])
  {
  }

  function Repeat(c: char, n: nat): (s: string)
    ensures |s| == n && forall i :: 0 <= i < n ==> s[i] == c
    ensures n > 0 ==> s == Repeat(c, n - 1) + [c]
  {
    if n == 0 then "" else Repeat(c, n - 1) + [c]
  }

  lemma RepeatNone(c: char)
    ensures Repeat(c, 0) == []
  {
  }

  /** The buffer whose first k cells have been overwritten with the ones `step`
      places further on, in order. */
  function Slid(buf: seq<char>, step: nat, k: nat): (r: seq<char>)
    requires step + k <= |buf|
    ensures |r| == |buf|
  {
    buf[step..step + k] + buf[k..]
  }

  lemma SlideStep(buf: seq<char>, step: nat, k: nat)
    requires step + k < |buf|
    ensures Slid(buf, step, 0) == buf
    ensures Slid(buf, step, k)[k := Slid(buf, step, k)[k + step]] == Slid(buf, step, k + 1)
  {
  }

  /** The first `end` cells moved up by a row of `step` cells, with zeros for the
      last row. */
  function Scrolled(buf: seq<char>, step: nat, end: nat): (r: seq<char>)
    requires step <= end <= |buf|
    ensures |r| == |buf|
  {
    Written(Slid(buf, step, end - step), end - step, Repeat('\0', step))
  }

  lemma ScrolledCell(buf: seq<char>, step: nat, end: nat, k: nat)
    requires step <= end <= |buf| && k < |buf|
    ensures Scrolled(buf, step, end)[k] == if k < end - step then buf[k + step] else if k < end then '\0' else buf[k]
  {
    hide Repeat;
    var slid := Slid(buf, step, end - step);
    assert k < end - step ==> slid[k] == buf[k + step];
    assert k >= end ==> slid[k] == buf[k];
  }

  /** A zero-terminated string in a buffer. */
  ghost predicate StringAt(buf: seq<char>, at: nat, s: string) {
    at + |s| < |buf| && buf[at..at + |s|] == s && '\0' !in s && buf[at + |s|] == '\0'
  }

  /** A string ends at the first zero. */
  lemma StringCell(buf: seq<char>, at: nat, s: string, k: nat)
    requires StringAt(buf, at, s) && k <= |s|
    ensures at + |s| < |buf| && (buf[at + k] == '\0' <==> k == |s|)
    ensures k < |s| ==> buf[at + k] == s[k]
  {
    if k < |s| {
      assert buf[at..at + |s|][k] == s[k];
    }
  }

  /** Writing a string with its zero, and another of the same length over it. */
  lemma StringWritten(buf: seq<char>, at: nat, s: string, t: string)
    requires at + |s| < |buf| && '\0' !in s && '\0' !in t && |t| == |s|
    ensures var r := Written(buf, at, s + "\0");
            StringAt(r, at, s) && StringAt(Written(r, at, t), at, t) && Written(r, at, t)[..at] == buf[..at]
  {
    var r := Written(buf, at, s + "\0");
    assert r[at..at + |s|] == s && r[at + |s|] == '\0';
    assert Written(r, at, t)[at..at + |t|] == t && Written(r, at, t)[at + |t|] == '\0';
  }

  /** What stands right before a string becomes part of it. */
  lemma StringExtended(buf: seq<char>, at: nat, s: string, t: string)
    requires |t| <= at && StringAt(buf, at, s) && '\0' !in t
    ensures StringAt(Written(buf, at - |t|, t), at - |t|, t + s)
  {
    var r := Written(buf, at - |t|, t);
    assert r[at..at + |s|] == buf[at..at + |s|];
    assert r[at - |t|..at + |s|] == t + s;
  }
}
