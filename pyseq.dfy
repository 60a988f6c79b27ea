/**
  The two pieces of Python semantics that the splitter leans on: slicing
  (`s[a:b]`, which clamps its bounds and counts negative bounds from the end)
  and `str.split("\n")`.
*/
module PySeq {
  import opened Wrappers

  /** The index Python uses for the slice bound `i` on a sequence of length `n`. */
  function SliceIndex(i: int, n: nat): (k: nat)
    ensures k <= n
  {
    if i < 0 then (if i + n < 0 then 0 else i + n)
    else if i > n then n
    else i
  }

  /** `s[a:b]` in Python. */
  function Slice<T>(s: seq<T>, a: int, b: int): (r: seq<T>)
    ensures |r| <= |s|
  {
    var i, j := SliceIndex(a, |s|), SliceIndex(b, |s|);
    if i < j then s[i..j] else []
  }

  /** `s[a:]` with a non-negative start is the ordinary suffix. */
  lemma SliceFrom<T>(s: seq<T>, a: int)
    requires 0 <= a
    ensures Slice(s, a, |s|) == if a <= |s| then s[a..] else []
  {
  }

  /** `s[:b]` with a non-negative stop is the ordinary prefix, clamped. */
  lemma SliceTo<T>(s: seq<T>, b: int)
    requires 0 <= b
    ensures Slice(s, 0, b) == if b <= |s| then s[..b] else s
  {
  }

  /** `s[:-m]` drops the last `m` elements, and gives `[]` when `m` exceeds the length. */
  lemma SliceDropLast<T>(s: seq<T>, m: int)
    requires m >= 1
    ensures Slice(s, 0, -m) == if m <= |s| then s[..|s| - m] else []
  {
  }

  /** Number of line breaks in `s`. */
  function NewlineCount(s: string): (n: nat) {
    multiset(s)['\n']
  }

  /** Index of the first line break of `s`, if any. */
  function FirstNewline(s: string): (r: Option<nat>)
    ensures r.Some? ==> r.value < |s| && s[r.value] == '\n' && NewlineCount(s[..r.value]) == 0
    ensures r.None? ==> NewlineCount(s) == 0
  {
    if |s| == 0 then None
    else if s[0] == '\n' then Some(0)
    else
      match FirstNewline(s[1..])
      case None =>
        assert s == [s[0]] + s[1..];
        None
      case Some(i) =>
        assert s[..i + 1] == [s[0]] + s[1..][..i];
        Some(i + 1)
  }

  /** `s.split("\n")` in Python: the pieces between line breaks, always at least one. */
  function SplitLines(s: string): (r: seq<string>)
    ensures |r| == NewlineCount(s) + 1
    decreases |s|
  {
    match FirstNewline(s)
    case None => [s]
    case Some(i) =>
      assert s == s[..i] + [s[i]] + s[i + 1..];
      [s[..i]] + SplitLines(s[i + 1..])
  }

  /** Python's `"\n".join(lines)`. */
  function JoinLines(lines: seq<string>): (s: string) {
    if lines == [] then ""
    else if |lines| == 1 then lines[0]
    else lines[0] + "\n" + JoinLines(lines[1..])
  }

  /** `"\n".join(s.split("\n")) == s`, and no piece contains a line break. */
  lemma {:induction false} SplitLinesRoundTrip(s: string)
    ensures JoinLines(SplitLines(s)) == s
    ensures forall k :: 0 <= k < |SplitLines(s)| ==> NewlineCount(SplitLines(s)[k]) == 0
    decreases |s|
  {
    match FirstNewline(s)
    case None =>
    case Some(i) =>
      var first, rest := s[..i], SplitLines(s[i + 1..]);
      SplitLinesRoundTrip(s[i + 1..]);
      var lines := SplitLines(s);
      assert lines == [first] + rest;
      assert JoinLines(lines) == first + "\n" + JoinLines(rest) by {
        assert lines[1..] == rest;
      }
      assert s == first + "\n" + s[i + 1..];
      PiecesCons(first, rest);
  }

  lemma PiecesCons(first: string, rest: seq<string>)
    requires NewlineCount(first) == 0
    requires forall k :: 0 <= k < |rest| ==> NewlineCount(rest[k]) == 0
    ensures forall k :: 0 <= k < |[first] + rest| ==> NewlineCount(([first] + rest)[k]) == 0
  {
    var lines := [first] + rest;
    forall k | 0 <= k < |lines|
      ensures NewlineCount(lines[k]) == 0
    {
      if k > 0 {
        assert lines[k] == rest[k - 1];
      }
    }
  }
}
