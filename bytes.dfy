/**
 * Byte strings as the process layer reads them out of native memory: a
 * string is the run of bytes before a NUL terminator, and the splitting,
 * joining and trimming that Java's `String` performs are done byte by byte
 * (the separators and blanks involved are all ASCII, which UTF-8 never
 * uses inside a multi-byte character).
 */
module Bytes {

  type Byte = b: int | 0 <= b < 256
  type Str = seq<Byte>

  const NUL: Byte := 0
  const SPACE: Byte := 0x20
  const EQUALS: Byte := 0x3D
  const SLASH: Byte := 0x2F

  /** `indexOf(x)`: the first position of `x` in `s`, or -1. */
  function IndexOf(s: Str, x: Byte): (i: int)
    ensures -1 <= i < |s|
    ensures i == -1 <==> x !in s
    ensures i >= 0 ==> s[i] == x && x !in s[..i]
  {
    if |s| == 0 then -1
    else if s[0] == x then 0
    else
      var j := IndexOf(s[1..], x);
      assert j >= 0 ==> s[1..][..j] == s[1..j + 1];
      if j == -1 then -1 else j + 1
  }

  /** All pieces of `s` between occurrences of `sep`, empty pieces included. */
  function Split(s: Str, sep: Byte): (r: seq<Str>)
    ensures |r| >= 1
    ensures forall k :: 0 <= k < |r| ==> sep !in r[k]
    decreases |s|
  {
    var i := IndexOf(s, sep);
    if i == -1 then [s] else [s[..i]] + Split(s[i + 1..], sep)
  }

  /** `String.join(sep, pieces)`. */
  function Join(pieces: seq<Str>, sep: Byte): Str
  {
    if |pieces| == 0 then []
    else if |pieces| == 1 then pieces[0]
    else pieces[0] + [sep] + Join(pieces[1..], sep)
  }

  /** Splitting a join gives the pieces back when no piece holds the separator. */
  lemma {:induction false} SplitJoin(pieces: seq<Str>, sep: Byte)
    requires |pieces| >= 1
    requires forall k :: 0 <= k < |pieces| ==> sep !in pieces[k]
    ensures Split(Join(pieces, sep), sep) == pieces
  {
    if |pieces| > 1 {
      var j := Join(pieces, sep);
      var rest := Join(pieces[1..], sep);
      assert j == pieces[0] + [sep] + rest;
      assert j[..|pieces[0]|] == pieces[0];
      assert j[|pieces[0]|] == sep;
      assert IndexOf(j, sep) == |pieces[0]|;
      assert j[|pieces[0]| + 1..] == rest;
      SplitJoin(pieces[1..], sep);
    }
  }

  /** Joining the pieces of a split gives the string back. */
  lemma {:induction false} JoinSplit(s: Str, sep: Byte)
    ensures Join(Split(s, sep), sep) == s
    decreases |s|
  {
    var i := IndexOf(s, sep);
    if i != -1 {
      JoinSplit(s[i + 1..], sep);
      var rest := Split(s[i + 1..], sep);
      assert Split(s, sep)[1..] == rest;
      assert s == s[..i] + [sep] + s[i + 1..];
    }
  }

  /** A join cut between two pieces. */
  lemma {:induction false} JoinSplitAt(pieces: seq<Str>, j: nat, sep: Byte)
    requires 0 < j < |pieces|
    ensures Join(pieces, sep) == Join(pieces[..j], sep) + [sep] + Join(pieces[j..], sep)
  {
    if j > 1 {
      JoinSplitAt(pieces[1..], j - 1, sep);
      assert pieces[1..][..j - 1] == pieces[..j][1..];
      assert pieces[1..][j - 1..] == pieces[j..];
    }
  }

  /** A join of empty pieces holds nothing but separators, one fewer than the pieces. */
  lemma {:induction false} JoinOfEmpties(pieces: seq<Str>, sep: Byte)
    requires |pieces| >= 1 && forall k :: 0 <= k < |pieces| ==> pieces[k] == []
    ensures |Join(pieces, sep)| == |pieces| - 1
    ensures forall k :: 0 <= k < |Join(pieces, sep)| ==> Join(pieces, sep)[k] == sep
  {
    if |pieces| > 1 {
      JoinOfEmpties(pieces[1..], sep);
    }
  }

  /** `split` with limit 0 drops the empty pieces at the end. */
  function DropTrailingEmpty(parts: seq<Str>): (r: seq<Str>)
    ensures |r| <= |parts| && r == parts[..|r|]
    ensures |r| > 0 ==> r[|r| - 1] != []
    ensures forall k :: |r| <= k < |parts| ==> parts[k] == []
  {
    if |parts| == 0 || parts[|parts| - 1] != [] then parts else DropTrailingEmpty(parts[..|parts| - 1])
  }

  /**
   * `s.split(sep)` for a one-character separator: the pieces between
   * separators with the empty ones at the end removed, except that the
   * empty string splits into itself.
   */
  function JavaSplit(s: Str, sep: Byte): (r: seq<Str>)
    ensures forall k :: 0 <= k < |r| ==> sep !in r[k]
  {
    if s == [] then [[]] else DropTrailingEmpty(Split(s, sep))
  }

  /** A string made only of separators splits into empty pieces only. */
  lemma {:induction false} SplitOfSeparators(s: Str, sep: Byte)
    requires forall k :: 0 <= k < |s| ==> s[k] == sep
    ensures forall k :: 0 <= k < |Split(s, sep)| ==> Split(s, sep)[k] == []
    decreases |s|
  {
    if s != [] {
      assert IndexOf(s, sep) == 0;
      SplitOfSeparators(s[1..], sep);
      assert Split(s, sep) == [[]] + Split(s[1..], sep);
    }
  }

  /** A non-empty string made only of separators has no piece left once the empty ones are dropped. */
  lemma JavaSplitOfSeparators(s: Str, sep: Byte)
    requires s != [] && forall k :: 0 <= k < |s| ==> s[k] == sep
    ensures JavaSplit(s, sep) == []
  {
    SplitOfSeparators(s, sep);
  }

  /** The number of separators `s` ends with. */
  function TrailingCount(s: Str, sep: Byte): (t: nat)
    ensures t <= |s|
    ensures forall k :: |s| - t <= k < |s| ==> s[k] == sep
    ensures t < |s| ==> s[|s| - 1 - t] != sep
  {
    if |s| == 0 || s[|s| - 1] != sep then 0 else 1 + TrailingCount(s[..|s| - 1], sep)
  }

  lemma TrailingCountAt(s: Str, sep: Byte, t: nat)
    requires t < |s| && s[|s| - 1 - t] != sep
    requires forall k :: |s| - t <= k < |s| ==> s[k] == sep
    ensures TrailingCount(s, sep) == t
  {
  }

  /**
   * `n` is the last run of non-separator bytes of `s` when `t` separators
   * end `s`: `n` comes right before them, and a separator or the start of
   * `s` comes right before `n`.
   */
  predicate LastRunIs(s: Str, n: Str, t: nat, sep: Byte)
  {
    |n| + t <= |s| && s[|s| - t - |n|..|s| - t] == n &&
    (|s| - t - |n| == 0 || s[|s| - t - |n| - 1] == sep)
  }

  /**
   * When `s` holds a byte other than `sep`, the last piece `split` keeps is
   * the last run of non-separator bytes: it is non-empty, only separators
   * follow it, and a separator or the start of `s` precedes it.
   */
  lemma LastPieceOfJavaSplit(s: Str, sep: Byte)
    requires exists k :: 0 <= k < |s| && s[k] != sep
    ensures |JavaSplit(s, sep)| > 0
    ensures var n := JavaSplit(s, sep)[|JavaSplit(s, sep)| - 1];
      n != [] && LastRunIs(s, n, TrailingCount(s, sep), sep)
  {
    assert s != [];
    var all := Split(s, sep);
    var parts := DropTrailingEmpty(all);
    assert JavaSplit(s, sep) == parts;
    var m := |parts|;
    JoinSplit(s, sep);
    if m == 0 {
      JoinOfEmpties(all, sep);
      assert false;
    }
    var n := all[m - 1];
    assert parts[m - 1] == n;
    var pre, b := JoinAroundLastPiece(all, m, sep);
    assert sep !in n;
    assert n[|n| - 1] in n;
    LastRun(s, pre, n, b, sep);
  }

  /** A join seen around its last non-empty piece `m - 1`, after which only empty pieces come. */
  lemma JoinAroundLastPiece(all: seq<Str>, m: nat, sep: Byte) returns (pre: Str, b: Str)
    requires 0 < m <= |all| && forall k :: m <= k < |all| ==> all[k] == []
    ensures Join(all, sep) == pre + all[m - 1] + b
    ensures pre == [] || pre[|pre| - 1] == sep
    ensures forall k :: 0 <= k < |b| ==> b[k] == sep
  {
    var n := all[m - 1];
    var a := Join(all[..m], sep);
    b := if m < |all| then [sep] + Join(all[m..], sep) else [];
    assert Join(all, sep) == a + b by {
      if m < |all| {
        JoinSplitAt(all, m, sep);
      } else {
        assert all[..m] == all;
      }
    }
    forall k | 0 <= k < |b| ensures b[k] == sep {
      if m < |all| && k > 0 {
        JoinOfEmpties(all[m..], sep);
        assert b[k] == Join(all[m..], sep)[k - 1];
      }
    }
    pre := if m == 1 then [] else Join(all[..m - 1], sep) + [sep];
    assert a == pre + n by {
      if m > 1 {
        JoinSplitAt(all[..m], m - 1, sep);
        assert all[..m][..m - 1] == all[..m - 1];
        assert all[..m][m - 1..] == [n];
      } else {
        assert all[..m] == [n];
      }
    }
  }

  /** The run `n` in `pre + n + b`, with `b` all separators, is the last run of `s`. */
  lemma LastRun(s: Str, pre: Str, n: Str, b: Str, sep: Byte)
    requires s == pre + n + b && n != [] && n[|n| - 1] != sep
    requires pre == [] || pre[|pre| - 1] == sep
    requires forall k :: 0 <= k < |b| ==> b[k] == sep
    ensures TrailingCount(s, sep) == |b| && LastRunIs(s, n, |b|, sep)
  {
    TrailingCountAt(s, sep, |b|);
    assert s[|pre|..|pre| + |n|] == n;
  }

  /** Java's "whitespace" for `String.trim`: every character up to and including the space. */
  predicate Blank(x: Byte)
  {
    x <= SPACE
  }

  /** The number of blanks that `trim` removes from the front. */
  function LeadingBlanks(s: Str): (n: nat)
    ensures n <= |s|
    ensures forall k :: 0 <= k < n ==> Blank(s[k])
    ensures n < |s| ==> !Blank(s[n])
  {
    if |s| == 0 || !Blank(s[0]) then 0 else 1 + LeadingBlanks(s[1..])
  }

  /** The number of blanks that `trim` removes from the back. */
  function TrailingBlanks(s: Str): (n: nat)
    ensures n <= |s|
    ensures forall k :: |s| - n <= k < |s| ==> Blank(s[k])
    ensures n < |s| ==> !Blank(s[|s| - 1 - n])
  {
    if |s| == 0 || !Blank(s[|s| - 1]) then 0 else 1 + TrailingBlanks(s[..|s| - 1])
  }

  /**
   * `String.trim()`: the longest slice of `s` that neither starts nor ends
   * with a blank, obtained by cutting blanks from both ends.
   */
  function Trim(s: Str): (r: Str)
    ensures LeadingBlanks(s) + |r| <= |s|
    ensures r == [] || (!Blank(r[0]) && !Blank(r[|r| - 1]))
    ensures s[LeadingBlanks(s)..LeadingBlanks(s) + |r|] == r
    ensures forall k :: 0 <= k < |s| && (k < LeadingBlanks(s) || LeadingBlanks(s) + |r| <= k) ==> Blank(s[k])
  {
    var lead := LeadingBlanks(s);
    var rest := s[lead..];
    var trail := TrailingBlanks(rest);
    var r := rest[..|rest| - trail];
    assert s[lead..lead + |r|] == r;
    assert forall k :: lead + |r| <= k < |s| ==> s[k] == rest[k - lead];
    assert r != [] ==> r[0] == s[lead] && r[|r| - 1] == rest[|rest| - 1 - trail];
    r
  }

  /** Trimming leaves a slice that already has non-blank ends as it is. */
  lemma TrimKeepsNonBlankEnds(s: Str)
    requires s == [] || (!Blank(s[0]) && !Blank(s[|s| - 1]))
    ensures Trim(s) == s
  {
    assert LeadingBlanks(s) == 0;
    assert TrailingBlanks(s[0..]) == 0 by {
      assert s[0..] == s;
    }
  }

  /** A join of non-empty pieces starts with the first piece's first byte and ends with the last piece's last byte. */
  lemma {:induction false} JoinEnds(pieces: seq<Str>, sep: Byte)
    requires |pieces| >= 1 && forall k :: 0 <= k < |pieces| ==> pieces[k] != []
    ensures var j := Join(pieces, sep);
      |j| > 0 && j[0] == pieces[0][0] && j[|j| - 1] == pieces[|pieces| - 1][|pieces[|pieces| - 1]| - 1]
  {
    if |pieces| > 1 {
      var first, rest := pieces[0], pieces[1..];
      assert forall k :: 0 <= k < |rest| ==> rest[k] == pieces[k + 1];
      JoinEnds(rest, sep);
      var tail := Join(rest, sep);
      assert Join(pieces, sep) == first + [sep] + tail;
      assert rest[|rest| - 1] == pieces[|pieces| - 1];
      assert (first + [sep] + tail)[0] == first[0];
      assert (first + [sep] + tail)[|first| + 1 + |tail| - 1] == tail[|tail| - 1];
    }
  }

  /** A NUL-terminated blob: every read inside it meets a terminator. */
  predicate Terminated(b: seq<Byte>)
  {
    |b| > 0 && b[|b| - 1] == NUL
  }

  /** The index of the first NUL at or after `offset`; the terminator guarantees one. */
  function NextNul(b: seq<Byte>, offset: nat): (i: nat)
    requires Terminated(b) && offset < |b|
    ensures offset <= i < |b| && b[i] == NUL
    decreases |b| - offset
  {
    if b[offset] == NUL then offset else NextNul(b, offset + 1)
  }

  lemma {:induction false} NextNulIsFirst(b: seq<Byte>, offset: nat)
    requires Terminated(b) && offset < |b|
    ensures forall k :: offset <= k < NextNul(b, offset) ==> b[k] != NUL
    decreases |b| - offset
  {
    if b[offset] != NUL {
      NextNulIsFirst(b, offset + 1);
    }
  }

  /** A NUL with none before it from `offset` on is the next one. */
  lemma {:induction false} NextNulAt(b: seq<Byte>, offset: nat, i: nat)
    requires Terminated(b) && offset <= i < |b| && b[i] == NUL
    requires forall k :: offset <= k < i ==> b[k] != NUL
    ensures NextNul(b, offset) == i
    decreases i - offset
  {
    if offset < i {
      NextNulAt(b, offset + 1, i);
    }
  }

  /** `getUtf8String(offset)` read as bytes: everything from `offset` up to the next NUL. */
  function CString(b: seq<Byte>, offset: nat): (s: Str)
    requires Terminated(b) && offset < |b|
    ensures offset + |s| < |b| && b[offset + |s|] == NUL
  {
    b[offset..NextNul(b, offset)]
  }

  lemma CStringHasNoNul(b: seq<Byte>, offset: nat)
    requires Terminated(b) && offset < |b|
    ensures NUL !in CString(b, offset)
  {
    NextNulIsFirst(b, offset);
    var s := CString(b, offset);
    forall k | 0 <= k < |s| ensures s[k] != NUL {
      assert s[k] == b[offset + k];
    }
  }

  /** The string read at an offset is any NUL-free run that a NUL follows. */
  lemma CStringAt(b: seq<Byte>, offset: nat, s: Str)
    requires Terminated(b) && offset + |s| < |b|
    requires b[offset..offset + |s|] == s && b[offset + |s|] == NUL && NUL !in s
    ensures CString(b, offset) == s
  {
    forall k | offset <= k < offset + |s| ensures b[k] != NUL {
      assert b[k] == s[k - offset];
    }
    NextNulAt(b, offset, offset + |s|);
  }

  function Zeros(n: nat): (r: seq<Byte>)
    ensures |r| == n && forall k :: 0 <= k < n ==> r[k] == NUL
  {
    seq(n, _ => NUL)
  }
}
