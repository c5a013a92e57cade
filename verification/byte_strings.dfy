/**
 * Byte strings and the few JavaScript `String` operations the core uses:
 * `indexOf`, `split`, `join` and a global `replace` of one byte by another.
 *
 * A byte is written as the character with the same code (0 to 255), so that
 * ASCII text can be written as a string literal. Text beyond ASCII is held
 * as its UTF-8 bytes.
 */
module ByteStrings {
  import opened Wrappers

  type byte = c: char | c as int < 256 witness '\0'
  type Bytes = seq<byte>

  /** JavaScript's `!x` for an optional string: `undefined` or empty. */
  predicate Falsy(x: Option<Bytes>) {
    x.None? || x.value == []
  }

  /** `x || undefined`: a falsy value becomes `undefined`, a truthy one stays. */
  function OrUndefined(x: Option<Bytes>): (r: Option<Bytes>)
    ensures Falsy(x) <==> r.None?
    ensures r.Some? ==> r == x
  {
    if Falsy(x) then None else x
  }

  /** `f` occurs in `s` starting at index `i`. */
  predicate MatchAt(s: Bytes, f: Bytes, i: nat) {
    i + |f| <= |s| && s[i..i + |f|] == f
  }

  /** `f` is a substring of `s`. */
  predicate Contains(s: Bytes, f: Bytes) {
    exists i: nat | i <= |s| :: MatchAt(s, f, i)
  }

  /** `s` begins with `p` (JavaScript `startsWith`). */
  predicate StartsWith(s: Bytes, p: Bytes) {
    |p| <= |s| && s[..|p|] == p
  }

  /** The first index at or after `i` where `f` occurs in `s`, or -1. */
  function IndexOfFrom(s: Bytes, f: Bytes, i: nat): (r: int)
    ensures r == -1 || (i <= r && MatchAt(s, f, r))
    ensures r == -1 <==> forall j: nat :: i <= j ==> !MatchAt(s, f, j)
    ensures r != -1 ==> forall j: nat :: i <= j < r ==> !MatchAt(s, f, j)
    decreases |s| - i
  {
    if i + |f| > |s| then -1
    else if s[i..i + |f|] == f then i
    else IndexOfFrom(s, f, i + 1)
  }

  /** JavaScript `s.indexOf(f)`: the first index where `f` occurs, or -1. */
  function IndexOf(s: Bytes, f: Bytes): (r: int)
    ensures r == -1 <==> !Contains(s, f)
    ensures r != -1 ==> 0 <= r && MatchAt(s, f, r) && forall j: nat :: j < r ==> !MatchAt(s, f, j)
  {
    IndexOfFrom(s, f, 0)
  }

  /** A witness for `Contains`: `f` occurs in any `a + f + b`. */
  lemma ContainsInMiddle(a: Bytes, f: Bytes, b: Bytes)
    ensures Contains(a + f + b, f)
  {
    assert (a + f + b)[|a|..|a| + |f|] == f;
    assert MatchAt(a + f + b, f, |a|);
  }

  /** A string no longer than `f` holds `f` only by being `f`. */
  lemma ContainsShort(s: Bytes, f: Bytes)
    requires |s| <= |f|
    ensures Contains(s, f) <==> s == f
  {
    if s == f {
      assert MatchAt(s, f, 0);
    }
  }

  /** An occurrence of `f` at `i` agrees with `f` byte by byte. */
  lemma MatchAtByte(s: Bytes, f: Bytes, i: nat, j: int)
    requires MatchAt(s, f, i) && 0 <= j < |f|
    ensures s[i + j] == f[j]
  {
    assert s[i..i + |f|][j] == s[i + j];
  }

  /** A string that lacks some byte of `f` does not hold `f`. */
  lemma NotContainsMissingByte(s: Bytes, f: Bytes, k: int)
    requires 0 <= k < |f| && f[k] !in s
    ensures !Contains(s, f)
  {
  }

  /**
   * A byte that does not occur in `f` cuts the search in two: an occurrence
   * of `f` lies wholly before it or wholly after it.
   */
  lemma ContainsAroundForeignByte(a: Bytes, c: byte, b: Bytes, f: Bytes)
    requires c !in f
    ensures Contains(a + [c] + b, f) ==> Contains(a, f) || Contains(b, f)
  {
    var s := a + [c] + b;
    if Contains(s, f) {
      var i: nat :| i <= |s| && MatchAt(s, f, i);
      if i + |f| <= |a| {
        assert a[i..i + |f|] == s[i..i + |f|];
        assert MatchAt(a, f, i);
      } else if i > |a| {
        var j := i - |a| - 1;
        assert b[j..j + |f|] == s[i..i + |f|];
        assert MatchAt(b, f, j);
      } else {
        MatchAtByte(s, f, i, |a| - i);
        assert false;
      }
    }
  }

  /** JavaScript `s.replace(/x/g, y)` for a single byte `x`. */
  function ReplaceAll(s: Bytes, x: byte, y: byte): (r: Bytes)
    ensures |r| == |s|
    ensures forall i :: 0 <= i < |s| ==> r[i] == if s[i] == x then y else s[i]
  {
    if |s| == 0 then []
    else ReplaceAll(s[..|s| - 1], x, y) + [if s[|s| - 1] == x then y else s[|s| - 1]]
  }

  /**
   * JavaScript `s.split(sep)`: the maximal runs of bytes between separators.
   * There is always at least one part, and there is one more part than there
   * are separators.
   */
  function Split(s: Bytes, sep: byte): (parts: seq<Bytes>)
    ensures |parts| >= 1
    ensures forall k, j :: 0 <= k < |parts| && 0 <= j < |parts[k]| ==> parts[k][j] != sep
  {
    if |s| == 0 then [[]]
    else
      var init := Split(s[..|s| - 1], sep);
      var last := s[|s| - 1];
      if last == sep then init + [[]]
      else init[..|init| - 1] + [init[|init| - 1] + [last]]
  }

  /** JavaScript `parts.join(sep)`; an empty array joins to the empty string. */
  function Join(parts: seq<Bytes>, sep: byte): Bytes {
    if |parts| == 0 then []
    else if |parts| == 1 then parts[0]
    else Join(parts[..|parts| - 1], sep) + [sep] + parts[|parts| - 1]
  }

  /** Appending to the last part appends to the joined string. */
  lemma JoinExtendLast(parts: seq<Bytes>, sep: byte, x: Bytes)
    requires |parts| >= 1
    ensures Join(parts[..|parts| - 1] + [parts[|parts| - 1] + x], sep) == Join(parts, sep) + x
  {
    var n := |parts|;
    var q := parts[..n - 1] + [parts[n - 1] + x];
    if n > 1 {
      assert q[..n - 1] == parts[..n - 1];
    }
  }

  /** Adding an empty last part appends one separator. */
  lemma JoinAppendEmpty(parts: seq<Bytes>, sep: byte)
    requires |parts| >= 1
    ensures Join(parts + [[]], sep) == Join(parts, sep) + [sep]
  {
    assert (parts + [[]])[..|parts|] == parts;
  }

  /**
   * `s.split(x).join(y)` is `s.replace(/x/g, y)`: splitting on a byte and
   * joining with another replaces every occurrence of the first by the second.
   */
  lemma {:induction false} SplitJoinIsReplaceAll(s: Bytes, x: byte, y: byte)
    ensures Join(Split(s, x), y) == ReplaceAll(s, x, y)
    decreases |s|
  {
    if |s| > 0 {
      var init := s[..|s| - 1];
      var last := s[|s| - 1];
      var parts := Split(init, x);
      SplitJoinIsReplaceAll(init, x, y);
      if last == x {
        JoinAppendEmpty(parts, y);
      } else {
        JoinExtendLast(parts, y, [last]);
      }
    }
  }

  /** Replacing a byte by itself changes nothing. */
  lemma ReplaceAllSame(s: Bytes, x: byte)
    ensures ReplaceAll(s, x, x) == s
  {
  }

  /** Splitting and re-joining with the same separator gives back the string. */
  lemma JoinSplit(s: Bytes, sep: byte)
    ensures Join(Split(s, sep), sep) == s
  {
    SplitJoinIsReplaceAll(s, sep, sep);
    ReplaceAllSame(s, sep);
  }
}
