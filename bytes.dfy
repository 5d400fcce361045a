/** Byte strings as the agent handles them: Python `bytes` values read from serial ports and files. */
module Bytes {

  type byte = b: int | 0 <= b < 256

  /** `pattern` occurs in `s` starting at index `i`. */
  predicate OccursAt(s: seq<byte>, pattern: seq<byte>, i: int) {
    0 <= i && i + |pattern| <= |s| && s[i..i + |pattern|] == pattern
  }

  /** `pattern[k..]` agrees with `s` from index `i + k` on: the byte-by-byte comparison of `find`. */
  predicate MatchesFrom(s: seq<byte>, pattern: seq<byte>, i: nat, k: nat)
    decreases |pattern| - k
  {
    k >= |pattern| || (i + k < |s| && s[i + k] == pattern[k] && MatchesFrom(s, pattern, i, k + 1))
  }

  lemma {:induction false} MatchesFromIff(s: seq<byte>, pattern: seq<byte>, i: nat, k: nat)
    requires k <= |pattern| && i + |pattern| <= |s|
    ensures MatchesFrom(s, pattern, i, k) <==> forall j :: k <= j < |pattern| ==> s[i + j] == pattern[j]
    decreases |pattern| - k
  {
    if k < |pattern| {
      MatchesFromIff(s, pattern, i, k + 1);
    }
  }

  /** The byte-by-byte comparison is the slice comparison. */
  lemma MatchesOccurs(s: seq<byte>, pattern: seq<byte>, i: nat)
    requires i + |pattern| <= |s|
    ensures MatchesFrom(s, pattern, i, 0) <==> OccursAt(s, pattern, i)
  {
    MatchesFromIff(s, pattern, i, 0);
    if MatchesFrom(s, pattern, i, 0) {
      assert s[i..i + |pattern|] == pattern;
    }
  }

  /** Python `s.find(pattern, start)`: the first index at or after `start` where `pattern` occurs, or -1. */
  function IndexOf(s: seq<byte>, pattern: seq<byte>, start: nat): (r: int)
    ensures r == -1 || (start <= r && r + |pattern| <= |s|)
    decreases |s| - start
  {
    if start + |pattern| > |s| then -1
    else if MatchesFrom(s, pattern, start, 0) then start
    else IndexOf(s, pattern, start + 1)
  }

  /** `IndexOf` finds the first occurrence at or after `start`, and -1 means there is none. */
  lemma {:induction false} IndexOfFirst(s: seq<byte>, pattern: seq<byte>, start: nat)
    ensures IndexOf(s, pattern, start) != -1 ==> OccursAt(s, pattern, IndexOf(s, pattern, start))
    ensures IndexOf(s, pattern, start) != -1 ==> forall i :: start <= i < IndexOf(s, pattern, start) ==> !OccursAt(s, pattern, i)
    ensures IndexOf(s, pattern, start) == -1 ==> forall i :: start <= i ==> !OccursAt(s, pattern, i)
    decreases |s| - start
  {
    if start + |pattern| <= |s| {
      MatchesOccurs(s, pattern, start);
      if !MatchesFrom(s, pattern, start, 0) {
        IndexOfFirst(s, pattern, start + 1);
      }
    }
  }

  /** Python `pattern in s`. */
  predicate Contains(s: seq<byte>, pattern: seq<byte>) {
    IndexOf(s, pattern, 0) != -1
  }

  lemma ContainsIff(s: seq<byte>, pattern: seq<byte>)
    ensures Contains(s, pattern) <==> exists i :: OccursAt(s, pattern, i)
  {
    IndexOfFirst(s, pattern, 0);
    if exists i :: OccursAt(s, pattern, i) {
      var i :| OccursAt(s, pattern, i);
      assert 0 <= i;
    }
  }

  /** Python `s.find(bytes([b]), start)` for a one-byte needle. */
  function FindByte(s: seq<byte>, b: byte, start: nat): (r: int)
    ensures r == -1 || (start <= r < |s| && s[r] == b)
    decreases |s| - start
  {
    if start >= |s| then -1
    else if s[start] == b then start
    else FindByte(s, b, start + 1)
  }

  /** `FindByte` finds the first occurrence at or after `start`, and -1 means there is none. */
  lemma {:induction false} FindByteFirst(s: seq<byte>, b: byte, start: nat)
    ensures FindByte(s, b, start) != -1 ==> forall i :: start <= i < FindByte(s, b, start) ==> s[i] != b
    ensures FindByte(s, b, start) == -1 ==> forall i :: start <= i < |s| ==> s[i] != b
    decreases |s| - start
  {
    if start < |s| && s[start] != b {
      FindByteFirst(s, b, start + 1);
    }
  }

  /** The converse: an occurrence with none before it is what `FindByte` returns. */
  lemma FindByteAt(s: seq<byte>, b: byte, start: nat, r: nat)
    requires start <= r < |s| && s[r] == b
    requires forall i :: start <= i < r ==> s[i] != b
    ensures FindByte(s, b, start) == r
  {
    FindByteFirst(s, b, start);
  }

  /** The converse for -1: no occurrence at all from `start` on. */
  lemma FindByteNone(s: seq<byte>, b: byte, start: nat)
    requires forall i :: start <= i < |s| ==> s[i] != b
    ensures FindByte(s, b, start) == -1
  {
    FindByteFirst(s, b, start);
  }

  /** Python `s.replace(pattern, b'', 1)`: cut out the first occurrence of `pattern`, if there is one. */
  function RemoveFirst(s: seq<byte>, pattern: seq<byte>): (r: seq<byte>)
    ensures !Contains(s, pattern) ==> r == s
    ensures Contains(s, pattern) ==> |r| == |s| - |pattern|
  {
    var i := IndexOf(s, pattern, 0);
    if i == -1 then s else s[..i] + s[i + |pattern|..]
  }

  /** Cutting `n` bytes at `i` moves every byte after the cut down by `n`. */
  lemma CutIndex(s: seq<byte>, i: nat, n: nat, x: nat)
    requires i + n <= x < |s|
    ensures (s[..i] + s[i + n..])[x - n] == s[x]
  {
  }

  /** The first occurrence of `pattern` is no later than any occurrence. */
  lemma FirstOccurrence(s: seq<byte>, pattern: seq<byte>, p: int)
    requires OccursAt(s, pattern, p)
    ensures 0 <= IndexOf(s, pattern, 0) <= p
  {
    IndexOfFirst(s, pattern, 0);
  }

  /** One differing byte rules an occurrence out. */
  lemma NotOccursAt(s: seq<byte>, pattern: seq<byte>, i: nat, k: nat)
    requires k < |pattern| && (i + |pattern| > |s| || s[i + k] != pattern[k])
    ensures !OccursAt(s, pattern, i)
  {
    if i + |pattern| <= |s| {
      assert s[i..i + |pattern|][k] == s[i + k];
    }
  }

  /** Cutting out an occurrence with none before it. */
  lemma RemoveFirstAt(s: seq<byte>, pattern: seq<byte>, i: nat)
    requires OccursAt(s, pattern, i)
    requires forall j :: 0 <= j < i ==> !OccursAt(s, pattern, j)
    ensures RemoveFirst(s, pattern) == s[..i] + s[i + |pattern|..]
  {
    IndexOfFirst(s, pattern, 0);
  }

  /** When `pattern` occurs at `p`, the cut happens no later than `p`, so every byte from `p + |pattern|`
      on moves down by exactly `|pattern|`. */
  lemma RemoveFirstShifts(s: seq<byte>, pattern: seq<byte>, p: int)
    requires OccursAt(s, pattern, p)
    ensures Contains(s, pattern)
    ensures IndexOf(s, pattern, 0) <= p
    ensures forall x :: p + |pattern| <= x < |s| ==> RemoveFirst(s, pattern)[x - |pattern|] == s[x]
  {
    FirstOccurrence(s, pattern, p);
    var i := IndexOf(s, pattern, 0);
    var r := RemoveFirst(s, pattern);
    assert r == s[..i] + s[i + |pattern|..];
    forall x | p + |pattern| <= x < |s|
      ensures r[x - |pattern|] == s[x]
    {
      CutIndex(s, i, |pattern|, x);
    }
  }

  /** The text a byte string decodes to. ASCII bytes decode to the same character; any other byte
      becomes the replacement character U+FFFD. */
  function Decode(b: seq<byte>): (r: string)
    ensures |r| == |b|
    ensures forall i :: 0 <= i < |b| && b[i] < 128 ==> r[i] as int == b[i]
    ensures forall i :: 0 <= i < |b| && b[i] >= 128 ==> r[i] == '\U{FFFD}'
  {
    seq(|b|, i requires 0 <= i < |b| => if b[i] < 128 then b[i] as char else '\U{FFFD}')
  }

  predicate IsAscii(s: string) {
    forall i :: 0 <= i < |s| ==> s[i] as int < 128
  }

  /** The bytes of an ASCII literal, as Python's `b'...'`. */
  function Ascii(s: string): (r: seq<byte>)
    requires IsAscii(s)
    ensures |r| == |s| && Decode(r) == s
  {
    seq(|s|, i requires 0 <= i < |s| => s[i] as int)
  }
}
