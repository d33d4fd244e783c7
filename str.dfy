/** The growable string buffer of str.c: a heap block of `size` chars holding
    `length` characters followed by a NUL terminator.  Sizes are the least
    16 * 2^k that fits. */
module Str {

  const Nul: char := '\0'

  /** MINSIZE: the smallest block ever allocated. */
  const MinSize: nat := 16

  /** A C string's characters: none of them is the terminator. */
  predicate NoNul(s: seq<char>)
  {
    forall i :: 0 <= i < |s| ==> s[i] != Nul
  }

  /** A concatenation has no terminator when neither part has one. */
  lemma NoNulConcat(a: seq<char>, b: seq<char>)
    requires NoNul(a) && NoNul(b)
    ensures NoNul(a + b)
  {
  }

  function Pow2(k: nat): (p: nat)
    ensures p >= 1
  {
    if k == 0 then 1 else 2 * Pow2(k - 1)
  }

  /** Powers of two grow: a larger exponent gives at least twice as much. */
  lemma {:induction false} Pow2Grows(k: nat, j: nat)
    requires k < j
    ensures 2 * Pow2(k) <= Pow2(j)
    decreases j
  {
    if j > k + 1 {
      Pow2Grows(k, j - 1);
    }
  }

  /** Doubling res until it reaches sz. */
  function RoundFrom(sz: nat, res: nat): (r: nat)
    requires res >= 1
    ensures r >= res && r >= sz
    decreases sz - res
  {
    if res >= sz then res else RoundFrom(sz, 2 * res)
  }

  /** The block size str_sz_round gives for sz bytes. */
  function RoundSize(sz: nat): nat
  {
    RoundFrom(sz, MinSize)
  }

  lemma {:induction false} RoundFromLeast(sz: nat, k: nat)
    ensures exists k' :: k' >= k && RoundFrom(sz, MinSize * Pow2(k)) == MinSize * Pow2(k')
    ensures forall j :: j >= k && sz <= MinSize * Pow2(j) ==> RoundFrom(sz, MinSize * Pow2(k)) <= MinSize * Pow2(j)
    decreases sz - MinSize * Pow2(k)
  {
    var res := MinSize * Pow2(k);
    if res < sz {
      assert 2 * res == MinSize * Pow2(k + 1);
      RoundFromLeast(sz, k + 1);
    }
    forall j | j > k
      ensures res <= MinSize * Pow2(j)
    {
      Pow2Grows(k, j);
    }
  }

  /** str_sz_round gives 16 * 2^k for some k, at least sz, and no smaller
      block of that form fits sz. */
  lemma RoundSizeLeast(sz: nat)
    ensures RoundSize(sz) >= sz && RoundSize(sz) >= MinSize
    ensures exists k :: RoundSize(sz) == MinSize * Pow2(k)
    ensures forall j :: sz <= MinSize * Pow2(j) ==> RoundSize(sz) <= MinSize * Pow2(j)
  {
    assert MinSize * Pow2(0) == MinSize;
    RoundFromLeast(sz, 0);
  }

  /** str_sz_round: the doubling loop from MINSIZE.  (The source asserts the
      doubling does not overflow; sizes here are unbounded.) */
  method SzRound(sz: nat) returns (res: nat)
    ensures res == RoundSize(sz)
  {
    res := MinSize;
    while res < sz
      invariant res >= 1 && RoundFrom(sz, res) == RoundSize(sz)
      decreases sz - res
    {
      res := res * 2;
    }
  }

  /** The block size after str_size_check(s, reqlen) on a block of `size`. */
  function SizeAfterCheck(size: nat, reqlen: nat): (r: nat)
    ensures r > reqlen
  {
    if reqlen + 1 < size then size else RoundSize(reqlen + 1)
  }

  /** The index of the last c in s (strrchr), or -1. */
  function LastIndex(s: seq<char>, c: char): (i: int)
    ensures -1 <= i < |s|
    ensures i >= 0 ==> s[i] == c && forall j :: i < j < |s| ==> s[j] != c
    ensures i < 0 ==> forall j :: 0 <= j < |s| ==> s[j] != c
  {
    if s == [] then -1
    else if s[|s| - 1] == c then |s| - 1
    else LastIndex(s[..|s| - 1], c)
  }

  /** What str_get_basename keeps: the part after the last separator, or
      the whole string when there is none. */
  function BasenameOf(s: seq<char>, sep: char): seq<char>
  {
    var i := LastIndex(s, sep);
    if i < 0 then s else s[i + 1..]
  }

  /** What str_dirname keeps: the part before the last separator, or the
      whole string when there is none. */
  function DirnameOf(s: seq<char>, sep: char): seq<char>
  {
    var i := LastIndex(s, sep);
    if i < 0 then s else s[..i]
  }

  /** A path with a separator is its directory, the last separator and its
      base name, and the base name holds no separator; a path without one is
      its own directory and base name. */
  lemma DirnameBasename(s: seq<char>, sep: char)
    ensures sep in s ==> DirnameOf(s, sep) + [sep] + BasenameOf(s, sep) == s && sep !in BasenameOf(s, sep)
    ensures sep !in s ==> DirnameOf(s, sep) == s && BasenameOf(s, sep) == s
  {
    var i := LastIndex(s, sep);
    if sep in s {
      assert i >= 0;
      assert s[..i] + [sep] + s[i + 1..] == s;
    }
  }

  /** struct str: the block `heap` of `size` chars; the first `length` are
      the characters and the next is the terminator. */
  class StrBuf {
    var heap: array<char>
    var size: nat
    var length: nat

    ghost predicate Valid()
      reads this, heap
    {
      heap.Length == size && length < size && heap[length] == Nul && NoNul(heap[..length])
    }

    /** The characters of the string. */
    function Contents(): (s: seq<char>)
      reads this, heap
      requires Valid()
      ensures |s| == length && NoNul(s)
    {
      heap[..length]
    }

    /** str_init: an empty string in a block that holds max(len, 0)
        characters and the terminator. */
    constructor Init(len: int)
      ensures Valid() && Contents() == [] && fresh(heap)
      ensures size == RoundSize((if len < 0 then 0 else len) + 1)
      ensures size >= (if len < 0 then 0 else len) + 1
    {
      var n := if len < 0 then 0 else len;
      var sz := SzRound(n + 1);
      RoundSizeLeast(n + 1);
      size := sz;
      heap := new char[sz];
      length := 0;
      new;
      heap[0] := Nul;
    }

    /** str_size_check: when the block cannot hold reqlen characters and the
        terminator with room to spare, a block of the rounded size replaces
        it and the string is copied over; the string never changes. */
    method SizeCheck(reqlen: nat)
      requires Valid()
      modifies this
      ensures Valid() && Contents() == old(Contents())
      ensures size == SizeAfterCheck(old(size), reqlen) && size > reqlen
      ensures heap == old(heap) || fresh(heap)
    {
      if reqlen + 1 < size {
        return;
      }
      var oldHeap := heap;
      var sz := SzRound(reqlen + 1);
      var h := new char[sz];
      forall i | 0 <= i <= length {
        h[i] := oldHeap[i];
      }
      heap, size := h, sz;
      assert heap[..length] == oldHeap[..length];
    }

    /** str_copy_c: the string becomes s. */
    method CopyC(s: seq<char>)
      requires Valid() && NoNul(s)
      modifies this, heap
      ensures Valid() && Contents() == s
      ensures size == SizeAfterCheck(old(size), |s|)
    {
      SizeCheck(|s|);
      forall i | 0 <= i < |s| {
        heap[i] := s[i];
      }
      heap[|s|] := Nul;
      length := |s|;
      assert heap[..length] == s;
    }

    /** str_copy: the string becomes the other string's characters. */
    method Copy(s: StrBuf)
      requires Valid() && s.Valid()
      modifies this, heap
      ensures Valid() && Contents() == old(s.Contents())
      ensures size == SizeAfterCheck(old(size), old(s.length))
    {
      var src := s.Contents();
      CopyC(src);
    }

    /** str_copy_c_substr: the string becomes the first max(len, 0)
        characters of s. */
    method CopyCSubstr(s: seq<char>, len: int)
      requires Valid() && len <= |s| && NoNul(s[..if len < 0 then 0 else len])
      modifies this, heap
      ensures Valid() && Contents() == s[..if len < 0 then 0 else len]
      ensures size == SizeAfterCheck(old(size), if len < 0 then 0 else len)
    {
      var n := if len >= 0 then len else 0;
      SizeCheck(n);
      forall i | 0 <= i < n {
        heap[i] := s[i];
      }
      heap[n] := Nul;
      length := n;
      assert heap[..length] == s[..n];
    }

    /** str_append_c: `from` goes after the string, preceded by sep unless
        sep is NUL. */
    method AppendC(from: seq<char>, sep: char)
      requires Valid() && NoNul(from)
      modifies this, heap
      ensures Valid() && Contents() == old(Contents()) + (if sep == Nul then [] else [sep]) + from
      ensures size == SizeAfterCheck(old(size), old(length) + |from| + (if sep == Nul then 0 else 1))
    {
      ghost var before := Contents();
      var newlen := length + |from| + (if sep == Nul then 0 else 1);
      var idx := length;
      SizeCheck(newlen);
      if sep != Nul {
        heap[idx] := sep;
        idx := idx + 1;
      }
      assert heap[..idx] == before + (if sep == Nul then [] else [sep]);
      WriteTerminated(heap, idx, from);
      length := newlen;
      assert heap[..length + 1] == before + (if sep == Nul then [] else [sep]) + from + [Nul];
      assert heap[..length] == heap[..length + 1][..length];
      assert heap[length] == Nul;
      NoNulConcat(before, (if sep == Nul then [] else [sep]) + from);
    }

    /** str_trunc: a len that is negative or not below the length changes
        nothing; otherwise the string keeps its first len characters. */
    method Trunc(len: int)
      requires Valid()
      modifies this`length, heap
      ensures Valid() && size == old(size) && heap == old(heap)
      ensures Contents() == if len < 0 || len >= old(length) then old(Contents()) else old(Contents())[..len]
    {
      if len < 0 || len >= length {
        return;
      }
      heap[len] := Nul;
      length := len;
    }

    /** str_get_basename: the string becomes the part of `from` after its
        last separator, or all of `from` when it has none.  A NUL separator
        would make strrchr find the terminator, and is not allowed. */
    method GetBasename(from: StrBuf, dirsep: char)
      requires Valid() && from.Valid() && dirsep != Nul
      modifies this, heap
      ensures Valid() && Contents() == BasenameOf(old(from.Contents()), dirsep)
    {
      var s := from.Contents();
      var i := LastIndex(s, dirsep);
      if i < 0 {
        CopyC(s);
      } else {
        CopyC(s[i + 1..]);
      }
    }

    /** str_dirname: the string becomes the part of `from` before its last
        separator, or all of `from` when it has none. */
    method Dirname(from: StrBuf, dirsep: char)
      requires Valid() && from.Valid() && dirsep != Nul
      modifies this, heap
      ensures Valid() && Contents() == DirnameOf(old(from.Contents()), dirsep)
    {
      var s := from.Contents();
      var i := LastIndex(s, dirsep);
      if i < 0 {
        CopyC(s);
      } else {
        CopyCSubstr(s, i);
      }
    }

    /** str_pad with the capacity it needs: when len exceeds the length, the
        string is shifted right and the front filled with sep up to exactly
        len characters; otherwise nothing changes. */
    method Pad(len: int, sep: char)
      requires Valid() && sep != Nul
      modifies this, heap
      ensures Valid()
      ensures Contents() == (if len > old(length) then seq(len - old(length), _ => sep) else []) + old(Contents())
      ensures len <= old(length) ==> size == old(size)
      ensures len > old(length) ==> size == SizeAfterCheck(old(size), len) && size > len
    {
      var diff := len - length;
      if diff <= 0 {
        return;
      }
      ghost var before := Contents();
      SizeCheck(len);
      ShiftFill(heap, length, diff, sep);
      length := length + diff;
      assert heap[..length] == seq(diff, _ => sep) + before;
    }
  }

  /** Writes s and a terminator at index `at` of the block. */
  method WriteTerminated(a: array<char>, at: nat, s: seq<char>)
    requires at + |s| < a.Length
    modifies a
    ensures a[..at + |s| + 1] == old(a[..at]) + s + [Nul]
    ensures a[at + |s| + 1..] == old(a[at + |s| + 1..])
  {
    forall i | 0 <= i < |s| {
      a[at + i] := s[i];
    }
    a[at + |s|] := Nul;
    assert a[..at + |s| + 1] == old(a[..at]) + s + [Nul];
  }

  /** The memmove and fill of str_pad on the block: the n characters and the
      terminator move diff places right and the first diff places take sep. */
  method ShiftFill(a: array<char>, n: nat, diff: nat, sep: char)
    requires n + diff < a.Length
    modifies a
    ensures a[..n + diff + 1] == seq(diff, _ => sep) + old(a[..n + 1])
    ensures a[n + diff + 1..] == old(a[n + diff + 1..])
  {
    var saved := a[..n + 1];
    forall i | 0 <= i <= n {
      a[i + diff] := saved[i];
    }
    forall i | 0 <= i < diff {
      a[i] := sep;
    }
    assert a[..n + diff + 1] == seq(diff, _ => sep) + saved;
  }

  /** The block size str_pad as written asks for: str_size_check(s, len - 1),
      room for len characters and no terminator. */
  function PadSizeAsWritten(size: nat, len: nat): nat
    requires len >= 1
  {
    SizeAfterCheck(size, len - 1)
  }

  /** As written, str_pad's memmove writes index len, one past the block,
      exactly when the block must grow and len is 16 * 2^k. */
  lemma PadAsWrittenOverruns(size: nat, len: nat)
    requires 1 <= size <= len
    ensures PadSizeAsWritten(size, len) <= len <==> exists k :: len == MinSize * Pow2(k)
  {
    RoundSizeLeast(len);
    if exists k :: len == MinSize * Pow2(k) {
      var k :| len == MinSize * Pow2(k);
      assert RoundSize(len) <= MinSize * Pow2(k);
    }
  }

  /** The smallest case: a 15-character string in a 16-byte block padded to
      16 characters keeps a 16-byte block and writes its byte 16. */
  lemma PadAsWrittenExample()
    ensures PadSizeAsWritten(16, 16) == 16
  {
  }
}
