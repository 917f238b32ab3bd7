/**
 * NUL-terminated character buffers as the C code sees them: `strlen`
 * (the characters before the first NUL) and `strstr` (first occurrence).
 * A `char` here stands for one byte of the buffer.
 */
module CStrings {
  import opened Wrappers

  const NUL: char := '\0'

  /** The C string held by a buffer: everything before the first NUL, or the
      whole buffer when it holds no NUL (then `strlen` would read past it). */
  function CString(buf: seq<char>): (r: seq<char>)
    ensures |r| <= |buf|
    ensures NUL !in r
    ensures NUL in buf ==> |r| < |buf|
  {
    if buf == [] || buf[0] == NUL then []
    else
      assert NUL in buf ==> NUL in buf[1..];
      [buf[0]] + CString(buf[1..])
  }

  /** The string is a prefix of its buffer, ended by a NUL when shorter than the buffer. */
  lemma {:induction false} CStringPrefix(buf: seq<char>)
    ensures CString(buf) == buf[..|CString(buf)|]
    ensures |CString(buf)| < |buf| ==> buf[|CString(buf)|] == NUL
  {
    if buf != [] && buf[0] != NUL {
      CStringPrefix(buf[1..]);
    }
  }

  /** Text without a NUL is its own C string. */
  lemma CStringOfNulFree(text: seq<char>)
    requires NUL !in text
    ensures CString(text) == text
  {
    CStringPrefix(text);
  }

  /** A buffer is a valid C string when its allocation holds a terminator. */
  predicate Terminated(buf: seq<char>) {
    NUL in buf
  }

  /** The terminator of a NUL-free text, whatever follows it, ends the string. */
  lemma {:induction false} CStringOfTerminated(text: seq<char>, rest: seq<char>)
    requires NUL !in text
    ensures CString(text + [NUL] + rest) == text
  {
    if text != [] {
      assert (text + [NUL] + rest)[1..] == text[1..] + [NUL] + rest;
      CStringOfTerminated(text[1..], rest);
    }
  }

  /** The string ends at the first NUL: text that follows a terminated buffer is never read. */
  lemma {:induction false} CStringConcat(a: seq<char>, b: seq<char>)
    ensures CString(a + b) == if NUL in a then CString(a) else a + CString(b)
  {
    if a != [] && a[0] != NUL {
      assert (a + b)[1..] == a[1..] + b;
      assert a == [a[0]] + a[1..];
      assert (NUL in a) == (NUL in a[1..]);
      CStringConcat(a[1..], b);
    } else if a == [] {
      assert a + b == b;
    } else {
      assert (a + b)[0] == NUL;
    }
  }

  /** `needle` occurs in `hay` starting at index `i`. */
  predicate OccursAt(hay: seq<char>, needle: seq<char>, i: nat) {
    i + |needle| <= |hay| && hay[i..i + |needle|] == needle
  }

  /** `strstr`: the index of the first occurrence of `needle` in `hay`
      (that it is the first, and that `None` means none, is `FindFirst`). */
  function Find(hay: seq<char>, needle: seq<char>): (r: Option<nat>)
    ensures r.Some? ==> OccursAt(hay, needle, r.value)
  {
    FindFrom(hay, needle, 0)
  }

  /** `Find` reports the first occurrence, and `None` only when there is none. */
  lemma FindFirst(hay: seq<char>, needle: seq<char>)
    ensures Find(hay, needle).Some? ==> forall j :: 0 <= j < Find(hay, needle).value ==> !OccursAt(hay, needle, j)
    ensures Find(hay, needle).None? ==> forall j :: 0 <= j <= |hay| ==> !OccursAt(hay, needle, j)
  {
  }

  /** Two first occurrences are the same occurrence. */
  lemma FindIsFirst(hay: seq<char>, needle: seq<char>, i: nat)
    requires OccursAt(hay, needle, i) && forall j :: 0 <= j < i ==> !OccursAt(hay, needle, j)
    ensures Find(hay, needle) == Some(i)
  {
    FindFirst(hay, needle);
  }

  function FindFrom(hay: seq<char>, needle: seq<char>, from: nat): (r: Option<nat>)
    requires forall j :: 0 <= j < from ==> !OccursAt(hay, needle, j)
    ensures r.Some? ==> from <= r.value && OccursAt(hay, needle, r.value)
    ensures r.Some? ==> forall j :: 0 <= j < r.value ==> !OccursAt(hay, needle, j)
    ensures r.None? ==> forall j :: 0 <= j <= |hay| ==> !OccursAt(hay, needle, j)
    decreases |hay| - from
  {
    if from + |needle| > |hay| then None
    else if hay[from..from + |needle|] == needle then Some(from)
    else FindFrom(hay, needle, from + 1)
  }

  /** `memcpy(dst + at, src, |src|)` on a buffer value. */
  function Overwrite(dst: seq<char>, at: nat, src: seq<char>): (r: seq<char>)
    requires at + |src| <= |dst|
    ensures |r| == |dst|
  {
    dst[..at] + src + dst[at + |src|..]
  }

  /** Byte by byte: `src` at `at`, the old bytes everywhere else. */
  lemma OverwriteAt(dst: seq<char>, at: nat, src: seq<char>)
    requires at + |src| <= |dst|
    ensures forall i :: 0 <= i < |dst| ==> Overwrite(dst, at, src)[i] == if at <= i < at + |src| then src[i - at] else dst[i]
  {
  }

  /** `memcpy(dst + at, src, |src|)`; `src` is read before any byte is written,
      so a source taken from `dst` itself gives `memmove`. */
  method CopyInto(dst: array<char>, at: nat, src: seq<char>)
    requires at + |src| <= dst.Length
    modifies dst
    ensures dst[..] == Overwrite(old(dst[..]), at, src)
  {
    var i := 0;
    while i < |src|
      invariant 0 <= i <= |src|
      invariant forall k :: 0 <= k < dst.Length ==> dst[k] == if at <= k < at + i then src[k - at] else old(dst[k])
    {
      dst[at + i] := src[i];
      i := i + 1;
    }
    OverwriteAt(old(dst[..]), at, src);
    assert forall k :: 0 <= k < dst.Length ==> dst[..][k] == Overwrite(old(dst[..]), at, src)[k];
  }

  /** A NUL-free text written with its terminator at the start of a buffer is the buffer's string. */
  lemma WrittenString(buf: seq<char>, text: seq<char>)
    requires NUL !in text && |text| < |buf|
    ensures Terminated(Overwrite(buf, 0, text + [NUL]))
    ensures CString(Overwrite(buf, 0, text + [NUL])) == text
  {
    var w := Overwrite(buf, 0, text + [NUL]);
    assert w == text + [NUL] + buf[|text| + 1..];
    assert w[|text|] == NUL;
    CStringOfTerminated(text, buf[|text| + 1..]);
  }

  /** `strcpy(dst, src)`: the string of `src` and its terminator, copied to the start of `dst`. */
  method StrCpy(dst: array<char>, src: array<char>)
    requires Terminated(src[..]) && |CString(src[..])| < dst.Length
    modifies dst
    ensures dst[..] == Overwrite(old(dst[..]), 0, CString(old(src[..])) + [NUL])
    ensures Terminated(dst[..]) && CString(dst[..]) == CString(old(src[..]))
  {
    var s := CString(src[..]);
    CopyInto(dst, 0, s + [NUL]);
    WrittenString(old(dst[..]), s);
  }
}
