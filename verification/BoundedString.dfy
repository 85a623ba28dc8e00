/** `sl_strcpy_s`, `sl_strcat_s`, `sl_strlen` and `sl_strnlen`: C strings in buffers of a stated size. */
module BoundedString {

  const NUL: char := '\0'

  /** A `const char *` argument: null, or the characters before the terminator. */
  datatype CString = Null | Str(chars: seq<char>)

  // ----- What the functions compute -----

  /** The length of the C string that starts `s`. */
  function StrLen(s: seq<char>): (n: nat)
    ensures n <= |s| && NUL !in s[..n] && (n < |s| ==> s[n] == NUL)
  {
    if s == [] || s[0] == NUL then 0 else 1 + StrLen(s[1..])
  }

  function Text(s: seq<char>): seq<char> {
    s[..StrLen(s)]
  }

  ghost predicate Terminated(s: seq<char>) {
    StrLen(s) < |s|
  }

  function Min(a: int, b: int): int {
    if a <= b then a else b
  }

  function Take(s: seq<char>, n: nat): seq<char> {
    s[..Min(n, |s|)]
  }

  /** `buf` with the text that fits, and a terminator, put at `ofs`. */
  function Copied(buf: seq<char>, ofs: nat, size: nat, src: seq<char>): (r: seq<char>)
    requires 0 < size && ofs + size <= |buf|
    ensures |r| == |buf|
  {
    var text := Take(src, size - 1);
    buf[..ofs] + text + [NUL] + buf[ofs + |text| + 1..]
  }

  function Appended(buf: seq<char>, size: nat, src: seq<char>): (r: seq<char>)
    requires size <= |buf|
    ensures |r| == |buf|
  {
    var ofs := StrLen(buf);
    if ofs < size then Copied(buf, ofs, size - ofs, src) else buf
  }

  // ----- The code -----

  /** `sl_strcpy_s` to position `ofs` of the buffer. */
  method StrcpyS(dst: array?<char>, ofs: nat, dstSize: nat, src: CString)
    requires dst != null ==> ofs + dstSize <= dst.Length
    requires src.Str? ==> NUL !in src.chars
    modifies dst
    ensures dst != null ==>
              dst[..] == if src.Null? || dstSize == 0 then old(dst[..])
                         else Copied(old(dst[..]), ofs, dstSize, src.chars)
  {
    var lenCopy := 0;
    hide Copied;
    if dst == null {
      return;
    }
    if src.Null? {
      return;
    }
    if dstSize == 0 {
      return;
    }
    while lenCopy < |src.chars| && lenCopy < dstSize - 1
      invariant 0 <= lenCopy <= Min(dstSize - 1, |src.chars|)
      invariant dst[..] == old(dst[..])[..ofs] + src.chars[..lenCopy] + old(dst[..])[ofs + lenCopy..]
    {
      dst[ofs + lenCopy] := src.chars[lenCopy];
      lenCopy := lenCopy + 1;
    }
    ghost var copied := dst[..];
    dst[ofs + lenCopy] := NUL;
    assert dst[..] == copied[ofs + lenCopy := NUL];
    CopyLoopDone(old(dst[..]), ofs, dstSize, src.chars, lenCopy, dst[..]);
  }

  lemma CopyLoopDone(buf: seq<char>, ofs: nat, size: nat, src: seq<char>, n: nat, r: seq<char>)
    requires 0 < size && ofs + size <= |buf| && n == Min(size - 1, |src|)
    requires r == (buf[..ofs] + src[..n] + buf[ofs + n..])[ofs + n := NUL]
    ensures r == Copied(buf, ofs, size, src)
  {
  }

  /** `sl_strnlen`; the character at `maxLen` is read too. */
  method StrnLen(str: array?<char>, maxLen: nat) returns (len: nat)
    requires str != null ==> Terminated(str[..]) || maxLen < str.Length
    ensures len == if str == null then 0 else Min(StrLen(str[..]), maxLen)
  {
    len := 0;
    if str == null {
      return;
    }
    while str[len] != NUL && len < maxLen
      invariant len <= maxLen && len < str.Length
      invariant len <= StrLen(str[..])
      decreases maxLen - len
    {
      LongerThan(str[..], len);
      len := len + 1;
    }
    EndsAt(str[..], len);
  }

  /** `sl_strcat_s`; `sl_strlen` is `sl_strnlen` without a limit that matters. */
  method StrcatS(dst: array?<char>, dstSize: nat, src: CString)
    requires dst != null ==> dstSize <= dst.Length && Terminated(dst[..])
    requires src.Str? ==> NUL !in src.chars
    modifies dst
    ensures dst != null ==>
              dst[..] == if src.Null? then old(dst[..]) else Appended(old(dst[..]), dstSize, src.chars)
  {
    if dst == null {
      return;
    }
    if src.Null? {
      return;
    }
    if dstSize == 0 {
      return;
    }
    var ofs := StrnLen(dst, dst.Length);
    if ofs < dstSize {
      StrcpyS(dst, ofs, dstSize - ofs, src);
    }
  }

  lemma {:induction false} LongerThan(s: seq<char>, n: nat)
    requires n < |s| && n <= StrLen(s) && s[n] != NUL
    ensures n + 1 <= StrLen(s)
  {
  }

  lemma EndsAt(s: seq<char>, n: nat)
    requires n < |s| && n <= StrLen(s)
    ensures s[n] == NUL ==> StrLen(s) == n
  {
  }

  // ----- Runs of appends -----

  /** The string that starts with `text`, then a terminator. */
  lemma {:induction false} LenOfText(text: seq<char>, rest: seq<char>)
    requires NUL !in text
    ensures StrLen(text + [NUL] + rest) == |text| && Text(text + [NUL] + rest) == text
  {
    var s := text + [NUL] + rest;
    assert s[|text|] == NUL;
  }

  lemma CopiedShape(buf: seq<char>, ofs: nat, size: nat, src: seq<char>)
    requires 0 < size && ofs + size <= |buf|
    ensures var text := Take(src, size - 1);
            && Copied(buf, ofs, size, src) == (buf[..ofs] + text) + [NUL] + buf[ofs + |text| + 1..]
            && Copied(buf, ofs, size, src)[ofs + size..] == buf[ofs + size..]
  {
  }

  lemma TakeOfConcat(a: seq<char>, b: seq<char>, n: nat)
    requires |a| <= n
    ensures a + Take(b, n - |a|) == Take(a + b, n)
  {
  }

  lemma AppendedShape(buf: seq<char>, size: nat, src: seq<char>) returns (rest: seq<char>)
    requires size <= |buf| && StrLen(buf) < size && NUL !in src
    ensures var head := Take(Text(buf) + src, size - 1);
            && |head| < size && NUL !in head
            && Appended(buf, size, src) == head + [NUL] + rest
            && Appended(buf, size, src)[size..] == buf[size..]
  {
    var ofs := StrLen(buf);
    var t, text := buf[..ofs], Take(src, size - ofs - 1);
    assert Text(buf) == t;
    rest := buf[ofs + |text| + 1..];
    CopiedShape(buf, ofs, size - ofs, src);
    hide *;
    assert t + text == Take(t + src, size - 1) by { TakeOfConcat(t, src, size - 1); }
    AppendedIsCopied(buf, size, src, (t + text) + [NUL] + rest);
  }

  /** One append: the text grows by what fits, nothing at or beyond `size` changes, and what was
      there stays in front. */
  lemma AppendGrowsText(buf: seq<char>, size: nat, src: seq<char>)
    requires size <= |buf| && StrLen(buf) < size && NUL !in src
    ensures var r := Appended(buf, size, src);
            && Text(r) == Take(Text(buf) + src, size - 1)
            && StrLen(r) < size && r[size..] == buf[size..]
  {
    var rest := AppendedShape(buf, size, src);
    hide *;
    LenOfText(Take(Text(buf) + src, size - 1), rest);
  }

  lemma AppendedIsCopied(buf: seq<char>, size: nat, src: seq<char>, r: seq<char>)
    requires size <= |buf| && StrLen(buf) < size && r == Copied(buf, StrLen(buf), size - StrLen(buf), src)
    ensures Appended(buf, size, src) == r
  {
    hide Copied, StrLen, Take;
  }

  function AppendAll(buf: seq<char>, size: nat, srcs: seq<seq<char>>): (r: seq<char>)
    requires size <= |buf|
    ensures |r| == |buf|
  {
    if srcs == [] then buf else Appended(AppendAll(buf, size, srcs[..|srcs| - 1]), size, srcs[|srcs| - 1])
  }

  /** `text` followed by all of `srcs`. */
  function Joined(text: seq<char>, srcs: seq<seq<char>>): seq<char> {
    if srcs == [] then text else Joined(text, srcs[..|srcs| - 1]) + srcs[|srcs| - 1]
  }

  /** The buffer holds as much of `full` as fits, terminated. */
  ghost predicate Holds(r: seq<char>, size: nat, full: seq<char>) {
    StrLen(r) < size && Text(r) == Take(full, size - 1)
  }

  lemma AppendHolds(r: seq<char>, size: nat, full: seq<char>, src: seq<char>)
    requires size <= |r| && Holds(r, size, full) && NUL !in src
    ensures Holds(Appended(r, size, src), size, full + src)
    ensures Appended(r, size, src)[size..] == r[size..]
  {
    AppendGrowsText(r, size, src);
    hide Text, StrLen, Appended, Take;
    TakeTwice(full, src, size - 1);
  }

  ghost predicate NoTerminators(srcs: seq<seq<char>>) {
    forall i :: 0 <= i < |srcs| ==> NUL !in srcs[i]
  }

  /** Any sequence of appends to a buffer whose text ends before `size` leaves the first `size - 1`
      characters of the whole concatenation, terminated, and touches nothing beyond `size`. */
  lemma {:induction false} AppendAllTruncatesOnce(buf: seq<char>, size: nat, srcs: seq<seq<char>>)
    requires size <= |buf| && StrLen(buf) < size
    requires NoTerminators(srcs)
    ensures Holds(AppendAll(buf, size, srcs), size, Joined(Text(buf), srcs))
    ensures AppendAll(buf, size, srcs)[size..] == buf[size..]
  {
    if srcs == [] {
      TakeAll(Text(buf), size - 1);
    } else {
      var n := |srcs| - 1;
      assert NoTerminators(srcs[..n]) && NUL !in srcs[n];
      hide Holds, Appended, Text, Take, StrLen, NoTerminators;
      AppendAllTruncatesOnce(buf, size, srcs[..n]);
      AppendHolds(AppendAll(buf, size, srcs[..n]), size, Joined(Text(buf), srcs[..n]), srcs[n]);
    }
  }

  lemma TakeAll(a: seq<char>, n: nat)
    ensures |a| <= n ==> Take(a, n) == a
  {
  }

  /** Truncating before appending and again after is truncating once. */
  lemma TakeTwice(a: seq<char>, b: seq<char>, n: nat)
    ensures Take(Take(a, n) + b, n) == Take(a + b, n)
  {
  }

  /** A text that does not end before `size` is left alone, terminator and all: the append takes
      effect exactly when there is room for at least the old text and its terminator. */
  lemma AppendTakesEffectIff(buf: seq<char>, size: nat, src: seq<char>)
    requires size <= |buf| && Terminated(buf) && NUL !in src
    ensures Text(Appended(buf, size, src)) ==
            Take(Text(buf) + src, if StrLen(buf) < size then size - 1 else StrLen(buf))
    ensures Text(Appended(buf, size, src)) != Text(buf) <==> StrLen(buf) + 1 < size && src != []
  {
    if StrLen(buf) < size {
      AppendGrowsText(buf, size, src);
    }
  }
}
