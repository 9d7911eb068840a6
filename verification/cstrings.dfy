/**
 The string utilities the program uses to inspect and build file paths:
 `strtolwr`, the case-insensitive `string_ends_with`, and the
 `string_append_prefix` macro. A C string is represented by its contents,
 the characters before its NUL terminator.
 */
module CStrings {

  /** The contents of a NUL-terminated C string: no embedded NUL. */
  type CString = s: string | '\0' !in s witness ""

  /** `tolower` in the C locale: only the ASCII capitals change. */
  function ToLower(c: char): (r: char)
    ensures 'A' <= c <= 'Z' ==> r != c && r as int - c as int == 32
    ensures !('A' <= c <= 'Z') ==> r == c
    ensures r == '\0' <==> c == '\0'
  {
    if 'A' <= c <= 'Z' then (c as int + 32) as char else c
  }

  /** Every character sent through `tolower`. */
  function Lower(s: string): (r: string)
    ensures |r| == |s|
    ensures forall i :: 0 <= i < |s| ==> r[i] == ToLower(s[i])
    ensures '\0' in r <==> '\0' in s
  {
    if s == [] then [] else [ToLower(s[0])] + Lower(s[1..])
  }

  /** Two strings of equal length that differ at most in the case of letters. */
  ghost predicate SameIgnoringCase(s: string, t: string) {
    |s| == |t| && forall i :: 0 <= i < |s| ==> ToLower(s[i]) == ToLower(t[i])
  }

  lemma {:induction false} LowerIdempotent(s: string)
    ensures Lower(Lower(s)) == Lower(s)
  {
    if s != [] {
      LowerIdempotent(s[1..]);
      assert ToLower(ToLower(s[0])) == ToLower(s[0]);
    }
  }

  /**
   `strtolwr(buf)` on a buffer: `strlen` decides how many bytes are rewritten,
   so every byte before the first NUL goes through `tolower` and the bytes from
   the NUL on are left alone.
   */
  function StrToLwr(buf: string): (r: string)
    ensures |r| == |buf|
    ensures forall i :: 0 <= i < |UntilNul(buf)| ==> r[i] == ToLower(buf[i])
    ensures forall i :: |UntilNul(buf)| <= i < |buf| ==> r[i] == buf[i]
  {
    var n := |UntilNul(buf)|;
    Lower(buf[..n]) + buf[n..]
  }

  /**
   The scratch copy `string_ends_with` lowercases, as the code builds it:
   `alloca(len + 1)` followed by a `memcpy` of only `len` bytes, so the byte at
   `len` and everything after it is whatever `stack` already held there.
   */
  function ScratchAsWritten(s: CString, stack: string): (buf: string)
    ensures |buf| == |s| + |stack| && buf[..|s|] == s
    ensures forall i :: 0 <= i < |stack| ==> buf[|s| + i] == stack[i]
  {
    s + stack
  }

  /**
   With stale non-NUL bytes after the copy, `strtolwr` runs past the
   `len + 1` bytes that were allocated and rewrites a byte it does not own:
   for "A" with stack bytes "BC" and then a NUL, byte 2 of a 2-byte buffer
   changes.
   */
  lemma ScratchAsWrittenOverruns()
    ensures var buf := ScratchAsWritten("A", "BC\0");
            |UntilNul(buf)| > |"A"| + 1 && StrToLwr(buf)[2] != buf[2]
  {
    var buf := ScratchAsWritten("A", "BC\0");
    assert buf == "ABC" + ['\0'] + [];
    UntilNulOfTerminated("ABC", []);
  }

  /**
   Whatever the stale stack bytes are, `strtolwr` lowercases the whole copy of
   the string, so the bytes `string_ends_with` compares are the lowercased
   string however far past it the scan runs.
   */
  lemma ScratchAsWrittenKeepsCopy(s: CString, stack: string)
    ensures |UntilNul(ScratchAsWritten(s, stack))| >= |s|
    ensures StrToLwr(ScratchAsWritten(s, stack))[..|s|] == Lower(s)
  {
    var buf := ScratchAsWritten(s, stack);
    UntilNulPastPrefix(s, stack);
    var low := StrToLwr(buf);
    forall i | 0 <= i < |s|
      ensures low[..|s|][i] == Lower(s)[i]
    {
      assert buf[i] == s[i];
    }
  }

  /** With the terminator in place, `strtolwr` rewrites exactly the copy and nothing beyond it. */
  lemma ScratchStaysInBounds(s: CString, stack: string)
    ensures StrToLwr(s + ['\0'] + stack) == Lower(s) + ['\0'] + stack
  {
    var buf := s + ['\0'] + stack;
    UntilNulOfTerminated(s, stack);
    assert buf[..|s|] == s;
    assert buf[|s|..] == ['\0'] + stack;
  }

  /**
   `strncmp(a, b, n) == 0` for two buffers that hold no NUL within their first
   `n` characters (the only case `string_ends_with` produces): the comparison
   walks position by position and stops at the first difference.
   */
  function StrNEqual(a: string, b: string, n: nat): (r: bool)
    requires n <= |a| && n <= |b|
    requires '\0' !in a[..n] && '\0' !in b[..n]
    ensures r <==> a[..n] == b[..n]
  {
    if n == 0 then true
    else if a[0] != b[0] then false
    else
      assert a[1..][..n - 1] == a[1..n] && b[1..][..n - 1] == b[1..n];
      var rest := StrNEqual(a[1..], b[1..], n - 1);
      assert a[..n] == [a[0]] + a[1..][..n - 1];
      assert b[..n] == [b[0]] + b[1..][..n - 1];
      rest
  }

  /**
   The reference meaning of `string_ends_with`: the suffix is no longer than the
   string and each of its characters matches the corresponding one of the
   string's tail once both go through `tolower`.
   */
  predicate EndsWith(str: CString, suffix: CString) {
    |suffix| <= |str| &&
    forall i :: 0 <= i < |suffix| ==> ToLower(str[|str| - |suffix| + i]) == ToLower(suffix[i])
  }

  /**
   `string_ends_with` on buffers: false when the suffix is longer than the
   string; otherwise both are copied into scratch buffers of `len + 1` bytes,
   lowercased in place by `strtolwr`, and the tail of the string's copy is
   compared with the suffix's copy by `strncmp` over the suffix's length. The
   scratch copies here carry their terminator (the corrected form of the copies;
   see `ScratchAsWritten` for the copies as the code builds them).
   */
  method StringEndsWith(str: CString, suffix: CString) returns (r: bool)
    ensures r == EndsWith(str, suffix)
    ensures suffix == "" ==> r
    ensures |suffix| > |str| ==> !r
  {
    if |suffix| > |str| {
      return false;
    }
    var strLower := StrToLwr(str + ['\0']);
    var suffixLower := StrToLwr(suffix + ['\0']);
    TerminatedScratch(str);
    TerminatedScratch(suffix);
    var n := |suffix|;
    var tail := strLower[|str| - n..];
    assert tail[..n] == Lower(str)[|str| - n..];
    assert suffixLower[..n] == Lower(suffix);
    r := StrNEqual(tail, suffixLower, n);
    LoweredTailMatch(str, suffix);
  }

  /** A terminated scratch copy of `s` comes out of `strtolwr` as `Lower(s)` and its NUL. */
  lemma TerminatedScratch(s: CString)
    ensures StrToLwr(s + ['\0']) == Lower(s) + ['\0']
  {
    ScratchStaysInBounds(s, []);
    assert s + ['\0'] + [] == s + ['\0'];
    assert Lower(s) + ['\0'] + [] == Lower(s) + ['\0'];
  }

  /** Comparing the lowercased tail with the lowercased suffix decides the reference test. */
  lemma LoweredTailMatch(str: CString, suffix: CString)
    requires |suffix| <= |str|
    ensures Lower(str)[|str| - |suffix|..] == Lower(suffix) <==> EndsWith(str, suffix)
  {
    var tail := Lower(str)[|str| - |suffix|..];
    assert forall i :: 0 <= i < |suffix| ==> tail[i] == ToLower(str[|str| - |suffix| + i]);
  }

  /** A match carries over to strings that differ from the matched ones only in case. */
  lemma EndsWithTransfer(s: CString, s': CString, t: CString, t': CString)
    requires SameIgnoringCase(s, s') && SameIgnoringCase(t, t')
    requires EndsWith(s, t)
    ensures EndsWith(s', t')
  {
    forall i | 0 <= i < |t'|
      ensures ToLower(s'[|s'| - |t'| + i]) == ToLower(t'[i])
    {
      assert ToLower(s[|s| - |t| + i]) == ToLower(t[i]);
    }
  }

  /** Lowercasing happens on copies, so the case of either argument does not matter. */
  lemma EndsWithIgnoresCase(s: CString, s': CString, t: CString, t': CString)
    requires SameIgnoringCase(s, s') && SameIgnoringCase(t, t')
    ensures EndsWith(s, t) == EndsWith(s', t')
  {
    if EndsWith(s, t) {
      EndsWithTransfer(s, s', t, t');
    }
    if EndsWith(s', t') {
      EndsWithTransfer(s', s, t', t);
    }
  }

  /** After lowercasing, `s` ends with exactly the characters of `t`. */
  predicate LowerEndsIn(s: string, t: string) {
    |t| <= |s| && Lower(s)[|s| - |t|..] == t
  }

  /** A string without capitals is its own lowercase. */
  lemma LowerOfLowercase(t: string)
    requires forall i :: 0 <= i < |t| ==> !('A' <= t[i] <= 'Z')
    ensures Lower(t) == t
  {
  }

  /**
   Against an all-lowercase suffix, the case-insensitive test is a literal
   suffix test on the lowercased string.
   */
  lemma EndsWithLowered(s: CString, t: CString)
    requires Lower(t) == t
    ensures EndsWith(s, t) <==> LowerEndsIn(s, t)
  {
    if |t| <= |s| {
      var tail := Lower(s)[|s| - |t|..];
      assert forall i :: 0 <= i < |t| ==> tail[i] == ToLower(s[|s| - |t| + i]);
      assert forall i :: 0 <= i < |t| ==> t[i] == ToLower(t[i]) by {
        forall i | 0 <= i < |t| ensures t[i] == ToLower(t[i]) {
          assert Lower(t)[i] == ToLower(t[i]);
        }
      }
    }
  }

  /** A string that literally ends with `suffix` ends with it in the case-insensitive sense. */
  lemma EndsWithConcat(p: CString, s: CString)
    ensures EndsWith(p + s, s)
  {
    var ps: CString := p + s;
    forall i | 0 <= i < |s|
      ensures ToLower(ps[|ps| - |s| + i]) == ToLower(s[i])
    {
      assert ps[|ps| - |s| + i] == s[i];
    }
  }

  /** Whatever is put in front of a string does not change what it ends with. */
  lemma EndsWithUnderPrefix(p: CString, s: CString, suffix: CString)
    requires EndsWith(s, suffix)
    ensures EndsWith(p + s, suffix)
  {
    var ps: CString := p + s;
    forall i | 0 <= i < |suffix|
      ensures ToLower(ps[|ps| - |suffix| + i]) == ToLower(suffix[i])
    {
      assert ps[|ps| - |suffix| + i] == s[|s| - |suffix| + i];
    }
  }

  /** A buffer of `n` zero bytes, as `memset(buf, 0, n)` leaves it. */
  function Zeroed(n: nat): (buf: string)
    ensures |buf| == n && forall i :: 0 <= i < n ==> buf[i] == '\0'
  {
    seq(n, _ => '\0')
  }

  /** `memcpy(buf + at, src, |src|)`: the bytes outside the target range are kept. */
  function CopyInto(buf: string, at: nat, src: string): (r: string)
    requires at + |src| <= |buf|
    ensures |r| == |buf|
    ensures forall i :: 0 <= i < |src| ==> r[at + i] == src[i]
    ensures forall i :: 0 <= i < |buf| && !(at <= i < at + |src|) ==> r[i] == buf[i]
  {
    buf[..at] + src + buf[at + |src|..]
  }

  /** What `strlen` and every later C string read see in a buffer: the bytes before the first NUL. */
  function UntilNul(buf: string): (r: string)
    ensures '\0' !in r
    ensures |r| <= |buf| && r == buf[..|r|]
    ensures |r| == |buf| || buf[|r|] == '\0'
  {
    if buf == [] || buf[0] == '\0' then [] else [buf[0]] + UntilNul(buf[1..])
  }

  /** A NUL-free prefix is read in full: the first NUL, if any, comes after it. */
  lemma {:induction false} UntilNulPastPrefix(s: CString, rest: string)
    ensures |UntilNul(s + rest)| >= |s|
  {
    if s != [] {
      assert (s + rest)[0] == s[0];
      assert (s + rest)[1..] == s[1..] + rest;
      UntilNulPastPrefix(s[1..], rest);
    }
  }

  lemma {:induction false} UntilNulOfTerminated(s: string, rest: string)
    requires '\0' !in s
    ensures UntilNul(s + ['\0'] + rest) == s
  {
    if s != [] {
      assert (s + ['\0'] + rest)[1..] == s[1..] + ['\0'] + rest;
      UntilNulOfTerminated(s[1..], rest);
    }
  }

  /**
   The buffer `string_append_prefix(string, prefix)` builds: `|string| + |prefix| + 1`
   zeroed bytes, the prefix copied to the front, the string copied right after it,
   so the last byte stays the terminating NUL.
   */
  function PrefixBuffer(str: CString, prefix: CString): (buf: string)
    ensures |buf| == |str| + |prefix| + 1
    ensures buf[..|prefix|] == prefix
    ensures buf[|prefix|..|prefix| + |str|] == str
    ensures buf[|buf| - 1] == '\0'
  {
    var zeroed := Zeroed(|str| + |prefix| + 1);
    var withPrefix := CopyInto(zeroed, 0, prefix);
    CopyInto(withPrefix, |prefix|, str)
  }

  /**
   `string_append_prefix(string, prefix)`: note the order of the arguments, the
   SECOND one comes first in the result.
   */
  function AppendPrefix(str: CString, prefix: CString): (r: CString)
    ensures |r| == |str| + |prefix|
    ensures r == prefix + str
    ensures prefix == "" ==> r == str
  {
    var buf := PrefixBuffer(str, prefix);
    assert buf == (prefix + str) + ['\0'] + [];
    UntilNulOfTerminated(prefix + str, []);
    UntilNul(buf)
  }

  /** The result of `string_append_prefix` always ends with its first argument. */
  lemma AppendPrefixEndsWithString(str: CString, prefix: CString)
    ensures EndsWith(AppendPrefix(str, prefix), str)
  {
    EndsWithConcat(prefix, str);
  }
}
