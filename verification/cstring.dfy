/** NUL-terminated text in fixed byte buffers, and the few kernel string
    routines the sensor uses on it: strncpy, strcspn, strcpy, strcasecmp.
    A `char` stands for one byte. */
module CString {

  const NUL: char := '\0'

  /** A buffer that a C string routine may scan: it holds a terminator. */
  predicate Terminated(s: seq<char>) {
    NUL in s
  }

  /** Index of the first `c` in `s`, or |s| when `s` has none. */
  function IndexOf(s: seq<char>, c: char): (i: nat)
    ensures i <= |s|
    ensures i < |s| ==> s[i] == c
    ensures forall j :: 0 <= j < i ==> s[j] != c
  {
    if |s| == 0 then 0
    else if s[0] == c then 0
    else
      var j := IndexOf(s[1..], c);
      assert s[..1 + j] == [s[0]] + s[1..][..j];
      1 + j
  }

  /** The C string held in a terminated buffer: everything before the first NUL. */
  function CStr(s: seq<char>): (r: seq<char>)
    requires Terminated(s)
    ensures |r| < |s| && s[|r|] == NUL
    ensures r == s[..|r|]
    ensures NUL !in r
  {
    s[..IndexOf(s, NUL)]
  }

  /** A buffer whose front is `s` and a NUL holds the C string `s`. */
  lemma StrCpyIntoPrefix(buf: seq<char>, s: seq<char>)
    requires |s| < |buf| && buf[..|s| + 1] == s + [NUL] && NUL !in s
    ensures Terminated(buf) && CStr(buf) == s
  {
    assert buf[|s|] == NUL;
  }

  /** The bytes of a string literal: its text and the terminator the compiler appends. */
  function Lit(s: seq<char>): (r: seq<char>)
    requires NUL !in s
    ensures Terminated(r) && CStr(r) == s
  {
    var r := s + [NUL];
    assert r[|s|] == NUL && r[..|s|] == s;
    r
  }

  /** A `n`-long run of NUL bytes. */
  function Nuls(n: nat): (r: seq<char>)
    ensures |r| == n
    ensures forall i :: 0 <= i < n ==> r[i] == NUL
  {
    seq(n, _ => NUL)
  }

  /** The bytes at which `strcspn(s, "\n")` stops: the newline and the terminator. */
  predicate IsStop(c: char) {
    c == '\n' || c == NUL
  }

  /** `strcspn(s, "\n")` when it stays inside the buffer: the index of the first
      newline or NUL; |s| when there is none (the C routine would read past the end). */
  function FirstStop(s: seq<char>): (i: nat)
    ensures i <= |s|
    ensures i < |s| ==> IsStop(s[i])
    ensures forall k :: 0 <= k < i ==> !IsStop(s[k])
  {
    if |s| == 0 then 0
    else if IsStop(s[0]) then 0
    else 1 + FirstStop(s[1..])
  }

  /** The text before the first newline or NUL. */
  function UntilStop(s: seq<char>): (r: seq<char>)
    ensures |r| <= |s| && r == s[..|r|]
    ensures '\n' !in r && NUL !in r
    ensures |r| < |s| ==> IsStop(s[|r|])
  {
    s[..FirstStop(s)]
  }

  /** Two buffers that agree up to and including a stop byte have the same text before their first stop. */
  lemma {:induction false} UntilStopAgree(a: seq<char>, b: seq<char>, k: nat)
    requires k < |a| && k < |b|
    requires a[..k + 1] == b[..k + 1]
    requires IsStop(a[k])
    ensures UntilStop(a) == UntilStop(b)
  {
    if IsStop(a[0]) {
      assert a[0] == a[..k + 1][0] == b[0];
    } else {
      assert a[0] == a[..k + 1][0] == b[0];
      assert k > 0;
      assert a[1..][..k] == a[..k + 1][1..] == b[..k + 1][1..] == b[1..][..k];
      UntilStopAgree(a[1..], b[1..], k - 1);
      assert FirstStop(a) == 1 + FirstStop(a[1..]);
      assert FirstStop(b) == 1 + FirstStop(b[1..]);
    }
  }

  /** `strncpy(dst, src, n)` with `src` holding at least `n` bytes: copies `src`
      up to its first NUL, pads with NUL up to `n` bytes, and leaves
      `dst[n..]` as it was. */
  function StrNCpy(dst: seq<char>, src: seq<char>, n: nat): (r: seq<char>)
    requires n <= |dst| && n <= |src|
    ensures |r| == |dst|
    ensures forall i :: 0 <= i < n ==> r[i] == (if NUL in src[..i] then NUL else src[i])
    ensures r[n..] == dst[n..]
  {
    var k := IndexOf(src[..n], NUL);
    var r := src[..k] + Nuls(n - k) + dst[n..];
    assert forall i :: 0 <= i < n ==> (NUL in src[..i] <==> k < i) by {
      forall i | 0 <= i < n
        ensures NUL in src[..i] <==> k < i
      {
        if k < i {
          assert src[..i][k] == src[..n][k] == NUL;
        } else {
          assert src[..i] == src[..n][..k][..i];
        }
      }
    }
    r
  }

  /** `strcpy(dst, s)` (and `scnprintf` of a text that fits): the text and its
      terminator are written at the front; the bytes after the terminator keep
      their old values. */
  function StrCpyInto(dst: seq<char>, s: seq<char>): (r: seq<char>)
    requires NUL !in s && |s| < |dst|
    ensures |r| == |dst|
    ensures Terminated(r) && CStr(r) == s
    ensures r[|s| + 1..] == dst[|s| + 1..]
  {
    var r := s + [NUL] + dst[|s| + 1..];
    assert r[..|s| + 1] == s + [NUL];
    r
  }

  /** `tolower` on the ASCII letters. */
  function Lower(c: char): char {
    if 'A' <= c <= 'Z' then (c as int - 'A' as int + 'a' as int) as char else c
  }

  /** Folds every ASCII letter of `s` to lower case. */
  function FoldCase(s: seq<char>): (r: seq<char>)
    ensures |r| == |s|
    ensures forall i :: 0 <= i < |s| ==> r[i] == Lower(s[i])
  {
    seq(|s|, i requires 0 <= i < |s| => Lower(s[i]))
  }

  /** `strcasecmp(a, b) == 0`, walking both buffers byte by byte as the
      kernel routine does: stop at the first folded mismatch, or at a shared NUL. */
  function CaseEq(a: seq<char>, b: seq<char>): bool
    requires Terminated(a) && Terminated(b)
  {
    var c1 := Lower(a[0]);
    var c2 := Lower(b[0]);
    if c1 != c2 then false
    else if c1 == NUL then true
    else
      assert a[0] != NUL && b[0] != NUL;
      CaseEq(a[1..], b[1..])
  }

  /** The text of a terminated buffer starting with a non-NUL byte is that byte followed by the text of the rest. */
  lemma CStrCons(a: seq<char>)
    requires Terminated(a) && a[0] != NUL
    ensures Terminated(a[1..])
    ensures CStr(a) == [a[0]] + CStr(a[1..])
  {
    assert a == [a[0]] + a[1..];
  }

  /** strcasecmp reports equality exactly when the two C strings are equal up to ASCII case. */
  lemma {:induction false} CaseEqSpec(a: seq<char>, b: seq<char>)
    requires Terminated(a) && Terminated(b)
    ensures CaseEq(a, b) <==> FoldCase(CStr(a)) == FoldCase(CStr(b))
  {
    if a[0] == NUL || b[0] == NUL {
      if a[0] != NUL {
        FoldCaseCons(a);
      } else if b[0] != NUL {
        FoldCaseCons(b);
      }
    } else {
      FoldCaseCons(a);
      FoldCaseCons(b);
      if Lower(a[0]) == Lower(b[0]) {
        CaseEqSpec(a[1..], b[1..]);
      }
    }
  }

  /** The folded text of a buffer starting with a non-NUL byte: that byte folded, then the folded rest. */
  lemma FoldCaseCons(a: seq<char>)
    requires Terminated(a) && a[0] != NUL
    ensures Terminated(a[1..]) && Lower(a[0]) != NUL
    ensures FoldCase(CStr(a)) == [Lower(a[0])] + FoldCase(CStr(a[1..]))
  {
    CStrCons(a);
  }
}
