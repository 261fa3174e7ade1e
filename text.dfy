/** Byte strings as the console sees them: C strings, the LF -> CRLF
    translation `puts` applies, and its inverse. */
module Text {

  const CR: int := 13
  const LF: int := 10
  const NUL: char := '\0'

  /** The bytes of a string (the kernel's strings are ASCII). */
  function Ascii(s: string): seq<int> {
    seq(|s|, k requires 0 <= k < |s| => s[k] as int)
  }

  lemma AsciiAppend(s: string, t: string)
    ensures Ascii(s + t) == Ascii(s) + Ascii(t)
  {
  }

  lemma AsciiNoNewline(s: string)
    requires '\n' !in s
    ensures LF !in Ascii(s)
  {
  }

  /** Where the C string held in `s[..n]` ends: the position of its first
      NUL, or `n` when there is none. */
  function NulIndex(s: string, n: nat): (i: nat)
    requires n <= |s|
    ensures i <= n
  {
    if n == 0 then 0
    else
      var i := NulIndex(s, n - 1);
      if i < n - 1 || s[n - 1] == NUL then i else n
  }

  /** `NulIndex` finds the first NUL: none comes before it, and it is a NUL
      unless it is the end. */
  lemma {:induction false} NulIndexFirst(s: string, n: nat)
    requires n <= |s|
    ensures var i := NulIndex(s, n);
      (i < n ==> s[i] == NUL) && forall k :: 0 <= k < i ==> s[k] != NUL
  {
    if n > 0 {
      NulIndexFirst(s, n - 1);
    }
  }

  /** The C string a char array holds: every character before the first NUL. */
  function CStr(s: string): string {
    s[..NulIndex(s, |s|)]
  }

  /** The C string of `s` is a prefix of `s` without NUL, and only a NUL cuts it short. */
  lemma CStrIsPrefix(s: string)
    ensures CStr(s) <= s && NUL !in CStr(s)
    ensures |CStr(s)| < |s| ==> s[|CStr(s)|] == NUL
  {
    NulIndexFirst(s, |s|);
  }

  /** `s` holds no NUL before position `i`, and a NUL (or its end) at `i`: `s[..i]` is its C string. */
  lemma CStrPrefix(s: string, i: nat)
    requires i <= |s| && (i < |s| ==> s[i] == NUL)
    requires forall k :: 0 <= k < i ==> s[k] != NUL
    ensures CStr(s) == s[..i]
  {
    NulIndexFirst(s, |s|);
  }

  /** The bytes `puts` sends for `b`: a CR inserted before every LF. */
  function Crlf(b: seq<int>): seq<int> {
    if b == [] then []
    else Crlf(b[..|b| - 1]) + (if b[|b| - 1] == LF then [CR, LF] else [b[|b| - 1]])
  }

  /** Removes the CR of every CR LF pair: undoes `Crlf`. */
  function UnCrlf(t: seq<int>): seq<int> {
    if t == [] then []
    else if |t| >= 2 && t[|t| - 2] == CR && t[|t| - 1] == LF then UnCrlf(t[..|t| - 2]) + [LF]
    else UnCrlf(t[..|t| - 1]) + [t[|t| - 1]]
  }

  lemma {:induction false} CrlfAppend(a: seq<int>, b: seq<int>)
    ensures Crlf(a + b) == Crlf(a) + Crlf(b)
  {
    if b == [] {
      assert a + b == a;
    } else {
      var ab := a + b;
      assert ab[..|ab| - 1] == a + b[..|b| - 1];
      assert ab[|ab| - 1] == b[|b| - 1];
      CrlfAppend(a, b[..|b| - 1]);
    }
  }

  /** Translation adds nothing and changes nothing: deleting the inserted CRs gives back the input. */
  lemma {:induction false} CrlfRoundTrip(b: seq<int>)
    ensures UnCrlf(Crlf(b)) == b
  {
    if b != [] {
      var front, last := b[..|b| - 1], b[|b| - 1];
      var t := Crlf(b);
      CrlfRoundTrip(front);
      if last == LF {
        assert t[..|t| - 2] == Crlf(front);
      } else {
        assert t[..|t| - 1] == Crlf(front);
      }
      assert b == front + [last];
    }
  }

  /** Every LF of the translated stream comes right after a CR. */
  lemma {:induction false} CrlfNoBareLf(b: seq<int>)
    ensures forall i :: 0 <= i < |Crlf(b)| && Crlf(b)[i] == LF ==> 0 < i && Crlf(b)[i - 1] == CR
  {
    if b != [] {
      var front := Crlf(b[..|b| - 1]);
      var tail := if b[|b| - 1] == LF then [CR, LF] else [b[|b| - 1]];
      CrlfNoBareLf(b[..|b| - 1]);
      forall i | 0 <= i < |front + tail| && (front + tail)[i] == LF
        ensures 0 < i && (front + tail)[i - 1] == CR
      {
        if i < |front| {
          assert front[i] == LF;
        }
      }
    }
  }

  /** Exactly one byte is added per LF of the input. */
  lemma {:induction false} CrlfLength(b: seq<int>)
    ensures |Crlf(b)| == |b| + multiset(b)[LF]
  {
    if b != [] {
      var front := b[..|b| - 1];
      CrlfLength(front);
      assert b == front + [b[|b| - 1]];
      assert multiset(b) == multiset(front) + multiset([b[|b| - 1]]);
    }
  }

  /** Text without LF goes out unchanged. */
  lemma {:induction false} CrlfNoNewline(b: seq<int>)
    requires LF !in b
    ensures Crlf(b) == b
  {
    if b != [] {
      var front := b[..|b| - 1];
      assert LF !in front;
      CrlfNoNewline(front);
      assert b == front + [b[|b| - 1]];
    }
  }

  function Reverse(s: seq<int>): (r: seq<int>)
    ensures |r| == |s|
  {
    if s == [] then [] else Reverse(s[1..]) + [s[0]]
  }
}
