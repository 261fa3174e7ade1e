/** The console driver of lab1/kernel.c: `putchar`, `getchar`, `puts`,
    `print_hex`, `print_dec` and `read_int`, each a method over the
    firmware it issues its ecalls to. */
module Console {
  import opened Sbi
  import opened Text
  import opened Numerals
  import opened Machine

  /** The Console Putchar calls that write `bs`, one per word, in order. */
  function PutcharCalls(bs: seq<int>): seq<SbiCall> {
    seq(|bs|, k requires 0 <= k < |bs| => PutcharCall(bs[k]))
  }

  lemma PutcharCallsAppend(a: seq<int>, b: seq<int>)
    ensures PutcharCalls(a + b) == PutcharCalls(a) + PutcharCalls(b)
  {
  }

  /** `n` Console Getchar polls. */
  function GetcharPolls(n: nat): seq<SbiCall> {
    if n == 0 then [] else GetcharPolls(n - 1) + [GetcharCall]
  }

  lemma AppendAssoc<T>(a: seq<T>, b: seq<T>, c: seq<T>)
    ensures a + (b + c) == (a + b) + c
  {
  }

  lemma SnocTwo<T>(a: seq<T>, x: T, y: T)
    ensures a + [x, y] == (a + [x]) + [y]
  {
  }

  lemma SnocThree<T>(a: seq<T>, x: T, y: T, z: T)
    ensures a + [x, y, z] == ((a + [x]) + [y]) + [z]
  {
  }

  /** The bytes `puts(s)` writes. */
  function PutsBytes(s: string): seq<int> {
    Crlf(Ascii(CStr(s)))
  }

  /** A string without NUL is its own C string. */
  lemma CStrWhole(s: string)
    requires NUL !in s
    ensures CStr(s) == s
  {
    CStrPrefix(s, |s|);
    assert s[..|s|] == s;
  }

  /** `puts` of a string without NUL sends all of it, CR LF for each LF. */
  lemma PutsWhole(s: string)
    requires NUL !in s
    ensures PutsBytes(s) == Crlf(Ascii(s))
  {
    CStrWhole(s);
  }

  /** `puts` of a string without NUL or LF sends it unchanged. */
  lemma PutsPlain(s: string)
    requires NUL !in s && '\n' !in s
    ensures PutsBytes(s) == Ascii(s)
  {
    PutsWhole(s);
    AsciiNoNewline(s);
    CrlfNoNewline(Ascii(s));
  }

  /** `puts` of a line sends its text and CR LF. */
  lemma PutsLine(s: string)
    requires NUL !in s && '\n' !in s
    ensures PutsBytes(s + "\n") == Ascii(s) + [CR, LF]
  {
    assert NUL !in s + "\n";
    PutsWhole(s + "\n");
    AsciiAppend(s, "\n");
    CrlfAppend(Ascii(s), Ascii("\n"));
    AsciiNoNewline(s);
    CrlfNoNewline(Ascii(s));
  }

  /** `puts(s)` sends the C string of `s` and nothing else: deleting the CR
      before each LF gives back its bytes, every LF it sends comes right
      after a CR, and it adds one byte per LF. */
  lemma PutsFaithful(s: string)
    ensures UnCrlf(PutsBytes(s)) == Ascii(CStr(s))
    ensures forall i :: 0 <= i < |PutsBytes(s)| && PutsBytes(s)[i] == LF ==> 0 < i && PutsBytes(s)[i - 1] == CR
    ensures |PutsBytes(s)| == |CStr(s)| + multiset(Ascii(CStr(s)))[LF]
  {
    CrlfRoundTrip(Ascii(CStr(s)));
    CrlfNoBareLf(Ascii(CStr(s)));
    CrlfLength(Ascii(CStr(s)));
  }

  /** `putchar`: one Console Putchar call carrying `ch` in a0. */
  method Putchar(fw: Firmware, ch: int)
    requires fw.Valid()
    modifies fw
    ensures fw.Valid()
    ensures fw.out == old(fw.out) + [ch]
    ensures fw.calls == old(fw.calls) + [PutcharCall(ch)]
    ensures fw.pos == old(fw.pos) && fw.replies == old(fw.replies)
  {
    var _ := fw.Ecall(PutcharCall(ch));
  }

  /** `puts`: every byte of the C string `s`, in order, with a CR sent before each LF. */
  method Puts(fw: Firmware, s: string)
    requires fw.Valid()
    modifies fw
    ensures fw.Valid()
    ensures fw.out == old(fw.out) + PutsBytes(s)
    ensures fw.calls == old(fw.calls) + PutcharCalls(PutsBytes(s))
    ensures fw.pos == old(fw.pos) && fw.replies == old(fw.replies)
  {
    var i := 0;
    while i < |s| && s[i] != NUL
      invariant 0 <= i <= |s|
      invariant forall k :: 0 <= k < i ==> s[k] != NUL
      invariant fw.Valid()
      invariant fw.out == old(fw.out) + Crlf(Ascii(s[..i]))
      invariant fw.calls == old(fw.calls) + PutcharCalls(Crlf(Ascii(s[..i])))
      invariant fw.pos == old(fw.pos) && fw.replies == old(fw.replies)
    {
      PutsStep(s, i);
      ghost var done := Crlf(Ascii(s[..i]));
      if s[i] == '\n' {
        Putchar(fw, CR);
        ExtendChar(old(fw.out), old(fw.calls), done, CR);
        done := done + [CR];
      }
      Putchar(fw, s[i] as int);
      ExtendChar(old(fw.out), old(fw.calls), done, s[i] as int);
      i := i + 1;
    }
    CStrPrefix(s, i);
  }

  /** One character of `puts`: a CR and the LF for a newline, the
      character alone otherwise. */
  lemma PutsStep(s: string, i: nat)
    requires i < |s|
    ensures Crlf(Ascii(s[..i + 1])) == (Crlf(Ascii(s[..i])) + (if s[i] == '\n' then [CR] else [])) + [s[i] as int]
  {
    var b := Ascii(s[..i + 1]);
    assert b[..|b| - 1] == Ascii(s[..i]);
    if s[i] == '\n' {
      SnocTwo(Crlf(Ascii(s[..i])), CR, LF);
    } else {
      assert Crlf(Ascii(s[..i])) + [] == Crlf(Ascii(s[..i]));
    }
  }

  /** Writing `c` after `done` keeps the output and the trace in step. */
  lemma ExtendChar(out0: seq<int>, calls0: seq<SbiCall>, done: seq<int>, c: int)
    ensures out0 + (done + [c]) == (out0 + done) + [c]
    ensures calls0 + PutcharCalls(done + [c]) == (calls0 + PutcharCalls(done)) + [PutcharCall(c)]
  {
    PutcharCallsAppend(done, [c]);
  }

  // ---------------------------------------------------------------- input

  /** The answer, at or after `from`, of the first Console Getchar poll that reports a byte. */
  function FirstReady(s: seq<int>, from: nat): (k: Option<nat>)
    requires from <= |s|
    ensures k.Some? ==> from <= k.value < |s| && s[k.value] >= 0
    decreases |s| - from
  {
    if from == |s| then None
    else if s[from] >= 0 then Some(from)
    else FirstReady(s, from + 1)
  }

  /** Every poll before the one `FirstReady` finds comes back empty, and
      when it finds none every poll does. */
  lemma {:induction false} FirstReadyIsFirst(s: seq<int>, from: nat)
    requires from <= |s|
    ensures FirstReady(s, from).Some? ==> forall j :: from <= j < FirstReady(s, from).value ==> s[j] < 0
    ensures FirstReady(s, from).None? ==> forall j :: from <= j < |s| ==> s[j] < 0
    decreases |s| - from
  {
    if from < |s| && s[from] < 0 {
      FirstReadyIsFirst(s, from + 1);
    }
  }

  /** A poll that reports `s[j]` is never empty when some later poll reports a byte. */
  lemma {:induction false} FirstReadyFinds(s: seq<int>, from: nat, j: nat)
    requires from <= j < |s| && s[j] >= 0
    ensures FirstReady(s, from).Some? && FirstReady(s, from).value <= j
    decreases j - from
  {
    if s[from] < 0 {
      FirstReadyFinds(s, from + 1, j);
    }
  }

  /** `getchar`: polls Console Getchar (EID 0x02, every argument 0) until the
      error word is non-negative, and returns that word. */
  method Getchar(fw: Firmware) returns (ch: int)
    requires fw.Valid() && FirstReady(fw.input, fw.pos).Some?
    modifies fw
    ensures fw.Valid()
    ensures 0 <= ch <= INT_MAX
    ensures var k := FirstReady(fw.input, old(fw.pos)).value;
      ch == fw.input[k] && fw.pos == k + 1 && fw.calls == old(fw.calls) + GetcharPolls(k + 1 - old(fw.pos))
    ensures fw.out == old(fw.out) && fw.replies == old(fw.replies)
  {
    ghost var k := FirstReady(fw.input, fw.pos).value;
    FirstReadyIsFirst(fw.input, fw.pos);
    var r := fw.Ecall(GetcharCall);
    while r.error < 0
      invariant fw.Valid()
      invariant old(fw.pos) < fw.pos <= k + 1
      invariant r.error == fw.input[fw.pos - 1]
      invariant fw.calls == old(fw.calls) + GetcharPolls(fw.pos - old(fw.pos))
      invariant fw.out == old(fw.out) && fw.replies == old(fw.replies)
      decreases |fw.input| - fw.pos
    {
      r := fw.Ecall(GetcharCall);
    }
    ch := r.error;
  }

  predicate IsNewline(c: int) { c == CR || c == LF }

  /** The digit bytes among the answers `s[a..n]`, in order: what a
      `read_int` that starts at answer `a` echoes and accumulates. */
  function Digits(s: seq<int>, a: nat, n: nat): seq<int>
    requires a <= n <= |s|
    decreases n - a
  {
    if n == a then []
    else if IsDigit(s[n - 1]) then Digits(s, a, n - 1) + [s[n - 1]]
    else Digits(s, a, n - 1)
  }

  /** Only digits are accumulated. */
  lemma {:induction false} DigitsAreDigits(s: seq<int>, a: nat, n: nat)
    requires a <= n <= |s|
    ensures forall k :: 0 <= k < |Digits(s, a, n)| ==> IsDigit(Digits(s, a, n)[k])
    decreases n - a
  {
    if n > a {
      DigitsAreDigits(s, a, n - 1);
    }
  }

  /** The ecalls `read_int` issues for the answers `s[a..n]`: one poll per
      answer, and the echo of each digit right after the poll that read it. */
  function ReadCalls(s: seq<int>, a: nat, n: nat): seq<SbiCall>
    requires a <= n <= |s|
    decreases n - a
  {
    if n == a then []
    else if IsDigit(s[n - 1]) then (ReadCalls(s, a, n - 1) + [GetcharCall]) + [PutcharCall(s[n - 1])]
    else ReadCalls(s, a, n - 1) + [GetcharCall]
  }

  /** The value `read_int` has accumulated over the answers `s[a..n]`:
      `result * 10 + digit` for each digit. */
  function Accumulated(s: seq<int>, a: nat, n: nat): int
    requires a <= n <= |s|
    decreases n - a
  {
    if n == a then 0
    else if IsDigit(s[n - 1]) then Accumulated(s, a, n - 1) * 10 + (s[n - 1] - '0' as int)
    else Accumulated(s, a, n - 1)
  }

  /** The accumulator holds the decimal value of the digits echoed so far. */
  lemma {:induction false} AccumulatedIsValue(s: seq<int>, a: nat, n: nat)
    requires a <= n <= |s|
    ensures Accumulated(s, a, n) == DecValue(Digits(s, a, n))
    decreases n - a
  {
    if n > a {
      AccumulatedIsValue(s, a, n - 1);
      if IsDigit(s[n - 1]) {
        DecValueFromSnoc(0, Digits(s, a, n - 1), s[n - 1]);
      }
    }
  }

  /** The value read so far never exceeds the value finally returned. */
  lemma {:induction false} AccumulatedGrows(s: seq<int>, a: nat, m: nat, n: nat)
    requires a <= m <= n <= |s|
    ensures 0 <= Accumulated(s, a, m) <= Accumulated(s, a, n)
    decreases n - a
  {
    if m < n {
      AccumulatedGrows(s, a, m, n - 1);
    } else if a < m {
      AccumulatedGrows(s, a, m - 1, m - 1);
    }
  }

  /** Empty polls are neither echoed nor accumulated. */
  lemma {:induction false} ReadSkipsPolls(s: seq<int>, a: nat, c: nat, e: nat)
    requires a <= c <= e <= |s|
    requires forall j :: c <= j < e ==> s[j] < 0
    ensures Digits(s, a, e) == Digits(s, a, c)
    ensures ReadCalls(s, a, e) == ReadCalls(s, a, c) + GetcharPolls(e - c)
    ensures Accumulated(s, a, e) == Accumulated(s, a, c)
    decreases e - c
  {
    if c < e {
      ReadSkipsPolls(s, a, c, e - 1);
      AppendAssoc(ReadCalls(s, a, c), GetcharPolls(e - 1 - c), [GetcharCall]);
    }
  }

  /** A `read_int` that starts at answer `a` stops at answer `j`: a CR or LF
      after at least one digit. */
  predicate EndsRead(s: seq<int>, a: nat, j: nat) {
    a <= j < |s| && IsNewline(s[j]) && Digits(s, a, j) != []
  }

  /** The first answer at or after `from` at which a `read_int` that starts at `a` stops. */
  function FirstEnd(s: seq<int>, a: nat, from: nat): (t: Option<nat>)
    requires a <= from <= |s|
    ensures t.Some? ==> from <= t.value && EndsRead(s, a, t.value)
    decreases |s| - from
  {
    if from == |s| then None
    else if EndsRead(s, a, from) then Some(from)
    else FirstEnd(s, a, from + 1)
  }

  /** `FirstEnd` finds the first such answer, and finds none only when there is none. */
  lemma {:induction false} FirstEndIsFirst(s: seq<int>, a: nat, from: nat)
    requires a <= from <= |s|
    ensures FirstEnd(s, a, from).Some? ==> forall j :: from <= j < FirstEnd(s, a, from).value ==> !EndsRead(s, a, j)
    ensures FirstEnd(s, a, from).None? ==> forall j :: from <= j < |s| ==> !EndsRead(s, a, j)
    decreases |s| - from
  {
    if from < |s| && !EndsRead(s, a, from) {
      FirstEndIsFirst(s, a, from + 1);
    }
  }

  /** What `read_int` makes of the answers from `a` on: the value it returns,
      the bytes it echoes, the ecalls it issues and how many answers it consumes. */
  datatype Reading = Reading(value: int, echo: seq<int>, calls: seq<SbiCall>, used: nat)

  /** `read_int` reads up to the first CR or LF that follows a digit; it
      returns the decimal value of the digits before it, echoes them and a
      CR LF. None when no such byte comes: the kernel then polls forever. */
  function ReadOutcome(s: seq<int>, a: nat): Option<Reading>
    requires a <= |s|
  {
    match FirstEnd(s, a, a)
    case None => None
    case Some(t) =>
      var ds := Digits(s, a, t);
      Some(Reading(DecValue(ds), ds + [CR, LF],
        ReadCalls(s, a, t) + [GetcharCall, PutcharCall(CR), PutcharCall(LF)], t + 1 - a))
  }

  /** The polls after answer `c` up to the byte `k` are neither echoed nor
      accumulated, and that byte is no later than the answer `t` the read
      stops at. */
  lemma PollsBefore(s: seq<int>, a: nat, t: nat, c: nat, k: nat)
    requires a <= c <= |s| && FirstEnd(s, a, a) == Some(t) && c <= t
    requires FirstReady(s, c) == Some(k)
    ensures k <= t
    ensures Digits(s, a, k) == Digits(s, a, c)
    ensures ReadCalls(s, a, k) == ReadCalls(s, a, c) + GetcharPolls(k - c)
    ensures Accumulated(s, a, k) == Accumulated(s, a, c)
  {
    FirstReadyFinds(s, c, t);
    FirstReadyIsFirst(s, c);
    ReadSkipsPolls(s, a, c, k);
  }

  /** A digit after the polls is echoed and accumulated, and the answer it
      came in is not the last one `read_int` reads. */
  lemma ReadDigit(s: seq<int>, a: nat, t: nat, c: nat, k: nat)
    requires a <= c <= |s| && FirstEnd(s, a, a) == Some(t) && c <= t
    requires FirstReady(s, c) == Some(k) && IsDigit(s[k])
    ensures k + 1 <= t
    ensures Digits(s, a, k + 1) == Digits(s, a, c) + [s[k]]
    ensures ReadCalls(s, a, k + 1) == (ReadCalls(s, a, c) + GetcharPolls(k + 1 - c)) + [PutcharCall(s[k])]
    ensures Accumulated(s, a, k + 1) == Accumulated(s, a, c) * 10 + (s[k] - '0' as int)
    ensures Accumulated(s, a, k + 1) <= Accumulated(s, a, t)
  {
    PollsBefore(s, a, t, c, k);
    AppendAssoc(ReadCalls(s, a, c), GetcharPolls(k - c), [GetcharCall]);
    AccumulatedGrows(s, a, k + 1, t);
  }

  /** Any other byte that is not the end is skipped. */
  lemma ReadSkip(s: seq<int>, a: nat, t: nat, c: nat, k: nat)
    requires a <= c <= |s| && FirstEnd(s, a, a) == Some(t) && c <= t
    requires FirstReady(s, c) == Some(k) && !IsDigit(s[k])
    requires !(IsNewline(s[k]) && Digits(s, a, c) != [])
    ensures k + 1 <= t
    ensures Digits(s, a, k + 1) == Digits(s, a, c) && Accumulated(s, a, k + 1) == Accumulated(s, a, c)
    ensures ReadCalls(s, a, k + 1) == ReadCalls(s, a, c) + GetcharPolls(k + 1 - c)
  {
    PollsBefore(s, a, t, c, k);
    AppendAssoc(ReadCalls(s, a, c), GetcharPolls(k - c), [GetcharCall]);
  }

  /** A CR or LF after a digit is the answer `t` that ends the read: the
      polls before it and its own, then the CR LF echo. */
  lemma ReadStop(s: seq<int>, a: nat, t: nat, c: nat, k: nat)
    requires a <= c <= |s| && FirstEnd(s, a, a) == Some(t) && c <= t
    requires FirstReady(s, c) == Some(k) && IsNewline(s[k]) && Digits(s, a, c) != []
    ensures k == t && Digits(s, a, t) == Digits(s, a, c) && Accumulated(s, a, t) == Accumulated(s, a, c)
    ensures ReadCalls(s, a, t) + [GetcharCall, PutcharCall(CR), PutcharCall(LF)] ==
      ((ReadCalls(s, a, c) + GetcharPolls(k + 1 - c)) + [PutcharCall(CR)]) + [PutcharCall(LF)]
  {
    PollsBefore(s, a, t, c, k);
    FirstEndIsFirst(s, a, a);
    assert EndsRead(s, a, k);
    var rc, polls := ReadCalls(s, a, c), GetcharPolls(k - c);
    SnocThree(rc + polls, GetcharCall, PutcharCall(CR), PutcharCall(LF));
    AppendAssoc(rc, polls, [GetcharCall]);
  }

  /** `read_int`: echoes and accumulates digits, ignores every other byte, and
      returns at the first CR or LF that follows a digit, echoing CR LF. The
      C `int` accumulator must not overflow. */
  method ReadInt(fw: Firmware) returns (result: int)
    requires fw.Valid()
    requires ReadOutcome(fw.input, fw.pos).Some? && ReadOutcome(fw.input, fw.pos).value.value <= INT_MAX
    modifies fw
    ensures fw.Valid()
    ensures 0 <= result
    ensures var r := ReadOutcome(fw.input, old(fw.pos)).value;
      result == r.value && fw.out == old(fw.out) + r.echo &&
      fw.calls == old(fw.calls) + r.calls && fw.pos == old(fw.pos) + r.used
    ensures fw.replies == old(fw.replies)
  {
    ghost var s, a, out0, calls0 := fw.input, fw.pos, fw.out, fw.calls;
    ghost var t := FirstEnd(s, a, a).value;
    AccumulatedIsValue(s, a, t);
    AccumulatedGrows(s, a, a, t);
    result := 0;
    var gotDigit := false;
    while true
      invariant fw.Valid()
      invariant a <= fw.pos <= t
      invariant result == Accumulated(s, a, fw.pos) && 0 <= result <= Accumulated(s, a, t) <= INT_MAX
      invariant gotDigit == (Digits(s, a, fw.pos) != [])
      invariant fw.out == out0 + Digits(s, a, fw.pos) && fw.calls == calls0 + ReadCalls(s, a, fw.pos)
      invariant fw.replies == old(fw.replies)
      decreases |s| - fw.pos
    {
      ghost var c := fw.pos;
      FirstReadyFinds(s, c, t);
      ghost var k := FirstReady(s, c).value;
      ghost var done, issued, polls := Digits(s, a, c), ReadCalls(s, a, c), GetcharPolls(k + 1 - c);
      var ch := Getchar(fw);
      AppendAssoc(calls0, issued, polls);
      if '0' as int <= ch <= '9' as int {
        ReadDigit(s, a, t, c, k);
        Putchar(fw, ch);
        AppendAssoc(out0, done, [ch]);
        AppendAssoc(calls0, issued + polls, [PutcharCall(ch)]);
        result := result * 10 + (ch - '0' as int);
        gotDigit := true;
      } else if (ch == CR || ch == LF) && gotDigit {
        ReadStop(s, a, t, c, k);
        Putchar(fw, CR);
        Putchar(fw, LF);
        AppendAssoc(out0, done, [CR, LF]);
        SnocTwo(out0 + done, CR, LF);
        AppendAssoc(calls0, issued + polls, [PutcharCall(CR)]);
        AppendAssoc(calls0, (issued + polls) + [PutcharCall(CR)], [PutcharCall(LF)]);
        return;
      } else {
        ReadSkip(s, a, t, c, k);
      }
    }
  }

  /** `read_int` stops at the first answer that ends a read and nowhere else. */
  lemma FirstEndAt(s: seq<int>, a: nat, t: nat)
    requires EndsRead(s, a, t) && forall j :: a <= j < t ==> !EndsRead(s, a, j)
    ensures FirstEnd(s, a, a) == Some(t)
  {
    FirstEndIsFirst(s, a, a);
  }

  /** Over a run of digits at the front of `s`, the digits accumulated are that run. */
  lemma {:induction false} DigitsOfRun(s: seq<int>, ds: seq<int>, j: nat)
    requires ds <= s && j <= |ds|
    requires forall k :: 0 <= k < |ds| ==> IsDigit(ds[k])
    ensures Digits(s, 0, j) == ds[..j]
  {
    if j > 0 {
      DigitsOfRun(s, ds, j - 1);
      assert s[j - 1] == ds[j - 1];
      assert ds[..j] == ds[..j - 1] + [ds[j - 1]];
    }
  }

  /** A line of digits ended by LF reads as its decimal value, echoed with CR LF,
      whatever follows it. */
  lemma ReadsLine(ds: seq<int>, rest: seq<int>)
    requires ds != [] && forall k :: 0 <= k < |ds| ==> IsDigit(ds[k])
    ensures var r := ReadOutcome(ds + [LF] + rest, 0);
      r.Some? && r.value.value == DecValue(ds) && r.value.echo == ds + [CR, LF] && r.value.used == |ds| + 1
  {
    var s := ds + [LF] + rest;
    assert ds <= s;
    forall j | 0 <= j < |ds|
      ensures !EndsRead(s, 0, j)
    {
      assert s[j] == ds[j];
    }
    DigitsOfRun(s, ds, |ds|);
    assert ds[..|ds|] == ds;
    assert s[|ds|] == LF;
    FirstEndAt(s, 0, |ds|);
  }

  /** What `print_dec` prints for a non-negative value, followed by Enter,
      `read_int` reads back as that value. */
  lemma PrintedReadsBack(v: int, rest: seq<int>)
    requires v >= 0
    ensures var r := ReadOutcome(DecText(v) + [LF] + rest, 0);
      r.Some? && r.value.value == v && r.value.echo == DecText(v) + [CR, LF]
  {
    assert DecText(v) == DecDigits(v);
    ReadsLine(DecDigits(v), rest);
    DecRoundTrip(v);
  }

  /** Typing "42" and Enter reads 42, echoes "42" and CR LF, and consumes three answers. */
  lemma ReadsFortyTwo()
    ensures var r := ReadOutcome(Ascii("42\n"), 0);
      r.Some? && r.value.value == 42 && r.value.echo == Ascii("42") + [CR, LF] && r.value.used == 3
  {
    var ds := ['4' as int, '2' as int];
    assert Ascii("42\n") == ds + [LF] + [];
    ReadsLine(ds, []);
    assert DecValue(ds) == DecValueFrom(4, ['2' as int]) == 42;
  }

  /** A byte that is not a digit at the start of the read is read and
      dropped: digits, echo and calls are those of a read one answer later,
      after one more poll. */
  lemma {:induction false} ShiftedRead(s: seq<int>, a: nat, j: nat)
    requires a < j <= |s| && !IsDigit(s[a])
    ensures Digits(s, a, j) == Digits(s, a + 1, j)
    ensures ReadCalls(s, a, j) == [GetcharCall] + ReadCalls(s, a + 1, j)
    decreases j - a
  {
    if j > a + 1 {
      ShiftedRead(s, a, j - 1);
      AppendAssoc([GetcharCall], ReadCalls(s, a + 1, j - 1), [GetcharCall]);
      if IsDigit(s[j - 1]) {
        AppendAssoc([GetcharCall], ReadCalls(s, a + 1, j - 1) + [GetcharCall], [PutcharCall(s[j - 1])]);
      }
    }
  }

  /** Past a leading byte that is not a digit, both reads stop at the same answer. */
  lemma {:induction false} ShiftedEnd(s: seq<int>, a: nat, from: nat)
    requires a < from <= |s| && !IsDigit(s[a])
    ensures FirstEnd(s, a, from) == FirstEnd(s, a + 1, from)
    decreases |s| - from
  {
    if from < |s| {
      ShiftedRead(s, a, from);
      ShiftedEnd(s, a, from + 1);
    }
  }

  /** A leading byte that is not a digit, a CR or LF before any digit
      included, changes nothing `read_int` returns or echoes: it only costs
      one more poll. */
  lemma ReadSkipsLeading(s: seq<int>, a: nat)
    requires a < |s| && !IsDigit(s[a])
    ensures ReadOutcome(s, a).Some? <==> ReadOutcome(s, a + 1).Some?
    ensures ReadOutcome(s, a + 1).Some? ==>
      var x, y := ReadOutcome(s, a).value, ReadOutcome(s, a + 1).value;
      x.value == y.value && x.echo == y.echo && x.used == y.used + 1 &&
      x.calls == [GetcharCall] + y.calls
  {
    assert !EndsRead(s, a, a);
    ShiftedEnd(s, a, a + 1);
    match FirstEnd(s, a + 1, a + 1)
    case None =>
    case Some(t) =>
      ShiftedRead(s, a, t);
      AppendAssoc([GetcharCall], ReadCalls(s, a + 1, t), [GetcharCall, PutcharCall(CR), PutcharCall(LF)]);
  }

  // ---------------------------------------------------------------- numbers

  /** What `print_hex` prints: "0x" and the low 32 bits in lower-case
      hexadecimal, without leading zeros. */
  function HexText(val: int): seq<int>
    requires 0 <= val
  {
    Ascii("0x") + HexDigits(val % LOW32_MODULUS)
  }

  /** What `print_hex` prints reads back: "0x", then a numeral of the low 32 bits. */
  lemma HexTextReadsBack(val: int)
    requires 0 <= val
    ensures var t := HexText(val);
      |t| >= 3 && t[..2] == Ascii("0x") &&
      (forall k :: 2 <= k < |t| ==> IsHexChar(t[k])) &&
      HexValue(t[2..]) == val % LOW32_MODULUS
  {
    var t := HexText(val);
    assert t[2..] == HexDigits(val % LOW32_MODULUS);
    HexRoundTrip(val % LOW32_MODULUS);
  }

  /** Only the low 32 bits are printed, leading zeros suppressed: 0x2000000
      prints in full, and 0x100000000 as "0x0". */
  lemma HexTextExamples()
    ensures HexText(0x200_0000) == Ascii("0x2000000")
    ensures HexText(0x1_0000_0000) == Ascii("0x0")
  {
    var z, two := '0' as int, '2' as int;
    assert HexDigits(0x2) == [two];
    assert HexDigits(0x20) == [two, z];
    assert HexDigits(0x200) == [two, z, z];
    assert HexDigits(0x2000) == [two, z, z, z];
    assert HexDigits(0x2_0000) == [two, z, z, z, z];
    assert HexDigits(0x20_0000) == [two, z, z, z, z, z];
    assert HexDigits(0x200_0000) == [two, z, z, z, z, z, z];
    assert Ascii("0x2000000") == Ascii("0x") + [two, z, z, z, z, z, z];
    assert Ascii("0x0") == Ascii("0x") + [z];
  }

  /** The digits `print_hex` has printed once the number above the current
      nibble is `hi`: none until a non-zero nibble has been seen. */
  function Shown(hi: nat, started: bool): seq<int> {
    if started then HexDigits(hi) else []
  }

  /** One nibble of `print_hex`'s loop: `hi` is the number above the nibble,
      `digit` the nibble. The nibble is printed when it is non-zero, when an
      earlier nibble was, or when it is the last; the nibbles printed so far
      always spell the number above the next nibble without leading zeros. */
  lemma HexEmit(hi: nat, digit: nat, started: bool, last: bool)
    requires digit < 16 && started == (hi > 0)
    ensures (started || digit != 0) == (hi * 16 + digit > 0)
    ensures started || digit != 0 || last ==>
      Shown(hi * 16 + digit, true) == Shown(hi, started) + [HexChar(digit)]
  {
    HexDigitsSnoc(hi, digit);
  }

  lemma PutcharCallsSnoc(bs: seq<int>, c: int)
    ensures PutcharCalls(bs + [c]) == PutcharCalls(bs) + [PutcharCall(c)]
  {
    PutcharCallsAppend(bs, [c]);
  }

  /** `print_hex`: "0x", then the nibbles of bits 31..0 from the top,
      skipping zeros until the first non-zero nibble or the last one. */
  method PrintHex(fw: Firmware, val: int)
    requires fw.Valid()
    requires 0 <= val < ULONG_MODULUS
    modifies fw
    ensures fw.Valid()
    ensures fw.out == old(fw.out) + HexText(val)
    ensures fw.calls == old(fw.calls) + PutcharCalls(HexText(val))
    ensures fw.pos == old(fw.pos) && fw.replies == old(fw.replies)
  {
    Puts(fw, "0x");
    ghost var outPre, callsPre := fw.out, fw.calls;
    ghost var hi := 0;
    ghost var shown: seq<int> := [];
    var started := false;
    var i := 28;
    HexTop(val, i);
    ghost var left, top := 8, 32;
    while i >= 0
      invariant i == 4 * left - 4 && 0 <= left <= 8 && top == i + 4
      invariant hi == ShiftRight(val % LOW32_MODULUS, top)
      invariant left > 0 ==> started == (hi > 0)
      invariant left == 0 ==> started
      invariant shown == Shown(hi, started)
      invariant fw.Valid()
      invariant fw.out == outPre + shown
      invariant fw.calls == callsPre + PutcharCalls(shown)
      invariant fw.pos == old(fw.pos) && fw.replies == old(fw.replies)
      decreases i
    {
      started, hi, shown := HexNibble(fw, val, i, left, started, hi, shown, outPre, callsPre);
      top := i;
      i := i - 4;
      left := left - 1;
    }
    HexTextSplit(old(fw.out), old(fw.calls), val);
  }

  /** One pass of `print_hex`'s loop, at bit `i`: the nibble `(val >> i) & 0xF`
      is printed when it is non-zero, when an earlier nibble was, or when it is
      the last; the nibbles printed so far spell the number above bit `i`
      without leading zeros. */
  method HexNibble(fw: Firmware, val: nat, i: nat, ghost left: nat, started: bool, ghost hi: nat, ghost shown: seq<int>,
                   ghost outPre: seq<int>, ghost callsPre: seq<SbiCall>)
      returns (started': bool, ghost hi': nat, ghost shown': seq<int>)
    requires fw.Valid() && i <= 28 && i == 4 * left - 4
    requires hi == ShiftRight(val % LOW32_MODULUS, i + 4) && started == (hi > 0)
    requires shown == Shown(hi, started)
    requires fw.out == outPre + shown && fw.calls == callsPre + PutcharCalls(shown)
    modifies fw
    ensures hi' == ShiftRight(val % LOW32_MODULUS, i)
    ensures left - 1 > 0 ==> started' == (hi' > 0)
    ensures left - 1 == 0 ==> started'
    ensures shown' == Shown(hi', started')
    ensures fw.Valid()
    ensures fw.out == outPre + shown' && fw.calls == callsPre + PutcharCalls(shown')
    ensures fw.pos == old(fw.pos) && fw.replies == old(fw.replies)
  {
    var digit := ShiftRight(val, i) % 16;
    NibbleNext(val, i, hi);
    HexEmit(hi, digit, started, i == 0);
    hi', started', shown' := hi * 16 + digit, started, shown;
    if digit != 0 || started || i == 0 {
      Putchar(fw, HexChar(digit));
      AppendAssoc(outPre, shown, [HexChar(digit)]);
      PutcharCallsSnoc(shown, HexChar(digit));
      AppendAssoc(callsPre, PutcharCalls(shown), [PutcharCall(HexChar(digit))]);
      started', shown' := true, shown + [HexChar(digit)];
    }
  }

  /** The number above bit i is the number above bit i+4 followed by the
      nibble `(val >> i) & 0xF`, and that nibble is one of the low 32 bits. */
  lemma NibbleNext(val: nat, i: nat, hi: nat)
    requires i <= 28 && hi == ShiftRight(val % LOW32_MODULUS, i + 4)
    ensures ShiftRight(val % LOW32_MODULUS, i) == hi * 16 + ShiftRight(val, i) % 16
  {
    ShiftRightIsDiv(val % LOW32_MODULUS, i + 4);
    ShiftRightIsDiv(val % LOW32_MODULUS, i);
    ShiftRightIsDiv(val, i);
    NibbleOfLow32(val, i);
    NibbleStep(val % LOW32_MODULUS, i);
  }

  /** Nothing lies above bit 31 of the low 32 bits. */
  lemma HexTop(val: nat, i: nat)
    requires i == 28
    ensures ShiftRight(val % LOW32_MODULUS, i + 4) == 0
  {
    ShiftRightIsDiv(val % LOW32_MODULUS, i + 4);
    Pow2At32();
  }

  lemma HexTextSplit(outBase: seq<int>, callsBase: seq<SbiCall>, val: nat)
    ensures outBase + HexText(val) == (outBase + PutsBytes("0x")) + HexDigits(val % LOW32_MODULUS)
    ensures callsBase + PutcharCalls(HexText(val)) ==
      (callsBase + PutcharCalls(PutsBytes("0x"))) + PutcharCalls(HexDigits(val % LOW32_MODULUS))
  {
    PutsPlain("0x");
    PutcharCallsAppend(Ascii("0x"), HexDigits(val % LOW32_MODULUS));
  }

  /** A number below 10^12 has at most twelve digits: it fits `print_dec`'s buffer. */
  lemma LowDigitsFit(n: nat)
    requires n < 1_000_000_000_000
    ensures |LowDigits(n)| <= 12
  {
    assert Pow10(12) == 1_000_000_000_000;
    LowDigitsBound(n, 12);
  }

  /** The first loop of `print_dec`: stores the digits of `v` in `buf`, least
      significant first, and returns how many it stored. */
  method StoreDigits(buf: array<int>, v: nat) returns (i: nat)
    requires |LowDigits(v)| <= buf.Length
    modifies buf
    ensures i <= buf.Length && buf[..i] == LowDigits(v)
  {
    ghost var low := LowDigits(v);
    ghost var pending := low;
    var v := v;
    i := 0;
    while i == 0 || v > 0
      invariant i <= buf.Length
      invariant buf[..i] + pending == low
      invariant pending == [] <==> (i > 0 && v == 0)
      invariant pending != [] ==> pending == LowDigits(v)
      decreases buf.Length - i
    {
      LowDigitsHead(v);
      ghost var before := buf[..i];
      buf[i] := '0' as int + v % 10;
      assert buf[..i + 1] == before + [pending[0]];
      ShiftHead(before, pending);
      i := i + 1;
      v := v / 10;
      pending := pending[1..];
    }
  }

  lemma LowDigitsHead(v: nat)
    ensures LowDigits(v) == [DecChar(v % 10)] + (if v / 10 > 0 then LowDigits(v / 10) else [])
  {
  }

  lemma ShiftHead(a: seq<int>, p: seq<int>)
    requires p != []
    ensures (a + [p[0]]) + p[1..] == a + p
  {
  }

  /** One byte of the second loop of `print_dec`: sending `low[i - 1]` extends
      the output by the next digit of the reversed buffer. */
  lemma SendStep(outBase: seq<int>, callsBase: seq<SbiCall>, sign: seq<int>, low: seq<int>, i: nat)
    requires 0 < i <= |low|
    ensures outBase + (sign + Reverse(low[i - 1..])) == (outBase + (sign + Reverse(low[i..]))) + [low[i - 1]]
    ensures callsBase + PutcharCalls(sign + Reverse(low[i - 1..])) ==
      (callsBase + PutcharCalls(sign + Reverse(low[i..]))) + [PutcharCall(low[i - 1])]
  {
    assert low[i - 1..][1..] == low[i..];
    assert sign + Reverse(low[i - 1..]) == (sign + Reverse(low[i..])) + [low[i - 1]];
    PutcharCallsAppend(sign + Reverse(low[i..]), [low[i - 1]]);
  }

  /** `print_dec` prints the sign and then the reversed buffer. */
  lemma DecTextSplit(val: int, mag: nat)
    requires mag == (if val < 0 then -val else val)
    ensures DecText(val) == (if val < 0 then ['-' as int] else []) + Reverse(LowDigits(mag))
  {
    LowDigitsReversed(mag);
  }

  /** `print_dec`: a '-' for a negative value, then the digits of its
      magnitude, stored least significant first in the buffer and sent most
      significant first. Its buffer holds twelve digits, so it is defined
      only below 10^12 in magnitude (which also keeps `-val` clear of
      LONG_MIN). */
  method PrintDec(fw: Firmware, val: int)
    requires fw.Valid()
    requires (if val < 0 then -val else val) < 1_000_000_000_000
    modifies fw
    ensures fw.Valid()
    ensures fw.out == old(fw.out) + DecText(val)
    ensures fw.calls == old(fw.calls) + PutcharCalls(DecText(val))
    ensures fw.pos == old(fw.pos) && fw.replies == old(fw.replies)
  {
    var v: nat;
    if val < 0 {
      Putchar(fw, '-' as int);
      v := -val;
    } else {
      v := val;
    }
    ghost var sign := if val < 0 then ['-' as int] else [];
    var buf := new int[12];
    LowDigitsFit(v);
    var i := StoreDigits(buf, v);
    ghost var low := buf[..i];
    ghost var n := i;
    assert low[n..] == [];
    while i > 0
      invariant 0 <= i <= n && buf[..n] == low
      invariant fw.Valid()
      invariant fw.out == old(fw.out) + (sign + Reverse(low[i..]))
      invariant fw.calls == old(fw.calls) + PutcharCalls(sign + Reverse(low[i..]))
      invariant fw.pos == old(fw.pos) && fw.replies == old(fw.replies)
      modifies fw
    {
      SendStep(old(fw.out), old(fw.calls), sign, low, i);
      i := i - 1;
      assert buf[i] == low[i];
      Putchar(fw, buf[i]);
    }
    assert low[0..] == low;
    DecTextSplit(val, v);
  }
}
