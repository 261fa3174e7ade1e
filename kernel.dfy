/** The command layer of lab1/kernel.c: the four menu commands, the menu and
    one pass of `main`'s loop, each over the firmware it issues its ecalls to. */
module Kernel {
  import opened Sbi
  import opened Text
  import opened Numerals
  import opened Machine
  import opened Console

  // ---------------------------------------------------------------- effects

  /** What a command does: the bytes it writes to the console, the ecalls it
      issues in order, how many Console Getchar answers it consumes and how
      many replies of non-console calls it uses. */
  datatype Effect = Effect(out: seq<int>, calls: seq<SbiCall>, used: nat, answered: nat)

  /** `a`, then `b`. */
  function Then(a: Effect, b: Effect): Effect {
    Effect(a.out + b.out, a.calls + b.calls, a.used + b.used, a.answered + b.answered)
  }

  /** The calls among `calls` that the console does not serve: the selector
      pairs a command issues to the firmware. */
  function Selectors(calls: seq<SbiCall>): seq<SbiCall> {
    if calls == [] then []
    else
      var last := calls[|calls| - 1];
      Selectors(calls[..|calls| - 1]) + (if IsConsole(last.eid) then [] else [last])
  }

  lemma {:induction false} SelectorsAppend(a: seq<SbiCall>, b: seq<SbiCall>)
    ensures Selectors(a + b) == Selectors(a) + Selectors(b)
  {
    if b == [] {
      assert a + b == a;
    } else {
      var ab := a + b;
      assert ab[..|ab| - 1] == a + b[..|b| - 1];
      assert ab[|ab| - 1] == b[|b| - 1];
      SelectorsAppend(a, b[..|b| - 1]);
    }
  }

  /** A call the console serves adds no selector. */
  lemma SelectorsSnoc(a: seq<SbiCall>, c: SbiCall)
    requires IsConsole(c.eid)
    ensures Selectors(a + [c]) == Selectors(a)
  {
    SelectorsAppend(a, [c]);
    assert Selectors([c]) == [];
    assert Selectors(a) + [] == Selectors(a);
  }

  /** Console traffic on either side of a call leaves that call the only selector. */
  lemma SelectorsAround(pre: seq<SbiCall>, c: SbiCall, post: seq<SbiCall>)
    requires Selectors(pre) == [] && Selectors(post) == [] && !IsConsole(c.eid)
    ensures Selectors((pre + [c]) + post) == [c]
  {
    SelectorsAppend(pre + [c], post);
    SelectorsAppend(pre, [c]);
    assert Selectors([c]) == [c];
    assert [] + [c] == [c];
    assert [c] + [] == [c];
  }

  /** Console traffic before `b` adds no selector. */
  lemma SelectorsAfterConsole(a: seq<SbiCall>, b: seq<SbiCall>)
    requires Selectors(a) == []
    ensures Selectors(a + b) == Selectors(b)
  {
    SelectorsAppend(a, b);
    assert [] + Selectors(b) == Selectors(b);
  }

  /** Console traffic after `a` adds no selector. */
  lemma SelectorsBeforeConsole(a: seq<SbiCall>, b: seq<SbiCall>)
    requires Selectors(b) == []
    ensures Selectors(a + b) == Selectors(a)
  {
    SelectorsAppend(a, b);
    assert Selectors(a) + [] == Selectors(a);
  }

  /** Console output issues no selector. */
  lemma {:induction false} SelectorsOfPutchars(bs: seq<int>)
    ensures Selectors(PutcharCalls(bs)) == []
  {
    if bs != [] {
      assert PutcharCalls(bs)[..|bs| - 1] == PutcharCalls(bs[..|bs| - 1]);
      SelectorsOfPutchars(bs[..|bs| - 1]);
    }
  }

  /** Console polls issue no selector. */
  lemma {:induction false} SelectorsOfPolls(k: nat)
    ensures Selectors(GetcharPolls(k)) == []
  {
    if k > 0 {
      SelectorsOfPolls(k - 1);
      SelectorsSnoc(GetcharPolls(k - 1), GetcharCall);
    }
  }

  /** Reading a number issues no selector. */
  lemma {:induction false} SelectorsOfRead(s: seq<int>, a: nat, n: nat)
    requires a <= n <= |s|
    ensures Selectors(ReadCalls(s, a, n)) == []
    decreases n - a
  {
    if n > a {
      var before := ReadCalls(s, a, n - 1);
      SelectorsOfRead(s, a, n - 1);
      SelectorsSnoc(before, GetcharCall);
      if IsDigit(s[n - 1]) {
        SelectorsSnoc(before + [GetcharCall], PutcharCall(s[n - 1]));
        assert ReadCalls(s, a, n) == (before + [GetcharCall]) + [PutcharCall(s[n - 1])];
      } else {
        assert ReadCalls(s, a, n) == before + [GetcharCall];
      }
    }
  }

  /** Writing `more` after `done` keeps the output and the trace in step. */
  lemma Extend(out0: seq<int>, calls0: seq<SbiCall>, done: seq<int>, more: seq<int>)
    ensures out0 + (done + more) == (out0 + done) + more
    ensures calls0 + PutcharCalls(done + more) == (calls0 + PutcharCalls(done)) + PutcharCalls(more)
  {
    PutcharCallsAppend(done, more);
  }

  /** A command that writes `pre`, issues `call` and writes `post`. */
  lemma AroundCall(calls0: seq<SbiCall>, pre: seq<SbiCall>, call: SbiCall, post: seq<SbiCall>)
    ensures calls0 + ((pre + [call]) + post) == ((calls0 + pre) + [call]) + post
  {
    AppendAssoc(calls0, pre + [call], post);
    AppendAssoc(calls0, pre, [call]);
  }

  /** `print_dec` prints `v` only if it fits its 12-byte buffer. */
  predicate Printable(v: int) {
    (if v < 0 then -v else v) < 1_000_000_000_000
  }

  // ---------------------------------------------------------------- get impl version

  /** What `cmd_get_impl_version` prints for the reply `r`, as it reaches
      the console: the version in decimal, then in parentheses the low 32
      bits of its unsigned reading in hexadecimal, then CR LF. */
  function ImplVersionText(r: SbiRet): seq<int> {
    Ascii("SBI implementation version: ") + DecText(r.value) + Ascii(" (") +
      HexText(UValue(r)) + Ascii(")") + [CR, LF]
  }

  /** Base extension, function 2 (section 4.3 of the SBI specification), then the text. */
  function ImplVersionEffect(r: SbiRet): Effect {
    Effect(ImplVersionText(r), [ImplVersionCall] + PutcharCalls(ImplVersionText(r)), 0, 1)
  }

  /** `cmd_get_impl_version`: asks the firmware for its implementation
      version and prints it in decimal and, in parentheses, the low 32 bits
      of its unsigned reading in hexadecimal. */
  method GetImplVersion(fw: Firmware)
    requires fw.Valid() && |fw.replies| > 0 && Printable(fw.replies[0].value)
    modifies fw
    ensures fw.Valid()
    ensures var e := ImplVersionEffect(old(fw.replies)[0]);
      fw.out == old(fw.out) + e.out && fw.calls == old(fw.calls) + e.calls &&
      fw.pos == old(fw.pos) && fw.replies == old(fw.replies)[e.answered..]
  {
    var ret := fw.Ecall(ImplVersionCall);
    ghost var out0, calls0 := fw.out, fw.calls;
    VersionWords();
    ghost var done := Ascii("SBI implementation version: ");
    Puts(fw, "SBI implementation version: ");
    PrintDec(fw, ret.value);
    Extend(out0, calls0, done, DecText(ret.value));
    done := done + DecText(ret.value);
    Puts(fw, " (");
    Extend(out0, calls0, done, Ascii(" ("));
    done := done + Ascii(" (");
    PrintHex(fw, UValue(ret));
    Extend(out0, calls0, done, HexText(UValue(ret)));
    done := done + HexText(UValue(ret));
    Puts(fw, ")\n");
    Extend(out0, calls0, done, Ascii(")") + [CR, LF]);
    AppendAssoc(done, Ascii(")"), [CR, LF]);
    AppendAssoc(old(fw.calls), [ImplVersionCall], PutcharCalls(ImplVersionText(ret)));
  }

  /** The fixed words of the version line, as `puts` sends them. */
  lemma VersionWords()
    ensures PutsBytes("SBI implementation version: ") == Ascii("SBI implementation version: ")
    ensures PutsBytes(" (") == Ascii(" (")
    ensures PutsBytes(")\n") == Ascii(")") + [CR, LF]
  {
    PutsPlain("SBI implementation version: ");
    PutsPlain(" (");
    assert ")\n" == ")" + "\n";
    PutsLine(")");
  }

  /** A version of -1 prints as -1, and its unsigned reading, the low 32
      bits of 2^64 - 1, as 0xffffffff. */
  lemma ImplVersionOfMinusOne()
    ensures ImplVersionText(SbiRet(0, -1)) ==
      Ascii("SBI implementation version: ") + Ascii("-1") + Ascii(" (") + Ascii("0x") + Ascii("ffffffff") + Ascii(")") + [CR, LF]
  {
    MinusOneNumerals();
    var head := Ascii("SBI implementation version: ") + Ascii("-1") + Ascii(" (");
    AppendAssoc(head, Ascii("0x"), Ascii("ffffffff"));
  }

  /** -1 in decimal, and the low 32 bits of its unsigned reading in hexadecimal. */
  lemma MinusOneNumerals()
    ensures UValue(SbiRet(0, -1)) % LOW32_MODULUS == 0xffff_ffff
    ensures DecText(-1) == Ascii("-1")
    ensures HexDigits(0xffff_ffff) == Ascii("ffffffff")
  {
    assert DecDigits(1) == ['1' as int];
    assert Ascii("-1") == ['-' as int, '1' as int];
    var f := 'f' as int;
    assert HexDigits(0xf) == [f];
    assert HexDigits(0xff) == [f, f];
    assert HexDigits(0xfff) == [f, f, f];
    assert HexDigits(0xffff) == [f, f, f, f];
    assert HexDigits(0xf_ffff) == [f, f, f, f, f];
    assert HexDigits(0xff_ffff) == [f, f, f, f, f, f];
    assert HexDigits(0xfff_ffff) == [f, f, f, f, f, f, f];
    assert HexDigits(0xffff_ffff) == [f, f, f, f, f, f, f, f];
    assert Ascii("ffffffff") == [f, f, f, f, f, f, f, f];
  }

  // ---------------------------------------------------------------- hart get status

  /** The error line `cmd_hart_get_status` and `cmd_hart_stop` print: the
      name of the error after "Error: ", and a bare LF. */
  function ErrorLine(error: int): seq<int> {
    Ascii("Error: ") + Ascii(ErrStr(error)) + [LF]
  }

  /** The words that follow "status: ": the state's name, or UNKNOWN and the
      value in decimal. */
  function StateText(value: int): seq<int> {
    if IsHartState(value) then Ascii(HartStateName(value))
    else Ascii("UNKNOWN (") + DecText(value) + [')' as int]
  }

  /** What `cmd_hart_get_status` prints once it has the reply `r` for `hartid`. */
  function StatusReport(hartid: int, r: SbiRet): seq<int> {
    if r.error != SBI_SUCCESS then ErrorLine(r.error)
    else Ascii("Hart ") + DecText(hartid) + Ascii(" status: ") + StateText(r.value) + [LF]
  }

  /** The reply can be reported: `print_dec` is only reached for a value
      that names no state. */
  predicate StatusPrintable(r: SbiRet) {
    r.error != SBI_SUCCESS || IsHartState(r.value) || Printable(r.value)
  }

  /** Prompt, read the hart id, HSM function 2 (section 9.3 of the SBI
      specification) with the id in a0, then the report. */
  function HartStatusEffect(input: seq<int>, pos: nat, r: SbiRet): (e: Effect)
    requires pos <= |input| && ReadOutcome(input, pos).Some?
    ensures pos + e.used <= |input|
  {
    var rd := ReadOutcome(input, pos).value;
    var prompt := Ascii("Enter hart id: ");
    var report := StatusReport(rd.value, r);
    Effect((prompt + rd.echo) + report,
      ((PutcharCalls(prompt) + rd.calls) + [HartStatusCall(rd.value)]) + PutcharCalls(report),
      rd.used, 1)
  }

  /** `cmd_hart_get_status`. */
  method HartGetStatus(fw: Firmware)
    requires fw.Valid()
    requires ReadOutcome(fw.input, fw.pos).Some? && ReadOutcome(fw.input, fw.pos).value.value <= INT_MAX
    requires |fw.replies| > 0 && StatusPrintable(fw.replies[0])
    modifies fw
    ensures fw.Valid()
    ensures var e := HartStatusEffect(fw.input, old(fw.pos), old(fw.replies)[0]);
      fw.out == old(fw.out) + e.out && fw.calls == old(fw.calls) + e.calls &&
      fw.pos == old(fw.pos) + e.used && fw.replies == old(fw.replies)[e.answered..]
  {
    ghost var rd := ReadOutcome(fw.input, fw.pos).value;
    ghost var prompt := Ascii("Enter hart id: ");
    PromptWords();
    Puts(fw, "Enter hart id: ");
    var hartid := ReadInt(fw);
    var ret := fw.Ecall(HartStatusCall(hartid));
    ghost var out1, calls1 := fw.out, fw.calls;
    ghost var done: seq<int>;
    if ret.error != SBI_SUCCESS {
      ErrorWords(ret.error);
      Puts(fw, "Error: ");
      Puts(fw, ErrStr(ret.error));
      Extend(out1, calls1, Ascii("Error: "), Ascii(ErrStr(ret.error)));
      Putchar(fw, LF);
      ExtendChar(out1, calls1, Ascii("Error: ") + Ascii(ErrStr(ret.error)), LF);
    } else {
      StatusWords();
      Puts(fw, "Hart ");
      PrintDec(fw, hartid);
      Extend(out1, calls1, Ascii("Hart "), DecText(hartid));
      done := Ascii("Hart ") + DecText(hartid);
      Puts(fw, " status: ");
      Extend(out1, calls1, done, Ascii(" status: "));
      done := done + Ascii(" status: ");
      if 0 <= ret.value <= 6 {
        HartStateNames(ret.value);
        PutsPlain(HartStateName(ret.value));
        Puts(fw, HartStateName(ret.value));
        Extend(out1, calls1, done, Ascii(HartStateName(ret.value)));
      } else {
        Puts(fw, "UNKNOWN (");
        Extend(out1, calls1, done, Ascii("UNKNOWN ("));
        PrintDec(fw, ret.value);
        Extend(out1, calls1, done + Ascii("UNKNOWN ("), DecText(ret.value));
        Putchar(fw, ')' as int);
        ExtendChar(out1, calls1, (done + Ascii("UNKNOWN (")) + DecText(ret.value), ')' as int);
        AppendAssoc(done, Ascii("UNKNOWN (") + DecText(ret.value), [')' as int]);
        AppendAssoc(done, Ascii("UNKNOWN ("), DecText(ret.value));
      }
      done := done + StateText(ret.value);
      Putchar(fw, LF);
      ExtendChar(out1, calls1, done, LF);
    }
    ghost var report := StatusReport(hartid, ret);
    AppendAssoc(old(fw.out), prompt + rd.echo, report);
    AppendAssoc(old(fw.out), prompt, rd.echo);
    AroundCall(old(fw.calls), PutcharCalls(prompt) + rd.calls, HartStatusCall(hartid), PutcharCalls(report));
    AppendAssoc(old(fw.calls), PutcharCalls(prompt), rd.calls);
  }

  /** The prompt for the hart id, as `puts` sends it. */
  lemma PromptWords()
    ensures PutsBytes("Enter hart id: ") == Ascii("Enter hart id: ")
  {
    PutsPlain("Enter hart id: ");
  }

  /** The fixed words of the status report, as `puts` sends them. */
  lemma StatusWords()
    ensures PutsBytes("Hart ") == Ascii("Hart ")
    ensures PutsBytes(" status: ") == Ascii(" status: ")
    ensures PutsBytes("UNKNOWN (") == Ascii("UNKNOWN (")
  {
    PutsPlain("Hart ");
    PutsPlain(" status: ");
    PutsPlain("UNKNOWN (");
  }

  /** The words of an error line, as `puts` sends them. */
  lemma ErrorWords(error: int)
    ensures PutsBytes("Error: ") == Ascii("Error: ")
    ensures PutsBytes(ErrStr(error)) == Ascii(ErrStr(error))
  {
    PutsPlain("Error: ");
    ErrStrPlain(error);
    PutsPlain(ErrStr(error));
  }

  /** On an error the report is the error's name, which names the code back
      (or is UNKNOWN for a code outside the standard table), and no "Hart"
      status line is printed. */
  lemma StatusOnError(hartid: int, r: SbiRet)
    requires r.error != SBI_SUCCESS
    ensures ErrorCode(ErrStr(r.error)) == if IsKnownError(r.error) then Some(r.error) else None
    ensures !(Ascii("Hart ") <= StatusReport(hartid, r))
  {
    ErrStrNames(r.error);
    assert StatusReport(hartid, r)[0] == 'E' as int;
  }

  /** Typing "0" and Enter when hart 0 is stopped: the digit is echoed
      with CR LF, hart 0 is asked for, and it is reported as STOPPED. */
  lemma HartStatusOfStoppedHart()
    ensures ReadOutcome(['0' as int, LF], 0).Some?
    ensures var e := HartStatusEffect(['0' as int, LF], 0, SbiRet(0, 1));
      e.out == Ascii("Enter hart id: ") + ['0' as int, CR, LF] +
        Ascii("Hart ") + ['0' as int] + Ascii(" status: ") + Ascii("STOPPED") + [LF] &&
      Selectors(e.calls) == [HartStatusCall(0)] && e.used == 2
  {
    var zero := ['0' as int];
    assert zero + [LF] + [] == ['0' as int, LF];
    ReadsLine(zero, []);
    assert DecValue(zero) == 0 by {
      assert DecValueFrom(0, zero) == DecValueFrom(0, []);
    }
    assert DecText(0) == zero;
    var prompt, hart, status, name := Ascii("Enter hart id: "), Ascii("Hart "), Ascii(" status: "), Ascii("STOPPED");
    var front := prompt + ['0' as int, CR, LF];
    assert front == prompt + (zero + [CR, LF]);
    AppendAssoc(front, hart + zero + status + name, [LF]);
    AppendAssoc(front, hart + zero + status, name);
    AppendAssoc(front, hart + zero, status);
    AppendAssoc(front, hart, zero);
    HartStatusSelectors(['0' as int, LF], 0, SbiRet(0, 1));
  }

  /** Reading a number talks to the console only. */
  lemma SelectorsOfReading(input: seq<int>, pos: nat)
    requires pos <= |input| && ReadOutcome(input, pos).Some?
    ensures Selectors(ReadOutcome(input, pos).value.calls) == []
  {
    var t := FirstEnd(input, pos, pos).value;
    var rc := ReadCalls(input, pos, t);
    SelectorsOfRead(input, pos, t);
    SelectorsSnoc(rc, GetcharCall);
    SelectorsSnoc(rc + [GetcharCall], PutcharCall(CR));
    SelectorsSnoc((rc + [GetcharCall]) + [PutcharCall(CR)], PutcharCall(LF));
    SnocThree(rc, GetcharCall, PutcharCall(CR), PutcharCall(LF));
  }

  /** Getting a status issues exactly HSM hart get status, with the id read in a0. */
  lemma HartStatusSelectors(input: seq<int>, pos: nat, r: SbiRet)
    requires pos <= |input| && ReadOutcome(input, pos).Some?
    ensures Selectors(HartStatusEffect(input, pos, r).calls) == [HartStatusCall(ReadOutcome(input, pos).value.value)]
  {
    var rd := ReadOutcome(input, pos).value;
    var prompt := PutcharCalls(Ascii("Enter hart id: "));
    var report := PutcharCalls(StatusReport(rd.value, r));
    SelectorsOfPutchars(Ascii("Enter hart id: "));
    SelectorsOfPutchars(StatusReport(rd.value, r));
    SelectorsOfReading(input, pos);
    SelectorsAfterConsole(prompt, rd.calls);
    SelectorsAround(prompt + rd.calls, HartStatusCall(rd.value), report);
  }

  // ---------------------------------------------------------------- hart stop

  /** HSM function 1 (section 9.2 of the SBI specification) between the
      announcement and the error line it prints if the call returns. */
  function HartStopEffect(r: SbiRet): Effect {
    var pre := Ascii("Stopping current hart...") + [CR, LF];
    Effect(pre + ErrorLine(r.error),
      (PutcharCalls(pre) + [HartStopCall]) + PutcharCalls(ErrorLine(r.error)), 0, 1)
  }

  /** `cmd_hart_stop`: announces the stop, issues HSM hart stop and, when
      the call returns, prints its error. */
  method HartStop(fw: Firmware)
    requires fw.Valid() && |fw.replies| > 0
    modifies fw
    ensures fw.Valid()
    ensures var e := HartStopEffect(old(fw.replies)[0]);
      fw.out == old(fw.out) + e.out && fw.calls == old(fw.calls) + e.calls &&
      fw.pos == old(fw.pos) && fw.replies == old(fw.replies)[e.answered..]
  {
    ghost var pre := Ascii("Stopping current hart...") + [CR, LF];
    StopWords();
    Puts(fw, "Stopping current hart...\n");
    var ret := fw.Ecall(HartStopCall);
    ghost var out1, calls1 := fw.out, fw.calls;
    ErrorWords(ret.error);
    Puts(fw, "Error: ");
    Puts(fw, ErrStr(ret.error));
    Extend(out1, calls1, Ascii("Error: "), Ascii(ErrStr(ret.error)));
    Putchar(fw, LF);
    ExtendChar(out1, calls1, Ascii("Error: ") + Ascii(ErrStr(ret.error)), LF);
    AppendAssoc(old(fw.out), pre, ErrorLine(ret.error));
    AroundCall(old(fw.calls), PutcharCalls(pre), HartStopCall, PutcharCalls(ErrorLine(ret.error)));
  }

  /** The announcement of `cmd_hart_stop`, as `puts` sends it. */
  lemma StopWords()
    ensures PutsBytes("Stopping current hart...\n") == Ascii("Stopping current hart...") + [CR, LF]
  {
    assert "Stopping current hart...\n" == "Stopping current hart..." + "\n";
    PutsLine("Stopping current hart...");
  }

  // ---------------------------------------------------------------- shutdown

  /** System Reset with type shutdown (section 10.1 of the SBI
      specification) between two lines: if the call returns, the shutdown
      failed. */
  function ShutdownEffect(): Effect {
    var pre, post := Ascii("System shutdown...") + [CR, LF], Ascii("Shutdown failed!") + [CR, LF];
    Effect(pre + post, (PutcharCalls(pre) + [ShutdownCall]) + PutcharCalls(post), 0, 1)
  }

  /** `cmd_shutdown`. */
  method Shutdown(fw: Firmware)
    requires fw.Valid() && |fw.replies| > 0
    modifies fw
    ensures fw.Valid()
    ensures var e := ShutdownEffect();
      fw.out == old(fw.out) + e.out && fw.calls == old(fw.calls) + e.calls &&
      fw.pos == old(fw.pos) && fw.replies == old(fw.replies)[e.answered..]
  {
    ghost var pre, post := Ascii("System shutdown...") + [CR, LF], Ascii("Shutdown failed!") + [CR, LF];
    ShutdownWords();
    Puts(fw, "System shutdown...\n");
    var _ := fw.Ecall(ShutdownCall);
    Puts(fw, "Shutdown failed!\n");
    AppendAssoc(old(fw.out), pre, post);
    AroundCall(old(fw.calls), PutcharCalls(pre), ShutdownCall, PutcharCalls(post));
  }

  /** The two lines of `cmd_shutdown`, as `puts` sends them. */
  lemma ShutdownWords()
    ensures PutsBytes("System shutdown...\n") == Ascii("System shutdown...") + [CR, LF]
    ensures PutsBytes("Shutdown failed!\n") == Ascii("Shutdown failed!") + [CR, LF]
  {
    assert "System shutdown...\n" == "System shutdown..." + "\n";
    assert "Shutdown failed!\n" == "Shutdown failed!" + "\n";
    PutsLine("System shutdown...");
    PutsLine("Shutdown failed!");
  }

  // ---------------------------------------------------------------- menu

  /** The strings `print_menu` passes to `puts`, in order. */
  function MenuLines(): seq<string> {
    ["\nMenu:\n", "1. Get SBI implementation version\n", "2. Hart get status\n",
     "3. Hart stop\n", "4. System Shutdown\n", "Select option: "]
  }

  /** What `puts` sends for each of `lines` in turn, when none holds a NUL. */
  function PutsEach(lines: seq<string>): seq<int> {
    if lines == [] then []
    else PutsEach(lines[..|lines| - 1]) + Crlf(Ascii(lines[|lines| - 1]))
  }

  /** All of `lines`, one after another. */
  function Joined(lines: seq<string>): string {
    if lines == [] then [] else Joined(lines[..|lines| - 1]) + lines[|lines| - 1]
  }

  /** Putting lines one at a time is putting them as one string: the text
      with CR LF line ends, which reads back as the text. */
  lemma {:induction false} PutsEachJoined(lines: seq<string>)
    ensures PutsEach(lines) == Crlf(Ascii(Joined(lines)))
    ensures UnCrlf(PutsEach(lines)) == Ascii(Joined(lines))
  {
    if lines != [] {
      var front, last := lines[..|lines| - 1], lines[|lines| - 1];
      PutsEachJoined(front);
      AsciiAppend(Joined(front), last);
      CrlfAppend(Ascii(Joined(front)), Ascii(last));
    }
    CrlfRoundTrip(Ascii(Joined(lines)));
  }

  lemma PutsEachSnoc(lines: seq<string>, line: string)
    ensures PutsEach(lines + [line]) == PutsEach(lines) + Crlf(Ascii(line))
  {
    assert (lines + [line])[..|lines|] == lines;
  }

  /** What `print_menu` prints. */
  function MenuText(): seq<int> {
    PutsEach(MenuLines())
  }

  /** `print_menu`: six `puts` calls. */
  method PrintMenu(fw: Firmware)
    requires fw.Valid()
    modifies fw
    ensures fw.Valid()
    ensures fw.out == old(fw.out) + MenuText() && fw.calls == old(fw.calls) + PutcharCalls(MenuText())
    ensures fw.pos == old(fw.pos) && fw.replies == old(fw.replies)
  {
    ghost var out0, calls0 := fw.out, fw.calls;
    ghost var l0, l1, l2 := "\nMenu:\n", "1. Get SBI implementation version\n", "2. Hart get status\n";
    ghost var l3, l4, l5 := "3. Hart stop\n", "4. System Shutdown\n", "Select option: ";
    MenuTitle();
    MenuOptions();
    MenuLast();
    ghost var done := Crlf(Ascii(l0));
    Puts(fw, "\nMenu:\n");
    Puts(fw, "1. Get SBI implementation version\n");
    Extend(out0, calls0, done, Crlf(Ascii(l1)));
    done := done + Crlf(Ascii(l1));
    Puts(fw, "2. Hart get status\n");
    Extend(out0, calls0, done, Crlf(Ascii(l2)));
    done := done + Crlf(Ascii(l2));
    Puts(fw, "3. Hart stop\n");
    Extend(out0, calls0, done, Crlf(Ascii(l3)));
    done := done + Crlf(Ascii(l3));
    Puts(fw, "4. System Shutdown\n");
    Extend(out0, calls0, done, Crlf(Ascii(l4)));
    done := done + Crlf(Ascii(l4));
    Puts(fw, "Select option: ");
    Extend(out0, calls0, done, Crlf(Ascii(l5)));
    MenuSplit();
  }

  /** The menu text, line by line. */
  lemma MenuSplit()
    ensures MenuText() ==
      Crlf(Ascii("\nMenu:\n")) + Crlf(Ascii("1. Get SBI implementation version\n")) +
      Crlf(Ascii("2. Hart get status\n")) + Crlf(Ascii("3. Hart stop\n")) +
      Crlf(Ascii("4. System Shutdown\n")) + Crlf(Ascii("Select option: "))
  {
    var l0, l1, l2 := "\nMenu:\n", "1. Get SBI implementation version\n", "2. Hart get status\n";
    var l3, l4, l5 := "3. Hart stop\n", "4. System Shutdown\n", "Select option: ";
    assert MenuLines() == [l0, l1, l2, l3, l4] + [l5];
    assert [l0, l1, l2, l3, l4] == [l0, l1, l2, l3] + [l4];
    assert [l0, l1, l2, l3] == [l0, l1, l2] + [l3];
    assert [l0, l1, l2] == [l0, l1] + [l2];
    assert [l0, l1] == [l0] + [l1];
    assert [l0] == [] + [l0];
    PutsEachSnoc([], l0);
    PutsEachSnoc([l0], l1);
    PutsEachSnoc([l0, l1], l2);
    PutsEachSnoc([l0, l1, l2], l3);
    PutsEachSnoc([l0, l1, l2, l3], l4);
    PutsEachSnoc([l0, l1, l2, l3, l4], l5);
  }

  /** The title and the first option hold no NUL. */
  lemma MenuTitle()
    ensures PutsBytes("\nMenu:\n") == Crlf(Ascii("\nMenu:\n"))
    ensures PutsBytes("1. Get SBI implementation version\n") == Crlf(Ascii("1. Get SBI implementation version\n"))
  {
    PutsWhole("\nMenu:\n");
    PutsWhole("1. Get SBI implementation version\n");
  }

  /** The middle options hold no NUL. */
  lemma MenuOptions()
    ensures PutsBytes("2. Hart get status\n") == Crlf(Ascii("2. Hart get status\n"))
    ensures PutsBytes("3. Hart stop\n") == Crlf(Ascii("3. Hart stop\n"))
  {
    PutsWhole("2. Hart get status\n");
    PutsWhole("3. Hart stop\n");
  }

  /** The last option and the prompt hold no NUL. */
  lemma MenuLast()
    ensures PutsBytes("4. System Shutdown\n") == Crlf(Ascii("4. System Shutdown\n"))
    ensures PutsBytes("Select option: ") == Crlf(Ascii("Select option: "))
  {
    PutsWhole("4. System Shutdown\n");
    PutsWhole("Select option: ");
  }

  // ---------------------------------------------------------------- main

  /** What the firmware must provide for the command `ch` selects to run
      to its end: `main` reads the rest of its answers from `input`, from
      answer `pos` on. */
  predicate CommandReady(ch: int, input: seq<int>, pos: nat, replies: seq<SbiRet>) {
    pos <= |input| &&
    if ch == '1' as int then |replies| > 0 && Printable(replies[0].value)
    else if ch == '2' as int then
      ReadOutcome(input, pos).Some? && ReadOutcome(input, pos).value.value <= INT_MAX &&
      |replies| > 0 && StatusPrintable(replies[0])
    else if ch == '3' as int || ch == '4' as int then |replies| > 0
    else true
  }

  /** The `default` arm: a line saying the choice is not an option. */
  function UnknownEffect(): Effect {
    Effect(Ascii("Unknown option") + [CR, LF], PutcharCalls(Ascii("Unknown option") + [CR, LF]), 0, 0)
  }

  /** The `switch` of `main`: the command the menu choice `ch` selects. */
  function CommandEffect(ch: int, input: seq<int>, pos: nat, replies: seq<SbiRet>): (e: Effect)
    requires CommandReady(ch, input, pos, replies)
    ensures pos + e.used <= |input| && e.answered <= |replies|
  {
    if ch == '1' as int then ImplVersionEffect(replies[0])
    else if ch == '2' as int then HartStatusEffect(input, pos, replies[0])
    else if ch == '3' as int then HartStopEffect(replies[0])
    else if ch == '4' as int then ShutdownEffect()
    else UnknownEffect()
  }

  /** The head of a pass: the menu, the polls up to the first key, and the
      key echoed with CR LF. */
  function ChoiceEffect(input: seq<int>, pos: nat): (e: Effect)
    requires pos <= |input| && FirstReady(input, pos).Some?
    ensures pos + e.used <= |input|
  {
    var k := FirstReady(input, pos).value;
    var ch := input[k];
    Effect(MenuText() + [ch, CR, LF],
      (PutcharCalls(MenuText()) + GetcharPolls(k + 1 - pos)) + [PutcharCall(ch), PutcharCall(CR), PutcharCall(LF)],
      k + 1 - pos, 0)
  }

  /** What `main` needs for one pass from answer `pos` on: a choice is
      typed, and the command it selects can finish. */
  predicate IterationReady(input: seq<int>, pos: nat, replies: seq<SbiRet>) {
    pos <= |input| && FirstReady(input, pos).Some? &&
    var k := FirstReady(input, pos).value;
    CommandReady(input[k], input, k + 1, replies)
  }

  /** One pass of `main`'s loop: the menu and the choice, then the command
      the choice selects, which reads on from the answer after the key. */
  function IterationEffect(input: seq<int>, pos: nat, replies: seq<SbiRet>): (e: Effect)
    requires IterationReady(input, pos, replies)
    ensures pos + e.used <= |input| && e.answered <= |replies|
  {
    var k := FirstReady(input, pos).value;
    Then(ChoiceEffect(input, pos), CommandEffect(input[k], input, k + 1, replies))
  }

  /** One pass of `main`'s `for (;;)`. */
  method MenuIteration(fw: Firmware)
    requires fw.Valid() && IterationReady(fw.input, fw.pos, fw.replies)
    modifies fw
    ensures fw.Valid()
    ensures var e := IterationEffect(fw.input, old(fw.pos), old(fw.replies));
      fw.out == old(fw.out) + e.out && fw.calls == old(fw.calls) + e.calls &&
      fw.pos == old(fw.pos) + e.used && fw.replies == old(fw.replies)[e.answered..]
  {
    ghost var head := ChoiceEffect(fw.input, fw.pos);
    var ch := ReadChoice(fw);
    ghost var pos1, replies1 := fw.pos, fw.replies;
    Dispatch(fw, ch);
    ghost var e := CommandEffect(ch, fw.input, pos1, replies1);
    AppendAssoc(old(fw.out), head.out, e.out);
    AppendAssoc(old(fw.calls), head.calls, e.calls);
  }

  /** The menu, then the choice read and echoed with CR LF. */
  method ReadChoice(fw: Firmware) returns (ch: int)
    requires fw.Valid() && FirstReady(fw.input, fw.pos).Some?
    modifies fw
    ensures fw.Valid()
    ensures ch == fw.input[FirstReady(fw.input, old(fw.pos)).value]
    ensures var e := ChoiceEffect(fw.input, old(fw.pos));
      fw.out == old(fw.out) + e.out && fw.calls == old(fw.calls) + e.calls &&
      fw.pos == old(fw.pos) + e.used && fw.replies == old(fw.replies)
  {
    ghost var k := FirstReady(fw.input, fw.pos).value;
    ghost var menu, polls := MenuText(), GetcharPolls(k + 1 - fw.pos);
    ghost var pcs := PutcharCalls(menu);
    PrintMenu(fw);
    ghost var c1 := fw.calls;
    ch := Getchar(fw);
    ghost var c2 := fw.calls;
    assert c2 == c1 + polls;
    Putchar(fw, ch);
    Putchar(fw, CR);
    Putchar(fw, LF);
    AppendAssoc(old(fw.out), menu, [ch, CR, LF]);
    SnocThree(old(fw.out) + menu, ch, CR, LF);
    SnocThree(c2, PutcharCall(ch), PutcharCall(CR), PutcharCall(LF));
    AppendAssoc(old(fw.calls), pcs, polls);
    AppendAssoc(old(fw.calls), pcs + polls, [PutcharCall(ch), PutcharCall(CR), PutcharCall(LF)]);
  }

  /** The `switch` of `main`'s loop. */
  method Dispatch(fw: Firmware, ch: int)
    requires fw.Valid() && CommandReady(ch, fw.input, fw.pos, fw.replies)
    modifies fw
    ensures fw.Valid()
    ensures var e := CommandEffect(ch, fw.input, old(fw.pos), old(fw.replies));
      fw.out == old(fw.out) + e.out && fw.calls == old(fw.calls) + e.calls &&
      fw.pos == old(fw.pos) + e.used && fw.replies == old(fw.replies)[e.answered..]
  {
    if ch == '1' as int {
      GetImplVersion(fw);
    } else if ch == '2' as int {
      HartGetStatus(fw);
    } else if ch == '3' as int {
      HartStop(fw);
    } else if ch == '4' as int {
      Shutdown(fw);
    } else {
      UnknownWords();
      Puts(fw, "Unknown option\n");
      assert old(fw.replies)[0..] == old(fw.replies);
    }
  }

  /** The line of the `default` arm, as `puts` sends it. */
  lemma UnknownWords()
    ensures PutsBytes("Unknown option\n") == Ascii("Unknown option") + [CR, LF]
  {
    assert "Unknown option\n" == "Unknown option" + "\n";
    PutsLine("Unknown option");
  }

  /** Each pass issues exactly the selectors of the command chosen: the
      menu, the polls for the choice and its echo talk to the console only. */
  lemma IterationSelectors(input: seq<int>, pos: nat, e: Effect)
    requires pos <= |input| && FirstReady(input, pos).Some?
    ensures Selectors(Then(ChoiceEffect(input, pos), e).calls) == Selectors(e.calls)
  {
    var k := FirstReady(input, pos).value;
    SelectorsOfChoice(MenuText(), k + 1 - pos, input[k]);
    SelectorsAfterConsole(ChoiceEffect(input, pos).calls, e.calls);
  }

  /** Printing, polling for a key and echoing it talk to the console only. */
  lemma SelectorsOfChoice(text: seq<int>, polls: nat, ch: int)
    ensures Selectors((PutcharCalls(text) + GetcharPolls(polls)) + [PutcharCall(ch), PutcharCall(CR), PutcharCall(LF)]) == []
  {
    var head := PutcharCalls(text) + GetcharPolls(polls);
    SelectorsOfPutchars(text);
    SelectorsOfPolls(polls);
    SelectorsAfterConsole(PutcharCalls(text), GetcharPolls(polls));
    SelectorsSnoc(head, PutcharCall(ch));
    SelectorsSnoc(head + [PutcharCall(ch)], PutcharCall(CR));
    SelectorsSnoc((head + [PutcharCall(ch)]) + [PutcharCall(CR)], PutcharCall(LF));
    SnocThree(head, PutcharCall(ch), PutcharCall(CR), PutcharCall(LF));
  }

  /** The selector pair each command issues, one firmware reply per
      selector: none for an unknown choice. */
  lemma CommandSelectors(ch: int, input: seq<int>, pos: nat, replies: seq<SbiRet>)
    requires CommandReady(ch, input, pos, replies)
    ensures var e := CommandEffect(ch, input, pos, replies);
      (ch == '1' as int ==> Selectors(e.calls) == [ImplVersionCall]) &&
      (ch == '2' as int ==> Selectors(e.calls) == [HartStatusCall(ReadOutcome(input, pos).value.value)]) &&
      (ch == '3' as int ==> Selectors(e.calls) == [HartStopCall]) &&
      (ch == '4' as int ==> Selectors(e.calls) == [ShutdownCall]) &&
      (ch !in ['1' as int, '2' as int, '3' as int, '4' as int] ==> Selectors(e.calls) == []) &&
      e.answered == |Selectors(e.calls)|
  {
    if ch == '1' as int {
      SelectorsOfPutchars(ImplVersionText(replies[0]));
      SelectorsAround([], ImplVersionCall, PutcharCalls(ImplVersionText(replies[0])));
      assert [] + [ImplVersionCall] == [ImplVersionCall];
    } else if ch == '2' as int {
      HartStatusSelectors(input, pos, replies[0]);
    } else if ch == '3' as int {
      var pre, post := Ascii("Stopping current hart...") + [CR, LF], ErrorLine(replies[0].error);
      SelectorsOfPutchars(pre);
      SelectorsOfPutchars(post);
      SelectorsAround(PutcharCalls(pre), HartStopCall, PutcharCalls(post));
    } else if ch == '4' as int {
      var pre, post := Ascii("System shutdown...") + [CR, LF], Ascii("Shutdown failed!") + [CR, LF];
      SelectorsOfPutchars(pre);
      SelectorsOfPutchars(post);
      SelectorsAround(PutcharCalls(pre), ShutdownCall, PutcharCalls(post));
    } else {
      SelectorsOfPutchars(Ascii("Unknown option") + [CR, LF]);
    }
  }
}
