# A verified model of the lab 1 RISC-V bare-metal kernel

`lab1/kernel.c` is a supervisor-mode program that talks to the machine's
firmware only through the RISC-V Supervisor Binary Interface (SBI). It:

- prints a menu on the console;
- reads a key;
- runs one of four commands: get the SBI implementation version, get a
  hart's status, stop the current hart, shut the system down.

All of its console traffic goes through the legacy Console Putchar and
Getchar extensions. Every other request is an `ecall` carrying an
(extension id, function id) pair.

This project models everything above the `ecall`:

- `sbi_err_str`;
- `putchar`, `getchar` and `puts`;
- `print_hex` and `print_dec`;
- `read_int`;
- the four `cmd_*` handlers;
- `print_menu`;
- one pass of `main`'s loop.

Each is proved against a specification of the bytes it writes and the
ecalls it issues.

Modules, one per file:

- `sbi.dfy` (`Sbi`): the call words, the `struct sbiret` reply, and the
  selector pairs the kernel issues. It also holds the standard error codes
  (chapter 3 of the RISC-V SBI specification) with `sbi_err_str`, and the
  hart states of the Hart State Management extension (section 9.3).
- `text.dfy` (`Text`): C strings (everything before the first NUL) and the
  LF to CR LF translation of `puts`, with its inverse.
- `numerals.dfy` (`Numerals`): the decimal and hexadecimal numerals the
  kernel prints, their values, and `>>` as repeated halving.
- `machine.dfy` (`Machine`): the class `Firmware`, which stands in for
  `sbi_call`. It keeps:
  - the trace of every ecall issued;
  - the bytes written through Console Putchar;
  - the scripted answers Console Getchar gives to successive polls (a byte,
    or a negative word when no byte is ready), with a cursor `pos` over
    them;
  - the scripted replies of every other call.
- `console.dfy` (`Console`): `putchar`, `getchar`, `puts`, `read_int`,
  `print_hex` and `print_dec`, as methods with loops over a `Firmware`.
  Each is specified by functions of the firmware's state before the call.
  For example, `ReadOutcome(input, pos)` gives the value `read_int`
  returns, the bytes it echoes, the calls it makes and the answers it
  consumes.
- `kernel.dfy` (`Kernel`): the handlers, the menu and one pass of `main`.
  The `Effect` of each (output, calls, answers consumed, replies used) is
  a function of the firmware's script. The lemmas about the `Selectors`
  of an effect (its non-console calls) state which selector pair each
  command issues.

## Model

| member | source | states |
|---|---|---|
| Sbi.UValue | lab1/kernel.c:29-35 | the `uvalue` member is the `value` word read as an unsigned long: in range, and equal to `value` when read back as signed |
| Sbi.ErrStrNames | lab1/kernel.c:121-156 | `sbi_err_str` is total; it returns the name `enum sbi_error` gives to each of 0 and -1..-14, so that name maps back to the code; it returns "UNKNOWN" exactly for every other word |
| Sbi.ErrStrPlain | lab1/kernel.c:121-156 | every string `sbi_err_str` returns holds no NUL and no newline |
| Sbi.HartStateNames | lab1/kernel.c:182-203 | each hart state 0..6 is printed under the HSM name that maps back to it, with no NUL or newline |
| Machine.Firmware.constructor | lab1/kernel.c:37-57 | a firmware with a given script of console answers and replies, before any call |
| Machine.Firmware.Ecall | lab1/kernel.c:37-57 | one `sbi_call`: the call is appended to the trace; Console Putchar appends a0 to the output and returns 0; Console Getchar returns the next answer, or -1 once the answers run out; any other call takes the next reply, which is a pair of longs |
| Console.Putchar | lab1/kernel.c:59 | `putchar(ch)` issues exactly one Console Putchar call (EID 0x01) with `ch` in a0 and every other argument 0, and writes `ch` |
| Console.Puts | lab1/kernel.c:69-75 | `puts(s)` writes, and issues one Console Putchar call for, each byte of the C string of `s` in order, with a CR inserted before each LF |
| Console.PutsStep | lab1/kernel.c:70-74 | one character of `puts` sends a CR and the LF for a newline, and the character alone otherwise |
| Console.PutsFaithful | lab1/kernel.c:69-75 | what `puts` sends reads back, once the inserted CRs are removed, as the bytes of the C string; every LF sent comes right after a CR; exactly one byte is added per LF |
| Text.CStrIsPrefix | lab1/kernel.c:70 | `puts` stops at the first NUL: the C string is a NUL-free prefix, cut short only by a NUL |
| Text.CrlfRoundTrip | lab1/kernel.c:71-73 | the CR LF translation changes no byte: removing each CR before an LF gives back the input |
| Text.CrlfNoBareLf | lab1/kernel.c:71-73 | every LF in the translated stream is immediately preceded by a CR |
| Text.CrlfLength | lab1/kernel.c:71-73 | the translation adds exactly one byte per LF |
| Text.CrlfNoNewline | lab1/kernel.c:71-73 | text without LF goes through unchanged |
| Console.FirstReady | lab1/kernel.c:63-65 | the poll that ends `getchar`'s loop reports a non-negative word |
| Console.FirstReadyIsFirst | lab1/kernel.c:63-65 | every poll before it reports a negative word, and when there is no such poll every poll does |
| Console.FirstReadyFinds | lab1/kernel.c:63-65 | a non-negative answer at `j` ends the polling no later than `j` |
| Console.Getchar | lab1/kernel.c:61-67 | `getchar` polls Console Getchar (EID 0x02, every argument 0) until an answer is non-negative, then returns that answer, which is never negative; it consumes exactly those polls and writes nothing |
| Console.DigitsAreDigits | lab1/kernel.c:109-110 | `read_int` accumulates and echoes only the bytes '0'..'9' |
| Console.AccumulatedIsValue | lab1/kernel.c:111 | `result = result * 10 + (ch - '0')` holds the positional decimal value of the digits read so far |
| Console.AccumulatedGrows | lab1/kernel.c:111 | the accumulator never decreases, so a final value that fits an `int` means no earlier value overflowed |
| Console.ReadSkipsPolls | lab1/kernel.c:108 | the empty polls inside `getchar` are neither echoed nor accumulated |
| Console.FirstEndIsFirst | lab1/kernel.c:113 | `read_int` stops at the first CR or LF that follows a digit, and at no earlier answer |
| Console.FirstEndAt | lab1/kernel.c:113 | an answer that ends a read, with none before it, is where `read_int` stops |
| Console.PollsBefore | lab1/kernel.c:108 | the polls before the next byte add polls to the trace and nothing else, and the byte comes no later than the answer that ends the read |
| Console.ReadDigit | lab1/kernel.c:109-112 | a digit is echoed right after the poll that read it and is accumulated, and the read has not ended yet |
| Console.ReadSkip | lab1/kernel.c:107-118 | a byte that is neither a digit nor a CR or LF after a digit is polled and dropped: no echo, no change to the value |
| Console.ReadStop | lab1/kernel.c:113-116 | a CR or LF after a digit is the answer that ends the read, and CR LF is echoed |
| Console.ReadInt | lab1/kernel.c:104-119 | `read_int` returns the value `ReadOutcome` reads. It writes the echo `ReadOutcome` gives, issues the calls it gives, and consumes the answers it gives. It requires that some CR or LF follows a digit and that the value fits an `int` |
| Console.ReadsLine | lab1/kernel.c:104-119 | a line of digits ended by LF reads as its decimal value, echoes the digits and CR LF, and consumes the line |
| Console.ReadsFortyTwo | lab1/kernel.c:104-119 | typing "42" and Enter returns 42 and echoes "42" followed by CR LF |
| Console.PrintedReadsBack | lab1/kernel.c:104-119 | what `print_dec` prints for a non-negative number, followed by Enter, `read_int` reads back as that number |
| Console.ShiftedRead | lab1/kernel.c:107-118 | a non-digit at the start of a read only adds one poll to the calls; the digits read are unchanged |
| Console.ShiftedEnd | lab1/kernel.c:107-118 | past a leading non-digit, the read stops at the same answer |
| Console.ReadSkipsLeading | lab1/kernel.c:107-118 | a leading byte that is not a digit, including a CR or LF before any digit, does not end the read and changes neither the value nor the echo; it costs one more poll |
| Numerals.HexDigits | lab1/kernel.c:79-86 | the numeral `print_hex` spells has at least one digit, uses only 0-9a-f, and starts with 0 only for zero |
| Numerals.HexRoundTrip | lab1/kernel.c:81-83 | the hexadecimal numeral reads back as the number |
| Numerals.HexDigitsSnoc | lab1/kernel.c:82-84 | appending a nibble to a number appends its digit to the numeral |
| Console.HexEmit | lab1/kernel.c:82-85 | a nibble is printed exactly when it is non-zero, an earlier one was, or it is the last; the digits printed so far spell the number above the next nibble without leading zeros |
| Console.NibbleNext | lab1/kernel.c:81 | `(val >> i) & 0xF` is the next nibble of the low 32 bits |
| Console.HexTop | lab1/kernel.c:80 | starting at bit 28 leaves nothing of the low 32 bits above the first nibble |
| Console.HexNibble | lab1/kernel.c:81-85 | one pass of `print_hex`'s loop prints the nibble when the rule allows, and the output then spells the number above bit `i` |
| Console.PrintHex | lab1/kernel.c:77-87 | `print_hex(val)` writes "0x" and then the low 32 bits of `val` in lower-case hexadecimal, without leading zeros and with at least one digit |
| Console.HexTextReadsBack | lab1/kernel.c:77-87 | what `print_hex` prints is "0x" followed by hexadecimal digits whose value is `val mod 2^32` |
| Console.HexTextExamples | lab1/kernel.c:77-87 | 0x2000000 prints as "0x2000000" and 0x100000000 as "0x0" |
| Numerals.ShiftRightIsDiv | lab1/kernel.c:81 | `x >> n` is `x / 2^n` |
| Numerals.DecDigits | lab1/kernel.c:96-101 | the numeral `print_dec` prints for a magnitude has at least one digit, only digits, and no leading zero; zero prints as "0" |
| Numerals.DecRoundTrip | lab1/kernel.c:96-101 | the decimal numeral reads back as the number |
| Numerals.LowDigitsReversed | lab1/kernel.c:100-101 | draining the buffer backwards gives the numeral, most significant digit first |
| Numerals.LowDigitsBound | lab1/kernel.c:94-99 | a number below 10^k leaves at most k digits in the buffer |
| Numerals.DecTextReadsBack | lab1/kernel.c:89-102 | `print_dec` prints '-' exactly for a negative value, then digits whose value is the magnitude |
| Console.LowDigitsFit | lab1/kernel.c:94 | a magnitude below 10^12 fits `buf[12]` |
| Console.StoreDigits | lab1/kernel.c:94-99 | the `do … while` stores the digits of the magnitude in `buf`, least significant first, and returns how many it stored |
| Console.SendStep | lab1/kernel.c:100-101 | each `putchar(buf[--i])` extends the output by the next digit of the reversed buffer |
| Console.DecTextSplit | lab1/kernel.c:90-101 | `print_dec`'s output is the sign, then the reversed buffer |
| Console.PrintDec | lab1/kernel.c:89-102 | `print_dec(val)` writes '-' for a negative value, then the decimal digits of its magnitude with no leading zero, one Console Putchar call per byte; it requires the magnitude below 10^12 |
| Kernel.GetImplVersion | lab1/kernel.c:159-166 | `cmd_get_impl_version` issues Base extension function 2 (a7 = 0x10, a6 = 2, every argument 0). It then prints "SBI implementation version: ", the value in decimal, and " (" followed by the low 32 bits of the unsigned reading in hexadecimal. It ends with ")" and CR LF |
| Kernel.VersionWords | lab1/kernel.c:161-165 | the fixed words of the version line go out unchanged, and the final newline as CR LF |
| Kernel.MinusOneNumerals | lab1/kernel.c:162-164 | -1 prints as "-1", and the low 32 bits of its unsigned reading as ffffffff |
| Kernel.ImplVersionOfMinusOne | lab1/kernel.c:159-166 | a version word of -1 prints as "-1 (0xffffffff)" |
| Kernel.HartGetStatus | lab1/kernel.c:169-210 | `cmd_hart_get_status` prompts, reads the hart id with `read_int` and issues HSM function 2 with the id in a0. On an error it prints "Error: ", the error's name and LF. Otherwise it prints "Hart <id> status: ", then the state's name, or "UNKNOWN (<value>)", then LF |
| Kernel.PromptWords | lab1/kernel.c:170 | the prompt goes out unchanged |
| Kernel.StatusWords | lab1/kernel.c:179-205 | the fixed words of the status line go out unchanged |
| Kernel.ErrorWords | lab1/kernel.c:174-175 | "Error: " and every error name go out unchanged |
| Kernel.StatusOnError | lab1/kernel.c:173-178 | on an error the name printed maps back to the error code, or is UNKNOWN for a code outside the table; no "Hart" line is printed |
| Kernel.HartStatusOfStoppedHart | lab1/kernel.c:169-210 | typing "0" and Enter when hart 0 is stopped echoes "0" with CR LF, asks about hart 0 only, and prints "Hart 0 status: STOPPED" |
| Kernel.SelectorsOfRead | lab1/kernel.c:104-119 | reading a number issues console calls only |
| Kernel.SelectorsOfReading | lab1/kernel.c:104-119 | the whole of `read_int`, echo included, issues console calls only |
| Kernel.HartStatusSelectors | lab1/kernel.c:172 | getting a status issues exactly one non-console call: HSM hart get status with the id read in a0 |
| Kernel.HartStop | lab1/kernel.c:213-219 | `cmd_hart_stop` announces the stop and issues HSM function 1 with every argument 0. If the call returns, it prints "Error: ", the error's name and LF |
| Kernel.StopWords | lab1/kernel.c:214 | the announcement goes out with CR LF |
| Kernel.Shutdown | lab1/kernel.c:222-226 | `cmd_shutdown` prints "System shutdown..." and issues System Reset (a7 = 0x53525354, a6 = 0, type and reason 0). If the call returns, it always prints "Shutdown failed!" |
| Kernel.ShutdownWords | lab1/kernel.c:223-225 | both lines go out with CR LF |
| Kernel.PutsEachJoined | lab1/kernel.c:228-235 | putting lines one at a time is putting their concatenation, which reads back once the CRs are removed |
| Kernel.PrintMenu | lab1/kernel.c:228-235 | `print_menu` writes the six menu strings in order, each as `puts` sends it, one Console Putchar call per byte |
| Kernel.MenuSplit | lab1/kernel.c:228-235 | the menu text is the six strings, each CR LF translated, in order |
| Kernel.ReadChoice | lab1/kernel.c:241-245 | a pass prints the menu, waits for a key, echoes it and CR LF, and returns the key |
| Kernel.UnknownWords | lab1/kernel.c:261 | the `default` arm's line goes out with CR LF |
| Kernel.Dispatch | lab1/kernel.c:247-262 | the `switch` runs the handler for '1'..'4', and for any other key prints "Unknown option" with CR LF and issues nothing else |
| Kernel.MenuIteration | lab1/kernel.c:240-263 | one pass of `main`'s loop is the menu and choice, then the command the key selects. It reads on from the answer after the key |
| Kernel.SelectorsOfChoice | lab1/kernel.c:241-245 | the menu, the polls for the key and its echo talk to the console only |
| Kernel.IterationSelectors | lab1/kernel.c:240-263 | a pass issues exactly the non-console calls of the command chosen |
| Kernel.CommandSelectors | lab1/kernel.c:247-262 | each command issues exactly its fixed selector pair, with the other arguments 0: Base 0x10/2, HSM 0x48534D/2 with the hart id, HSM 0x48534D/1, SRST 0x53525354/0. An unknown key issues none. Each selector uses one firmware reply |

## Left out

- `boot` (assembly that sets the stack pointer and jumps to `main`) holds no logic.
- The `ecall` instruction inside `sbi_call` is replaced by `Firmware.Ecall`, and so is the pinning of the arguments to a0..a7 and the `"memory"` clobber.
- What the firmware does with a call is not modelled: whether hart stop or system reset return, and the states harts are really in. It comes from the scripted answers and replies.
- `main` runs its loop forever; the model covers one pass (`MenuIteration`). The banner `main` prints before the loop is not modelled.
- `getchar` and `read_int` spin until a suitable byte arrives; the model runs them over a finite script and requires that the byte is there (`FirstReady`, `ReadOutcome`).
- Console.Getchar: assumes every answer fits an `int` (`Firmware.Valid`), so the `(int)` cast of the error word is the identity; truncation of larger words is not modelled.
- Console.ReadInt: requires the value read to fit an `int`, because `result * 10 + (ch - '0')` overflowing is undefined behaviour; wrap-around is not modelled.
- Console.PrintDec: requires a magnitude below 10^12, because a larger one overruns `buf[12]` (this also rules out `-LONG_MIN`).
- `char` and `int` widths: bytes are modelled as integers. The kernel's strings are ASCII, so the signedness of `char` plays no part.
- The `>>` and `& 0xF` of `print_hex` are modelled as halvings and `% 16` on the unsigned value.
- Line ends written with `putchar('\n')` are a bare LF, not the CR LF that `puts` would send. These are the error line of `cmd_hart_get_status` and `cmd_hart_stop`, and the end of the status line. The model follows the code.
- `PutsEach`, the menu's bytes, takes the lines as whole strings; the menu strings are proved to hold no NUL, so `puts` sends all of each.
