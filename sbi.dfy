/** The Supervisor Binary Interface as this kernel uses it: the eight call words,
    the two reply words, the selector pairs it issues, the standard error codes
    (chapter 3 of the RISC-V SBI specification) and the hart states of the
    Hart State Management extension (section 9.3). */
module Sbi {

  datatype Option<T> = None | Some(value: T)

  // Widths of the C types the kernel uses (RV64: long is 64 bits, int is 32).
  const LONG_MIN: int := -0x8000_0000_0000_0000
  const LONG_MAX: int := 0x7fff_ffff_ffff_ffff
  const INT_MAX: int := 0x7fff_ffff
  const ULONG_MODULUS: int := 0x1_0000_0000_0000_0000

  predicate IsLong(x: int) { LONG_MIN <= x <= LONG_MAX }

  // Extension ids (register a7)
  const EID_CONSOLE_PUTCHAR: int := 0x01
  const EID_CONSOLE_GETCHAR: int := 0x02
  const EID_BASE: int := 0x10
  const EID_HSM: int := 0x48534D
  const EID_SRST: int := 0x53525354

  // Function ids (register a6)
  const FID_GET_IMPL_VERSION: int := 2
  const FID_HART_STOP: int := 1
  const FID_HART_GET_STATUS: int := 2
  const FID_SYSTEM_RESET: int := 0

  /** The words an ecall passes: a0..a5, then the function id (a6) and the extension id (a7). */
  datatype SbiCall = SbiCall(a0: int, a1: int, a2: int, a3: int, a4: int, a5: int, fid: int, eid: int)

  /** `struct sbiret`: the error word (a0) and the value word (a1). */
  datatype SbiRet = SbiRet(error: int, value: int)

  /** The legacy console extensions are served by the console itself. */
  predicate IsConsole(eid: int) { eid == EID_CONSOLE_PUTCHAR || eid == EID_CONSOLE_GETCHAR }

  /** The `uvalue` member of the union: the bits of `value` read as an unsigned long. */
  function UValue(r: SbiRet): (u: int)
    ensures 0 <= u < ULONG_MODULUS
    ensures IsLong(r.value) ==> (if u <= LONG_MAX then u else u - ULONG_MODULUS) == r.value
  {
    r.value % ULONG_MODULUS
  }

  // The selector pairs issued by the kernel; every argument the kernel does not use is 0.

  function PutcharCall(ch: int): SbiCall {
    SbiCall(ch, 0, 0, 0, 0, 0, 0, EID_CONSOLE_PUTCHAR)
  }

  const GetcharCall: SbiCall := SbiCall(0, 0, 0, 0, 0, 0, 0, EID_CONSOLE_GETCHAR)

  const ImplVersionCall: SbiCall := SbiCall(0, 0, 0, 0, 0, 0, FID_GET_IMPL_VERSION, EID_BASE)

  function HartStatusCall(hartid: int): SbiCall {
    SbiCall(hartid, 0, 0, 0, 0, 0, FID_HART_GET_STATUS, EID_HSM)
  }

  const HartStopCall: SbiCall := SbiCall(0, 0, 0, 0, 0, 0, FID_HART_STOP, EID_HSM)

  /** System reset with reset type 0 (shutdown) and reason 0 (no reason). */
  const ShutdownCall: SbiCall := SbiCall(0, 0, 0, 0, 0, 0, FID_SYSTEM_RESET, EID_SRST)

  // Standard SBI errors: SBI_SUCCESS is 0, the errors run from -1 down to -14.
  const SBI_SUCCESS: int := 0
  const SBI_ERR_DENIED_LOCKED: int := -14

  predicate IsKnownError(err: int) { SBI_ERR_DENIED_LOCKED <= err <= SBI_SUCCESS }

  /** `enum sbi_error`: the code each standard name stands for. */
  function ErrorCode(name: string): (code: Option<int>)
    ensures code.Some? ==> IsKnownError(code.value)
  {
    if name == "SBI_SUCCESS" then Some(0)
    else if name == "SBI_ERR_FAILED" then Some(-1)
    else if name == "SBI_ERR_NOT_SUPPORTED" then Some(-2)
    else if name == "SBI_ERR_INVALID_PARAM" then Some(-3)
    else if name == "SBI_ERR_DENIED" then Some(-4)
    else if name == "SBI_ERR_INVALID_ADDRESS" then Some(-5)
    else if name == "SBI_ERR_ALREADY_AVAILABLE" then Some(-6)
    else if name == "SBI_ERR_ALREADY_STARTED" then Some(-7)
    else if name == "SBI_ERR_ALREADY_STOPPED" then Some(-8)
    else if name == "SBI_ERR_NO_SHMEM" then Some(-9)
    else if name == "SBI_ERR_INVALID_STATE" then Some(-10)
    else if name == "SBI_ERR_BAD_RANGE" then Some(-11)
    else if name == "SBI_ERR_TIMEOUT" then Some(-12)
    else if name == "SBI_ERR_IO" then Some(-13)
    else if name == "SBI_ERR_DENIED_LOCKED" then Some(-14)
    else None
  }

  /** `sbi_err_str`: total over every error word. A known code gets the name
      that `enum sbi_error` gives it (so distinct codes get distinct names);
      every other word gets "UNKNOWN", which names no code. */
  function ErrStr(err: int): string {
    match err
    case 0 => "SBI_SUCCESS"
    case -1 => "SBI_ERR_FAILED"
    case -2 => "SBI_ERR_NOT_SUPPORTED"
    case -3 => "SBI_ERR_INVALID_PARAM"
    case -4 => "SBI_ERR_DENIED"
    case -5 => "SBI_ERR_INVALID_ADDRESS"
    case -6 => "SBI_ERR_ALREADY_AVAILABLE"
    case -7 => "SBI_ERR_ALREADY_STARTED"
    case -8 => "SBI_ERR_ALREADY_STOPPED"
    case -9 => "SBI_ERR_NO_SHMEM"
    case -10 => "SBI_ERR_INVALID_STATE"
    case -11 => "SBI_ERR_BAD_RANGE"
    case -12 => "SBI_ERR_TIMEOUT"
    case -13 => "SBI_ERR_IO"
    case -14 => "SBI_ERR_DENIED_LOCKED"
    case _ => "UNKNOWN"
  }

  /** `sbi_err_str` names every standard code by its own name and nothing
      else: the name reads back as the code, and "UNKNOWN" is returned
      exactly for the words outside the table. */
  lemma ErrStrNames(err: int)
    ensures ErrStr(err) == "UNKNOWN" <==> !IsKnownError(err)
    ensures ErrorCode(ErrStr(err)) == if IsKnownError(err) then Some(err) else None
  {
    match err
    case 0 =>
    case -1 =>
    case -2 =>
    case -3 =>
    case -4 =>
    case -5 =>
    case -6 =>
    case -7 =>
    case -8 =>
    case -9 =>
    case -10 =>
    case -11 =>
    case -12 =>
    case -13 =>
    case -14 =>
    case _ =>
  }

  /** Every error name is a C string on one line. */
  lemma ErrStrPlain(err: int)
    ensures '\0' !in ErrStr(err) && '\n' !in ErrStr(err)
  {
    if -7 <= err <= 0 {
      ErrStrPlainFirst(err);
    } else {
      ErrStrPlainRest(err);
    }
  }

  lemma ErrStrPlainFirst(err: int)
    requires -7 <= err <= 0
    ensures '\0' !in ErrStr(err) && '\n' !in ErrStr(err)
  {
    match err
    case 0 =>
    case -1 =>
    case -2 =>
    case -3 =>
    case -4 =>
    case -5 =>
    case -6 =>
    case -7 =>
  }

  lemma ErrStrPlainRest(err: int)
    requires !(-7 <= err <= 0)
    ensures '\0' !in ErrStr(err) && '\n' !in ErrStr(err)
  {
    match err
    case -8 =>
    case -9 =>
    case -10 =>
    case -11 =>
    case -12 =>
    case -13 =>
    case -14 =>
    case _ =>
  }

  // HSM hart states (section 9.3 of the SBI specification): 0 .. 6.
  predicate IsHartState(state: int) { 0 <= state <= 6 }

  /** The state each HSM state name stands for. */
  function HartStateCode(name: string): (state: Option<int>)
    ensures state.Some? ==> IsHartState(state.value)
  {
    if name == "STARTED" then Some(0)
    else if name == "STOPPED" then Some(1)
    else if name == "START_PENDING" then Some(2)
    else if name == "STOP_PENDING" then Some(3)
    else if name == "SUSPENDED" then Some(4)
    else if name == "SUSPEND_PENDING" then Some(5)
    else if name == "RESUME_PENDING" then Some(6)
    else None
  }

  /** The name `cmd_hart_get_status` prints for a known hart state. */
  function HartStateName(state: int): string
    requires IsHartState(state)
  {
    match state
    case 0 => "STARTED"
    case 1 => "STOPPED"
    case 2 => "START_PENDING"
    case 3 => "STOP_PENDING"
    case 4 => "SUSPENDED"
    case 5 => "SUSPEND_PENDING"
    case 6 => "RESUME_PENDING"
  }

  /** Each state is printed under the name that reads back as it, on one line. */
  lemma HartStateNames(state: int)
    requires IsHartState(state)
    ensures HartStateCode(HartStateName(state)) == Some(state)
    ensures '\0' !in HartStateName(state) && '\n' !in HartStateName(state)
  {
    match state
    case 0 =>
    case 1 =>
    case 2 =>
    case 3 =>
    case 4 =>
    case 5 =>
    case 6 =>
  }
}
