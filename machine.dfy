/** What lies beyond the ecall instruction, as the supervisor observes it.
    `sbi_call` itself (register pinning, the ecall, the memory clobber) is
    replaced by `Firmware.Ecall`: it records the call and answers it from
    the console (the legacy Console Putchar and Getchar extensions,
    sections 5.2 and 5.3 of the SBI specification) or from the scripted
    replies for every other extension. */
module Machine {
  import opened Sbi

  class Firmware {
    /** Every ecall issued so far, oldest first. */
    var calls: seq<SbiCall>
    /** Every word written through Console Putchar, oldest first. */
    var out: seq<int>
    /** The error words Console Getchar answers successive polls with: a
        byte, or a negative word when no byte is ready. Once they run out,
        every poll is answered with -1. */
    const input: seq<int>
    /** How many of `input` the polls so far have used. */
    var pos: nat
    /** The replies of the non-console calls, in the order they are issued. */
    var replies: seq<SbiRet>

    /** A byte the console reports fits the `int` that `getchar` returns. */
    predicate Bytes()
    {
      forall k :: 0 <= k < |input| ==> LONG_MIN <= input[k] <= INT_MAX
    }

    /** The cursor stays within the answers, and every reply is a pair of
        `long` words. */
    ghost predicate Valid()
      reads this
    {
      Bytes() && pos <= |input| &&
      forall k :: 0 <= k < |replies| ==> IsLong(replies[k].error) && IsLong(replies[k].value)
    }

    constructor (input: seq<int>, replies: seq<SbiRet>)
      requires forall k :: 0 <= k < |input| ==> LONG_MIN <= input[k] <= INT_MAX
      requires forall k :: 0 <= k < |replies| ==> IsLong(replies[k].error) && IsLong(replies[k].value)
      ensures Valid()
      ensures calls == [] && out == [] && pos == 0
      ensures this.input == input && this.replies == replies
    {
      calls := [];
      out := [];
      this.input := input;
      pos := 0;
      this.replies := replies;
    }

    /** One ecall. A non-console extension needs a scripted reply. */
    method Ecall(c: SbiCall) returns (r: SbiRet)
      requires Valid()
      requires !IsConsole(c.eid) ==> |replies| > 0
      modifies this
      ensures Valid()
      ensures calls == old(calls) + [c]
      ensures c.eid == EID_CONSOLE_PUTCHAR ==>
        r == SbiRet(0, 0) && out == old(out) + [c.a0] && pos == old(pos) && replies == old(replies)
      ensures c.eid == EID_CONSOLE_GETCHAR ==>
        r == SbiRet(if old(pos) < |input| then input[old(pos)] else -1, 0) &&
        pos == (if old(pos) < |input| then old(pos) + 1 else old(pos)) &&
        out == old(out) && replies == old(replies)
      ensures !IsConsole(c.eid) ==>
        r == old(replies)[0] && replies == old(replies)[1..] && out == old(out) && pos == old(pos)
      ensures IsLong(r.error) && IsLong(r.value)
    {
      calls := calls + [c];
      if c.eid == EID_CONSOLE_PUTCHAR {
        out := out + [c.a0];
        r := SbiRet(0, 0);
      } else if c.eid == EID_CONSOLE_GETCHAR {
        if pos < |input| {
          r := SbiRet(input[pos], 0);
          pos := pos + 1;
        } else {
          r := SbiRet(-1, 0);
        }
      } else {
        r := replies[0];
        replies := replies[1..];
      }
    }
  }
}
