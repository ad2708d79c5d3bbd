/**
 * The exception and interrupt reporting of irq.c: the message chosen for
 * an invalid vector entry, the ESR_EL1 fields it prints and the notes it
 * adds, the pending-bit dispatch of handle_irq, and the bounded walk of
 * frame records in print_stack_trace.  Printed lines are returned as
 * values; memory reads are a parameter.
 */
module Irq {
  import opened Wrappers

  /** entry_error_messages, indexed by the invalid-entry type of entry.h. */
  const ENTRY_ERROR_MESSAGES: seq<string> := [
    "SYNC_INVALID_EL1t", "IRQ_INVALID_EL1t", "FIQ_INVALID_EL1t", "ERROR_INVALID_EL1T",
    "SYNC_INVALID_EL1h", "IRQ_INVALID_EL1h", "FIQ_INVALID_EL1h", "ERROR_INVALID_EL1h",
    "SYNC_INVALID_EL0_64", "IRQ_INVALID_EL0_64", "FIQ_INVALID_EL0_64", "ERROR_INVALID_EL0_64",
    "SYNC_INVALID_EL0_32", "IRQ_INVALID_EL0_32", "FIQ_INVALID_EL0_32", "ERROR_INVALID_EL0_32",
    "SYNC_ERROR", "SYSCALL_ERROR", "DATA_ABORT_ERROR"]

  const UNKNOWN_MESSAGE: string := "UNKNOWN"

  /**
   * The message for entry type `t`: the table entry when `t` indexes the
   * table, and "UNKNOWN" exactly when it does not (no entry reads "UNKNOWN",
   * so the message alone tells whether the type was known).
   */
  function EntryMessage(t: int): (m: string)
    ensures |ENTRY_ERROR_MESSAGES| == 19
    ensures 0 <= t < 19 ==> m == ENTRY_ERROR_MESSAGES[t]
    ensures m == UNKNOWN_MESSAGE <==> !(0 <= t < 19)
    ensures |m| > 0
  {
    if 0 <= t < |ENTRY_ERROR_MESSAGES| then ENTRY_ERROR_MESSAGES[t] else UNKNOWN_MESSAGE
  }

  // ---------------------------------------------------------------------
  // ESR_EL1 fields

  /**
   * The fields printed for an exception syndrome: EC [31:26], IL [25],
   * ISV [24], WnR [6] and the fault status code [5:0].
   */
  datatype EsrFields = EsrFields(ec: bv64, il: bv64, isv: bv64, wnr: bv64, fsc: bv64)

  predicate FieldsInRange(f: EsrFields) {
    f.ec < 64 && f.il < 2 && f.isv < 2 && f.wnr < 2 && f.fsc < 64
  }

  /** The bits of ESR_EL1 that the printed fields cover. */
  const ESR_FIELD_BITS: bv64 := 0xff00_007f

  /** The shifts and masks of show_invalid_entry_message. */
  function DecodeEsr(esr: bv64): (f: EsrFields)
    ensures FieldsInRange(f)
  {
    EsrFields((esr >> 26) & 0x3f, (esr >> 25) & 1, (esr >> 24) & 1, (esr >> 6) & 1, esr & 0x3f)
  }

  /** A syndrome with the given fields and every other bit clear. */
  function EncodeEsr(f: EsrFields): (esr: bv64)
    requires FieldsInRange(f)
    ensures esr & ESR_FIELD_BITS == esr
  {
    (f.ec << 26) | (f.il << 25) | (f.isv << 24) | (f.wnr << 6) | f.fsc
  }

  /** Decoding recovers every field placed by the encoding: the fields do not overlap. */
  lemma DecodeEncode(f: EsrFields)
    requires FieldsInRange(f)
    ensures DecodeEsr(EncodeEsr(f)) == f
  {
  }

  /**
   * Decoding reads exactly the field bits: re-encoding the fields gives the
   * syndrome with every other bit cleared.
   */
  lemma EncodeDecode(esr: bv64)
    ensures EncodeEsr(DecodeEsr(esr)) == esr & ESR_FIELD_BITS
  {
  }

  // ---------------------------------------------------------------------
  // The report of an invalid vector entry

  /**
   * ESR_ELx_EC_SVC64, the exception class of an SVC instruction in AArch64
   * state (the ESR_EL1 description of the Arm Architecture Reference
   * Manual, DDI 0487).
   */
  const ESR_ELx_EC_SVC64: bv64 := 0x15
  /** The exception class of a trapped MSR/MRS/system instruction. */
  const EC_SYS_REG_TRAP: bv64 := 0x18
  /** The exception class of an unknown reason. */
  const EC_UNKNOWN: bv64 := 0x00
  /** A data abort from a lower exception level, and its alignment-fault status code. */
  const EC_DATA_ABORT_LOWER: bv64 := 0x24
  const FSC_ALIGNMENT: bv64 := 0x21

  /**
   * The note of the exception-class chain; for an unknown instruction it
   * holds the instruction word, read only when ELR is not 0.
   */
  datatype Note = SyscallNote | TrappedSysRegNote | UnknownInstrNote(instr: Option<bv32>) | NoNote

  /**
   * What show_invalid_entry_message prints: the message with the raw ELR,
   * FAR and ESR, the decoded fields, the chain's note, and the alignment
   * note carrying whether the access was a write.
   */
  datatype Report = Report(message: string, elr: nat, far: nat, esr: bv64, fields: EsrFields, note: Note,
                           alignmentWrite: Option<bool>)

  /**
   * show_invalid_entry_message for entry type `t`, syndrome `esr`,
   * exception address `elr` and fault address `far`; `instrAtElr` is the word a read at `elr` would
   * return.
   */
  function ShowInvalidEntry(t: int, esr: bv64, elr: nat, far: nat, instrAtElr: bv32): (r: Report)
    ensures r.message == EntryMessage(t) && r.elr == elr && r.far == far && r.esr == esr
    ensures r.fields == DecodeEsr(esr)
    ensures r.note == SyscallNote <==> (esr >> 26) & 0x3f == ESR_ELx_EC_SVC64
    ensures r.note == TrappedSysRegNote <==> (esr >> 26) & 0x3f == EC_SYS_REG_TRAP
    ensures r.note.UnknownInstrNote? <==> (esr >> 26) & 0x3f == EC_UNKNOWN
    ensures r.note.UnknownInstrNote? ==> (r.note.instr.Some? <==> elr != 0)
    ensures r.alignmentWrite.Some? <==> (esr >> 26) & 0x3f == EC_DATA_ABORT_LOWER && esr & 0x3f == FSC_ALIGNMENT
    ensures r.alignmentWrite.Some? ==> (r.alignmentWrite.value <==> esr & 0x40 != 0)
  {
    var f := DecodeEsr(esr);
    var note :=
      if f.ec == ESR_ELx_EC_SVC64 then SyscallNote
      else if f.ec == EC_SYS_REG_TRAP then TrappedSysRegNote
      else if f.ec == EC_UNKNOWN then UnknownInstrNote(if elr != 0 then Some(instrAtElr) else None)
      else NoNote;
    var alignment := if f.ec == EC_DATA_ABORT_LOWER && f.fsc == FSC_ALIGNMENT then Some(f.wnr != 0) else None;
    Report(EntryMessage(t), elr, far, esr, f, note, alignment)
  }

  /**
   * The alignment note stands apart from the exception-class chain: a
   * syndrome built from an alignment data abort gets no chain note and
   * reports a write exactly when its WnR bit is set, whatever its IL and
   * ISV bits.
   */
  lemma AlignmentFaultReported(t: int, f: EsrFields, elr: nat, far: nat, instrAtElr: bv32)
    requires FieldsInRange(f) && f.ec == EC_DATA_ABORT_LOWER && f.fsc == FSC_ALIGNMENT
    ensures var r := ShowInvalidEntry(t, EncodeEsr(f), elr, far, instrAtElr);
      r.note == NoNote && r.alignmentWrite == Some(f.wnr == 1)
  {
    DecodeEncode(f);
  }

  // ---------------------------------------------------------------------
  // handle_irq

  /** Bit 1 of IRQ_PENDING_1: system-timer compare 1. */
  const SYSTEM_TIMER_IRQ_1: bv32 := 1 << 1
  /** Bit 25 of IRQ_PENDING_2: the PL011 UART. */
  const UART0_IRQ: bv32 := 1 << 25

  datatype Handler = TimerHandler | UartHandler

  /**
   * The effect of one handle_irq: the handlers called in order, the final
   * value of `handled`, the two unhandled masks, and what is printed for
   * bank 1 and then for bank 2.
   */
  datatype IrqOutcome = IrqOutcome(calls: seq<Handler>, handled: bool, unhandled1: bv32, unhandled2: bv32,
                                   report1: Option<bv32>, report2: Option<bv32>)

  /** The handler calls of handle_irq: the timer's first, then the UART's. */
  function HandlerCalls(timer: bool, uart: bool): (calls: seq<Handler>)
    ensures TimerHandler in calls <==> timer
    ensures UartHandler in calls <==> uart
    ensures |calls| <= 2 && (|calls| == 2 ==> calls == [TimerHandler, UartHandler])
  {
    (if timer then [TimerHandler] else []) + (if uart then [UartHandler] else [])
  }

  predicate TimerPending(irq1: bv32) {
    irq1 & SYSTEM_TIMER_IRQ_1 != 0
  }

  predicate UartPending(irq2: bv32) {
    irq2 & UART0_IRQ != 0
  }

  /** `irq1 & ~SYSTEM_TIMER_IRQ_1`: the bank-1 bits other than the timer's. */
  function Unserved1(irq1: bv32): (r: bv32)
    ensures r & SYSTEM_TIMER_IRQ_1 == 0
  {
    irq1 & !SYSTEM_TIMER_IRQ_1
  }

  /** `irq2 & ~UART0_IRQ`: the bank-2 bits other than the UART's. */
  function Unserved2(irq2: bv32): (r: bv32)
    ensures r & UART0_IRQ == 0
  {
    irq2 & !UART0_IRQ
  }

  /** The served bit, when pending, and the unserved rest make up bank 1. */
  lemma Bank1Split(irq1: bv32)
    ensures TimerPending(irq1) ==> irq1 == SYSTEM_TIMER_IRQ_1 | Unserved1(irq1)
    ensures !TimerPending(irq1) ==> irq1 == Unserved1(irq1)
  {
  }

  /** The served bit, when pending, and the unserved rest make up bank 2. */
  lemma Bank2Split(irq2: bv32)
    ensures UartPending(irq2) ==> irq2 == UART0_IRQ | Unserved2(irq2)
    ensures !UartPending(irq2) ==> irq2 == Unserved2(irq2)
  {
  }

  /**
   * The body of handle_irq once the two pending tests and the two unhandled
   * masks are known.  `handled` ends up set exactly when the UART was
   * pending, whether or not the timer was; the outer test on it never
   * matters, since each bank is reported exactly when its unhandled mask is
   * non-zero.
   */
  function Dispatch(timer: bool, uart: bool, u1: bv32, u2: bv32): (r: IrqOutcome)
    ensures TimerHandler in r.calls <==> timer
    ensures UartHandler in r.calls <==> uart
    ensures |r.calls| <= 2 && (|r.calls| == 2 ==> r.calls[0] == TimerHandler)
    ensures r.handled <==> uart
    ensures r.unhandled1 == u1 && r.unhandled2 == u2
    ensures r.report1 == (if u1 != 0 then Some(u1) else None)
    ensures r.report2 == (if u2 != 0 then Some(u2) else None)
  {
    var handled := (timer && uart) || uart;
    var report := !handled || u1 != 0 || u2 != 0;
    IrqOutcome(HandlerCalls(timer, uart), handled, u1, u2,
               if report && u1 != 0 then Some(u1) else None,
               if report && u2 != 0 then Some(u2) else None)
  }

  /** handle_irq for the pending registers `irq1` and `irq2`. */
  function HandleIrq(irq1: bv32, irq2: bv32): (r: IrqOutcome)
    ensures TimerHandler in r.calls <==> TimerPending(irq1)
    ensures UartHandler in r.calls <==> UartPending(irq2)
    ensures |r.calls| <= 2 && (|r.calls| == 2 ==> r.calls[0] == TimerHandler)
    ensures r.handled <==> UartPending(irq2)
    ensures r.unhandled1 == Unserved1(irq1) && r.unhandled2 == Unserved2(irq2)
    ensures r.report1 == (if r.unhandled1 != 0 then Some(r.unhandled1) else None)
    ensures r.report2 == (if r.unhandled2 != 0 then Some(r.unhandled2) else None)
  {
    Dispatch(TimerPending(irq1), UartPending(irq2), Unserved1(irq1), Unserved2(irq2))
  }

  /**
   * No pending interrupt goes unnoticed: a bank with any bit set either has
   * its handler called or is reported, and an empty bank gets neither.
   */
  lemma PendingBitsAccounted(irq1: bv32, irq2: bv32)
    ensures var r := HandleIrq(irq1, irq2);
      (irq1 != 0 <==> TimerHandler in r.calls || r.report1.Some?) &&
      (irq2 != 0 <==> UartHandler in r.calls || r.report2.Some?)
  {
    var r := HandleIrq(irq1, irq2);
    Bank1Split(irq1);
    Bank2Split(irq2);
    var u1, u2 := Unserved1(irq1), Unserved2(irq2);
    if !TimerPending(irq1) {
      assert irq1 == u1;
    }
    if !UartPending(irq2) {
      assert irq2 == u2;
    }
    assert irq1 == 0 ==> u1 == 0;
    assert irq2 == 0 ==> u2 == 0;
  }

  // ---------------------------------------------------------------------
  // print_stack_trace

  /** The frame pointers accepted: kernel addresses in the first 16 MiB. */
  const FP_LOW: nat := 0xffff_0000_0000_0000
  const FP_HIGH: nat := 0xffff_0000_0100_0000
  /** The return addresses accepted: the kernel text. */
  const TEXT_LOW: nat := 0xffff_0000_0008_0000
  const TEXT_HIGH: nat := 0xffff_0000_0009_0000
  /** The most frame records walked. */
  const MAX_FRAMES: nat := 20

  /** Why the walk ended. Only a zero or repeated return address stops it silently. */
  datatype StopReason = FrameLimit | NullFp | FpLoop | BadFp(fp: nat) | BadLr | LrOutOfText(lr: nat)

  /** The return address of the frame record at `fp`, one word above its saved frame pointer. */
  function RecordLr(mem: nat -> nat, fp: nat): nat {
    mem(fp + 8)
  }

  /** The frame pointer of the `j`-th record of the chain starting at `fp`. */
  ghost function FrameAt(mem: nat -> nat, fp: nat, j: nat): nat {
    if j == 0 then fp else mem(FrameAt(mem, fp, j - 1))
  }

  /** The frame pointer and return address the walk compares against at step `j`. */
  ghost function PrevFp(mem: nat -> nat, fp: nat, j: nat): nat {
    if j == 0 then 0 else FrameAt(mem, fp, j - 1)
  }

  ghost function PrevLr(mem: nat -> nat, fp: nat, lr: nat, j: nat): nat {
    if j == 0 then lr else RecordLr(mem, FrameAt(mem, fp, j - 1))
  }

  /**
   * The checks made on the record at `fp`, in the order the walk makes
   * them: None when the record is printed and the walk goes on.
   */
  function CheckRecord(fp: nat, prevFp: nat, savedLr: nat, prevLr: nat): (r: Option<StopReason>)
    ensures r == None <==>
      fp != 0 && fp != prevFp && FP_LOW <= fp <= FP_HIGH && fp % 16 == 0 &&
      savedLr != 0 && savedLr != prevLr && TEXT_LOW <= savedLr <= TEXT_HIGH
    ensures r != Some(FrameLimit)
  {
    if fp == 0 then Some(NullFp)
    else if fp == prevFp then Some(FpLoop)
    else if fp < FP_LOW || fp > FP_HIGH || fp % 16 != 0 then Some(BadFp(fp))
    else if savedLr == 0 || savedLr == prevLr then Some(BadLr)
    else if savedLr < TEXT_LOW || savedLr > TEXT_HIGH then Some(LrOutOfText(savedLr))
    else None
  }

  /** The outcome of step `j` of the walk over the chain from `fp`, with `lr` the exception's link register. */
  ghost function StepCheck(mem: nat -> nat, fp: nat, lr: nat, j: nat): Option<StopReason> {
    var at := FrameAt(mem, fp, j);
    CheckRecord(at, PrevFp(mem, fp, j), RecordLr(mem, at), PrevLr(mem, fp, lr, j))
  }

  /** The link-register line of a trace: printed when `lr` is non-zero and differs from `elr`. */
  function LinkLine(lr: nat, elr: nat): (l: Option<nat>)
    ensures l.Some? <==> lr != 0 && lr != elr
    ensures l.Some? ==> l.value == lr
  {
    if lr != 0 && lr != elr then Some(lr) else None
  }

  /**
   * The frame lines of a walk that went through `n` records: line `j`
   * carries the number `j + 2` and the return address of the `j`-th record
   * of the chain, which passed all its checks.
   */
  ghost predicate WalkedFrames(mem: nat -> nat, fp: nat, lr: nat, frames: seq<(nat, nat)>) {
    forall j {:trigger frames[j]} :: 0 <= j < |frames| ==>
      StepCheck(mem, fp, lr, j) == None && frames[j] == (j + 2, RecordLr(mem, FrameAt(mem, fp, j)))
  }

  /** One step along the chain: the record after the `j`-th, and what step `j + 1` compares against. */
  lemma ChainStep(mem: nat -> nat, fp: nat, lr: nat, j: nat)
    ensures FrameAt(mem, fp, j + 1) == mem(FrameAt(mem, fp, j))
    ensures PrevFp(mem, fp, j + 1) == FrameAt(mem, fp, j)
    ensures PrevLr(mem, fp, lr, j + 1) == RecordLr(mem, FrameAt(mem, fp, j))
  {
  }

  /** A walk extends by the line of the next record when that record passes its checks. */
  lemma WalkedFramesExtend(mem: nat -> nat, fp: nat, lr: nat, frames: seq<(nat, nat)>)
    requires WalkedFrames(mem, fp, lr, frames) && StepCheck(mem, fp, lr, |frames|) == None
    ensures WalkedFrames(mem, fp, lr, frames + [(|frames| + 2, RecordLr(mem, FrameAt(mem, fp, |frames|)))])
  {
    var ext := frames + [(|frames| + 2, RecordLr(mem, FrameAt(mem, fp, |frames|)))];
    forall j | 0 <= j < |ext|
      ensures StepCheck(mem, fp, lr, j) == None && ext[j] == (j + 2, RecordLr(mem, FrameAt(mem, fp, j)))
    {
      if j < |frames| {
        assert ext[j] == frames[j];
      }
    }
  }

  /**
   * Every frame line of a walk shows an address in the kernel text, and
   * the frame records it went through are 16-byte aligned kernel addresses
   * that never repeat the one before.
   */
  lemma WalkedFramesInRange(mem: nat -> nat, fp: nat, lr: nat, frames: seq<(nat, nat)>, j: nat)
    requires WalkedFrames(mem, fp, lr, frames) && j < |frames|
    ensures TEXT_LOW <= frames[j].1 <= TEXT_HIGH && frames[j].0 == j + 2
    ensures var at := FrameAt(mem, fp, j);
      FP_LOW <= at <= FP_HIGH && at % 16 == 0 && at != PrevFp(mem, fp, j)
  {
    var at := FrameAt(mem, fp, j);
    assert CheckRecord(at, PrevFp(mem, fp, j), RecordLr(mem, at), PrevLr(mem, fp, lr, j)) == None;
  }

  /**
   * print_stack_trace: the exception-address line (numbered 0), the
   * link-register line (numbered 1) when there is one, the frame lines
   * (numbered from 2) and the reason the walk ended.  The frame lines are
   * exactly the records of the chain from `fp` that pass their checks, up
   * to the first that fails or MAX_FRAMES of them.
   */
  method PrintStackTrace(fp: nat, lr: nat, elr: nat, mem: nat -> nat)
    returns (exceptionLine: nat, linkLine: Option<nat>, frames: seq<(nat, nat)>, stop: StopReason)
    ensures exceptionLine == elr && linkLine == LinkLine(lr, elr)
    ensures |frames| <= MAX_FRAMES && WalkedFrames(mem, fp, lr, frames)
    ensures |frames| == MAX_FRAMES ==> stop == FrameLimit
    ensures |frames| < MAX_FRAMES ==> StepCheck(mem, fp, lr, |frames|) == Some(stop)
  {
    exceptionLine := elr;
    linkLine := None;
    if lr != 0 && lr != elr {
      linkLine := Some(lr);
    }
    frames := [];
    var frame: nat := 2;
    var prevFp := 0;
    var prevLr := lr;
    var cur := fp;
    var i := 0;
    while i < MAX_FRAMES && cur != 0
      invariant i <= MAX_FRAMES && |frames| == i && frame == i + 2
      invariant cur == FrameAt(mem, fp, i) && prevFp == PrevFp(mem, fp, i) && prevLr == PrevLr(mem, fp, lr, i)
      invariant WalkedFrames(mem, fp, lr, frames)
    {
      if cur == prevFp {
        return exceptionLine, linkLine, frames, FpLoop;
      }
      if cur < FP_LOW || cur > FP_HIGH || cur % 16 != 0 {
        return exceptionLine, linkLine, frames, BadFp(cur);
      }
      var nextFp := mem(cur);
      var savedLr := RecordLr(mem, cur);
      if savedLr == 0 || savedLr == prevLr {
        return exceptionLine, linkLine, frames, BadLr;
      }
      if savedLr < TEXT_LOW || savedLr > TEXT_HIGH {
        return exceptionLine, linkLine, frames, LrOutOfText(savedLr);
      }
      assert StepCheck(mem, fp, lr, i) == None;
      WalkedFramesExtend(mem, fp, lr, frames);
      ChainStep(mem, fp, lr, i);
      frames := frames + [(frame, savedLr)];
      prevFp := cur;
      prevLr := savedLr;
      cur := nextFp;
      frame := frame + 1;
      i := i + 1;
    }
    stop := if i == MAX_FRAMES then FrameLimit else NullFp;
  }
}
