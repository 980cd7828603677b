/** The arm sender-frame resolvers of codeBlob_arm.cpp. Neither writes the
    optional `sender_unextended_sp` or `sender_fp`, and the compiled one has
    no frame-size guard. */
module ArmCodeBlob {
  import opened Frames

  /** The stack word holding the return address of a compiled frame whose
      sender sp is `senderSp`. */
  function CompiledPcSlot(senderSp: Addr, offsets: FrameOffsets): Addr {
    senderSp - offsets.senderSpOffset + offsets.returnAddrOffset
  }

  /** `CodeBlob::FrameParser::sender_frame` on arm. `frameSize` is
      `_cb->frame_size()`; the optional out-parameters are accepted and
      ignored, so `req` has no effect. */
  function CompiledSenderFrame(f: Frame, frameSize: int, offsets: FrameOffsets, req: Request,
                               inStack: StackCheck, m: Memory): (r: SenderFrame)
    // sender_sp is assigned unconditionally, before the bounds check
    ensures r.senderSp == Written(CompiledSenderSp(f, frameSize))
    ensures r.ok <==> inStack(CompiledSenderSp(f, frameSize))
    ensures !r.ok ==> r.senderPc == Unwritten && r.loads == []
    ensures r.ok ==> r.senderPc == Written(m(CompiledPcSlot(CompiledSenderSp(f, frameSize), offsets)))
    ensures OptionalOutputsUnwritten(r)
    ensures forall a :: a in r.loads ==> r.ok && a == CompiledPcSlot(CompiledSenderSp(f, frameSize), offsets)
  {
    var senderSp := CompiledSenderSp(f, frameSize);
    if !inStack(senderSp) then
      SenderFrame(false, Unwritten, Written(senderSp), Unwritten, Unwritten, [])
    else
      var pcSlot := CompiledPcSlot(senderSp, offsets);
      SenderFrame(true, Written(m(pcSlot)), Written(senderSp), Unwritten, Unwritten, [pcSlot])
  }

  /** `InterpreterBlob::FrameParser::sender_frame` on arm; `req` has no
      effect here either. */
  function InterpreterSenderFrame(f: Frame, offsets: FrameOffsets, req: Request, m: Memory): (r: SenderFrame)
    ensures !f.fpSafe ==> r == Refused()
    ensures r.ok <==> f.fpSafe
    ensures r.ok ==> r.senderPc == Written(m(f.fp + offsets.returnAddrOffset))
    // sender_sp is the address of the slot, not the word stored in it
    ensures r.ok ==> r.senderSp == Written(f.fp + offsets.senderSpOffset)
    ensures OptionalOutputsUnwritten(r)
    ensures forall a :: a in r.loads ==> f.fpSafe && a == f.fp + offsets.returnAddrOffset
  {
    if !f.fpSafe then Refused()
    else
      var pcSlot := f.fp + offsets.returnAddrOffset;
      SenderFrame(true, Written(m(pcSlot)), Written(f.fp + offsets.senderSpOffset), Unwritten, Unwritten, [pcSlot])
  }

  /** Passing or withholding the optional out-parameters makes no difference
      to either arm resolver. */
  lemma RequestIgnored(f: Frame, frameSize: int, offsets: FrameOffsets, req1: Request, req2: Request,
                       inStack: StackCheck, m: Memory)
    ensures CompiledSenderFrame(f, frameSize, offsets, req1, inStack, m)
            == CompiledSenderFrame(f, frameSize, offsets, req2, inStack, m)
    ensures InterpreterSenderFrame(f, offsets, req1, m) == InterpreterSenderFrame(f, offsets, req2, m)
  {
  }

  /** The compiled resolver's answer depends on memory only through the word
      it logs as read. */
  lemma CompiledReadsOnlyLogged(f: Frame, frameSize: int, offsets: FrameOffsets, req: Request,
                                inStack: StackCheck, m1: Memory, m2: Memory)
    requires AgreeOn(m1, m2, CompiledSenderFrame(f, frameSize, offsets, req, inStack, m1).loads)
    ensures CompiledSenderFrame(f, frameSize, offsets, req, inStack, m1)
            == CompiledSenderFrame(f, frameSize, offsets, req, inStack, m2)
  {
  }

  /** The interpreter resolver's answer depends on memory only through the
      word it logs as read. */
  lemma InterpreterReadsOnlyLogged(f: Frame, offsets: FrameOffsets, req: Request, m1: Memory, m2: Memory)
    requires AgreeOn(m1, m2, InterpreterSenderFrame(f, offsets, req, m1).loads)
    ensures InterpreterSenderFrame(f, offsets, req, m1) == InterpreterSenderFrame(f, offsets, req, m2)
  {
  }

  /** Changing the word the compiled resolver reads changes its answer. */
  lemma CompiledEveryLoggedReadMatters(f: Frame, frameSize: int, offsets: FrameOffsets, req: Request,
                                       inStack: StackCheck, m: Memory, a: Addr)
    requires a in CompiledSenderFrame(f, frameSize, offsets, req, inStack, m).loads
    ensures exists m2 :: DifferOnlyAt(m, m2, a)
                         && CompiledSenderFrame(f, frameSize, offsets, req, inStack, m2)
                            != CompiledSenderFrame(f, frameSize, offsets, req, inStack, m)
  {
    var m2 := Store(m, a, m(a) + 1);
    assert DifferOnlyAt(m, m2, a);
  }

  /** Changing the word the interpreter resolver reads changes its answer. */
  lemma InterpreterEveryLoggedReadMatters(f: Frame, offsets: FrameOffsets, req: Request, m: Memory, a: Addr)
    requires a in InterpreterSenderFrame(f, offsets, req, m).loads
    ensures exists m2 :: DifferOnlyAt(m, m2, a)
                         && InterpreterSenderFrame(f, offsets, req, m2) != InterpreterSenderFrame(f, offsets, req, m)
  {
    var m2 := Store(m, a, m(a) + 1);
    assert DifferOnlyAt(m, m2, a);
  }

  /** A compiled caller leaves its return address `return_addr_offset -
      sender_sp_offset` words from its sp; from such a stack the compiled
      resolver recovers the caller's pc and sp. */
  lemma CompiledRecoversCaller(f: Frame, frameSize: int, offsets: FrameOffsets, req: Request,
                               inStack: StackCheck, m: Memory, callerPc: Word)
    requires inStack(CompiledSenderSp(f, frameSize))
    ensures var sp := CompiledSenderSp(f, frameSize);
            var stack := Store(m, CompiledPcSlot(sp, offsets), callerPc);
            CompiledSenderFrame(f, frameSize, offsets, req, inStack, stack)
            == SenderFrame(true, Written(callerPc), Written(sp), Unwritten, Unwritten, [CompiledPcSlot(sp, offsets)])
  {
  }

  /** An interpreted frame keeps the return address at `fp +
      return_addr_offset`; the interpreter resolver recovers it, and the raw
      sender sp as an address. */
  lemma InterpreterRecoversCaller(f: Frame, offsets: FrameOffsets, req: Request, m: Memory, callerPc: Word)
    requires f.fpSafe
    ensures var stack := Store(m, f.fp + offsets.returnAddrOffset, callerPc);
            InterpreterSenderFrame(f, offsets, req, stack)
            == SenderFrame(true, Written(callerPc), Written(f.fp + offsets.senderSpOffset), Unwritten, Unwritten,
                           [f.fp + offsets.returnAddrOffset])
  {
  }
}
