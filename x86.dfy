/** The x86 sender-frame resolvers of codeBlob_x86.cpp: compiled or runtime
    code (`CodeBlob::FrameParser::sender_frame`) and interpreted code
    (`InterpreterBlob::FrameParser::sender_frame`). */
module X86CodeBlob {
  import opened Frames

  /** `CodeBlob::FrameParser::sender_frame` on x86. `frameSize` is
      `_cb->frame_size()`. */
  function CompiledSenderFrame(f: Frame, frameSize: int, offsets: FrameOffsets, req: Request,
                               inStack: StackCheck, m: Memory): (r: SenderFrame)
    // a frame size that is not positive is refused before anything happens
    ensures frameSize <= 0 ==> r == Refused()
    // otherwise sender_sp is assigned first, on the failure path as well
    ensures frameSize > 0 ==> r.senderSp == Written(CompiledSenderSp(f, frameSize))
    ensures r.ok <==> frameSize > 0 && inStack(CompiledSenderSp(f, frameSize))
    // an out-of-stack sender_sp leaves every other output unwritten and reads nothing
    ensures !r.ok ==> r.senderPc == Unwritten && OptionalOutputsUnwritten(r) && r.loads == []
    // the return address is the word just below sender_sp
    ensures r.ok ==> r.senderPc == Written(m(CompiledSenderSp(f, frameSize) - 1))
    // the optional outputs are written exactly when requested and the frame resolves
    ensures r.senderUnextendedSp.Written? <==> r.ok && req.unextendedSp
    ensures r.senderUnextendedSp.Written? ==> r.senderUnextendedSp == r.senderSp
    ensures r.senderFp.Written? <==> r.ok && req.fp
    ensures r.senderFp.Written? ==>
              r.senderFp.value == m(CompiledSenderSp(f, frameSize) - offsets.senderSpOffset)
    // every stack word read lies at a fixed offset below the checked sender_sp
    ensures forall a :: a in r.loads ==>
              r.ok && (a == CompiledSenderSp(f, frameSize) - 1
                       || (req.fp && a == CompiledSenderSp(f, frameSize) - offsets.senderSpOffset))
  {
    if frameSize <= 0 then Refused()
    else
      var senderSp := CompiledSenderSp(f, frameSize);
      if !inStack(senderSp) then
        SenderFrame(false, Unwritten, Written(senderSp), Unwritten, Unwritten, [])
      else
        var pcSlot := senderSp - 1;
        var fpSlot := senderSp - offsets.senderSpOffset;
        SenderFrame(true,
                    Written(m(pcSlot)),
                    Written(senderSp),
                    if req.unextendedSp then Written(senderSp) else Unwritten,
                    if req.fp then Written(m(fpSlot)) else Unwritten,
                    if req.fp then [pcSlot, fpSlot] else [pcSlot])
  }

  /** `InterpreterBlob::FrameParser::sender_frame` on x86. */
  function InterpreterSenderFrame(f: Frame, offsets: FrameOffsets, req: Request, m: Memory): (r: SenderFrame)
    // an fp that is not safe is refused before it is dereferenced
    ensures !f.fpSafe ==> r == Refused()
    ensures r.ok <==> f.fpSafe
    ensures r.ok ==> r.senderPc == Written(m(f.fp + offsets.returnAddrOffset))
    // sender_sp is the address of the slot, not the word stored in it
    ensures r.ok ==> r.senderSp == Written(f.fp + offsets.senderSpOffset)
    ensures r.senderUnextendedSp.Written? <==> r.ok && req.unextendedSp
    ensures r.senderUnextendedSp.Written? ==>
              r.senderUnextendedSp.value == m(f.fp + offsets.interpreterFrameSenderSpOffset)
    ensures r.senderFp.Written? <==> r.ok && req.fp
    ensures r.senderFp.Written? ==> r.senderFp.value == m(f.fp + offsets.linkOffset)
    // every word read is an fp-relative slot, read only once fp is trusted
    ensures forall a :: a in r.loads ==>
              f.fpSafe && (a == f.fp + offsets.returnAddrOffset
                           || (req.unextendedSp && a == f.fp + offsets.interpreterFrameSenderSpOffset)
                           || (req.fp && a == f.fp + offsets.linkOffset))
  {
    if !f.fpSafe then Refused()
    else
      var pcSlot := f.fp + offsets.returnAddrOffset;
      var uspSlot := f.fp + offsets.interpreterFrameSenderSpOffset;
      var linkSlot := f.fp + offsets.linkOffset;
      SenderFrame(true,
                  Written(m(pcSlot)),
                  Written(f.fp + offsets.senderSpOffset),
                  if req.unextendedSp then Written(m(uspSlot)) else Unwritten,
                  if req.fp then Written(m(linkSlot)) else Unwritten,
                  [pcSlot]
                  + (if req.unextendedSp then [uspSlot] else [])
                  + (if req.fp then [linkSlot] else []))
  }

  /** The compiled resolver's answer depends on memory only through the words
      it logs as read. */
  lemma CompiledReadsOnlyLogged(f: Frame, frameSize: int, offsets: FrameOffsets, req: Request,
                                inStack: StackCheck, m1: Memory, m2: Memory)
    requires AgreeOn(m1, m2, CompiledSenderFrame(f, frameSize, offsets, req, inStack, m1).loads)
    ensures CompiledSenderFrame(f, frameSize, offsets, req, inStack, m1)
            == CompiledSenderFrame(f, frameSize, offsets, req, inStack, m2)
  {
  }

  /** The interpreter resolver's answer depends on memory only through the
      words it logs as read. */
  lemma InterpreterReadsOnlyLogged(f: Frame, offsets: FrameOffsets, req: Request, m1: Memory, m2: Memory)
    requires AgreeOn(m1, m2, InterpreterSenderFrame(f, offsets, req, m1).loads)
    ensures InterpreterSenderFrame(f, offsets, req, m1) == InterpreterSenderFrame(f, offsets, req, m2)
  {
  }

  /** Asking for the optional outputs changes neither the verdict nor the pc
      and sp, and not asking for them costs no extra read. */
  lemma CompiledOptionalOutputsIndependent(f: Frame, frameSize: int, offsets: FrameOffsets,
                                           req1: Request, req2: Request, inStack: StackCheck, m: Memory)
    ensures var r1 := CompiledSenderFrame(f, frameSize, offsets, req1, inStack, m);
            var r2 := CompiledSenderFrame(f, frameSize, offsets, req2, inStack, m);
            r1.ok == r2.ok && r1.senderPc == r2.senderPc && r1.senderSp == r2.senderSp
    ensures !req1.fp ==> |CompiledSenderFrame(f, frameSize, offsets, req1, inStack, m).loads| <= 1
  {
  }

  /** The same for the interpreter resolver. */
  lemma InterpreterOptionalOutputsIndependent(f: Frame, offsets: FrameOffsets, req1: Request, req2: Request, m: Memory)
    ensures var r1 := InterpreterSenderFrame(f, offsets, req1, m);
            var r2 := InterpreterSenderFrame(f, offsets, req2, m);
            r1.ok == r2.ok && r1.senderPc == r2.senderPc && r1.senderSp == r2.senderSp
    ensures !req1.unextendedSp && !req1.fp ==> |InterpreterSenderFrame(f, offsets, req1, m).loads| <= 1
  {
  }

  /** A call from compiled code pushes the return address just below the
      caller's sp and keeps the caller's fp `sender_sp_offset` words below it;
      from such a stack the compiled resolver recovers the caller exactly. */
  lemma CompiledRecoversCaller(f: Frame, frameSize: int, offsets: FrameOffsets, inStack: StackCheck,
                               m: Memory, callerPc: Word, callerFp: Addr)
    requires frameSize > 0 && inStack(CompiledSenderSp(f, frameSize))
    requires offsets.senderSpOffset != 1
    ensures var sp := CompiledSenderSp(f, frameSize);
            var stack := Store(Store(m, sp - 1, callerPc), sp - offsets.senderSpOffset, callerFp);
            CompiledSenderFrame(f, frameSize, offsets, Request(true, true), inStack, stack)
            == SenderFrame(true, Written(callerPc), Written(sp), Written(sp), Written(callerFp),
                           [sp - 1, sp - offsets.senderSpOffset])
  {
  }

  /** An interpreted frame keeps the return address, the sender's unextended
      sp and the saved fp in three distinct fp-relative slots; from such a
      frame the interpreter resolver recovers all three, and the raw sender sp
      as an address. */
  lemma InterpreterRecoversCaller(f: Frame, offsets: FrameOffsets, m: Memory,
                                  callerPc: Word, callerUnextendedSp: Addr, callerFp: Addr)
    requires f.fpSafe
    requires offsets.returnAddrOffset != offsets.interpreterFrameSenderSpOffset
    requires offsets.returnAddrOffset != offsets.linkOffset
    requires offsets.interpreterFrameSenderSpOffset != offsets.linkOffset
    ensures var stack := Store(Store(Store(m, f.fp + offsets.returnAddrOffset, callerPc),
                                     f.fp + offsets.interpreterFrameSenderSpOffset, callerUnextendedSp),
                               f.fp + offsets.linkOffset, callerFp);
            var r := InterpreterSenderFrame(f, offsets, Request(true, true), stack);
            r.ok && r.senderPc == Written(callerPc) && r.senderSp == Written(f.fp + offsets.senderSpOffset)
            && r.senderUnextendedSp == Written(callerUnextendedSp) && r.senderFp == Written(callerFp)
  {
  }

  /** No logged read is wasted: changing the word at any address the compiled
      resolver reads changes its answer. With CompiledReadsOnlyLogged this makes
      the log exactly the set of words the answer depends on. */
  lemma CompiledEveryLoggedReadMatters(f: Frame, frameSize: int, offsets: FrameOffsets, req: Request,
                                       inStack: StackCheck, m: Memory, a: Addr)
    requires a in CompiledSenderFrame(f, frameSize, offsets, req, inStack, m).loads
    ensures exists m2 :: DifferOnlyAt(m, m2, a)
                         && CompiledSenderFrame(f, frameSize, offsets, req, inStack, m2)
                            != CompiledSenderFrame(f, frameSize, offsets, req, inStack, m)
  {
    var m2 := Store(m, a, m(a) + 1);
    assert DifferOnlyAt(m, m2, a);
  }

  /** The same for the interpreter resolver. */
  lemma InterpreterEveryLoggedReadMatters(f: Frame, offsets: FrameOffsets, req: Request, m: Memory, a: Addr)
    requires a in InterpreterSenderFrame(f, offsets, req, m).loads
    ensures exists m2 :: DifferOnlyAt(m, m2, a)
                         && InterpreterSenderFrame(f, offsets, req, m2) != InterpreterSenderFrame(f, offsets, req, m)
  {
    var m2 := Store(m, a, m(a) + 1);
    assert DifferOnlyAt(m, m2, a);
  }
}
