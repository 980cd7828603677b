/** How the three CPUs' resolvers differ on the same frame: the x86-only
    frame-size guard, the x86-only optional outputs, and the ppc resolvers'
    missing checks. */
module CrossCpu {
  import opened Frames
  import X86 = X86CodeBlob
  import Arm = ArmCodeBlob
  import Ppc = PpcCodeBlob

  /** With the same `frame::` offsets the x86 and arm interpreter resolvers
      agree on the verdict, the sender pc and the sender sp; only x86 fills
      in the optional outputs. */
  lemma InterpreterPcSpAgree(f: Frame, offsets: FrameOffsets, req: Request, m: Memory)
    ensures var x := X86.InterpreterSenderFrame(f, offsets, req, m);
            var a := Arm.InterpreterSenderFrame(f, offsets, req, m);
            x.ok == a.ok && x.senderPc == a.senderPc && x.senderSp == a.senderSp
    ensures f.fpSafe && req.fp ==> X86.InterpreterSenderFrame(f, offsets, req, m).senderFp.Written?
    ensures !Arm.InterpreterSenderFrame(f, offsets, req, m).senderFp.Written?
  {
  }

  /** A frame size that is not positive is refused on x86 only: arm goes on
      to the bounds check and, when the computed sender sp is in the stack,
      succeeds. */
  lemma FrameSizeGuardOnlyOnX86(f: Frame, frameSize: int, offsets: FrameOffsets, req: Request,
                                inStack: StackCheck, m: Memory)
    requires frameSize <= 0 && inStack(CompiledSenderSp(f, frameSize))
    ensures !X86.CompiledSenderFrame(f, frameSize, offsets, req, inStack, m).ok
    ensures X86.CompiledSenderFrame(f, frameSize, offsets, req, inStack, m).senderSp == Unwritten
    ensures Arm.CompiledSenderFrame(f, frameSize, offsets, req, inStack, m).ok
    ensures Arm.CompiledSenderFrame(f, frameSize, offsets, req, inStack, m).senderSp
            == Written(CompiledSenderSp(f, frameSize))
  {
  }

  /** For a positive frame size the x86 and arm compiled resolvers compute
      the same sender sp and the same verdict; where arm's offsets put the
      return address one word below the sender sp, as x86 always does, they
      also read the same sender pc. */
  lemma CompiledAgreeOnSizedFrames(f: Frame, frameSize: int, offsets: FrameOffsets, req: Request,
                                   inStack: StackCheck, m: Memory)
    requires frameSize > 0
    ensures var x := X86.CompiledSenderFrame(f, frameSize, offsets, req, inStack, m);
            var a := Arm.CompiledSenderFrame(f, frameSize, offsets, req, inStack, m);
            x.ok == a.ok && x.senderSp == a.senderSp
    ensures offsets.returnAddrOffset - offsets.senderSpOffset == -1 ==>
              X86.CompiledSenderFrame(f, frameSize, offsets, req, inStack, m).senderPc
              == Arm.CompiledSenderFrame(f, frameSize, offsets, req, inStack, m).senderPc
  {
  }

  /** An fp that is not safe stops the x86 and arm interpreter resolvers,
      and is followed by the ppc one. */
  lemma OnlyPpcFollowsUnsafeFp(f: Frame, frameSize: int, offsets: FrameOffsets, abi: Ppc.AbiMinframe,
                               req: Request, inStack: StackCheck, m: Memory)
    requires !f.fpSafe
    ensures !X86.InterpreterSenderFrame(f, offsets, req, m).ok
    ensures !Arm.InterpreterSenderFrame(f, offsets, req, m).ok
    ensures Ppc.InterpreterSenderFrame(f, frameSize, abi, req, inStack, m).ok
  {
  }

  /** A sender sp outside the stack stops the x86 and arm compiled resolvers
      before they read any stack word; the ppc one never consults the stack
      check and reads the linkage record regardless. */
  lemma OnlyPpcSkipsBoundsCheck(f: Frame, frameSize: int, offsets: FrameOffsets, abi: Ppc.AbiMinframe,
                                req: Request, inStack: StackCheck, m: Memory)
    requires !inStack(CompiledSenderSp(f, frameSize))
    ensures var x := X86.CompiledSenderFrame(f, frameSize, offsets, req, inStack, m);
            !x.ok && x.loads == []
    ensures var a := Arm.CompiledSenderFrame(f, frameSize, offsets, req, inStack, m);
            !a.ok && a.loads == []
    ensures var p := Ppc.CompiledSenderFrame(f, frameSize, abi, req, inStack, m);
            p.ok && p.loads != []
  {
  }

  /** The x86 stack check covers the computed sender sp only, not the words
      read from below it: with the sender sp in the stack and the word just
      below it outside, the compiled resolver still succeeds and reads that
      word as the sender pc. */
  lemma X86ReadsUncheckedSlot(f: Frame, frameSize: int, offsets: FrameOffsets, req: Request,
                              inStack: StackCheck, m: Memory)
    requires frameSize > 0
    requires inStack(CompiledSenderSp(f, frameSize)) && !inStack(CompiledSenderSp(f, frameSize) - 1)
    ensures var x := X86.CompiledSenderFrame(f, frameSize, offsets, req, inStack, m);
            x.ok && CompiledSenderSp(f, frameSize) - 1 in x.loads
            && x.senderPc == Written(m(CompiledSenderSp(f, frameSize) - 1))
  {
  }

  /** The same on arm: the return-address slot, `return_addr_offset -
      sender_sp_offset` words from the checked sender sp, is read whether or
      not it lies in the stack. */
  lemma ArmReadsUncheckedSlot(f: Frame, frameSize: int, offsets: FrameOffsets, req: Request,
                              inStack: StackCheck, m: Memory)
    requires inStack(CompiledSenderSp(f, frameSize))
    requires !inStack(Arm.CompiledPcSlot(CompiledSenderSp(f, frameSize), offsets))
    ensures var a := Arm.CompiledSenderFrame(f, frameSize, offsets, req, inStack, m);
            var slot := Arm.CompiledPcSlot(CompiledSenderSp(f, frameSize), offsets);
            a.ok && slot in a.loads && a.senderPc == Written(m(slot))
  {
  }
}
