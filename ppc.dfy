/** The ppc sender-frame resolvers of codeBlob_ppc.cpp. The frame pointer
    always addresses the caller's `frame::abi_minframe` linkage record, so the
    compiled resolver reads the saved link register from it without any
    check, and the interpreter resolver is the same routine. */
module PpcCodeBlob {
  import opened Frames

  /** The word index of the `lr` field within `frame::abi_minframe`; the
      record's layout lives in the ppc frame header and is left open here. */
  datatype AbiMinframe = AbiMinframe(lrOffset: nat)

  /** `CodeBlob::FrameParser::sender_frame` on ppc. It takes the same
      arguments as on the other CPUs; all but `fp` and memory go unused. */
  function CompiledSenderFrame(f: Frame, frameSize: int, abi: AbiMinframe, req: Request,
                               inStack: StackCheck, m: Memory): (r: SenderFrame)
    // unconditional: no frame-size guard, no bounds check, no fp_safe gate
    ensures r.ok
    // the linkage record's own address is the sender sp
    ensures r.senderSp == Written(f.fp)
    // the sender pc is the record's saved lr
    ensures r.senderPc == Written(m(f.fp + abi.lrOffset))
    ensures OptionalOutputsUnwritten(r)
    ensures r.loads == [f.fp + abi.lrOffset]
  {
    var senderAbi := f.fp;
    SenderFrame(true, Written(m(senderAbi + abi.lrOffset)), Written(f.fp), Unwritten, Unwritten,
                [senderAbi + abi.lrOffset])
  }

  /** `InterpreterBlob::FrameParser::sender_frame` on ppc: a call to the
      compiled resolver with every argument passed on. */
  function InterpreterSenderFrame(f: Frame, frameSize: int, abi: AbiMinframe, req: Request,
                                  inStack: StackCheck, m: Memory): (r: SenderFrame)
    // no fp_safe gate: an unsafe fp is followed like any other
    ensures r.ok
    ensures r.senderSp == Written(f.fp)
    ensures r.senderPc == Written(m(f.fp + abi.lrOffset))
    ensures OptionalOutputsUnwritten(r)
    ensures r.loads == [f.fp + abi.lrOffset]
  {
    CompiledSenderFrame(f, frameSize, abi, req, inStack, m)
  }

  /** The answer depends on `fp` and memory only: two frames with the same fp
      resolve alike whatever their pc, sp, unextended sp, fp_safe, frame size,
      requested outputs and stack check. */
  lemma CompiledDependsOnlyOnFp(f1: Frame, f2: Frame, frameSize1: int, frameSize2: int, abi: AbiMinframe,
                                req1: Request, req2: Request, inStack1: StackCheck, inStack2: StackCheck,
                                m: Memory)
    requires f1.fp == f2.fp
    ensures CompiledSenderFrame(f1, frameSize1, abi, req1, inStack1, m)
            == CompiledSenderFrame(f2, frameSize2, abi, req2, inStack2, m)
  {
  }

  /** For every input, including an fp that is not safe, the interpreter
      resolver gives exactly the compiled resolver's answer. */
  lemma InterpreterIsCompiled(f: Frame, frameSize: int, abi: AbiMinframe, req: Request,
                              inStack: StackCheck, m: Memory)
    ensures InterpreterSenderFrame(f, frameSize, abi, req, inStack, m)
            == CompiledSenderFrame(f, frameSize, abi, req, inStack, m)
    ensures InterpreterSenderFrame(f.(fpSafe := false), frameSize, abi, req, inStack, m)
            == InterpreterSenderFrame(f.(fpSafe := true), frameSize, abi, req, inStack, m)
  {
  }

  /** The resolver's answer depends on memory only through the word it logs
      as read. */
  lemma CompiledReadsOnlyLogged(f: Frame, frameSize: int, abi: AbiMinframe, req: Request,
                                inStack: StackCheck, m1: Memory, m2: Memory)
    requires AgreeOn(m1, m2, CompiledSenderFrame(f, frameSize, abi, req, inStack, m1).loads)
    ensures CompiledSenderFrame(f, frameSize, abi, req, inStack, m1)
            == CompiledSenderFrame(f, frameSize, abi, req, inStack, m2)
  {
  }

  /** Changing the saved lr changes the resolver's answer. */
  lemma CompiledEveryLoggedReadMatters(f: Frame, frameSize: int, abi: AbiMinframe, req: Request,
                                       inStack: StackCheck, m: Memory, a: Addr)
    requires a in CompiledSenderFrame(f, frameSize, abi, req, inStack, m).loads
    ensures exists m2 :: DifferOnlyAt(m, m2, a)
                         && CompiledSenderFrame(f, frameSize, abi, req, inStack, m2)
                            != CompiledSenderFrame(f, frameSize, abi, req, inStack, m)
  {
    var m2 := Store(m, a, m(a) + 1);
    assert DifferOnlyAt(m, m2, a);
  }

  /** The caller's linkage record sits at fp, and its `lr` field holds the
      saved return address; from it the resolver recovers that return
      address as the sender pc and the record's address as the sender sp,
      whatever the frame's fp_safe flag says. */
  lemma CompiledRecoversCaller(f: Frame, frameSize: int, abi: AbiMinframe, req: Request,
                               inStack: StackCheck, m: Memory, callerPc: Word)
    ensures var stack := Store(m, f.fp + abi.lrOffset, callerPc);
            CompiledSenderFrame(f, frameSize, abi, req, inStack, stack)
            == SenderFrame(true, Written(callerPc), Written(f.fp), Unwritten, Unwritten, [f.fp + abi.lrOffset])
  {
  }
}
