# HotSpot sender-frame resolvers, modelled in Dafny

HotSpot's stack walker asks a code blob's frame parser for the caller
("sender") of a frame. Each CPU port defines two `sender_frame` routines in
its `codeBlob_<cpu>.cpp`. `CodeBlob::FrameParser::sender_frame` handles
compiled and runtime code. `InterpreterBlob::FrameParser::sender_frame`
handles interpreted code. Given a frame's `pc`, `sp`, `unextended_sp`, `fp`
and `fp_safe`, and the blob's `frame_size()`, a routine stores the sender's pc
and sp through out-parameters. The x86 routines also store the optional
`sender_unextended_sp` and `sender_fp` when the caller passes them. Each
routine returns `false` when it cannot resolve the frame.

This project models the x86, arm and ppc routines as pure functions:

- `frames.dfy` (module `Frames`) holds the shared vocabulary:
  - word addresses and words;
  - stack memory, as a total function from word address to word;
  - the thread's stack check, as a predicate on word addresses;
  - the `frame::` offsets, as a record whose values are left open;
  - `SenderFrame`, the routine's result. It holds the boolean returned, and
    for each out-parameter whether it was written and with what. It also
    logs the stack words read, in order, so that "checked before read" and
    "reads nothing else" can be stated.
- `x86.dfy`, `arm.dfy` and `ppc.dfy` hold one module per CPU. Each has the two
  resolvers, and lemmas that pair each resolver with an independent
  description:
  - a round trip: store a caller's linkage in memory the way a call leaves it,
    and the resolver gives that caller back;
  - the read log is exact: the answer depends on the logged words and on
    every one of them;
  - what the optional out-parameters and the ignored arguments do not change.
- `compare.dfy` (module `CrossCpu`) states how the CPUs differ on the same
  frame. Only x86 has the frame-size guard. Only x86 fills the optional
  outputs. Only ppc follows an unsafe fp and skips the bounds check. On x86
  and arm the bounds check covers the computed sender sp only, not the words
  then read at offsets from it.

A failing routine is not all-or-nothing: the x86 and arm compiled routines
assign `*sender_sp` before the bounds check (`x86/codeBlob_x86.cpp:45`,
`arm/codeBlob_arm.cpp:40`), so their failure result carries a written
`senderSp`.

## Model

| member | source | states |
|---|---|---|
| X86CodeBlob.CompiledSenderFrame | src/hotspot/cpu/x86/codeBlob_x86.cpp:32-57 | A non-positive frame size returns false with nothing written and nothing read. Otherwise sender_sp = unextended_sp + frame size is written, even when the routine then fails. The result is true iff that sender_sp is in the stack; on failure pc and the optional outputs stay unwritten and no word is read. On success pc is the word at sender_sp - 1. The optional outputs are written exactly when requested and resolved: unextended sp equals sender_sp, fp is the word sender_sp_offset below it. Every read is one of those slots. |
| X86CodeBlob.InterpreterSenderFrame | src/hotspot/cpu/x86/codeBlob_x86.cpp:59-79 | An unsafe fp returns false with nothing written or read. The result is true iff fp_safe. pc is the word at fp + return_addr_offset. sender_sp is the address fp + sender_sp_offset, not a word loaded from it. When requested, unextended sp is the word at fp + interpreter_frame_sender_sp_offset and fp is the word at fp + link_offset. Nothing else is read. |
| X86CodeBlob.CompiledReadsOnlyLogged | src/hotspot/cpu/x86/codeBlob_x86.cpp:41-54 | Two memories that agree on the logged words give identical results: nothing unlogged is read. |
| X86CodeBlob.InterpreterReadsOnlyLogged | src/hotspot/cpu/x86/codeBlob_x86.cpp:66-76 | The same for the interpreter resolver. |
| X86CodeBlob.CompiledEveryLoggedReadMatters | src/hotspot/cpu/x86/codeBlob_x86.cpp:51-54 | For each logged address, some memory differing only there changes the result: no read is wasted. |
| X86CodeBlob.InterpreterEveryLoggedReadMatters | src/hotspot/cpu/x86/codeBlob_x86.cpp:70-76 | The same for the interpreter resolver. |
| X86CodeBlob.CompiledOptionalOutputsIndependent | src/hotspot/cpu/x86/codeBlob_x86.cpp:51-54 | Requesting the optional outputs changes neither the verdict nor pc nor sp. Without sender_fp requested, at most one word is read. |
| X86CodeBlob.InterpreterOptionalOutputsIndependent | src/hotspot/cpu/x86/codeBlob_x86.cpp:70-76 | Requesting the optional outputs changes neither the verdict nor pc nor sp. With neither requested, at most one word is read. |
| X86CodeBlob.CompiledRecoversCaller | src/hotspot/cpu/x86/codeBlob_x86.cpp:45-56 | Store a return address at sender_sp - 1 and a saved fp at sender_sp - sender_sp_offset, with sender_sp in the stack and the two slots distinct. The resolver then returns exactly that pc, sender_sp as sp and unextended sp, and that fp. |
| X86CodeBlob.InterpreterRecoversCaller | src/hotspot/cpu/x86/codeBlob_x86.cpp:66-78 | Store a return address, a sender unextended sp and a saved fp in three distinct fp-relative slots. The resolver returns all three, plus fp + sender_sp_offset as sp. |
| ArmCodeBlob.CompiledSenderFrame | src/hotspot/cpu/arm/codeBlob_arm.cpp:32-50 | There is no frame-size guard: sender_sp = unextended_sp + frame size is always written. The result is true iff it is in the stack. On failure pc is unwritten and nothing is read. On success pc is the word at sender_sp - sender_sp_offset + return_addr_offset. The optional outputs are never written. |
| ArmCodeBlob.InterpreterSenderFrame | src/hotspot/cpu/arm/codeBlob_arm.cpp:52-67 | An unsafe fp returns false with nothing written or read. The result is true iff fp_safe. pc is the word at fp + return_addr_offset. sp is the address fp + sender_sp_offset. The optional outputs are never written. |
| ArmCodeBlob.RequestIgnored | src/hotspot/cpu/arm/codeBlob_arm.cpp:32-67 | Passing or withholding sender_unextended_sp and sender_fp makes no difference to either arm resolver. |
| ArmCodeBlob.CompiledReadsOnlyLogged | src/hotspot/cpu/arm/codeBlob_arm.cpp:40-47 | Memories that agree on the logged word give identical results. |
| ArmCodeBlob.InterpreterReadsOnlyLogged | src/hotspot/cpu/arm/codeBlob_arm.cpp:59-64 | Memories that agree on the logged word give identical results. |
| ArmCodeBlob.CompiledEveryLoggedReadMatters | src/hotspot/cpu/arm/codeBlob_arm.cpp:47 | Changing the word read changes the result. |
| ArmCodeBlob.InterpreterEveryLoggedReadMatters | src/hotspot/cpu/arm/codeBlob_arm.cpp:63 | Changing the word read changes the result. |
| ArmCodeBlob.CompiledRecoversCaller | src/hotspot/cpu/arm/codeBlob_arm.cpp:40-49 | With sender_sp in the stack and a return address stored at sender_sp - sender_sp_offset + return_addr_offset, the resolver returns exactly that pc and sender_sp, with the optional outputs unwritten. |
| ArmCodeBlob.InterpreterRecoversCaller | src/hotspot/cpu/arm/codeBlob_arm.cpp:59-66 | With fp_safe and a return address stored at fp + return_addr_offset, the resolver returns exactly that pc and fp + sender_sp_offset. |
| PpcCodeBlob.CompiledSenderFrame | src/hotspot/cpu/ppc/codeBlob_ppc.cpp:32-45 | The result is always true: no frame-size, bounds or fp_safe check. sender_sp is fp itself. pc is the lr field of the abi_minframe record at fp. The optional outputs are never written. That lr word is the only word read. |
| PpcCodeBlob.InterpreterSenderFrame | src/hotspot/cpu/ppc/codeBlob_ppc.cpp:47-51 | The result is always true, including for an unsafe fp. sp is fp. pc is the saved lr at fp. The optional outputs are never written, and that lr word is the only word read. |
| PpcCodeBlob.InterpreterIsCompiled | src/hotspot/cpu/ppc/codeBlob_ppc.cpp:49-50 | For every input the interpreter resolver gives exactly the compiled resolver's result, and fp_safe does not change it. |
| PpcCodeBlob.CompiledDependsOnlyOnFp | src/hotspot/cpu/ppc/codeBlob_ppc.cpp:32-45 | Two frames with the same fp resolve identically, whatever their pc, sp, unextended sp, fp_safe, frame size, requested outputs and stack check. |
| PpcCodeBlob.CompiledReadsOnlyLogged | src/hotspot/cpu/ppc/codeBlob_ppc.cpp:40-42 | Memories that agree on the saved lr word give identical results. |
| PpcCodeBlob.CompiledEveryLoggedReadMatters | src/hotspot/cpu/ppc/codeBlob_ppc.cpp:42 | Changing the saved lr word changes the result. |
| PpcCodeBlob.CompiledRecoversCaller | src/hotspot/cpu/ppc/codeBlob_ppc.cpp:40-44 | With a return address stored in the lr field of the record at fp, the resolver returns exactly that pc with fp as sp, whatever fp_safe says. |
| CrossCpu.InterpreterPcSpAgree | src/hotspot/cpu/arm/codeBlob_arm.cpp:52-67 | With the same offsets, the x86 and arm interpreter resolvers (x86/codeBlob_x86.cpp:59-79) agree on the verdict, pc and sp. Only x86 writes sender_fp when it is requested. |
| CrossCpu.FrameSizeGuardOnlyOnX86 | src/hotspot/cpu/x86/codeBlob_x86.cpp:41-43 | Take a non-positive frame size whose computed sender_sp is in the stack. x86 returns false with sender_sp unwritten. arm (arm/codeBlob_arm.cpp:40-49) returns true with sender_sp written. |
| CrossCpu.CompiledAgreeOnSizedFrames | src/hotspot/cpu/arm/codeBlob_arm.cpp:40-47 | For a positive frame size, the x86 (x86/codeBlob_x86.cpp:45-51) and arm compiled resolvers agree on the verdict and sender_sp. They also agree on pc when return_addr_offset - sender_sp_offset is -1. |
| CrossCpu.OnlyPpcFollowsUnsafeFp | src/hotspot/cpu/ppc/codeBlob_ppc.cpp:47-51 | With fp_safe false, the x86 and arm interpreter resolvers return false, and the ppc one returns true. |
| CrossCpu.OnlyPpcSkipsBoundsCheck | src/hotspot/cpu/ppc/codeBlob_ppc.cpp:40-44 | Take a sender_sp outside the stack. The x86 and arm compiled resolvers return false without reading. The ppc one returns true after reading its linkage record. |
| CrossCpu.X86ReadsUncheckedSlot | src/hotspot/cpu/x86/codeBlob_x86.cpp:47-51 | The stack check covers sender_sp only. With sender_sp in the stack and sender_sp - 1 outside it, the x86 compiled resolver still returns true, reads sender_sp - 1 and returns that word as pc. |
| CrossCpu.ArmReadsUncheckedSlot | src/hotspot/cpu/arm/codeBlob_arm.cpp:42-47 | The same on arm. With sender_sp in the stack and the return-address slot sender_sp - sender_sp_offset + return_addr_offset outside it, the resolver returns true, reads that slot and returns its word as pc. |

## Left out

- `JavaThread::is_in_full_stack_checked` is a predicate on word addresses. Thread state, guard zones and the byte-address cast at the call are not part of this model.
- `_cb->frame_size()` is an integer argument. Where a blob gets its frame size is not part of this model.
- The values of `frame::sender_sp_offset`, `return_addr_offset`, `link_offset`, `interpreter_frame_sender_sp_offset` and the layout of `frame::abi_minframe` are open parameters. They live in each CPU's frame header, which is not part of this model. Round-trip lemmas require only that the slots they fill are distinct.
- The `assert(sender_pc != NULL)` and `assert(sender_sp != NULL)` checks hold by construction: the result always has both slots.
- Addresses and words are unbounded integers. 64-bit wrap-around of pointer arithmetic is not modelled.
- The x86 and arm stack checks cover the computed sender_sp only. The words read at `sender_sp - 1`, `sender_sp - sender_sp_offset` and `sender_sp - sender_sp_offset + return_addr_offset` are not checked, so success does not promise they lie in the stack. `CrossCpu.X86ReadsUncheckedSlot` and `CrossCpu.ArmReadsUncheckedSlot` state this.
- The result record does not track the order of writes. It shows which out-parameters were written, and that is enough to see the early `*sender_sp` store.
- Faults from reading unmapped memory are not modelled, since memory is total. The log of words read stands in for them.
- The stack-walking driver, the per-blob selection of a parser, thread suspension and concurrent mutation of the walked stack are outside these files.
