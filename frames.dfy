/** Vocabulary shared by the per-CPU sender-frame resolvers: stack words and
    addresses, the frame a resolver starts from, and the out-parameters it
    writes through (`sender_pc`, `sender_sp`, `sender_unextended_sp`,
    `sender_fp`). Addresses count machine words, as `intptr_t*` arithmetic
    does. */
module Frames {

  /** A stack address, in words. */
  type Addr = int

  /** The contents of one stack word. */
  type Word = int

  /** A stable snapshot of stack memory, word address to word. */
  type Memory = Addr -> Word

  /** `JavaThread::is_in_full_stack_checked` of the walked thread, taken as
      given: true when the word at the address lies in that thread's stack. */
  type StackCheck = Addr -> bool

  /** The frame being parsed: the `pc`, `sp`, `unextended_sp`, `fp` and
      `fp_safe` arguments of `sender_frame`. */
  datatype Frame = Frame(pc: Word, sp: Addr, unextendedSp: Addr, fp: Addr, fpSafe: bool)

  /** Which optional out-parameters the caller passed as non-null pointers. */
  datatype Request = Request(unextendedSp: bool, fp: bool)

  /** What happened to one out-parameter: left as the caller had it, or
      assigned a value. */
  datatype Out<T> = Unwritten | Written(value: T)

  /** The boolean `sender_frame` returns, what it stored through each
      out-parameter, and the stack words it read, in order. */
  datatype SenderFrame = SenderFrame(
    ok: bool,
    senderPc: Out<Word>,
    senderSp: Out<Addr>,
    senderUnextendedSp: Out<Addr>,
    senderFp: Out<Addr>,
    loads: seq<Addr>)

  /** The `frame::` word offsets the x86 and arm routines use; their values
      live in each CPU's frame header and are left open here. */
  datatype FrameOffsets = FrameOffsets(
    senderSpOffset: int,
    returnAddrOffset: int,
    linkOffset: int,
    interpreterFrameSenderSpOffset: int)

  /** Where the x86 and arm compiled routines find the caller's frame: the
      blob's frame size above the unextended sp. */
  function CompiledSenderSp(f: Frame, frameSize: int): Addr {
    f.unextendedSp + frameSize
  }

  /** The result of a `return false` reached before any out-parameter is
      assigned and before any stack word is read. */
  function Refused(): SenderFrame {
    SenderFrame(false, Unwritten, Unwritten, Unwritten, Unwritten, [])
  }

  /** Neither optional out-parameter is assigned. */
  predicate OptionalOutputsUnwritten(r: SenderFrame) {
    r.senderUnextendedSp == Unwritten && r.senderFp == Unwritten
  }

  /** `m` with the word at `a` replaced by `v`: how a caller's prologue or a
      call instruction leaves its linkage behind. */
  function Store(m: Memory, a: Addr, v: Word): Memory {
    b => if b == a then v else m(b)
  }

  /** Two memory snapshots holding the same word at every address in `addrs`. */
  predicate AgreeOn(m1: Memory, m2: Memory, addrs: seq<Addr>) {
    forall a :: a in addrs ==> m1(a) == m2(a)
  }

  /** `m2` differs from `m1` at most in the word at `a`. */
  ghost predicate DifferOnlyAt(m1: Memory, m2: Memory, a: Addr) {
    forall b :: b != a ==> m1(b) == m2(b)
  }
}
