/** code/machine/mipssim.cc: unaligned loads and stores as pairs of instructions, through the delayed-load slot. */
module LoadStores {

  /** Memory as the running program sees it. */
  type Memory = bv32 -> bv8

  /** The general registers, the pending load (register 0 for none) and memory. */
  datatype Cpu = Cpu(registers: seq<bv32>, loadReg: nat, loadValue: bv32, memory: Memory)

  predicate Shaped(m: Cpu) {
    |m.registers| == 32 && m.loadReg < 32
  }

  /** The state between instructions. */
  predicate Legal(m: Cpu) {
    Shaped(m) && m.registers[0] == 0
  }

  function Word(b0: bv8, b1: bv8, b2: bv8, b3: bv8): bv32 {
    (b0 as bv32) | ((b1 as bv32) << 8) | ((b2 as bv32) << 16) | ((b3 as bv32) << 24)
  }

  /** The little-endian word at an address, aligned or not. */
  function WordAt(memory: Memory, a: bv32): bv32 {
    Word(memory(a), memory(a + 1), memory(a + 2), memory(a + 3))
  }

  /** Byte `k` of a word, least significant first. */
  function Byte(w: bv32, k: bv32): bv8 {
    if k == 0 then (w & 0xff) as bv8
    else if k == 1 then ((w >> 8) & 0xff) as bv8
    else if k == 2 then ((w >> 16) & 0xff) as bv8
    else (w >> 24) as bv8
  }

  function ByteAfter(memory: Memory, a: bv32, w: bv32, x: bv32): bv8 {
    if x == a then Byte(w, 0) else if x == a + 1 then Byte(w, 1)
    else if x == a + 2 then Byte(w, 2) else if x == a + 3 then Byte(w, 3) else memory(x)
  }

  /** Byte `k` of a word made of the `n` lower bytes of one word and the upper bytes of another. */
  function SplitAt(low: bv32, high: bv32, n: nat, k: nat): bv8 {
    Byte(if k < n then low else high, if k == 0 then 0 else if k == 1 then 1 else if k == 2 then 2 else 3)
  }

  /** The byte at `x` after such a word has been stored at `a`. */
  function SplitByte(memory: Memory, a: bv32, low: bv32, high: bv32, n: nat, x: bv32): bv8 {
    if x == a then SplitAt(low, high, n, 0) else if x == a + 1 then SplitAt(low, high, n, 1)
    else if x == a + 2 then SplitAt(low, high, n, 2) else if x == a + 3 then SplitAt(low, high, n, 3) else memory(x)
  }

  function Stored(memory: Memory, a: bv32, w: bv32): Memory {
    (x: bv32) => ByteAfter(memory, a, w, x)
  }

  /** Commits the pending load and makes another one pending; whatever the instruction wrote, register 0 ends up zero. */
  function DelayedLoad(m: Cpu, nextReg: nat, nextValue: bv32): (r: Cpu)
    requires Shaped(m) && nextReg < 32
    ensures Legal(r)
  {
    m.(registers := m.registers[m.loadReg := m.loadValue][0 := 0], loadReg := nextReg, loadValue := nextValue)
  }

  /** What a register holds or is about to hold. */
  function Latest(m: Cpu, r: nat): bv32
    requires Legal(m) && r < 32
  {
    if m.loadReg == r then m.loadValue else m.registers[r]
  }

  /** How a memory access ends: at once, after a page fault that the kernel has served, or in an exception. */
  datatype Access = Direct | AfterFault | Trapped

  /** The exception commits the pending load before the access goes on. */
  function Accessed(m: Cpu, access: Access): Cpu
    requires Legal(m)
    ensures Legal(Accessed(m, access))
  {
    if access == Direct then m else DelayedLoad(m, 0, 0)
  }

  /** The bytes from the aligned word `value` go to the left, the high end; `byte` is the address modulo 4. */
  function MergeLeft(old_: bv32, value: bv32, byte_: bv32): bv32 {
    if byte_ == 3 then value
    else if byte_ == 2 then (old_ & 0xff) | (value << 8)
    else if byte_ == 1 then (old_ & 0xffff) | (value << 16)
    else (old_ & 0xffffff) | (value << 24)
  }

  function MergeRight(old_: bv32, value: bv32, byte_: bv32): bv32 {
    if byte_ == 3 then (old_ & 0xffffff00) | ((value >> 24) & 0xff)
    else if byte_ == 2 then (old_ & 0xffff0000) | ((value >> 16) & 0xffff)
    else if byte_ == 1 then (old_ & 0xff000000) | ((value >> 8) & 0xffffff)
    else value
  }

  /** What `SWL` and `SWR` put back into the aligned word `value`. */
  function SpillLeft(value: bv32, rt: bv32, byte_: bv32): bv32 {
    if byte_ == 3 then rt
    else if byte_ == 2 then (value & 0xff000000) | ((rt >> 8) & 0xffffff)
    else if byte_ == 1 then (value & 0xffff0000) | ((rt >> 16) & 0xffff)
    else (value & 0xffffff00) | ((rt >> 24) & 0xff)
  }

  function SpillRight(value: bv32, rt: bv32, byte_: bv32): bv32 {
    if byte_ == 3 then (value & 0xffffff) | (rt << 24)
    else if byte_ == 2 then (value & 0xffff) | (rt << 16)
    else if byte_ == 1 then (value & 0xff) | (rt << 8)
    else rt
  }

  function Align(a: bv32): bv32 {
    a - (a & 3)
  }

  datatype Op = LWL | LWR | SWL | SWR

  /** One of the four instructions on register `rt` and address `a`; the write of a store may be refused where the read was not. */
  function Execute(m: Cpu, op: Op, rt: nat, a: bv32, access: Access, refused: bool := false): Cpu
    requires Legal(m) && rt < 32
    ensures Legal(Execute(m, op, rt, a, access, refused))
  {
    var m1 := Accessed(m, access);
    if access == Trapped then m1
    else if refused && (op == SWL || op == SWR) then Accessed(m1, Trapped)
    else
      var value := WordAt(m1.memory, Align(a));
      match op
      case LWL => DelayedLoad(m1, rt, MergeLeft(Latest(m1, rt), value, a & 3))
      case LWR => DelayedLoad(m1, rt, MergeRight(Latest(m1, rt), value, a & 3))
      case SWL => DelayedLoad(m1.(memory := Stored(m1.memory, Align(a), SpillLeft(value, m1.registers[rt], a & 3))), 0, 0)
      case SWR => DelayedLoad(m1.(memory := Stored(m1.memory, Align(a), SpillRight(value, m1.registers[rt], a & 3))), 0, 0)
  }

  // The four alignments, on bytes.

  lemma MergeAligned(old_: bv32, b0: bv8, b1: bv8, b2: bv8, b3: bv8)
    ensures var w := Word(b0, b1, b2, b3);
            MergeLeft(MergeRight(old_, w, 0), w, 3) == w && MergeRight(MergeLeft(old_, w, 3), w, 0) == w
  {
  }

  lemma MergeOffBy1(old_: bv32, u0: bv8, b0: bv8, b1: bv8, b2: bv8, b3: bv8, v1: bv8, v2: bv8, v3: bv8)
    ensures var u, v := Word(u0, b0, b1, b2), Word(b3, v1, v2, v3);
            MergeLeft(MergeRight(old_, u, 1), v, 0) == Word(b0, b1, b2, b3) &&
            MergeRight(MergeLeft(old_, v, 0), u, 1) == Word(b0, b1, b2, b3)
  {
  }

  lemma MergeOffBy2(old_: bv32, u0: bv8, u1: bv8, b0: bv8, b1: bv8, b2: bv8, b3: bv8, v2: bv8, v3: bv8)
    ensures var u, v := Word(u0, u1, b0, b1), Word(b2, b3, v2, v3);
            MergeLeft(MergeRight(old_, u, 2), v, 1) == Word(b0, b1, b2, b3) &&
            MergeRight(MergeLeft(old_, v, 1), u, 2) == Word(b0, b1, b2, b3)
  {
  }

  lemma MergeOffBy3(old_: bv32, u0: bv8, u1: bv8, u2: bv8, b0: bv8, b1: bv8, b2: bv8, b3: bv8, v3: bv8)
    ensures var u, v := Word(u0, u1, u2, b0), Word(b1, b2, b3, v3);
            MergeLeft(MergeRight(old_, u, 3), v, 2) == Word(b0, b1, b2, b3)
  {
    assert MergeRight(old_, Word(u0, u1, u2, b0), 3) & 0xff == b0 as bv32;
  }

  lemma MergeOffBy3Left(old_: bv32, u0: bv8, u1: bv8, u2: bv8, b0: bv8, b1: bv8, b2: bv8, b3: bv8, v3: bv8)
    ensures var u, v := Word(u0, u1, u2, b0), Word(b1, b2, b3, v3);
            MergeRight(MergeLeft(old_, v, 2), u, 3) == Word(b0, b1, b2, b3)
  {
    assert (Word(u0, u1, u2, b0) >> 24) & 0xff == b0 as bv32;
  }

  lemma Aligned0(a: bv32)
    requires a & 3 == 0
    ensures Align(a) == a && Align(a + 3) == a && (a + 3) & 3 == 3
  {
  }

  lemma Aligned1(a: bv32)
    requires a & 3 == 1
    ensures Align(a) == a - 1 && Align(a + 3) == a + 3 && (a + 3) & 3 == 0
  {
  }

  lemma Aligned2(a: bv32)
    requires a & 3 == 2
    ensures Align(a) == a - 2 && Align(a + 3) == a + 2 && (a + 3) & 3 == 1
  {
  }

  lemma Aligned3(a: bv32)
    requires a & 3 == 3
    ensures Align(a) == a - 3 && Align(a + 3) == a + 1 && (a + 3) & 3 == 2
  {
  }

  lemma FourAlignments(a: bv32)
    ensures a & 3 == 0 || a & 3 == 1 || a & 3 == 2 || a & 3 == 3
  {
  }

  lemma MergedEitherOrder(memory: Memory, a: bv32, old_: bv32)
    ensures var low, high := WordAt(memory, Align(a)), WordAt(memory, Align(a + 3));
            MergeLeft(MergeRight(old_, low, a & 3), high, (a + 3) & 3) == WordAt(memory, a) &&
            MergeRight(MergeLeft(old_, high, (a + 3) & 3), low, a & 3) == WordAt(memory, a)
  {
    hide MergeLeft, MergeRight, Word, Align;
    var f := memory;
    FourAlignments(a);
    if a & 3 == 0 {
      Aligned0(a);
      MergeAligned(old_, f(a), f(a + 1), f(a + 2), f(a + 3));
    } else if a & 3 == 1 {
      Aligned1(a);
      MergeOffBy1(old_, f(a - 1), f(a), f(a + 1), f(a + 2), f(a + 3), f(a + 4), f(a + 5), f(a + 6));
    } else if a & 3 == 2 {
      Aligned2(a);
      MergeOffBy2(old_, f(a - 2), f(a - 1), f(a), f(a + 1), f(a + 2), f(a + 3), f(a + 4), f(a + 5));
    } else {
      Aligned3(a);
      MergeOffBy3(old_, f(a - 3), f(a - 2), f(a - 1), f(a), f(a + 1), f(a + 2), f(a + 3), f(a + 4));
      MergeOffBy3Left(old_, f(a - 3), f(a - 2), f(a - 1), f(a), f(a + 1), f(a + 2), f(a + 3), f(a + 4));
    }
  }

  /** One half of a load: a page fault on the way changes nothing that any register but 0 is about to hold. */
  lemma LoadStep(m: Cpu, left: bool, rt: nat, a: bv32, access: Access)
    requires Legal(m) && 0 < rt < 32 && access != Trapped
    ensures var m' := Execute(m, if left then LWL else LWR, rt, a, access);
            && Latest(m', rt) == (if left then MergeLeft(Latest(m, rt), WordAt(m.memory, Align(a)), a & 3)
                                  else MergeRight(Latest(m, rt), WordAt(m.memory, Align(a)), a & 3))
            && (forall r: nat | 0 < r < 32 && r != rt :: Latest(m', r) == Latest(m, r))
            && m'.memory == m.memory
  {
    hide MergeLeft, MergeRight, WordAt, Align;
  }

  /** `LWR` at `a` and `LWL` at `a + 3`, back to back, in either order. */
  function LoadPair(m: Cpu, rt: nat, a: bv32, leftFirst: bool, first: Access, second: Access): (r: Cpu)
    requires Legal(m) && rt < 32
    ensures Legal(r)
  {
    if leftFirst then Execute(Execute(m, LWL, rt, a + 3, first), LWR, rt, a, second)
    else Execute(Execute(m, LWR, rt, a, first), LWL, rt, a + 3, second)
  }

  /** The pair loads the word at `a` into the register and changes nothing else, whether or not an access faults. */
  lemma LoadPairLoads(m: Cpu, rt: nat, a: bv32, leftFirst: bool, first: Access, second: Access)
    requires Legal(m) && 0 < rt < 32 && first != Trapped && second != Trapped
    ensures var m2 := LoadPair(m, rt, a, leftFirst, first, second);
            && Latest(m2, rt) == WordAt(m.memory, a)
            && (forall r: nat | 0 < r < 32 && r != rt :: Latest(m2, r) == Latest(m, r))
            && m2.memory == m.memory
  {
    hide MergeLeft, MergeRight, WordAt, Align, Execute, Latest;
    MergedEitherOrder(m.memory, a, Latest(m, rt));
    if leftFirst {
      LoadStep(m, true, rt, a + 3, first);
      LoadStep(Execute(m, LWL, rt, a + 3, first), false, rt, a, second);
    } else {
      LoadStep(m, false, rt, a, first);
      LoadStep(Execute(m, LWR, rt, a, first), true, rt, a + 3, second);
    }
  }

  /** Once the next instruction has run, the register itself holds what was pending. */
  lemma LoadArrives(m: Cpu, r: nat, nextReg: nat, nextValue: bv32)
    requires Legal(m) && nextReg < 32 && 0 < r < 32
    ensures DelayedLoad(m, nextReg, nextValue).registers[r] == Latest(m, r)
    ensures DelayedLoad(m, nextReg, nextValue).registers[0] == 0
  {
  }

  /** An instruction that ends in an exception has no effect but that the pending load arrives; nothing is pending any more. */
  lemma TrapLosesNothing(m: Cpu, op: Op, rt: nat, a: bv32, access: Access, refused: bool, r: nat)
    requires Legal(m) && rt < 32 && 0 < r < 32
    requires access == Trapped || (refused && (op == SWL || op == SWR))
    ensures var m' := Execute(m, op, rt, a, access, refused);
            m'.registers[r] == Latest(m, r) && m'.registers[0] == 0 && m'.loadReg == 0 && m'.memory == m.memory
  {
    hide WordAt, SpillLeft, SpillRight, Stored, Align;
  }

  // Stores.

  lemma SpillRightBytes(b0: bv8, b1: bv8, b2: bv8, b3: bv8, w: bv32, k: bv32, j: bv32)
    requires k < 4 && j < 4
    ensures Byte(SpillRight(Word(b0, b1, b2, b3), w, k), j) ==
            if j >= k then Byte(w, j - k) else if j == 0 then b0 else if j == 1 then b1 else if j == 2 then b2 else b3
  {
    if k == 0 {} else if k == 1 {} else if k == 2 {} else {}
  }

  lemma SpillLeftBytes(b0: bv8, b1: bv8, b2: bv8, b3: bv8, w: bv32, k: bv32, j: bv32)
    requires k < 4 && j < 4
    ensures Byte(SpillLeft(Word(b0, b1, b2, b3), w, k), j) ==
            if j <= k then Byte(w, 3 - k + j) else if j == 0 then b0 else if j == 1 then b1 else if j == 2 then b2 else b3
  {
    if k == 0 {} else if k == 1 {} else if k == 2 {} else {}
  }

  /** The memory after `SWR` of `w` at `a`: the bytes from `a` to the end of its aligned word. */
  function AfterRight(memory: Memory, a: bv32, w: bv32): Memory {
    Stored(memory, Align(a), SpillRight(WordAt(memory, Align(a)), w, a & 3))
  }

  /** The memory after `SWL` of `w` at `a`: the bytes from the start of its aligned word to `a`. */
  function AfterLeft(memory: Memory, a: bv32, w: bv32): Memory {
    Stored(memory, Align(a), SpillLeft(WordAt(memory, Align(a)), w, a & 3))
  }

  /** The byte at `x` after `SWR` at an address `k` bytes into the aligned word at `p`. */
  function RightByte(memory: Memory, p: bv32, k: bv32, w: bv32, x: bv32): bv8 {
    if x == p && k == 0 then Byte(w, 0)
    else if x == p + 1 && k <= 1 then Byte(w, 1 - k)
    else if x == p + 2 && k <= 2 then Byte(w, 2 - k)
    else if x == p + 3 then Byte(w, 3 - k)
    else memory(x)
  }

  function LeftByte(memory: Memory, p: bv32, k: bv32, w: bv32, x: bv32): bv8 {
    if x == p then Byte(w, 3 - k)
    else if x == p + 1 && k >= 1 then Byte(w, 4 - k)
    else if x == p + 2 && k >= 2 then Byte(w, 5 - k)
    else if x == p + 3 && k == 3 then Byte(w, 3)
    else memory(x)
  }

  /** A word stored at `p`, byte by byte. */
  lemma StoredAt(memory: Memory, p: bv32, w: bv32, x: bv32)
    ensures Stored(memory, p, w)(x) ==
            if x == p then Byte(w, 0) else if x == p + 1 then Byte(w, 1) else if x == p + 2 then Byte(w, 2)
            else if x == p + 3 then Byte(w, 3) else memory(x)
  {
  }

  lemma AfterRightAt(memory: Memory, a: bv32, w: bv32, x: bv32)
    ensures AfterRight(memory, a, w)(x) == RightByte(memory, Align(a), a & 3, w, x)
  {
    hide Word, SpillRight, Byte, Align, Stored;
    FourAlignments(a);
    RightStoredAt(memory, Align(a), a & 3, w, x);
  }

  lemma RightStoredAt(memory: Memory, p: bv32, k: bv32, w: bv32, x: bv32)
    requires k == 0 || k == 1 || k == 2 || k == 3
    ensures Stored(memory, p, SpillRight(WordAt(memory, p), w, k))(x) == RightByte(memory, p, k, w, x)
  {
    hide Word, SpillRight, Byte, Stored;
    SpillRightBytes(memory(p), memory(p + 1), memory(p + 2), memory(p + 3), w, k, 0);
    SpillRightBytes(memory(p), memory(p + 1), memory(p + 2), memory(p + 3), w, k, 1);
    SpillRightBytes(memory(p), memory(p + 1), memory(p + 2), memory(p + 3), w, k, 2);
    SpillRightBytes(memory(p), memory(p + 1), memory(p + 2), memory(p + 3), w, k, 3);
    StoredAt(memory, p, SpillRight(WordAt(memory, p), w, k), x);
    if k == 0 {} else if k == 1 {} else if k == 2 {} else {}
  }

  lemma AfterLeftAt(memory: Memory, a: bv32, w: bv32, x: bv32)
    ensures AfterLeft(memory, a, w)(x) == LeftByte(memory, Align(a), a & 3, w, x)
  {
    hide Word, SpillLeft, Byte, Align, Stored;
    FourAlignments(a);
    LeftStoredAt(memory, Align(a), a & 3, w, x);
  }

  lemma LeftStoredAt(memory: Memory, p: bv32, k: bv32, w: bv32, x: bv32)
    requires k == 0 || k == 1 || k == 2 || k == 3
    ensures Stored(memory, p, SpillLeft(WordAt(memory, p), w, k))(x) == LeftByte(memory, p, k, w, x)
  {
    hide Word, SpillLeft, Byte, Stored;
    SpillLeftBytes(memory(p), memory(p + 1), memory(p + 2), memory(p + 3), w, k, 0);
    SpillLeftBytes(memory(p), memory(p + 1), memory(p + 2), memory(p + 3), w, k, 1);
    SpillLeftBytes(memory(p), memory(p + 1), memory(p + 2), memory(p + 3), w, k, 2);
    SpillLeftBytes(memory(p), memory(p + 1), memory(p + 2), memory(p + 3), w, k, 3);
    StoredAt(memory, p, SpillLeft(WordAt(memory, p), w, k), x);
    if k == 0 {} else if k == 1 {} else if k == 2 {} else {}
  }

  // The two halves of an unaligned word cover its four bytes and no other.

  lemma Cover0(memory: Memory, a: bv32, low: bv32, high: bv32, x: bv32, memory1: Memory)
    ensures memory1(x) == RightByte(memory, a, 0, low, x) ==> LeftByte(memory1, a, 3, high, x) == SplitByte(memory, a, low, high, 0, x)
    ensures memory1(x) == LeftByte(memory, a, 3, high, x) ==> RightByte(memory1, a, 0, low, x) == SplitByte(memory, a, low, high, 4, x)
  {
    hide Byte;
  }

  lemma Cover1(memory: Memory, a: bv32, low: bv32, high: bv32, x: bv32, memory1: Memory)
    ensures memory1(x) == RightByte(memory, a - 1, 1, low, x) ==> LeftByte(memory1, a + 3, 0, high, x) == SplitByte(memory, a, low, high, 3, x)
    ensures memory1(x) == LeftByte(memory, a + 3, 0, high, x) ==> RightByte(memory1, a - 1, 1, low, x) == SplitByte(memory, a, low, high, 3, x)
  {
    hide Byte;
  }

  lemma Cover2(memory: Memory, a: bv32, low: bv32, high: bv32, x: bv32, memory1: Memory)
    ensures memory1(x) == RightByte(memory, a - 2, 2, low, x) ==> LeftByte(memory1, a + 2, 1, high, x) == SplitByte(memory, a, low, high, 2, x)
    ensures memory1(x) == LeftByte(memory, a + 2, 1, high, x) ==> RightByte(memory1, a - 2, 2, low, x) == SplitByte(memory, a, low, high, 2, x)
  {
    hide Byte;
  }

  lemma Cover3(memory: Memory, a: bv32, low: bv32, high: bv32, x: bv32, memory1: Memory)
    ensures memory1(x) == RightByte(memory, a - 3, 3, low, x) ==> LeftByte(memory1, a + 1, 2, high, x) == SplitByte(memory, a, low, high, 1, x)
    ensures memory1(x) == LeftByte(memory, a + 1, 2, high, x) ==> RightByte(memory1, a - 3, 3, low, x) == SplitByte(memory, a, low, high, 1, x)
  {
    hide Byte;
  }

  /** How many bytes of the pair are the right half's; where the halves overlap, the later one prevails. */
  function RightPart(a: bv32, leftFirst: bool): nat {
    if a & 3 == 0 then (if leftFirst then 4 else 0) else if a & 3 == 1 then 3 else if a & 3 == 2 then 2 else 1
  }

  lemma HalvesCover(memory: Memory, a: bv32, low: bv32, high: bv32, x: bv32, memory1: Memory)
    ensures memory1(x) == RightByte(memory, Align(a), a & 3, low, x) ==>
              LeftByte(memory1, Align(a + 3), (a + 3) & 3, high, x) == SplitByte(memory, a, low, high, RightPart(a, false), x)
    ensures memory1(x) == LeftByte(memory, Align(a + 3), (a + 3) & 3, high, x) ==>
              RightByte(memory1, Align(a), a & 3, low, x) == SplitByte(memory, a, low, high, RightPart(a, true), x)
  {
    hide Byte, Align, RightByte, LeftByte, SplitByte;
    FourAlignments(a);
    if a & 3 == 0 {
      Aligned0(a);
      Cover0(memory, a, low, high, x, memory1);
    } else if a & 3 == 1 {
      Aligned1(a);
      Cover1(memory, a, low, high, x, memory1);
    } else if a & 3 == 2 {
      Aligned2(a);
      Cover2(memory, a, low, high, x, memory1);
    } else {
      Aligned3(a);
      Cover3(memory, a, low, high, x, memory1);
    }
  }

  /** `SWR` at `a` and `SWL` at `a + 3`, back to back, in either order. */
  function StorePair(m: Cpu, rt: nat, a: bv32, leftFirst: bool, first: Access, second: Access): (r: Cpu)
    requires Legal(m) && rt < 32
    ensures Legal(r)
  {
    if leftFirst then Execute(Execute(m, SWL, rt, a + 3, first), SWR, rt, a, second)
    else Execute(Execute(m, SWR, rt, a, first), SWL, rt, a + 3, second)
  }

  lemma HalvesStore(memory: Memory, a: bv32, low: bv32, high: bv32, x: bv32)
    ensures AfterRight(AfterLeft(memory, a + 3, high), a, low)(x) == SplitByte(memory, a, low, high, RightPart(a, true), x)
    ensures AfterLeft(AfterRight(memory, a, low), a + 3, high)(x) == SplitByte(memory, a, low, high, RightPart(a, false), x)
  {
    hide AfterLeft, AfterRight, Align, RightByte, LeftByte, SplitByte, RightPart;
    var left, right := AfterLeft(memory, a + 3, high), AfterRight(memory, a, low);
    AfterLeftAt(memory, a + 3, high, x);
    AfterRightAt(left, a, low, x);
    HalvesCover(memory, a, low, high, x, left);
    AfterRightAt(memory, a, low, x);
    AfterLeftAt(right, a + 3, high, x);
    HalvesCover(memory, a, low, high, x, right);
  }

  /** What the register holds once a pending load has arrived. */
  function Arrived(m: Cpu, rt: nat): bv32
    requires Legal(m) && rt < 32
  {
    DelayedLoad(m, 0, 0).registers[rt]
  }

  /** The first store sees the register as the second will: no load is on its way to it, or a fault has let it arrive. */
  predicate Settled(m: Cpu, rt: nat, first: Access)
    requires Legal(m) && rt < 32
  {
    rt == 0 || first != Direct || m.loadReg != rt || m.loadValue == m.registers[rt]
  }

  lemma SettledIff(m: Cpu, rt: nat, first: Access)
    requires Legal(m) && rt < 32 && first != Trapped
    ensures Settled(m, rt, first) <==> Accessed(m, first).registers[rt] == Arrived(m, rt)
  {
  }

  /**
   * The pair writes the four bytes of the register at `a` and no other byte, unless the register waits for a load that
   * changes it: then the first half still writes the bytes of the old value.
   */
  lemma StorePairStores(m: Cpu, rt: nat, a: bv32, leftFirst: bool, first: Access, second: Access, x: bv32)
    requires Legal(m) && rt < 32 && first != Trapped && second != Trapped
    ensures var m2 := StorePair(m, rt, a, leftFirst, first, second);
            var now, later := Accessed(m, first).registers[rt], Arrived(m, rt);
            && m2.memory(x) == SplitByte(m.memory, a, if leftFirst then later else now, if leftFirst then now else later,
                                         RightPart(a, leftFirst), x)
            && (Settled(m, rt, first) ==> m2.memory(x) == ByteAfter(m.memory, a, later, x))
            && m2.registers[rt] == later && m2.loadReg == 0
  {
    hide SpillLeft, SpillRight, WordAt, Align, Stored, ByteAfter, SplitByte, RightPart, Settled;
    var now, later := Accessed(m, first).registers[rt], Arrived(m, rt);
    HalvesStore(m.memory, a, if leftFirst then later else now, if leftFirst then now else later, x);
    SettledIff(m, rt, first);
    OneValue(m.memory, a, later, RightPart(a, leftFirst), x);
  }

  lemma OneValue(memory: Memory, a: bv32, w: bv32, n: nat, x: bv32)
    ensures SplitByte(memory, a, w, w, n, x) == ByteAfter(memory, a, w, x)
  {
    hide Byte;
  }

  lemma BytesOfWord(w: bv32)
    ensures Word(Byte(w, 0), Byte(w, 1), Byte(w, 2), Byte(w, 3)) == w
  {
  }

  /**
   * Storing a register with one pair and loading it with another gives the value back, at any address. If the register
   * still waited for a load, the first half's bytes are of the old value.
   */
  lemma StoreThenLoad(m: Cpu, rt: nat, rd: nat, a: bv32, storeLeftFirst: bool, loadLeftFirst: bool,
                      s1: Access, s2: Access, l1: Access, l2: Access)
    requires Legal(m) && rt < 32 && 0 < rd < 32
    requires s1 != Trapped && s2 != Trapped && l1 != Trapped && l2 != Trapped
    ensures var loaded := Latest(LoadPair(StorePair(m, rt, a, storeLeftFirst, s1, s2), rd, a, loadLeftFirst, l1, l2), rd);
            var now, later, n := Accessed(m, s1).registers[rt], Arrived(m, rt), RightPart(a, storeLeftFirst);
            var low, high := if storeLeftFirst then later else now, if storeLeftFirst then now else later;
            && loaded == Word(SplitAt(low, high, n, 0), SplitAt(low, high, n, 1), SplitAt(low, high, n, 2), SplitAt(low, high, n, 3))
            && (Settled(m, rt, s1) ==> loaded == later)
  {
    hide LoadPair, StorePair, Byte, Word, Latest, Settled, Arrived, ByteAfter, RightPart, SplitAt;
    var m2 := StorePair(m, rt, a, storeLeftFirst, s1, s2);
    StorePairStores(m, rt, a, storeLeftFirst, s1, s2, a);
    StorePairStores(m, rt, a, storeLeftFirst, s1, s2, a + 1);
    StorePairStores(m, rt, a, storeLeftFirst, s1, s2, a + 2);
    StorePairStores(m, rt, a, storeLeftFirst, s1, s2, a + 3);
    BytesAre(m.memory, a, Arrived(m, rt));
    BytesOfWord(Arrived(m, rt));
    LoadPairLoads(m2, rd, a, loadLeftFirst, l1, l2);
  }

  lemma BytesAre(memory: Memory, a: bv32, w: bv32)
    ensures ByteAfter(memory, a, w, a) == Byte(w, 0) && ByteAfter(memory, a, w, a + 1) == Byte(w, 1)
    ensures ByteAfter(memory, a, w, a + 2) == Byte(w, 2) && ByteAfter(memory, a, w, a + 3) == Byte(w, 3)
  {
    hide Byte;
  }

  lemma ExecuteTrapped(m: Cpu, op: Op, rt: nat, a: bv32, access: Access, refused: bool)
    requires Legal(m) && rt < 32
    ensures Execute(m, op, rt, a, Trapped, refused) == Accessed(m, Trapped)
    ensures access != Trapped && (op == SWL || op == SWR) ==> Execute(m, op, rt, a, access, true) == Accessed(Accessed(m, access), Trapped)
  {
  }

  lemma ExecuteLoad(m: Cpu, left: bool, rt: nat, a: bv32, access: Access, m1: Cpu, value: bv32)
    requires Legal(m) && rt < 32 && access != Trapped && m1 == Accessed(m, access) && value == WordAt(m1.memory, Align(a))
    ensures Legal(m1)
    ensures Execute(m, if left then LWL else LWR, rt, a, access) ==
            DelayedLoad(m1, rt, if left then MergeLeft(Latest(m1, rt), value, a & 3) else MergeRight(Latest(m1, rt), value, a & 3))
  {
    hide WordAt, MergeLeft, MergeRight;
  }

  lemma ExecuteStore(m: Cpu, left: bool, rt: nat, a: bv32, access: Access, m1: Cpu, value: bv32)
    requires Legal(m) && rt < 32 && access != Trapped && m1 == Accessed(m, access) && value == WordAt(m1.memory, Align(a))
    ensures Legal(m1)
    ensures Execute(m, if left then SWL else SWR, rt, a, access) ==
            var w := if left then SpillLeft(value, m1.registers[rt], a & 3) else SpillRight(value, m1.registers[rt], a & 3);
            DelayedLoad(m1.(memory := Stored(m1.memory, Align(a), w)), 0, 0)
  {
    hide WordAt, SpillLeft, SpillRight, Stored;
  }

  /** The simulated processor; each method is one arm of `OneInstruction` with the delayed load that ends it. */
  class Machine {
    const registers: array<bv32>
    var loadReg: nat
    var loadValue: bv32

    /** The processor together with the memory it works on. */
    ghost function State(memory: Memory): Cpu
      reads this, registers
    {
      Cpu(registers[..], loadReg, loadValue, memory)
    }

    ghost predicate Valid()
      reads this, registers
    {
      registers.Length == 32 && loadReg < 32 && registers[0] == 0
    }

    constructor ()
      ensures Valid() && fresh(registers) && loadReg == 0
    {
      registers := new bv32[32](i => 0);
      loadReg, loadValue := 0, 0;
    }

    method DoDelayedLoad(nextReg: nat, nextValue: bv32, ghost memory: Memory)
      requires Valid() && nextReg < 32
      modifies this, registers
      ensures Valid() && State(memory) == DelayedLoad(old(State(memory)), nextReg, nextValue)
    {
      ghost var before := registers[..];
      registers[loadReg] := loadValue;
      registers[0] := 0;
      assert registers[..] == before[loadReg := loadValue][0 := 0];
      loadReg, loadValue := nextReg, nextValue;
    }

    /** An aligned word; `access` says how the access goes, and `ok` is false if it traps. */
    method ReadMem(memory: Memory, addr: bv32, access: Access) returns (ok: bool, value: bv32)
      requires Valid()
      modifies this, registers
      ensures Valid() && State(memory) == Accessed(old(State(memory)), access) && ok == (access != Trapped)
      ensures ok ==> value == WordAt(memory, addr)
    {
      hide WordAt;
      value := 0;
      if access != Direct {
        DoDelayedLoad(0, 0, memory);
        if access == Trapped {
          return false, value;
        }
      }
      return true, WordAt(memory, addr);
    }

    /** `LWL` if `left`, else `LWR`. */
    method LoadUnaligned(left: bool, rt: nat, memory: Memory, tmp: bv32, access: Access)
      requires Valid() && rt < 32
      modifies this, registers
      ensures Valid() && State(memory) == Execute(old(State(memory)), if left then LWL else LWR, rt, tmp, access)
    {
      hide WordAt, MergeLeft, MergeRight, Execute, DelayedLoad, Accessed, Align;
      ExecuteTrapped(State(memory), if left then LWL else LWR, rt, tmp, access, false);
      var byte_ := tmp & 3;
      var ok, value := ReadMem(memory, Align(tmp), access);
      if !ok {
        return;
      }
      ExecuteLoad(old(State(memory)), left, rt, tmp, access, State(memory), value);
      var nextLoadValue := if loadReg == rt then loadValue else registers[rt];
      nextLoadValue := if left then MergeLeft(nextLoadValue, value, byte_) else MergeRight(nextLoadValue, value, byte_);
      DoDelayedLoad(rt, nextLoadValue, memory);
    }

    /**
     * `SWL` if `left`, else `SWR`. The word is read before it is written, so the write finds its page in place; it is
     * `refused` if that is a read-only page, and the exception commits the pending load.
     */
    method StoreUnaligned(left: bool, rt: nat, memory: Memory, tmp: bv32, access: Access, refused: bool) returns (memory': Memory)
      requires Valid() && rt < 32
      modifies this, registers
      ensures Valid() && State(memory') == Execute(old(State(memory)), if left then SWL else SWR, rt, tmp, access, refused)
      ensures access == Trapped || refused ==> memory' == memory
    {
      hide WordAt, SpillLeft, SpillRight, Stored, Execute, DelayedLoad, Align;
      ExecuteTrapped(State(memory), if left then SWL else SWR, rt, tmp, access, refused);
      var byte_ := tmp & 3;
      var ok, value := ReadMem(memory, Align(tmp), access);
      if !ok {
        return memory;
      }
      ExecuteStore(old(State(memory)), left, rt, tmp, access, State(memory), value);
      value := if left then SpillLeft(value, registers[rt], byte_) else SpillRight(value, registers[rt], byte_);
      if refused {
        DoDelayedLoad(0, 0, memory);
        return memory;
      }
      memory' := Stored(memory, Align(tmp), value);
      DoDelayedLoad(0, 0, memory');
    }
  }
}
