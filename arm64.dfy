/** The access descriptor handed to the backpatcher: load or store, the width and
    kind of the access, and whether only the lower half of a paired register is live. */
module BackPatchInfo {

  /** The size part of the flags word.  `SizeNone` is what a generator ends up with for
      an opcode its switch does not list: only the load/store bit is set. */
  datatype AccessSize = SizeNone | SizeF32 | SizeF64 | SizeF32I

  datatype Flags = Flags(store: bool, size: AccessSize, onlyLower: bool)
}

/** The optional-value type used across the model. */
module Wrappers {
  datatype Option<T> = None | Some(value: T)
}

/** Host-side (AArch64) vocabulary shared by the register caches and the code
    generators: register names, the records the JIT appends to its code buffer, the
    code buffer (a write cursor plus an append-only log of records), and a small
    semantics for the integer instructions whose results the generators rely on. */
module Arm64 {
  import opened BackPatchInfo

  const TWO32: int := 0x1_0000_0000
  const TWO64: int := 0x1_0000_0000_0000_0000

  /** An unsigned 32-bit value. */
  type u32 = x: int | 0 <= x < 0x1_0000_0000

  /** What a 32-bit register write keeps of a mathematical integer. */
  function Wrap32(x: int): (r: u32)
    ensures (r - x) % TWO32 == 0
  {
    x % TWO32
  }

  function Wrap64(x: int): (r: int)
    ensures 0 <= r < TWO64 && (r - x) % TWO64 == 0
  {
    x % TWO64
  }

  /** Host register names.  `W(n)`/`X(n)` are the 32- and 64-bit views of general
      register n, `D(n)`/`Q(n)` the 64- and 128-bit views of vector register n.
      `WSP` is register 31 as a store source, where it reads as zero. */
  datatype ARM64Reg = W(n: nat) | X(n: nat) | D(n: nat) | Q(n: nat) | WSP | InvalidReg

  /** EncodeRegTo64: the 64-bit view of a 32-bit general register; anything else is
      returned as it is (so INVALID_REG stays INVALID_REG). */
  function EncodeRegTo64(r: ARM64Reg): (r64: ARM64Reg)
    ensures r.W? ==> r64 == X(r.n)
    ensures !r.W? ==> r64 == r
  {
    if r.W? then X(r.n) else r
  }

  /** Fields of the guest state block, which X29 points at while generated code runs.
      Accesses relative to X29 name the field rather than its byte offset:
      `GprField(i)` is gpr[i], `PsField(i, h)` is ps[i][h]. */
  datatype StateField = GprField(i: nat) | PsField(i: nat, half: nat)

  /** The records the JIT emits.  Sizes are access widths in bits. */
  datatype Insn =
    | LdrState(size: nat, rt: ARM64Reg, field: StateField)       // LDR rt, [X29, #off(field)]
    | StrState(size: nat, rt: ARM64Reg, field: StateField)       // STR rt, [X29, #off(field)]
    | StpState(size: nat, rt1: ARM64Reg, rt2: ARM64Reg, field: StateField)
                                                                 // STP rt1, rt2, [X29, #off(field)]
    | Ins(size: nat, rd: ARM64Reg, dIndex: nat, rn: ARM64Reg, nIndex: nat)
    | Movi(rd: ARM64Reg, value: int)                             // MOVI2R rd, #value
    | AddImm(rd: ARM64Reg, rn: ARM64Reg, imm: nat)               // ADD rd, rn, #imm
    | SubImm(rd: ARM64Reg, rn: ARM64Reg, imm: nat)               // SUB rd, rn, #imm
    | AddReg(rd: ARM64Reg, rn: ARM64Reg, rm: ARM64Reg)           // ADD rd, rn, rm
    | Mov(rd: ARM64Reg, rm: ARM64Reg)                            // MOV rd, rm
    | LdrImm(size: nat, rt: ARM64Reg, rn: ARM64Reg, off: nat)    // LDR rt, [rn, #off]
    | StrImm(size: nat, rt: ARM64Reg, rn: ARM64Reg, off: nat)    // STR rt, [rn, #off]
    | StrIdx(size: nat, rt: ARM64Reg, rn: ARM64Reg, rm: ARM64Reg) // STR rt, [rn, rm]
    | Rev(lanes: nat, rd: ARM64Reg, rn: ARM64Reg)                // REV32/REV64 on bytes
    | Fcvt(toSize: nat, fromSize: nat, rd: ARM64Reg, rn: ARM64Reg)
    | Backpatch(flags: Flags, fastmem: bool, doFarcode: bool, rs: ARM64Reg, addr: ARM64Reg,
                gprs: set<nat>, fprs: set<nat>)                  // EmitBackpatchRoutine(...)

  /** A code region being written: `ptr` is the writable code pointer and `log` the
      records emitted through this emitter, oldest first.  Positions are counted in
      records; the byte length of each encoding belongs to the encoder. */
  class CodeBlock {
    var ptr: nat
    var log: seq<Insn>

    constructor (start: nat)
      ensures ptr == start && log == []
    {
      ptr := start;
      log := [];
    }

    /** The log grew by exactly `xs` since it was `log0`, and the cursor moved past them. */
    ghost predicate Appended(log0: seq<Insn>, ptr0: nat, xs: seq<Insn>)
      reads this
    {
      log == log0 + xs && ptr == ptr0 + |xs|
    }

    method Emit(i: Insn)
      modifies this
      ensures Appended(old(log), old(ptr), [i])
    {
      log := log + [i];
      ptr := ptr + 1;
    }

    /** Emits the records of `xs` in order. */
    method EmitAll(xs: seq<Insn>)
      modifies this
      ensures Appended(old(log), old(ptr), xs)
    {
      for k := 0 to |xs|
        invariant Appended(old(log), old(ptr), xs[..k])
      {
        assert xs[..k + 1] == xs[..k] + [xs[k]];
        Emit(xs[k]);
      }
      assert xs[..|xs|] == xs;
    }

    /** The log still starts with `log0`, and the cursor moved past what was added since. */
    ghost predicate Grown(log0: seq<Insn>, ptr0: nat)
      reads this
    {
      |log0| <= |log| && log[..|log0|] == log0 && ptr == ptr0 + (|log| - |log0|)
    }

    /** Two appends in a row are one append of both. */
    lemma AppendedTwice(log0: seq<Insn>, ptr0: nat, xs: seq<Insn>, log1: seq<Insn>, ptr1: nat, ys: seq<Insn>)
      requires log1 == log0 + xs && ptr1 == ptr0 + |xs|
      requires Appended(log1, ptr1, ys)
      ensures Appended(log0, ptr0, xs + ys)
    {
      assert log0 + xs + ys == log0 + (xs + ys);
    }

    method SetCodePtrUnsafe(p: nat)
      modifies this
      ensures ptr == p && log == old(log)
    {
      ptr := p;
    }
  }

  /** A host machine reduced to what the emitted integer code touches: general
      registers (64 bits wide), vector registers and a memory of cells, one cell per
      address written.  Unset entries read as zero. */
  datatype Machine = Machine(x: map<nat, int>, v: map<nat, int>, mem: map<int, int>)

  function Get<K>(m: map<K, int>, k: K): int
  {
    if k in m then m[k] else 0
  }

  /** Reading a register: a W view is the low 32 bits of its X register. */
  function Read(m: Machine, r: ARM64Reg): int
  {
    match r
    case W(n) => Get(m.x, n) % TWO32
    case X(n) => Get(m.x, n)
    case D(n) => Get(m.v, n)
    case Q(n) => Get(m.v, n)
    case _ => 0
  }

  /** Writing a register: a W write zero-extends its 32-bit result into the X register. */
  function Write(m: Machine, r: ARM64Reg, value: int): Machine
  {
    match r
    case W(n) => m.(x := m.x[n := Wrap32(value)])
    case X(n) => m.(x := m.x[n := Wrap64(value)])
    case D(n) => m.(v := m.v[n := value])
    case Q(n) => m.(v := m.v[n := value])
    case _ => m
  }

  /** The effect of one record on the machine.  Only the integer arithmetic, moves and
      base-relative loads and stores are given a meaning; accesses to the guest state
      block, lane operations and the backpatch call leave this machine unchanged. */
  function Step(m: Machine, i: Insn): Machine
  {
    match i
    case Movi(rd, imm) => Write(m, rd, imm)
    case AddImm(rd, rn, imm) => Write(m, rd, Read(m, rn) + imm)
    case SubImm(rd, rn, imm) => Write(m, rd, Read(m, rn) - imm)
    case AddReg(rd, rn, rm) => Write(m, rd, Read(m, rn) + Read(m, rm))
    case Mov(rd, rm) => Write(m, rd, Read(m, rm))
    case LdrImm(_, rt, rn, off) => Write(m, rt, Get(m.mem, Read(m, rn) + off))
    case StrImm(_, rt, rn, off) => m.(mem := m.mem[Read(m, rn) + off := Read(m, rt)])
    case StrIdx(_, rt, rn, rm) => m.(mem := m.mem[Read(m, rn) + Read(m, rm) := Read(m, rt)])
    case _ => m
  }

  function Run(m: Machine, code: seq<Insn>): Machine
    decreases |code|
  {
    if code == [] then m else Run(Step(m, code[0]), code[1..])
  }

  lemma {:induction false} RunAppend(m: Machine, a: seq<Insn>, b: seq<Insn>)
    ensures Run(m, a + b) == Run(Run(m, a), b)
    decreases |a|
  {
    if a == [] {
      assert a + b == b;
    } else {
      assert (a + b)[1..] == a[1..] + b;
      RunAppend(Step(m, a[0]), a[1..], b);
    }
  }

  /** Stores to the guest state block: the fields each record writes, given the values
      of the registers it reads. */
  function StateStores(code: seq<Insn>): set<StateField>
    decreases |code|
  {
    if code == [] then {}
    else
      var here := match code[0]
        case StrState(_, _, f) => {f}
        case StpState(_, _, _, f) =>
          if f.GprField? then {f, GprField(f.i + 1)} else {f}
        case _ => {};
      here + StateStores(code[1..])
  }

  lemma {:induction false} StateStoresAppend(a: seq<Insn>, b: seq<Insn>)
    ensures StateStores(a + b) == StateStores(a) + StateStores(b)
    decreases |a|
  {
    if a == [] {
      assert a + b == b;
    } else {
      assert (a + b)[1..] == a[1..] + b;
      StateStoresAppend(a[1..], b);
    }
  }
}
