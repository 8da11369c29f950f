/** The floating-point load and store generators, lfXX and stfXX: the opcode switch,
    the effective-address folding and its encodings, the update write-back, the
    choice between the fastmem, slowmem and gather-pipe paths, and the scratch
    registers they lock around all of it.  The decisions are functions; the
    generators themselves are methods driving the two register caches of a
    JitArm64 and appending to its code block. */
module LoadStoreFloating {
  import opened Wrappers
  import opened BackPatchInfo
  import opened Arm64
  import opened RegCacheState

  /** The options the generators consult: jo.fastmem and jo.optimizeGatherPipe. */
  datatype JitOptions = JitOptions(fastmem: bool, optimizeGatherPipe: bool)

  /** A 5-bit register field of an instruction. */
  type Reg5 = x: nat | x < 32

  /** A sign-extended 16-bit displacement. */
  type Simm16 = x: int | -0x8000 <= x < 0x8000

  /** The fields of a UGeckoInstruction the generators read: the primary and extended
      opcodes, FD (loads) or FS (stores), RA, RB and SIMM_16. */
  datatype Inst = Inst(opcd: nat, subop10: nat, fr: Reg5, ra: Reg5, rb: Reg5, simm: Simm16)

  // ---------------------------------------------------------------------------
  // The opcode switch
  // ---------------------------------------------------------------------------

  /** What the switch settles: the size bits of the flags, whether RA is updated, and
      whether RB supplies the offset (offset_reg != -1). */
  datatype Form = Form(size: AccessSize, update: bool, indexed: bool)

  /** An opcode neither switch lists: no size bit, no update, no index. */
  const Unlisted: Form := Form(SizeNone, false, false)

  predicate IsLoadOpcode(opcd: nat, subop10: nat)
  {
    48 <= opcd <= 51 || (opcd == 31 && subop10 in {535, 567, 599, 631})
  }

  predicate IsStoreOpcode(opcd: nat, subop10: nat)
  {
    52 <= opcd <= 55 || (opcd == 31 && subop10 in {663, 695, 727, 759, 983})
  }

  /** lfXX's switch: lfs 48, lfsu 49, lfd 50, lfdu 51 and, under opcode 31, lfsx 535,
      lfsux 567, lfdx 599, lfdux 631. */
  function DecodeLoad(opcd: nat, subop10: nat): (f: Form)
    ensures f.size == SizeNone <==> !IsLoadOpcode(opcd, subop10)
    ensures f.size == SizeNone ==> f == Unlisted
    ensures f.size != SizeF32I
    ensures f.size == SizeF64 <==> opcd == 50 || opcd == 51 || (opcd == 31 && (subop10 == 599 || subop10 == 631))
    ensures f.update <==> opcd == 49 || opcd == 51 || (opcd == 31 && (subop10 == 567 || subop10 == 631))
    ensures f.indexed <==> opcd == 31 && IsLoadOpcode(opcd, subop10)
  {
    if opcd == 31 then
      if subop10 == 567 then Form(SizeF32, true, true)
      else if subop10 == 535 then Form(SizeF32, false, true)
      else if subop10 == 631 then Form(SizeF64, true, true)
      else if subop10 == 599 then Form(SizeF64, false, true)
      else Unlisted
    else if opcd == 49 then Form(SizeF32, true, false)
    else if opcd == 48 then Form(SizeF32, false, false)
    else if opcd == 51 then Form(SizeF64, true, false)
    else if opcd == 50 then Form(SizeF64, false, false)
    else Unlisted
  }

  /** stfXX's switch: stfs 52, stfsu 53, stfd 54, stfdu 55 and, under opcode 31,
      stfsx 663, stfsux 695, stfdx 727, stfdux 759 and stfiwx 983. */
  function DecodeStore(opcd: nat, subop10: nat): (f: Form)
    ensures f.size == SizeNone <==> !IsStoreOpcode(opcd, subop10)
    ensures f.size == SizeNone ==> f == Unlisted
    ensures f.size == SizeF32I <==> opcd == 31 && subop10 == 983
    ensures f.size == SizeF64 <==> opcd == 54 || opcd == 55 || (opcd == 31 && (subop10 == 727 || subop10 == 759))
    ensures f.update <==> opcd == 53 || opcd == 55 || (opcd == 31 && (subop10 == 695 || subop10 == 759))
    ensures f.indexed <==> opcd == 31 && IsStoreOpcode(opcd, subop10)
  {
    if opcd == 31 then
      if subop10 == 663 then Form(SizeF32, false, true)
      else if subop10 == 695 then Form(SizeF32, true, true)
      else if subop10 == 727 then Form(SizeF64, false, true)
      else if subop10 == 759 then Form(SizeF64, true, true)
      else if subop10 == 983 then Form(SizeF32I, false, true)
      else Unlisted
    else if opcd == 53 then Form(SizeF32, true, false)
    else if opcd == 52 then Form(SizeF32, false, false)
    else if opcd == 55 then Form(SizeF64, true, false)
    else if opcd == 54 then Form(SizeF64, false, false)
    else Unlisted
  }

  /** The PowerPC encoding of a floating load form, from the regular layout of the
      opcode map: D-forms at 48 + 2*double + update, X-forms under 31 at
      535 + 64*double + 32*update.  (The extended opcode of a D-form is reported as 0.) */
  function LoadOpcode(f: Form): Option<(nat, nat)>
  {
    if f.size != SizeF32 && f.size != SizeF64 then None
    else
      var w := if f.size == SizeF64 then 1 else 0;
      var u := if f.update then 1 else 0;
      if f.indexed then Some((31, 535 + 64 * w + 32 * u)) else Some((48 + 2 * w + u, 0))
  }

  /** The same for stores: D-forms at 52 + 2*double + update, X-forms under 31 at
      663 + 64*double + 32*update, and stfiwx, the one integer-word form, at 31/983. */
  function StoreOpcode(f: Form): Option<(nat, nat)>
  {
    if f.size == SizeF32I then (if f.indexed && !f.update then Some((31, 983)) else None)
    else if f.size == SizeNone then None
    else
      var w := if f.size == SizeF64 then 1 else 0;
      var u := if f.update then 1 else 0;
      if f.indexed then Some((31, 663 + 64 * w + 32 * u)) else Some((52 + 2 * w + u, 0))
  }

  /** The load switch decodes exactly the load encodings: every load form decodes
      back from its encoding, and every listed opcode is the encoding of what it
      decodes to. */
  lemma LoadDecodeRoundTrip(f: Form, opcd: nat, subop10: nat)
    ensures LoadOpcode(f).Some? ==> DecodeLoad(LoadOpcode(f).value.0, LoadOpcode(f).value.1) == f
    ensures IsLoadOpcode(opcd, subop10) ==>
      var e := LoadOpcode(DecodeLoad(opcd, subop10));
      e.Some? && e.value.0 == opcd && (opcd == 31 ==> e.value.1 == subop10)
  {
  }

  /** The same for the store switch. */
  lemma StoreDecodeRoundTrip(f: Form, opcd: nat, subop10: nat)
    ensures StoreOpcode(f).Some? ==> DecodeStore(StoreOpcode(f).value.0, StoreOpcode(f).value.1) == f
    ensures IsStoreOpcode(opcd, subop10) ==>
      var e := StoreOpcode(DecodeStore(opcd, subop10));
      e.Some? && e.value.0 == opcd && (opcd == 31 ==> e.value.1 == subop10)
  {
  }

  // ---------------------------------------------------------------------------
  // The effective address
  // ---------------------------------------------------------------------------

  /** The address the instruction accesses: (RA|0) + SIMM_16 or (RA|0) + RB, modulo
      2^32.  Update forms always use RA, even RA = 0. */
  function EffectiveAddress(update: bool, indexed: bool, a: nat, offset: int, va: u32, vb: u32): u32
  {
    var base := if update || a != 0 then va else 0;
    Wrap32(base + (if indexed then vb else offset))
  }

  /** How the generators form the address: folded at compile time (is_immediate with
      imm_addr), or one of the runtime encodings.  `AddIndex(raFirst)` is an ADD of
      the two registers, RA's first when `raFirst`. */
  datatype AddrPlan =
    | Folded(addr: u32)
    | AddOffset(off: nat)
    | SubOffset(off: nat)
    | MoviAdd(offset: int)
    | AddIndex(raFirst: bool)
    | MovIndex

  /** A runtime RA + offset: ADD with a 12-bit immediate for [0, 4096), SUB of the
      magnitude for (-4096, 0), otherwise MOVI2R of the offset then ADD. */
  function OffsetPlan(offset: int): (p: AddrPlan)
    ensures p.AddOffset? || p.SubOffset? ==> p.off < 4096
    ensures p.AddOffset? <==> 0 <= offset < 4096
    ensures p.SubOffset? <==> -4096 < offset < 0
    ensures p.MoviAdd? <==> offset <= -4096 || 4096 <= offset
    ensures p.AddOffset? ==> p.off == offset
    ensures p.SubOffset? ==> p.off == -offset
    ensures p.MoviAdd? ==> p.offset == offset
  {
    if 0 <= offset < 4096 then AddOffset(offset)
    else if -4096 < offset < 0 then SubOffset(-offset)
    else MoviAdd(offset)
  }

  /** The immediate a general entry is known to hold (IsImm / GetImm). */
  function ImmOf(o: OpArg): Option<u32>
  {
    if o.kind == Imm then Some(o.imm) else None
  }

  function ValueOr(v: Option<u32>): u32
  {
    if v.Some? then v.value else 0
  }

  /** The folding decision of both generators, given what the general cache knows
      about RA and RB. */
  function PlanAddress(update: bool, indexed: bool, a: nat, offset: int, immA: Option<u32>, immB: Option<u32>): AddrPlan
  {
    if update then
      if immA.Some? && !indexed then Folded(Wrap32(offset + immA.value))
      else if immA.Some? && indexed && immB.Some? then Folded(Wrap32(immA.value + immB.value))
      else if !indexed then OffsetPlan(offset)
      else AddIndex(false)
    else if !indexed then
      if a != 0 && immA.Some? then Folded(Wrap32(immA.value + offset))
      else if a != 0 then OffsetPlan(offset)
      else Folded(Wrap32(offset))
    else
      if a != 0 && immA.Some? && immB.Some? then Folded(Wrap32(immA.value + immB.value))
      else if a == 0 && immB.Some? then Folded(immB.value)
      else if a != 0 then AddIndex(true)
      else MovIndex
  }

  /** The address is folded exactly when every register that contributes to it is a
      known immediate, and then it is the effective address of those immediates.  A
      runtime address reads RA exactly when RA contributes, and RB exactly when the
      form is indexed. */
  lemma PlanFolds(update: bool, indexed: bool, a: nat, offset: int, immA: Option<u32>, immB: Option<u32>)
    ensures var p := PlanAddress(update, indexed, a, offset, immA, immB);
      && (p.Folded? <==> ((update || a != 0) ==> immA.Some?) && (indexed ==> immB.Some?))
      && (p.Folded? ==> p.addr == EffectiveAddress(update, indexed, a, offset, ValueOr(immA), ValueOr(immB)))
      && (!p.Folded? ==> (p.MovIndex? <==> !update && a == 0) && (p.AddIndex? <==> indexed && (update || a != 0)))
      && (!p.Folded? && !indexed ==> p == OffsetPlan(offset))
  {
    var p := PlanAddress(update, indexed, a, offset, immA, immB);
    if p.Folded? && !indexed && (update || a != 0) {
      assert immA.value + offset == offset + immA.value;
    }
  }

  /** The generator's own records for a plan, writing the address into `rd` (a
      folded address is materialised into the 64-bit view, MOVI2R(XA, imm_addr)). */
  function AddressCode(p: AddrPlan, ra: ARM64Reg, rb: ARM64Reg, rd: ARM64Reg): seq<Insn>
  {
    match p
    case Folded(v) => [Movi(EncodeRegTo64(rd), v)]
    case AddOffset(off) => [AddImm(rd, ra, off)]
    case SubOffset(off) => [SubImm(rd, ra, off)]
    case MoviAdd(offset) => [Movi(rd, offset), AddReg(rd, rd, ra)]
    case AddIndex(raFirst) => if raFirst then [AddReg(rd, ra, rb)] else [AddReg(rd, rb, ra)]
    case MovIndex => [Mov(rd, rb)]
  }

  lemma WrapTwice(x: int, y: int)
    ensures Wrap32(Wrap32(x) + y) == Wrap32(x + y)
  {
    var q := x / TWO32;
    assert x == q * TWO32 + Wrap32(x);
    assert Wrap32(x) + y == (x + y) - q * TWO32;
  }

  /** A 32-bit register write reads back as its value modulo 2^32. */
  lemma ReadWritten(m: Machine, n: nat, v: int)
    ensures Read(Write(m, W(n), v), W(n)) == Wrap32(v)
    ensures Read(Write(m, X(n), v), W(n)) == Wrap64(v) % TWO32
  {
  }

  lemma RunOne(m: Machine, i: Insn)
    ensures Run(m, [i]) == Step(m, i)
  {
    assert [i][1..] == [];
  }

  lemma RunTwo(m: Machine, i: Insn, j: Insn)
    ensures Run(m, [i, j]) == Step(Step(m, i), j)
  {
    assert [i, j][1..] == [j];
    RunOne(Step(m, i), j);
  }

  /** The value a plan's records leave in the destination, given the values of RA's
      and RB's registers. */
  function PlanValue(p: AddrPlan, va: u32, vb: u32): u32
  {
    match p
    case Folded(v) => v
    case AddOffset(off) => Wrap32(va + off)
    case SubOffset(off) => Wrap32(va - off)
    case MoviAdd(offset) => Wrap32(offset + va)
    case AddIndex(_) => Wrap32(va + vb)
    case MovIndex => vb
  }

  /** Running a plan's records leaves its value in the destination, provided RA's
      register is not the destination. */
  lemma AddressCodeRuns(p: AddrPlan, ra: ARM64Reg, rb: ARM64Reg, rd: ARM64Reg, m: Machine)
    requires ra.W? && rb.W? && rd.W? && ra.n != rd.n
    ensures Read(m, ra) < TWO32 && Read(m, rb) < TWO32
    ensures Read(Run(m, AddressCode(p, ra, rb, rd)), rd) == PlanValue(p, Read(m, ra), Read(m, rb))
  {
    if p.MoviAdd? {
      MoviAddRuns(p.offset, ra, rd, m);
    } else {
      var i := AddressCode(p, ra, rb, rd)[0];
      assert AddressCode(p, ra, rb, rd) == [i];
      RunOne(m, i);
      SingleRecordValue(p, ra, rb, rd, m);
    }
  }

  lemma SingleRecordValue(p: AddrPlan, ra: ARM64Reg, rb: ARM64Reg, rd: ARM64Reg, m: Machine)
    requires ra.W? && rb.W? && rd.W? && !p.MoviAdd?
    ensures Read(Step(m, AddressCode(p, ra, rb, rd)[0]), rd) == PlanValue(p, Read(m, ra), Read(m, rb))
  {
    var va, vb := Read(m, ra), Read(m, rb);
    match p
    case Folded(v) =>
      StepMoviRead(m, rd.n, v);
    case AddOffset(off) =>
      StepWRead(m, AddImm(rd, ra, off), rd.n, va + off);
    case SubOffset(off) =>
      StepWRead(m, SubImm(rd, ra, off), rd.n, va - off);
    case AddIndex(raFirst) =>
      if raFirst {
        StepWRead(m, AddReg(rd, ra, rb), rd.n, va + vb);
      } else {
        StepWRead(m, AddReg(rd, rb, ra), rd.n, vb + va);
      }
    case MovIndex =>
      StepWRead(m, Mov(rd, rb), rd.n, vb);
  }

  /** A 32-bit immediate moved into the X view reads back from the W view. */
  lemma StepMoviRead(m: Machine, n: nat, v: u32)
    ensures Read(Step(m, Movi(X(n), v)), W(n)) == v
  {
    ReadWritten(m, n, v);
  }

  /** A record that writes `x` to W(n) leaves x modulo 2^32 there. */
  lemma StepWRead(m: Machine, i: Insn, n: nat, x: int)
    requires Step(m, i) == Write(m, W(n), x)
    ensures Read(Step(m, i), W(n)) == Wrap32(x)
  {
    ReadWritten(m, n, x);
  }

  lemma MoviAddRuns(offset: int, ra: ARM64Reg, rd: ARM64Reg, m: Machine)
    requires ra.W? && rd.W? && ra.n != rd.n
    ensures Read(Run(m, [Movi(rd, offset), AddReg(rd, rd, ra)]), rd) == Wrap32(offset + Read(m, ra))
  {
    RunTwo(m, Movi(rd, offset), AddReg(rd, rd, ra));
    var m1 := Write(m, rd, offset);
    ReadWritten(m, rd.n, offset);
    assert Read(m1, ra) == Read(m, ra);
    ReadWritten(m1, rd.n, Wrap32(offset) + Read(m, ra));
    WrapTwice(offset, Read(m, ra));
  }

  /** Whatever the folding chose, its value is the effective address, provided the
      registers hold the immediates the cache knows. */
  lemma PlanValueIsEffective(update: bool, indexed: bool, a: nat, offset: int, immA: Option<u32>, immB: Option<u32>,
                             va: u32, vb: u32)
    requires immA.Some? ==> va == immA.value
    requires immB.Some? ==> vb == immB.value
    ensures PlanValue(PlanAddress(update, indexed, a, offset, immA, immB), va, vb)
      == EffectiveAddress(update, indexed, a, offset, va, vb)
  {
    PlanFolds(update, indexed, a, offset, immA, immB);
    var p := PlanAddress(update, indexed, a, offset, immA, immB);
    if p.AddOffset? || p.SubOffset? || p.MoviAdd? {
      assert offset + va == va + offset;
    }
  }

  /** Every encoding computes the effective address.  Given RA and RB in 32-bit
      registers, RA's not the destination, and holding the immediates the cache knows,
      running the records leaves (RA|0) + offset or (RA|0) + RB, modulo 2^32, in the
      destination, whichever plan the folding chose. */
  lemma AddressCodeComputes(update: bool, indexed: bool, a: nat, offset: int, immA: Option<u32>, immB: Option<u32>,
                            ra: ARM64Reg, rb: ARM64Reg, rd: ARM64Reg, m: Machine)
    requires ra.W? && rb.W? && rd.W? && ra.n != rd.n
    requires immA.Some? ==> Read(m, ra) == immA.value
    requires immB.Some? ==> Read(m, rb) == immB.value
    ensures Read(m, ra) < TWO32 && Read(m, rb) < TWO32
    ensures var p := PlanAddress(update, indexed, a, offset, immA, immB);
      Read(Run(m, AddressCode(p, ra, rb, rd)), rd) == EffectiveAddress(update, indexed, a, offset, Read(m, ra), Read(m, rb))
  {
    var p := PlanAddress(update, indexed, a, offset, immA, immB);
    AddressCodeRuns(p, ra, rb, rd, m);
    PlanValueIsEffective(update, indexed, a, offset, immA, immB, Read(m, ra), Read(m, rb));
  }

  // ---------------------------------------------------------------------------
  // The gather pipe
  // ---------------------------------------------------------------------------

  /** The addresses of GPFifo's byte count and of the pipe buffer. */
  datatype GatherPipe = GatherPipe(countAddr: nat, pipeAddr: nat)

  /** accessSize: 64 bits for a double, 32 for everything else. */
  function AccessBits(size: AccessSize): nat
  {
    if size == SizeF64 then 64 else 32
  }

  /** The double view of a vector register (EncodeRegToDouble). */
  function ToDouble(r: ARM64Reg): ARM64Reg
  {
    if r.Q? then D(r.n) else r
  }

  /** The lower of the two addresses, which X30 holds. */
  function GatherBase(gp: GatherPipe): nat
  {
    if gp.countAddr <= gp.pipeAddr then gp.countAddr else gp.pipeAddr
  }

  /** The register the pipe address is formed in: X1, or X30 itself when the pipe
      is at the lower address. */
  function PipeReg(gp: GatherPipe): ARM64Reg
  {
    if gp.pipeAddr != GatherBase(gp) then X(1) else X(30)
  }

  /** The first part of the gather-pipe store: the base into X30, the pipe address
      into X1 if it differs, the count into W0. */
  function GatherSetupCode(gp: GatherPipe): seq<Insn>
  {
    var base := GatherBase(gp);
    if gp.pipeAddr != base then
      [Movi(X(30), base), AddImm(X(1), X(30), gp.pipeAddr - base), LdrImm(32, W(0), X(30), gp.countAddr - base)]
    else
      [Movi(X(30), base), LdrImm(32, W(0), X(30), gp.countAddr - base)]
  }

  /** The value stored at pipe + count: byte-reversed, and converted to single first
      for a 32-bit access. */
  function GatherDataCode(size: AccessSize, v: ARM64Reg, gp: GatherPipe): seq<Insn>
  {
    if AccessBits(size) == 64 then [Rev(64, Q(0), v), StrIdx(64, Q(0), PipeReg(gp), X(0))]
    else [Fcvt(32, 64, D(0), ToDouble(v)), Rev(32, D(0), D(0)), StrIdx(32, D(0), PipeReg(gp), X(0))]
  }

  /** The count grows by the access size in bytes and is stored back. */
  function GatherCountCode(size: AccessSize, gp: GatherPipe): seq<Insn>
  {
    [AddImm(W(0), W(0), AccessBits(size) / 8), StrImm(32, W(0), X(30), gp.countAddr - GatherBase(gp))]
  }

  /** stfXX's inline store to the gather pipe. */
  function GatherCode(size: AccessSize, v: ARM64Reg, gp: GatherPipe): seq<Insn>
  {
    GatherSetupCode(gp) + GatherDataCode(size, v, gp) + GatherCountCode(size, gp)
  }

  lemma RunThree(m: Machine, i: Insn, j: Insn, k: Insn)
    ensures Run(m, [i, j, k]) == Step(Step(Step(m, i), j), k)
  {
    assert [i, j, k][1..] == [j, k];
    RunTwo(Step(m, i), j, k);
  }

  lemma GatherSetupRuns(m: Machine, gp: GatherPipe)
    requires gp.countAddr < TWO64 && gp.pipeAddr < TWO64
    ensures var m1 := Run(m, GatherSetupCode(gp));
      && Get(m1.x, 30) == GatherBase(gp) && Read(m1, PipeReg(gp)) == gp.pipeAddr
      && Get(m1.x, 0) == Wrap32(Get(m.mem, gp.countAddr)) && m1.mem == m.mem
  {
    if gp.pipeAddr != GatherBase(gp) {
      GatherSetupApart(m, gp);
    } else {
      GatherSetupShared(m, gp);
    }
  }

  /** The setup when the pipe lies above the count: three records. */
  lemma GatherSetupApart(m: Machine, gp: GatherPipe)
    requires gp.countAddr < TWO64 && gp.pipeAddr < TWO64 && gp.pipeAddr != GatherBase(gp)
    ensures var m1 := Run(m, GatherSetupCode(gp));
      && Get(m1.x, 30) == GatherBase(gp) && Get(m1.x, 1) == gp.pipeAddr
      && Get(m1.x, 0) == Wrap32(Get(m.mem, gp.countAddr)) && m1.mem == m.mem
  {
    var base := GatherBase(gp);
    SetupApartRuns(m, base, gp.pipeAddr - base, gp.countAddr - base);
  }

  lemma SetupApartRuns(m: Machine, base: nat, pipeOff: nat, countOff: nat)
    requires base + pipeOff < TWO64
    ensures var m1 := Run(m, [Movi(X(30), base), AddImm(X(1), X(30), pipeOff), LdrImm(32, W(0), X(30), countOff)]);
      && Get(m1.x, 30) == base && Get(m1.x, 1) == base + pipeOff
      && Get(m1.x, 0) == Wrap32(Get(m.mem, base + countOff)) && m1.mem == m.mem
  {
    RunThree(m, Movi(X(30), base), AddImm(X(1), X(30), pipeOff), LdrImm(32, W(0), X(30), countOff));
    SetupApartSteps(m, base, pipeOff, countOff);
  }

  lemma SetupApartSteps(m: Machine, base: nat, pipeOff: nat, countOff: nat)
    requires base + pipeOff < TWO64
    ensures var m1 := Step(Step(Step(m, Movi(X(30), base)), AddImm(X(1), X(30), pipeOff)), LdrImm(32, W(0), X(30), countOff));
      && Get(m1.x, 30) == base && Get(m1.x, 1) == base + pipeOff
      && Get(m1.x, 0) == Wrap32(Get(m.mem, base + countOff)) && m1.mem == m.mem
  {
    var ma := m.(x := m.x[30 := base]);
    var mb := ma.(x := ma.x[1 := base + pipeOff]);
    StepMoviX(m, 30, base);
    StepAddX(ma, 1, 30, pipeOff);
    StepLdrW(mb, 0, 30, countOff);
  }

  /** The setup when the pipe is the lower address: X30 serves for both. */
  lemma GatherSetupShared(m: Machine, gp: GatherPipe)
    requires gp.countAddr < TWO64 && gp.pipeAddr < TWO64 && gp.pipeAddr == GatherBase(gp)
    ensures var m1 := Run(m, GatherSetupCode(gp));
      && Get(m1.x, 30) == GatherBase(gp)
      && Get(m1.x, 0) == Wrap32(Get(m.mem, gp.countAddr)) && m1.mem == m.mem
  {
    var base := GatherBase(gp);
    SetupSharedRuns(m, base, gp.countAddr - base);
  }

  lemma SetupSharedRuns(m: Machine, base: nat, countOff: nat)
    requires base < TWO64
    ensures var m1 := Run(m, [Movi(X(30), base), LdrImm(32, W(0), X(30), countOff)]);
      && Get(m1.x, 30) == base
      && Get(m1.x, 0) == Wrap32(Get(m.mem, base + countOff)) && m1.mem == m.mem
  {
    RunTwo(m, Movi(X(30), base), LdrImm(32, W(0), X(30), countOff));
    SetupSharedSteps(m, base, countOff);
  }

  lemma SetupSharedSteps(m: Machine, base: nat, countOff: nat)
    requires base < TWO64
    ensures var m1 := Step(Step(m, Movi(X(30), base)), LdrImm(32, W(0), X(30), countOff));
      && Get(m1.x, 30) == base
      && Get(m1.x, 0) == Wrap32(Get(m.mem, base + countOff)) && m1.mem == m.mem
  {
    var ma := m.(x := m.x[30 := base]);
    StepMoviX(m, 30, base);
    StepLdrW(ma, 0, 30, countOff);
  }

  lemma StepMoviX(m: Machine, n: nat, v: int)
    requires 0 <= v < TWO64
    ensures Step(m, Movi(X(n), v)) == m.(x := m.x[n := v])
  {
  }

  lemma StepAddX(m: Machine, d: nat, s: nat, imm: nat)
    requires 0 <= Get(m.x, s) && Get(m.x, s) + imm < TWO64
    ensures Step(m, AddImm(X(d), X(s), imm)) == m.(x := m.x[d := Get(m.x, s) + imm])
  {
  }

  lemma StepLdrW(m: Machine, d: nat, s: nat, off: nat)
    ensures Step(m, LdrImm(32, W(d), X(s), off)) == m.(x := m.x[d := Wrap32(Get(m.mem, Get(m.x, s) + off))])
  {
  }

  lemma GatherDataRuns(m: Machine, size: AccessSize, v: ARM64Reg, gp: GatherPipe)
    ensures var m2 := Run(m, GatherDataCode(size, v, gp));
      && m2.x == m.x
      && var at := Read(m, PipeReg(gp)) + Get(m.x, 0);
         at in m2.mem && forall k | k != at :: Get(m2.mem, k) == Get(m.mem, k)
  {
    if AccessBits(size) == 64 {
      DataRuns64(m, v, PipeReg(gp));
    } else {
      DataRuns32(m, ToDouble(v), PipeReg(gp));
    }
  }

  lemma DataRuns64(m: Machine, v: ARM64Reg, pipe: ARM64Reg)
    requires pipe.X?
    ensures var m2 := Run(m, [Rev(64, Q(0), v), StrIdx(64, Q(0), pipe, X(0))]);
      && m2.x == m.x
      && m2.mem == m.mem[Get(m.x, pipe.n) + Get(m.x, 0) := Get(m.v, 0)]
  {
    RunTwo(m, Rev(64, Q(0), v), StrIdx(64, Q(0), pipe, X(0)));
    StepLanes(m, Rev(64, Q(0), v));
    StepStrIdx(m, 64, Q(0), pipe.n);
  }

  lemma DataRuns32(m: Machine, v: ARM64Reg, pipe: ARM64Reg)
    requires pipe.X?
    ensures var m2 := Run(m, [Fcvt(32, 64, D(0), v), Rev(32, D(0), D(0)), StrIdx(32, D(0), pipe, X(0))]);
      && m2.x == m.x
      && m2.mem == m.mem[Get(m.x, pipe.n) + Get(m.x, 0) := Get(m.v, 0)]
  {
    RunThree(m, Fcvt(32, 64, D(0), v), Rev(32, D(0), D(0)), StrIdx(32, D(0), pipe, X(0)));
    StepLanes(m, Fcvt(32, 64, D(0), v));
    StepLanes(m, Rev(32, D(0), D(0)));
    StepStrIdx(m, 32, D(0), pipe.n);
  }

  /** Lane operations have no meaning in the machine: it is left as it is. */
  lemma StepLanes(m: Machine, i: Insn)
    requires i.Rev? || i.Fcvt?
    ensures Step(m, i) == m
  {
  }

  lemma StepStrIdx(m: Machine, size: nat, rt: ARM64Reg, n: nat)
    requires rt == Q(0) || rt == D(0)
    ensures Step(m, StrIdx(size, rt, X(n), X(0))) == m.(mem := m.mem[Get(m.x, n) + Get(m.x, 0) := Get(m.v, 0)])
  {
  }

  lemma GatherCountRuns(m: Machine, size: AccessSize, gp: GatherPipe)
    requires Get(m.x, 30) == GatherBase(gp) && 0 <= Get(m.x, 0) < TWO32
    ensures var m3 := Run(m, GatherCountCode(size, gp));
      && m3.mem == m.mem[gp.countAddr := Wrap32(Get(m.x, 0) + AccessBits(size) / 8)]
  {
    var base := GatherBase(gp);
    var off := gp.countAddr - base;
    assert GatherCountCode(size, gp) == [AddImm(W(0), W(0), AccessBits(size) / 8), StrImm(32, W(0), X(30), off)];
    CountRuns(m, AccessBits(size) / 8, off, base, gp.countAddr);
  }

  lemma CountRuns(m: Machine, n: nat, off: nat, base: int, at: int)
    requires Get(m.x, 30) == base && 0 <= Get(m.x, 0) < TWO32 && at == base + off
    ensures Run(m, [AddImm(W(0), W(0), n), StrImm(32, W(0), X(30), off)]).mem
         == m.mem[at := Wrap32(Get(m.x, 0) + n)]
  {
    RunTwo(m, AddImm(W(0), W(0), n), StrImm(32, W(0), X(30), off));
    CountSteps(m, n, off, base);
  }

  lemma CountSteps(m: Machine, n: nat, off: nat, base: int)
    requires Get(m.x, 30) == base && 0 <= Get(m.x, 0) < TWO32
    ensures Step(Step(m, AddImm(W(0), W(0), n)), StrImm(32, W(0), X(30), off)).mem
         == m.mem[base + off := Wrap32(Get(m.x, 0) + n)]
  {
    var v := Wrap32(Get(m.x, 0) + n);
    StepAddW0(m, n);
    StepStrW0(m.(x := m.x[0 := v]), off, base, v);
  }

  lemma StepAddW0(m: Machine, n: nat)
    requires 0 <= Get(m.x, 0) < TWO32
    ensures Step(m, AddImm(W(0), W(0), n)) == m.(x := m.x[0 := Wrap32(Get(m.x, 0) + n)])
  {
  }

  lemma StepStrW0(m: Machine, off: nat, base: int, v: u32)
    requires Get(m.x, 30) == base && Get(m.x, 0) == v
    ensures Step(m, StrImm(32, W(0), X(30), off)) == m.(mem := m.mem[base + off := v])
  {
  }

  /** The gather code runs as its three parts in a row. */
  lemma GatherCodeSplits(size: AccessSize, v: ARM64Reg, gp: GatherPipe, m: Machine)
    ensures Run(m, GatherCode(size, v, gp))
         == Run(Run(Run(m, GatherSetupCode(gp)), GatherDataCode(size, v, gp)), GatherCountCode(size, gp))
  {
    var setup, data, count := GatherSetupCode(gp), GatherDataCode(size, v, gp), GatherCountCode(size, gp);
    RunAppend(m, setup, data);
    RunAppend(m, setup + data, count);
  }

  /** How the memory facts of the three parts combine. */
  lemma GatherMemoryCombines(mem: map<int, int>, mem2: map<int, int>, mem3: map<int, int>, count: int, at: int, c: int)
    requires at != count
    requires at in mem2 && forall k | k != at :: Get(mem2, k) == Get(mem, k)
    requires mem3 == mem2[count := c]
    ensures Get(mem3, count) == c && at in mem3
    ensures forall k | k != count && k != at :: Get(mem3, k) == Get(mem, k)
  {
  }

  /** The inline gather-pipe store adds the access size in bytes (8 for a double, 4
      otherwise) to the 32-bit count and writes one cell, at pipe + the old count,
      touching no other memory (when that cell is not the count itself). */
  lemma GatherCodeCounts(size: AccessSize, v: ARM64Reg, gp: GatherPipe, m: Machine)
    requires gp.countAddr < TWO64 && gp.pipeAddr < TWO64
    requires gp.pipeAddr + Wrap32(Get(m.mem, gp.countAddr)) != gp.countAddr
    ensures var m' := Run(m, GatherCode(size, v, gp));
      var c := Wrap32(Get(m.mem, gp.countAddr));
      && Get(m'.mem, gp.countAddr) == Wrap32(c + AccessBits(size) / 8)
      && gp.pipeAddr + c in m'.mem
      && forall k | k != gp.countAddr && k != gp.pipeAddr + c :: Get(m'.mem, k) == Get(m.mem, k)
  {
    GatherCodeSplits(size, v, gp, m);
    GatherPartsCount(size, v, gp, m);
  }

  lemma GatherPartsCount(size: AccessSize, v: ARM64Reg, gp: GatherPipe, m: Machine)
    requires gp.countAddr < TWO64 && gp.pipeAddr < TWO64
    requires gp.pipeAddr + Wrap32(Get(m.mem, gp.countAddr)) != gp.countAddr
    ensures var m' := Run(Run(Run(m, GatherSetupCode(gp)), GatherDataCode(size, v, gp)), GatherCountCode(size, gp));
      var c := Wrap32(Get(m.mem, gp.countAddr));
      && Get(m'.mem, gp.countAddr) == Wrap32(c + AccessBits(size) / 8)
      && gp.pipeAddr + c in m'.mem
      && forall k | k != gp.countAddr && k != gp.pipeAddr + c :: Get(m'.mem, k) == Get(m.mem, k)
  {
    var m1 := Run(m, GatherSetupCode(gp));
    var m2 := Run(m1, GatherDataCode(size, v, gp));
    var m3 := Run(m2, GatherCountCode(size, gp));
    GatherSetupRuns(m, gp);
    GatherDataRuns(m1, size, v, gp);
    GatherCountRuns(m2, size, gp);
    GatherPartsCombine(size, gp, m, m1, m2, m3);
  }

  lemma GatherPartsCombine(size: AccessSize, gp: GatherPipe, m: Machine, m1: Machine, m2: Machine, m3: Machine)
    requires gp.pipeAddr + Wrap32(Get(m.mem, gp.countAddr)) != gp.countAddr
    requires Get(m1.x, 30) == GatherBase(gp) && Read(m1, PipeReg(gp)) == gp.pipeAddr
      && Get(m1.x, 0) == Wrap32(Get(m.mem, gp.countAddr)) && m1.mem == m.mem
    requires m2.x == m1.x
      && var at := Read(m1, PipeReg(gp)) + Get(m1.x, 0);
         at in m2.mem && forall k | k != at :: Get(m2.mem, k) == Get(m1.mem, k)
    requires m3.mem == m2.mem[gp.countAddr := Wrap32(Get(m2.x, 0) + AccessBits(size) / 8)]
    ensures var c := Wrap32(Get(m.mem, gp.countAddr));
      && Get(m3.mem, gp.countAddr) == Wrap32(c + AccessBits(size) / 8)
      && gp.pipeAddr + c in m3.mem
      && forall k | k != gp.countAddr && k != gp.pipeAddr + c :: Get(m3.mem, k) == Get(m.mem, k)
  {
    var c := Wrap32(Get(m.mem, gp.countAddr));
    GatherMemoryCombines(m.mem, m2.mem, m3.mem, gp.countAddr, gp.pipeAddr + c, Wrap32(c + AccessBits(size) / 8));
  }

  // ---------------------------------------------------------------------------
  // Scratch registers and the load target
  // ---------------------------------------------------------------------------

  /** The host registers the generators take for themselves: W0 and W30 (lfXX),
      W0, W1 and W30 (stfXX), and Q0 (both). */
  const LoadGprScratch: seq<ARM64Reg> := [W(0), W(30)]
  const StoreGprScratch: seq<ARM64Reg> := [W(0), W(1), W(30)]
  const FprScratch: seq<ARM64Reg> := [Q(0)]

  /** Every scratch register is one of the cache's host registers. */
  lemma ScratchInHosts(bank: Bank, s: CacheState)
    requires Inv(bank, s)
    ensures bank == Gpr ==> W(0) in Hosts(s.hs) && W(1) in Hosts(s.hs) && W(30) in Hosts(s.hs)
    ensures bank == Fpr ==> Q(0) in Hosts(s.hs)
  {
    if bank == Gpr {
      assert s.hs[27].reg == W(0) && s.hs[26].reg == W(1) && s.hs[28].reg == W(30);
    } else {
      assert s.hs[31].reg == Q(0);
    }
  }

  /** lfXX's floating-cache steps as written: BindToRegister(FD, false, only_lower),
      VD = R(FD, only_lower), and only then Lock(Q0). */
  function LoadTargetAsWritten(s: CacheState, fd: nat, onlyLower: bool): (Effect, ARM64Reg)
    requires fd < |s.gs|
  {
    var b := FprBindEffect(s, fd, false, onlyLower);
    var rd := FprReadEffect(b.s, fd, onlyLower);
    var l := LockFrom(Fpr, rd.0.s, FprScratch, true, 0);
    (Effect(l.s, b.code + rd.0.code + l.code), rd.1)
  }

  /** The same steps with Q0 taken first: Lock(Q0), then BindToRegister and R. */
  function LoadTarget(s: CacheState, fd: nat, onlyLower: bool): (r: (Effect, ARM64Reg))
    requires Inv(Fpr, s) && fd < GUEST_COUNT
    ensures |r.0.s.gs| == GUEST_COUNT
  {
    var l := LockFrom(Fpr, s, FprScratch, true, 0);
    LockSpec(Fpr, s, FprScratch, true, 0);
    var b := FprBindEffect(l.s, fd, false, onlyLower);
    var rd := FprReadEffect(b.s, fd, onlyLower);
    (Effect(rd.0.s, l.code + b.code + rd.0.code), rd.1)
  }

  /** Binding FD for a write and then reading it with the same only_lower leaves FD
      in host register VD, dirty, a lower pair exactly when only the low half was
      asked for; the scratch registers are kept. */
  lemma BindThenRead(s: CacheState, fd: nat, onlyLower: bool)
    requires Inv(Fpr, s) && fd < |s.gs|
    ensures var b := FprBindEffect(s, fd, false, onlyLower);
      var rd := FprReadEffect(b.s, fd, onlyLower);
      && Inv(Fpr, rd.0.s)
      && (forall h :: Reserved(rd.0.s, h) <==> Reserved(s, h))
      && rd.0.s.gs[fd].kind == (if onlyLower then LowerPair else Reg)
      && rd.0.s.gs[fd].reg == rd.1 && rd.0.s.gs[fd].dirty
  {
    FprBindSpec(s, fd, false, onlyLower);
    var b := FprBindEffect(s, fd, false, onlyLower);
    FprReadSpec(b.s, fd, onlyLower);
  }

  /** A guest entry held in a host register binds that register. */
  lemma BoundHas(gs: seq<OpArg>, p: nat)
    requires p < |gs|
    ensures gs[p].InHost() ==> gs[p].reg in Bound(gs)
  {
  }

  /** Locking Q0 makes it a scratch register, keeps the invariant and leaves every
      other register's status as it was. */
  lemma LockScratchFpr(s: CacheState)
    requires Inv(Fpr, s)
    ensures var l := LockFrom(Fpr, s, FprScratch, true, 0);
      && Inv(Fpr, l.s) && Reserved(l.s, Q(0))
      && (forall h | h != Q(0) :: Reserved(l.s, h) <==> Reserved(s, h))
  {
    ScratchInHosts(Fpr, s);
    LockSpec(Fpr, s, FprScratch, true, 0);
    assert FprScratch[0..] == [Q(0)];
  }

  /** As written, when the binding hands out Q0 (the last register of the floating
      allocation order), Lock(Q0) flushes FD out of it again: FD is left holding no
      host register while Q0, which VD names and which the load will write, is a
      scratch register.  The loaded value never reaches FD. */
  lemma LoadTargetAsWrittenLoses(s: CacheState, fd: nat, onlyLower: bool)
    requires Inv(Fpr, s) && fd < |s.gs|
    requires LoadTargetAsWritten(s, fd, onlyLower).1 == Q(0)
    ensures var e := LoadTargetAsWritten(s, fd, onlyLower).0;
      !e.s.gs[fd].InHost() && Reserved(e.s, Q(0))
  {
    var b := FprBindEffect(s, fd, false, onlyLower);
    var rd := FprReadEffect(b.s, fd, onlyLower);
    BindThenRead(s, fd, onlyLower);
    LockScratchFpr(rd.0.s);
    LockSpec(Fpr, rd.0.s, FprScratch, true, 0);
    var e := LockFrom(Fpr, rd.0.s, FprScratch, true, 0);
    assert FlushedFor(Fpr, fd, rd.0.s.gs[fd], e.s.gs[fd], [Q(0)], StateStores(e.code));
    BoundHas(e.s.gs, fd);
  }

  /** A floating cache in which guest registers 1..31 hold the first 31 host
      registers of the allocation order (all locked), guest register 0 is unloaded
      and only Q0 is free. */
  function FullFprState(): CacheState
  {
    var order := AllocationOrder(Fpr);
    CacheState(
      seq(32, q requires 0 <= q < 32 => if q == 0 then Unloaded else OpArg(Reg, order[q - 1], 0, false, 0)),
      seq(32, k requires 0 <= k < 32 => HostReg(order[k], k < 31)))
  }

  lemma FullFprHosts()
    ensures HostsInOrder(Fpr, FullFprState().hs) && |FullFprState().gs| == GUEST_COUNT
    ensures forall k | 0 <= k < 32 :: FullFprState().hs[k].locked == (k < 31)
    ensures FullFprState().gs[0] == Unloaded && FullFprState().hs[31].reg == Q(0)
    ensures forall q | 1 <= q < 32 :: FullFprState().gs[q] == OpArg(Reg, FullFprState().hs[q - 1].reg, 0, false, 0)
  {
    AllocationOrderShape(Fpr);
  }

  lemma FullFprInv()
    ensures Inv(Fpr, FullFprState())
  {
    FullFprHosts();
    ChainInv(FullFprState());
  }

  /** Guest entry q (q >= 1) bound to host register q - 1, all those locked: the
      invariant holds. */
  lemma ChainInv(s: CacheState)
    requires HostsInOrder(Fpr, s.hs) && |s.gs| == GUEST_COUNT
    requires forall k | 0 <= k < 32 :: s.hs[k].locked == (k < 31)
    requires s.gs[0] == Unloaded
    requires forall q | 1 <= q < 32 :: s.gs[q] == OpArg(Reg, s.hs[q - 1].reg, 0, false, 0)
    ensures Inv(Fpr, s)
  {
    AllocationOrderDistinct(Fpr);
    forall p | 0 <= p < |s.gs| && s.gs[p].InHost() && s.gs[p].reg != InvalidReg
      ensures s.gs[p].reg in Locked(s.hs)
    {
      assert s.hs[p - 1].locked && s.hs[p - 1].reg == s.gs[p].reg;
    }
    forall p, q | 0 <= p < |s.gs| && 0 <= q < |s.gs| && p != q && s.gs[p].InHost() && s.gs[q].InHost()
      ensures s.gs[p].reg != s.gs[q].reg
    {
      if p < q {
        assert s.hs[p - 1].reg != s.hs[q - 1].reg;
      } else {
        assert s.hs[q - 1].reg != s.hs[p - 1].reg;
      }
    }
  }

  lemma FullFprFree()
    ensures FirstUnlocked(FullFprState().hs, 0) == Some(31)
    ensures CountUnlocked(FullFprState().hs) != 0
  {
    FullFprHosts();
    LastFree(FullFprState().hs);
  }

  /** Only the last of 32 host registers free: it is the first free one. */
  lemma LastFree(hs: seq<HostReg>)
    requires |hs| == 32 && forall k | 0 <= k < 32 :: hs[k].locked == (k < 31)
    ensures FirstUnlocked(hs, 0) == Some(31) && CountUnlocked(hs) != 0
  {
    CountUnlockedZero(hs);
    assert !hs[31].locked;
  }

  /** The loss happens: on that state lfXX as written, targeting FD = 0, gets Q0 as
      VD and ends with FD unloaded, whether or not only the low half is wanted. */
  lemma LoadTargetAsWrittenLosesOnFullCache(onlyLower: bool)
    ensures Inv(Fpr, FullFprState())
    ensures var r := LoadTargetAsWritten(FullFprState(), 0, onlyLower);
      r.1 == Q(0) && !r.0.s.gs[0].InHost()
  {
    var s := FullFprState();
    FullFprInv();
    FullFprAllocatesQ0(onlyLower);
    LoadTargetAsWrittenLoses(s, 0, onlyLower);
  }

  lemma FullFprAllocatesQ0(onlyLower: bool)
    requires Inv(Fpr, FullFprState())
    ensures LoadTargetAsWritten(FullFprState(), 0, onlyLower).1 == Q(0)
  {
    var s := FullFprState();
    FullFprHosts();
    FullFprFree();
    FreeLastAllocates(s, 0);
    FprBindSpec(s, 0, false, onlyLower);
    var b := FprBindEffect(s, 0, false, onlyLower);
    FprReadSpec(b.s, 0, onlyLower);
  }

  /** When only the last host register (Q0) is free, GetReg evicts nothing and hands
      out Q0. */
  lemma FreeLastAllocates(s: CacheState, p: nat)
    requires p < |s.gs| && |s.hs| == 32
    requires FirstUnlocked(s.hs, 0) == Some(31) && CountUnlocked(s.hs) != 0 && s.hs[31].reg == Q(0)
    ensures Allocated(MarkWritten(s, p)) == Q(0)
  {
    var s0 := MarkWritten(s, p);
    assert s0.hs == s.hs;
    assert Victim(s0).None?;
  }

  /** With Q0 taken first, lfXX's target is sound: FD ends in host register VD,
      dirty, a lower pair exactly when only the low half is wanted, and VD is not Q0,
      which is a scratch register; no other register changes from or to being one. */
  lemma LoadTargetSpec(s: CacheState, fd: nat, onlyLower: bool)
    requires Inv(Fpr, s) && fd < GUEST_COUNT
    ensures var r := LoadTarget(s, fd, onlyLower);
      var e, vd := r.0, r.1;
      && Inv(Fpr, e.s)
      && Reserved(e.s, Q(0))
      && (forall h | h != Q(0) :: Reserved(e.s, h) <==> Reserved(s, h))
      && e.s.gs[fd].kind == (if onlyLower then LowerPair else Reg)
      && e.s.gs[fd].reg == vd && e.s.gs[fd].dirty
      && vd != Q(0)
  {
    var l := LockFrom(Fpr, s, FprScratch, true, 0);
    LockScratchFpr(s);
    BindThenRead(l.s, fd, onlyLower);
    BoundHas(LoadTarget(s, fd, onlyLower).0.s.gs, fd);
  }
}
