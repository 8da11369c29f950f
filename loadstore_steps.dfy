/** The steps lfXX and stfXX take through the two register caches, as transitions:
    forming the address, writing it back to RA, the spill sets handed to the
    backpatcher, and the whole of each generator in the order it makes its calls.
    The methods `Jit.JitArm64.LfXX` and `Jit.JitArm64.StfXX` are proved to perform
    these transitions. */
module LoadStoreSteps {
  import opened Wrappers
  import opened BackPatchInfo
  import opened Arm64
  import opened RegCacheState
  import opened LoadStoreFloating

  // ---------------------------------------------------------------------------
  // Forming the address
  // ---------------------------------------------------------------------------

  /** The address part of a generator: the general cache afterwards, the records
      emitted (the cache's own and the generator's), the plan chosen, and the host
      registers R returned for RA and RB (InvalidReg for one not read). */
  datatype AddrEffect = AddrEffect(s: CacheState, code: seq<Insn>, plan: AddrPlan, ra: ARM64Reg, rb: ARM64Reg)

  /** The address into `rd`, reading RA and RB through the general cache exactly where
      the generator calls R: RA then RB for a non-update indexed form, RB then RA for
      an update indexed form, and after the MOVI2R of the offset when the offset does
      not fit an immediate. */
  function AddressEffect(g: CacheState, rd: ARM64Reg, update: bool, indexed: bool, a: Reg5, b: Reg5, offset: int): (r: AddrEffect)
    requires |g.gs| == GUEST_COUNT
    ensures |r.s.gs| == GUEST_COUNT
  {
    var plan := PlanAddress(update, indexed, a, offset, ImmOf(g.gs[a]), ImmOf(g.gs[b]));
    match plan
    case Folded(_) => AddrEffect(g, [], plan, InvalidReg, InvalidReg)
    case AddOffset(off) =>
      var ra := GprReadEffect(g, a);
      AddrEffect(ra.0.s, ra.0.code + [AddImm(rd, ra.1, off)], plan, ra.1, InvalidReg)
    case SubOffset(off) =>
      var ra := GprReadEffect(g, a);
      AddrEffect(ra.0.s, ra.0.code + [SubImm(rd, ra.1, off)], plan, ra.1, InvalidReg)
    case MoviAdd(o) =>
      var ra := GprReadEffect(g, a);
      AddrEffect(ra.0.s, [Movi(rd, o)] + ra.0.code + [AddReg(rd, rd, ra.1)], plan, ra.1, InvalidReg)
    case AddIndex(raFirst) =>
      if raFirst then
        var ra := GprReadEffect(g, a);
        var rb := GprReadEffect(ra.0.s, b);
        AddrEffect(rb.0.s, ra.0.code + rb.0.code + [AddReg(rd, ra.1, rb.1)], plan, ra.1, rb.1)
      else
        var rb := GprReadEffect(g, b);
        var ra := GprReadEffect(rb.0.s, a);
        AddrEffect(ra.0.s, rb.0.code + ra.0.code + [AddReg(rd, rb.1, ra.1)], plan, ra.1, rb.1)
    case MovIndex =>
      var rb := GprReadEffect(g, b);
      AddrEffect(rb.0.s, rb.0.code + [Mov(rd, rb.1)], plan, InvalidReg, rb.1)
  }

  /** Which of RA and RB a runtime plan reads. */
  predicate ReadsA(p: AddrPlan)
  {
    !p.Folded? && !p.MovIndex?
  }

  predicate ReadsB(p: AddrPlan)
  {
    p.AddIndex? || p.MovIndex?
  }

  /** What forming the address promises: the invariant and every scratch register
      are kept; a folded address reads and emits nothing; a runtime one ends with
      the plan's own records on the registers R returned, none of which is a scratch
      register (so none is the destination). */
  ghost predicate AddressOk(g: CacheState, rd: ARM64Reg, offset: int, r: AddrEffect)
  {
    && Inv(Gpr, r.s)
    && (forall h :: Reserved(r.s, h) <==> Reserved(g, h))
    && (r.plan.Folded? ==> r.s == g && r.code == [])
    && (ReadsA(r.plan) ==> !Reserved(g, r.ra) && r.ra != rd)
    && (ReadsB(r.plan) ==> !Reserved(g, r.rb) && r.rb != rd)
    && (r.plan.MoviAdd? ==> |r.code| >= 2 && r.code[0] == Movi(rd, offset) && r.code[|r.code| - 1] == AddReg(rd, rd, r.ra))
    && (!r.plan.Folded? && !r.plan.MoviAdd? ==>
          |r.code| >= 1 && r.code[|r.code| - 1..] == AddressCode(r.plan, r.ra, r.rb, rd))
  }

  lemma AddressEffectSpec(g: CacheState, rd: ARM64Reg, update: bool, indexed: bool, a: Reg5, b: Reg5, offset: int)
    requires Inv(Gpr, g) && Reserved(g, rd)
    ensures var r := AddressEffect(g, rd, update, indexed, a, b, offset);
      && r.plan == PlanAddress(update, indexed, a, offset, ImmOf(g.gs[a]), ImmOf(g.gs[b]))
      && AddressOk(g, rd, offset, r)
  {
    var plan := PlanAddress(update, indexed, a, offset, ImmOf(g.gs[a]), ImmOf(g.gs[b]));
    PlanFolds(update, indexed, a, offset, ImmOf(g.gs[a]), ImmOf(g.gs[b]));
    var r := AddressEffect(g, rd, update, indexed, a, b, offset);
    match plan
    case Folded(_) =>
    case AddOffset(off) =>
      OneReadOk(g, rd, offset, a, AddImm(rd, GprReadEffect(g, a).1, off), plan, r);
    case SubOffset(off) =>
      OneReadOk(g, rd, offset, a, SubImm(rd, GprReadEffect(g, a).1, off), plan, r);
    case MovIndex =>
      OneReadOk(g, rd, offset, b, Mov(rd, GprReadEffect(g, b).1), plan, r);
    case MoviAdd(o) =>
      MoviAddOk(g, rd, offset, a, r);
    case AddIndex(raFirst) =>
      if raFirst {
        TwoReadsOk(g, rd, offset, a, b, r);
      } else {
        TwoReadsOk(g, rd, offset, b, a, r);
      }
  }

  lemma OneReadOk(g: CacheState, rd: ARM64Reg, offset: int, p: nat, last: Insn, plan: AddrPlan, r: AddrEffect)
    requires Inv(Gpr, g) && Reserved(g, rd) && p < |g.gs|
    requires plan.AddOffset? || plan.SubOffset? || plan.MovIndex?
    requires var rp := GprReadEffect(g, p);
      && r.s == rp.0.s && r.code == rp.0.code + [last] && r.plan == plan
      && (if plan.MovIndex? then r.rb == rp.1 && r.ra == InvalidReg else r.ra == rp.1 && r.rb == InvalidReg)
    requires AddressCode(plan, r.ra, r.rb, rd) == [last]
    ensures AddressOk(g, rd, offset, r)
  {
    GprReadSpec(g, p);
    assert r.code[|r.code| - 1..] == [last];
  }

  lemma MoviAddOk(g: CacheState, rd: ARM64Reg, offset: int, a: nat, r: AddrEffect)
    requires Inv(Gpr, g) && Reserved(g, rd) && a < |g.gs|
    requires var ra := GprReadEffect(g, a);
      && r.s == ra.0.s && r.code == [Movi(rd, offset)] + ra.0.code + [AddReg(rd, rd, ra.1)]
      && r.plan == MoviAdd(offset) && r.ra == ra.1 && r.rb == InvalidReg
    ensures AddressOk(g, rd, offset, r)
  {
    GprReadSpec(g, a);
  }

  lemma TwoReadsOk(g: CacheState, rd: ARM64Reg, offset: int, p: nat, q: nat, r: AddrEffect)
    requires Inv(Gpr, g) && Reserved(g, rd) && p < |g.gs| && q < |g.gs| && r.plan.AddIndex?
    requires var r1 := GprReadEffect(g, p);
      var r2 := GprReadEffect(r1.0.s, q);
      && r.s == r2.0.s && r.code == r1.0.code + r2.0.code + AddressCode(r.plan, r.ra, r.rb, rd)
      && {r.ra, r.rb} == {r1.1, r2.1}
    ensures AddressOk(g, rd, offset, r)
  {
    ReadTwice(g, p, q);
    var own := AddressCode(r.plan, r.ra, r.rb, rd);
    assert |own| == 1;
    assert r.code[|r.code| - 1..] == own;
  }

  /** Two reads in a row keep the invariant and the scratch registers, and neither
      returns one. */
  lemma ReadTwice(g: CacheState, p: nat, q: nat)
    requires Inv(Gpr, g) && p < |g.gs| && q < |g.gs|
    ensures var r1 := GprReadEffect(g, p);
      var r2 := GprReadEffect(r1.0.s, q);
      && Inv(Gpr, r2.0.s)
      && (forall h :: Reserved(r2.0.s, h) <==> Reserved(g, h))
      && !Reserved(g, r1.1) && !Reserved(g, r2.1)
  {
    GprReadSpec(g, p);
    GprReadSpec(GprReadEffect(g, p).0.s, q);
  }

  // ---------------------------------------------------------------------------
  // Writing the address back to RA
  // ---------------------------------------------------------------------------

  /** What RA receives: the register the address was formed in, or (on stfXX's
      gather-pipe path) the folded address itself. */
  datatype WriteBackSource = FromReg(r: ARM64Reg) | FromImm(v: u32)

  /** BindToRegister(RA, false), then MOV(R(RA), addr_reg) or MOVI2R(R(RA), imm_addr). */
  function WriteBackEffect(g: CacheState, a: Reg5, src: WriteBackSource): (r: (Effect, ARM64Reg))
    requires |g.gs| == GUEST_COUNT
    ensures |r.0.s.gs| == GUEST_COUNT
  {
    var b := GprBindEffect(g, a, false);
    var rd := GprReadEffect(b.s, a);
    var last := match src
      case FromReg(r) => Mov(rd.1, r)
      case FromImm(v) => Movi(rd.1, v);
    (Effect(rd.0.s, b.code + rd.0.code + [last]), rd.1)
  }

  /** The write-back leaves RA bound, dirty, to a host register that is not a
      scratch register, with the address moved into that register as the last
      record; the invariant and the scratch registers are kept. */
  lemma WriteBackSpec(g: CacheState, a: Reg5, src: WriteBackSource)
    requires Inv(Gpr, g)
    ensures var w := WriteBackEffect(g, a, src);
      var e, t := w.0, w.1;
      && Inv(Gpr, e.s)
      && (forall h :: Reserved(e.s, h) <==> Reserved(g, h))
      && e.s.gs[a].kind == Reg && e.s.gs[a].reg == t && e.s.gs[a].dirty
      && !Reserved(g, t)
      && |e.code| >= 1
      && e.code[|e.code| - 1] == (match src case FromReg(r) => Mov(t, r) case FromImm(v) => Movi(t, v))
  {
    GprBindSpec(g, a, false);
    var b := GprBindEffect(g, a, false);
    GprReadSpec(b.s, a);
  }

  // ---------------------------------------------------------------------------
  // Scratch registers and spill sets
  // ---------------------------------------------------------------------------

  /** Unlocking scratch registers changes no guest entry, releases them, and leaves
      every other register's status as it was. */
  lemma UnlockScratch(bank: Bank, s: CacheState, regs: seq<ARM64Reg>)
    requires Inv(bank, s)
    requires forall h | h in regs :: Reserved(s, h) && h != InvalidReg
    ensures var e := LockFrom(bank, s, regs, false, 0);
      && Inv(bank, e.s) && e.s.gs == s.gs
      && (forall h | h in regs :: h !in Locked(e.s.hs))
      && (forall h | h !in regs :: Reserved(e.s, h) <==> Reserved(s, h))
  {
    LockSpec(bank, s, regs, false, 0);
    assert regs[0..] == regs;
    var e := LockFrom(bank, s, regs, false, 0);
    forall q | 0 <= q < |s.gs| ensures e.s.gs[q] == s.gs[q] {
      BoundHas(s.gs, q);
    }
  }

  /** Unlocking scratch registers changes no guest entry. */
  lemma UnlockKeepsGuests(bank: Bank, s: CacheState, regs: seq<ARM64Reg>)
    requires Inv(bank, s)
    requires forall h | h in regs :: Reserved(s, h) && h != InvalidReg
    ensures LockFrom(bank, s, regs, false, 0).s.gs == s.gs
  {
    UnlockScratch(bank, s, regs);
  }

  /** Two different host registers of a cache occupy different bits of a mask. */
  lemma BitIndexApart(bank: Bank, s: CacheState, r1: ARM64Reg, r2: ARM64Reg)
    requires Inv(bank, s) && r1 in Hosts(s.hs) && r2 in Hosts(s.hs) && r1 != r2
    ensures BitIndex(r1) != BitIndex(r2)
  {
    var k1 :| 0 <= k1 < |s.hs| && s.hs[k1].reg == r1;
    var k2 :| 0 <= k2 < |s.hs| && s.hs[k2].reg == r2;
    AllocationOrderDistinct(bank);
    if k1 < k2 {
      assert BitIndex(AllocationOrder(bank)[k1]) != BitIndex(AllocationOrder(bank)[k2]);
    } else {
      assert BitIndex(AllocationOrder(bank)[k2]) != BitIndex(AllocationOrder(bank)[k1]);
    }
  }

  /** A guest value held in a host register is in a locked register of the cache. */
  lemma LiveInHosts(bank: Bank, s: CacheState, q: nat)
    requires Inv(bank, s) && q < |s.gs| && s.gs[q].InHost() && s.gs[q].reg != InvalidReg
    ensures s.gs[q].reg in Hosts(s.hs) && s.gs[q].reg in Locked(s.hs)
  {
    var k :| 0 <= k < |s.hs| && s.hs[k].locked && s.hs[k].reg == s.gs[q].reg;
  }

  /** A guest value is never in the bit of a scratch register. */
  lemma LiveNotScratch(bank: Bank, s: CacheState, q: nat, r: ARM64Reg)
    requires Inv(bank, s) && q < |s.gs| && s.gs[q].InHost() && s.gs[q].reg != InvalidReg
    requires Reserved(s, r) && r in Hosts(s.hs)
    ensures BitIndex(s.gs[q].reg) != BitIndex(r)
  {
    LiveInHosts(bank, s, q);
    BoundHas(s.gs, q);
    BitIndexApart(bank, s, s.gs[q].reg, r);
  }

  /** Two guest values are never in the same bit. */
  lemma LiveApart(bank: Bank, s: CacheState, q: nat, p: nat)
    requires Inv(bank, s) && q < |s.gs| && p < |s.gs| && q != p
    requires s.gs[q].InHost() && s.gs[q].reg != InvalidReg && s.gs[p].InHost() && s.gs[p].reg != InvalidReg
    ensures BitIndex(s.gs[q].reg) != BitIndex(s.gs[p].reg)
  {
    LiveInHosts(bank, s, q);
    LiveInHosts(bank, s, p);
    BitIndexApart(bank, s, s.gs[q].reg, s.gs[p].reg);
  }

  /** Locking scratch registers of the cache makes them scratch registers and leaves
      every other register's status as it was. */
  lemma LockScratch(bank: Bank, s: CacheState, regs: seq<ARM64Reg>)
    requires Inv(bank, s)
    requires forall h | h in regs :: h in Hosts(s.hs)
    ensures var e := LockFrom(bank, s, regs, true, 0);
      && Inv(bank, e.s)
      && (forall h | h in regs :: Reserved(e.s, h))
      && (forall h | h !in regs :: Reserved(e.s, h) <==> Reserved(s, h))
      && (forall q | 0 <= q < |s.gs| :: ImmOf(e.s.gs[q]) == ImmOf(s.gs[q]))
  {
    LockSpec(bank, s, regs, true, 0);
    assert regs[0..] == regs;
  }

  /** The general-cache part of a generator up to its backpatch call: the lock of
      the scratch registers, the address, and the write-back to RA with the host
      register it went to (InvalidReg when there is none). */
  datatype GprPhase = GprPhase(lock: Effect, addr: AddrEffect, wb: Effect, ra: ARM64Reg)

  /** What an update form writes back to RA: the folded address itself when the
      store goes to the gather pipe (`gather` says which folded addresses do), and
      the register the address was formed in otherwise. */
  function WriteBackFor(update: bool, rd: ARM64Reg, plan: AddrPlan, gather: u32 -> bool): Option<WriteBackSource>
  {
    if !update then None
    else if ToPipe(plan, gather) then Some(FromImm(plan.addr))
    else Some(FromReg(rd))
  }

  /** Whether a store with address plan `plan` goes to the gather pipe: its address
      is folded and `gather` accepts it. */
  predicate ToPipe(plan: AddrPlan, gather: u32 -> bool)
  {
    plan.Folded? && gather(plan.addr)
  }

  /** lfXX never takes the gather pipe. */
  function NeverGather(addr: u32): bool
  {
    false
  }

  /** Lock the scratch registers, form the address into `rd`, and, for an update
      form, bind RA and move the address into it. */
  function GprPhaseOf(g: CacheState, scratch: seq<ARM64Reg>, rd: ARM64Reg, update: bool, indexed: bool,
                      a: Reg5, b: Reg5, offset: int, gather: u32 -> bool): (r: GprPhase)
    requires Inv(Gpr, g)
    requires forall h | h in scratch :: h in Hosts(g.hs)
    ensures |r.wb.s.gs| == GUEST_COUNT
  {
    LockScratch(Gpr, g, scratch);
    var gl := LockFrom(Gpr, g, scratch, true, 0);
    var ad := AddressEffect(gl.s, rd, update, indexed, a, b, offset);
    var src := WriteBackFor(update, rd, ad.plan, gather);
    if src.Some? then
      var wb := WriteBackEffect(ad.s, a, src.value);
      GprPhase(gl, ad, wb.0, wb.1)
    else GprPhase(gl, ad, Effect(ad.s, []), InvalidReg)
  }

  /** The general-cache part keeps the invariant and holds the scratch registers,
      changing no other register's status; RA ends bound, dirty, to the register
      returned for it. */
  lemma GprStepsCache(g: CacheState, scratch: seq<ARM64Reg>, rd: ARM64Reg, update: bool, indexed: bool,
                      a: Reg5, b: Reg5, offset: int, gather: u32 -> bool)
    requires Inv(Gpr, g) && rd in scratch
    requires forall h | h in scratch :: h in Hosts(g.hs) && h != InvalidReg
    ensures var ph := GprPhaseOf(g, scratch, rd, update, indexed, a, b, offset, gather);
      && Inv(Gpr, ph.wb.s)
      && (forall h | h in scratch :: Reserved(ph.wb.s, h) && h in Hosts(ph.wb.s.hs))
      && (forall h | h !in scratch :: Reserved(ph.wb.s, h) <==> Reserved(g, h))
      && (update ==> ph.wb.s.gs[a].kind == Reg && ph.wb.s.gs[a].reg == ph.ra && ph.wb.s.gs[a].dirty)
  {
    LockScratch(Gpr, g, scratch);
    var gl := LockFrom(Gpr, g, scratch, true, 0);
    AddressEffectSpec(gl.s, rd, update, indexed, a, b, offset);
    var ad := AddressEffect(gl.s, rd, update, indexed, a, b, offset);
    var src := WriteBackFor(update, rd, ad.plan, gather);
    if src.Some? {
      WriteBackSpec(ad.s, a, src.value);
      HostsKept(Gpr, g, WriteBackEffect(ad.s, a, src.value).0.s, scratch);
    } else {
      HostsKept(Gpr, g, ad.s, scratch);
    }
  }

  /** An update form's last record moves the address into the register returned
      for RA; without update nothing is written back. */
  lemma GprWriteBackRecord(g: CacheState, scratch: seq<ARM64Reg>, rd: ARM64Reg, update: bool, indexed: bool,
                     a: Reg5, b: Reg5, offset: int, gather: u32 -> bool)
    requires Inv(Gpr, g)
    requires forall h | h in scratch :: h in Hosts(g.hs)
    ensures var ph := GprPhaseOf(g, scratch, rd, update, indexed, a, b, offset, gather);
      && (update ==>
            |ph.wb.code| >= 1
            && ph.wb.code[|ph.wb.code| - 1] ==
                 (if ToPipe(ph.addr.plan, gather) then Movi(ph.ra, ph.addr.plan.addr) else Mov(ph.ra, rd)))
      && (!update ==> ph.wb.code == [] && ph.wb.s == ph.addr.s)
  {
    LockScratch(Gpr, g, scratch);
  }

  /** The address plan is decided on the immediates the cache knew before the
      locks. */
  lemma GprPlan(g: CacheState, scratch: seq<ARM64Reg>, rd: ARM64Reg, update: bool, indexed: bool,
                a: Reg5, b: Reg5, offset: int, gather: u32 -> bool)
    requires Inv(Gpr, g)
    requires forall h | h in scratch :: h in Hosts(g.hs)
    ensures GprPhaseOf(g, scratch, rd, update, indexed, a, b, offset, gather).addr.plan
         == PlanAddress(update, indexed, a, offset, ImmOf(g.gs[a]), ImmOf(g.gs[b]))
  {
    LockScratch(Gpr, g, scratch);
  }

  /** The host list is fixed by the invariant. */
  lemma HostsKept(bank: Bank, s: CacheState, s': CacheState, regs: seq<ARM64Reg>)
    requires Inv(bank, s) && Inv(bank, s')
    requires forall h | h in regs :: h in Hosts(s.hs)
    ensures forall h | h in regs :: h in Hosts(s'.hs)
  {
    forall h | h in regs ensures h in Hosts(s'.hs) {
      var k :| 0 <= k < |s.hs| && s.hs[k].reg == h;
      assert s'.hs[k].reg == h;
    }
  }

  /** The spill sets keep every live guest value: each guest value in a caller-saved
      general register is in `gprs`, and each floating guest value other than entry
      `skip` is in `fprs`. */
  ghost predicate SavesLive(gs: seq<OpArg>, fs: seq<OpArg>, gprs: set<nat>, fprs: set<nat>, skip: int)
  {
    && (forall q | 0 <= q < |gs| && gs[q].InHost() && gs[q].reg != InvalidReg && !IsCalleeSaved(Gpr, gs[q].reg) ::
          BitIndex(gs[q].reg) in gprs)
    && (forall q | 0 <= q < |fs| && q != skip && fs[q].InHost() && fs[q].reg != InvalidReg ::
          BitIndex(fs[q].reg) in fprs)
  }

  /** The caller-saved registers in use, minus the bits of scratch registers (and of
      one more floating entry's register, `skip`), still cover every other live
      guest value. */
  lemma MasksSaveLive(g: CacheState, f: CacheState, gs: seq<ARM64Reg>, fs: seq<ARM64Reg>, skip: int)
    requires Inv(Gpr, g) && Inv(Fpr, f)
    requires forall r | r in gs :: Reserved(g, r) && r in Hosts(g.hs)
    requires forall r | r in fs :: Reserved(f, r) && r in Hosts(f.hs)
    ensures var skipBits := if 0 <= skip < |f.gs| && f.gs[skip].InHost() && f.gs[skip].reg != InvalidReg then {BitIndex(f.gs[skip].reg)} else {};
      SavesLive(g.gs, f.gs, CallerSavedUsed(Gpr, g.hs) - (set r | r in gs :: BitIndex(r)),
                      CallerSavedUsed(Fpr, f.hs) - (set r | r in fs :: BitIndex(r)) - skipBits, skip)
  {
    CallerSavedUsedSpec(Gpr, g);
    CallerSavedUsedSpec(Fpr, f);
    forall q, r | 0 <= q < |g.gs| && g.gs[q].InHost() && g.gs[q].reg != InvalidReg && r in gs
      ensures BitIndex(g.gs[q].reg) != BitIndex(r)
    {
      LiveNotScratch(Gpr, g, q, r);
    }
    forall q, r | 0 <= q < |f.gs| && f.gs[q].InHost() && f.gs[q].reg != InvalidReg && r in fs
      ensures BitIndex(f.gs[q].reg) != BitIndex(r)
    {
      LiveNotScratch(Fpr, f, q, r);
    }
    forall q | 0 <= q < |f.gs| && q != skip && f.gs[q].InHost() && f.gs[q].reg != InvalidReg
                 && 0 <= skip < |f.gs| && f.gs[skip].InHost() && f.gs[skip].reg != InvalidReg
      ensures BitIndex(f.gs[q].reg) != BitIndex(f.gs[skip].reg)
    {
      LiveApart(Fpr, f, q, skip);
    }
  }

  // ---------------------------------------------------------------------------
  // lfXX
  // ---------------------------------------------------------------------------

  /** What a generator leaves behind: both caches, the records in emission order,
      what it adds to js.fifoBytesThisBlock, the host register the accessed value
      is in (VD or V0), the backpatch call it makes (none on the gather-pipe path)
      and the record that puts the address into RA's host register (none without
      update). */
  datatype Outcome = Outcome(g: CacheState, f: CacheState, code: seq<Insn>, fifoAdded: nat, value: ARM64Reg,
                             call: Option<Insn>, writeBack: Option<Insn>)

  /** `part` appears in `code` as a run of consecutive records. */
  ghost predicate Within(part: seq<Insn>, code: seq<Insn>)
  {
    exists i: nat | i + |part| <= |code| :: RunAt(code, i, |part|) == part
  }

  /** The `n` records of `code` from position `i`. */
  function RunAt(code: seq<Insn>, i: nat, n: nat): seq<Insn>
  {
    if i + n <= |code| then code[i..i + n] else []
  }

  /** lfXX with Q0 taken before FD is bound: Lock(Q0), BindToRegister(FD) and
      R(FD), then Lock(W0, W30), the address into W0, RA's write-back, and the rest
      (`LoadFinish`). */
  function LoadEffect(g: CacheState, f: CacheState, inst: Inst, jo: JitOptions, ramOk: u32 -> bool): Outcome
    requires Inv(Gpr, g) && Inv(Fpr, f)
  {
    LoadFormEffect(g, f, DecodeLoad(inst.opcd, inst.subop10), inst, jo, ramOk)
  }

  /** lfXX once the opcode is decoded into `form`. */
  function LoadFormEffect(g: CacheState, f: CacheState, form: Form, inst: Inst, jo: JitOptions, ramOk: u32 -> bool): Outcome
    requires Inv(Gpr, g) && Inv(Fpr, f)
  {
    ScratchInHosts(Gpr, g);
    var ph := GprPhaseOf(g, LoadGprScratch, W(0), form.update, form.indexed, inst.ra, inst.rb, inst.simm, NeverGather);
    var t := LoadTarget(f, inst.fr, form.size == SizeF64);
    LoadFinish(form, ph, t, inst.fr, jo, ramOk)
  }

  /** The end of lfXX: MOVI2R of a folded address into X0, the backpatch call
      (fastmem with no spill sets for a folded address in fast RAM, otherwise as
      jo.fastmem says, with the caller-saved registers in use minus W0, Q0 and
      VD), and the unlocks of the scratch registers. */
  function LoadFinish(form: Form, ph: GprPhase, t: (Effect, ARM64Reg), fd: Reg5, jo: JitOptions,
                      ramOk: u32 -> bool): Outcome
    requires |t.0.s.gs| == GUEST_COUNT
  {
    var vd := t.1;
    var movi := if ph.addr.plan.Folded? then [Movi(X(0), ph.addr.plan.addr)] else [];
    var call := LoadCall(form, ph, t, fd, jo, ramOk);
    var gu := LockFrom(Gpr, ph.wb.s, LoadGprScratch, false, 0);
    var fu := LockFrom(Fpr, t.0.s, FprScratch, false, 0);
    Outcome(gu.s, fu.s, t.0.code + ph.lock.code + ph.addr.code + movi + ph.wb.code + [call] + gu.code + fu.code, 0, vd,
            Some(call), if form.update then Some(Mov(ph.ra, W(0))) else None)
  }

  /** lfXX's backpatch call loading VD from X0: only_lower is kept when FD is still a
      lower pair after R. */
  function LoadCall(form: Form, ph: GprPhase, t: (Effect, ARM64Reg), fd: Reg5, jo: JitOptions, ramOk: u32 -> bool): Insn
    requires |t.0.s.gs| == GUEST_COUNT
  {
    var vd := t.1;
    var flags := Flags(false, form.size, form.size == SizeF64 && t.0.s.gs[fd].kind == LowerPair);
    var gprs := CallerSavedUsed(Gpr, ph.wb.s.hs) - {0};
    var fprs := CallerSavedUsed(Fpr, t.0.s.hs) - {0, BitIndex(vd)};
    if ph.addr.plan.Folded? && ramOk(ph.addr.plan.addr) then Backpatch(flags, true, false, vd, X(0), {}, {})
    else Backpatch(flags, jo.fastmem, jo.fastmem, vd, X(0), gprs, fprs)
  }

  /** lfXX's records hold its backpatch call, loading into VD from X0, and the
      write-back record of an update form; it adds nothing to the gather pipe. */
  lemma LoadRecordsSpec(form: Form, ph: GprPhase, t: (Effect, ARM64Reg), fd: Reg5, jo: JitOptions,
                        ramOk: u32 -> bool)
    requires |t.0.s.gs| == GUEST_COUNT
    requires form.update ==> |ph.wb.code| >= 1 && ph.wb.code[|ph.wb.code| - 1] == Mov(ph.ra, W(0))
    ensures var o := LoadFinish(form, ph, t, fd, jo, ramOk);
      && o.fifoAdded == 0
      && o.call.Some? && o.call.value.Backpatch? && o.call.value in o.code
      && o.call.value.addr == X(0) && o.call.value.rs == t.1
      && (form.update <==> o.writeBack.Some?)
      && (form.update ==> o.writeBack.value == Mov(ph.ra, W(0)) && o.writeBack.value in o.code)
  {
    var o := LoadFinish(form, ph, t, fd, jo, ramOk);
    var movi := if ph.addr.plan.Folded? then [Movi(X(0), ph.addr.plan.addr)] else [];
    var gu := LockFrom(Gpr, ph.wb.s, LoadGprScratch, false, 0);
    var fu := LockFrom(Fpr, t.0.s, FprScratch, false, 0);
    var pre := t.0.code + ph.lock.code + ph.addr.code + movi;
    assert o.code == pre + ph.wb.code + [o.call.value] + gu.code + fu.code;
    assert o.call.value == o.code[|pre + ph.wb.code|];
    if form.update {
      assert o.writeBack.value == o.code[|pre| + |ph.wb.code| - 1];
    }
  }

  /** The spill sets of lfXX's slow-path call leave out W0, Q0 and VD and cover every
      live guest value except FD, in the caches as lfXX leaves them. */
  lemma LoadMasksSpec(form: Form, ph: GprPhase, t: (Effect, ARM64Reg), fd: Reg5, jo: JitOptions,
                      ramOk: u32 -> bool)
    requires Inv(Gpr, ph.wb.s) && Inv(Fpr, t.0.s)
    requires forall h | h in LoadGprScratch :: Reserved(ph.wb.s, h) && h in Hosts(ph.wb.s.hs)
    requires Reserved(t.0.s, Q(0)) && Q(0) in Hosts(t.0.s.hs)
    requires t.0.s.gs[fd].InHost() && t.0.s.gs[fd].reg == t.1
    ensures var o := LoadFinish(form, ph, t, fd, jo, ramOk);
      var plan := ph.addr.plan;
      var c := o.call.value;
      o.call.Some? && c.Backpatch? &&
      (!(plan.Folded? && ramOk(plan.addr)) ==>
         && 0 !in c.gprs && 0 !in c.fprs && BitIndex(c.rs) !in c.fprs
         && SavesLive(o.g.gs, o.f.gs, c.gprs, c.fprs, fd))
  {
    UnlockKeepsGuests(Gpr, ph.wb.s, LoadGprScratch);
    UnlockKeepsGuests(Fpr, t.0.s, FprScratch);
    LoadMasksSaveLive(ph.wb.s, t.0.s, fd);
  }

  /** The caller-saved registers in use minus W0, and minus Q0 and FD's register,
      cover every live guest value but FD's. */
  lemma LoadMasksSaveLive(g: CacheState, f: CacheState, fd: Reg5)
    requires Inv(Gpr, g) && Inv(Fpr, f)
    requires Reserved(g, W(0)) && W(0) in Hosts(g.hs) && Reserved(f, Q(0)) && Q(0) in Hosts(f.hs)
    requires f.gs[fd].InHost()
    ensures SavesLive(g.gs, f.gs, CallerSavedUsed(Gpr, g.hs) - {0},
                      CallerSavedUsed(Fpr, f.hs) - {0, BitIndex(f.gs[fd].reg)}, fd)
  {
    MasksSaveLive(g, f, [W(0)], FprScratch, fd);
    ScratchBits();
  }

  /** The mask bits of the scratch registers. */
  lemma ScratchBits()
    ensures (set r | r in [W(0)] :: BitIndex(r)) == {0}
    ensures (set r | r in [W(0), W(1)] :: BitIndex(r)) == {0, 1}
    ensures (set r | r in FprScratch :: BitIndex(r)) == {0}
  {
    assert W(0) in [W(0)] && W(0) in [W(0), W(1)] && W(1) in [W(0), W(1)];
    assert Q(0) in FprScratch;
  }

  /** lfXX keeps both caches consistent and releases its scratch registers,
      changing no other register's status. */
  lemma LoadEffectCaches(g: CacheState, f: CacheState, form: Form, inst: Inst, jo: JitOptions, ramOk: u32 -> bool)
    requires Inv(Gpr, g) && Inv(Fpr, f)
    ensures var o := LoadFormEffect(g, f, form, inst, jo, ramOk);
      && Inv(Gpr, o.g) && Inv(Fpr, o.f)
      && W(0) !in Locked(o.g.hs) && W(30) !in Locked(o.g.hs) && Q(0) !in Locked(o.f.hs)
      && (forall h | h !in LoadGprScratch :: Reserved(o.g, h) <==> Reserved(g, h))
      && (forall h | h != Q(0) :: Reserved(o.f, h) <==> Reserved(f, h))
  {
    ScratchInHosts(Gpr, g);
    GprReleased(g, LoadGprScratch, W(0), form.update, form.indexed, inst.ra, inst.rb, inst.simm, NeverGather);
    TargetReleased(f, inst.fr, form.size == SizeF64);
  }

  /** lfXX, with the scratch registers taken before FD is bound, leaves FD in the
      host register its backpatch call loads into, other than Q0, dirty, a lower
      pair exactly for the double-to-pair forms, which are the forms whose call
      says only the lower half is live. */
  lemma LoadEffectTarget(g: CacheState, f: CacheState, form: Form, inst: Inst, jo: JitOptions, ramOk: u32 -> bool)
    requires Inv(Gpr, g) && Inv(Fpr, f)
    ensures var o := LoadFormEffect(g, f, form, inst, jo, ramOk);
      && o.call.Some? && o.call.value.Backpatch?
      && o.call.value.flags == Flags(false, form.size, form.size == SizeF64)
      && o.f.gs[inst.fr].InHost() && o.f.gs[inst.fr].reg == o.call.value.rs && o.call.value.rs != Q(0)
      && o.f.gs[inst.fr].dirty && o.f.gs[inst.fr].kind == (if form.size == SizeF64 then LowerPair else Reg)
  {
    TargetReleased(f, inst.fr, form.size == SizeF64);
  }

  /** After the target's lock, bind and read, unlocking Q0 keeps the invariant,
      changes no guest entry and no other register's status than Q0's, and FD is
      in VD (not Q0), dirty, a lower pair exactly when only the low half was
      asked for. */
  lemma TargetReleased(f: CacheState, fd: Reg5, onlyLower: bool)
    requires Inv(Fpr, f)
    ensures var t := LoadTarget(f, fd, onlyLower);
      var u := LockFrom(Fpr, t.0.s, FprScratch, false, 0);
      && Inv(Fpr, u.s) && u.s.gs == t.0.s.gs && Q(0) !in Locked(u.s.hs)
      && (forall h | h != Q(0) :: Reserved(u.s, h) <==> Reserved(f, h))
      && t.0.s.gs[fd].kind == (if onlyLower then LowerPair else Reg)
      && t.0.s.gs[fd].reg == t.1 && t.0.s.gs[fd].dirty && t.1 != Q(0)
  {
    LoadTargetSpec(f, fd, onlyLower);
    var t := LoadTarget(f, fd, onlyLower);
    UnlockScratch(Fpr, t.0.s, FprScratch);
  }

  /** After the general-cache part, unlocking the scratch registers keeps the
      invariant, changes no guest entry, releases the scratch registers and
      leaves every other register's status as it was on entry; RA, when written
      back, is bound, dirty, to the register returned for it. */
  lemma GprReleased(g: CacheState, scratch: seq<ARM64Reg>, rd: ARM64Reg, update: bool, indexed: bool,
                    a: Reg5, b: Reg5, offset: int, gather: u32 -> bool)
    requires Inv(Gpr, g) && rd in scratch
    requires forall h | h in scratch :: h in Hosts(g.hs) && h != InvalidReg
    ensures var ph := GprPhaseOf(g, scratch, rd, update, indexed, a, b, offset, gather);
      var u := LockFrom(Gpr, ph.wb.s, scratch, false, 0);
      && Inv(Gpr, u.s) && u.s.gs == ph.wb.s.gs
      && (forall h | h in scratch :: h !in Locked(u.s.hs))
      && (forall h | h !in scratch :: Reserved(u.s, h) <==> Reserved(g, h))
      && (update ==> u.s.gs[a].kind == Reg && u.s.gs[a].reg == ph.ra && u.s.gs[a].dirty)
  {
    GprStepsCache(g, scratch, rd, update, indexed, a, b, offset, gather);
    var ph := GprPhaseOf(g, scratch, rd, update, indexed, a, b, offset, gather);
    UnlockScratch(Gpr, ph.wb.s, scratch);
  }

  /** An update form of lfXX leaves RA bound, dirty, to the register its
      write-back record moves the address into; a form without update has no
      write-back. */
  lemma LoadEffectWriteBack(g: CacheState, f: CacheState, form: Form, inst: Inst, jo: JitOptions, ramOk: u32 -> bool)
    requires Inv(Gpr, g) && Inv(Fpr, f)
    ensures var o := LoadFormEffect(g, f, form, inst, jo, ramOk);
      && (form.update ==>
            && o.writeBack == Some(Mov(o.g.gs[inst.ra].reg, W(0)))
            && o.g.gs[inst.ra].kind == Reg && o.g.gs[inst.ra].dirty)
      && (!form.update ==> o.writeBack.None?)
  {
    ScratchInHosts(Gpr, g);
    GprReleased(g, LoadGprScratch, W(0), form.update, form.indexed, inst.ra, inst.rb, inst.simm, NeverGather);
  }

  /** lfXX's records hold its backpatch call, which reads the address from X0, and
      an update form's write-back record. */
  lemma LoadEffectRecords(g: CacheState, f: CacheState, form: Form, inst: Inst, jo: JitOptions, ramOk: u32 -> bool)
    requires Inv(Gpr, g) && Inv(Fpr, f)
    ensures var o := LoadFormEffect(g, f, form, inst, jo, ramOk);
      && o.fifoAdded == 0
      && o.call.Some? && o.call.value.Backpatch? && o.call.value in o.code
      && o.call.value.addr == X(0)
      && (o.writeBack.Some? ==> o.writeBack.value in o.code)
  {
    ScratchInHosts(Gpr, g);
    GprWriteBackRecord(g, LoadGprScratch, W(0), form.update, form.indexed, inst.ra, inst.rb, inst.simm, NeverGather);
    var ph := GprPhaseOf(g, LoadGprScratch, W(0), form.update, form.indexed, inst.ra, inst.rb, inst.simm, NeverGather);
    var t := LoadTarget(f, inst.fr, form.size == SizeF64);
    LoadRecordsSpec(form, ph, t, inst.fr, jo, ramOk);
  }

  /** lfXX decides its address plan on the immediates known on entry; a folded
      address is materialised with MOVI2R and goes to the fast-RAM routine with no
      spill sets when it is in fast RAM, the other addresses to the routine
      jo.fastmem selects. */
  lemma LoadEffectRoute(g: CacheState, f: CacheState, form: Form, inst: Inst, jo: JitOptions, ramOk: u32 -> bool)
    requires Inv(Gpr, g) && Inv(Fpr, f)
    ensures var o := LoadFormEffect(g, f, form, inst, jo, ramOk);
      var plan := PlanAddress(form.update, form.indexed, inst.ra, inst.simm, ImmOf(g.gs[inst.ra]), ImmOf(g.gs[inst.rb]));
      && o.call.Some? && o.call.value.Backpatch?
      && var c := o.call.value;
      && (plan.Folded? ==> Movi(X(0), plan.addr) in o.code)
      && (plan.Folded? && ramOk(plan.addr) ==> c.fastmem && !c.doFarcode && c.gprs == {} && c.fprs == {})
      && (!(plan.Folded? && ramOk(plan.addr)) ==> c.fastmem == jo.fastmem && c.doFarcode == jo.fastmem)
  {
    ScratchInHosts(Gpr, g);
    GprPlan(g, LoadGprScratch, W(0), form.update, form.indexed, inst.ra, inst.rb, inst.simm, NeverGather);
    var ph := GprPhaseOf(g, LoadGprScratch, W(0), form.update, form.indexed, inst.ra, inst.rb, inst.simm, NeverGather);
    var t := LoadTarget(f, inst.fr, form.size == SizeF64);
    LoadRouteSpec(form, ph, t, inst.fr, jo, ramOk);
  }

  /** A folded address is materialised into X0 and goes to the fast-RAM routine
      with no spill sets when it is in fast RAM; the other addresses go to the
      routine jo.fastmem selects. */
  lemma LoadRouteSpec(form: Form, ph: GprPhase, t: (Effect, ARM64Reg), fd: Reg5, jo: JitOptions,
                      ramOk: u32 -> bool)
    requires |t.0.s.gs| == GUEST_COUNT
    ensures var o := LoadFinish(form, ph, t, fd, jo, ramOk);
      var plan := ph.addr.plan;
      && o.call.Some? && o.call.value.Backpatch?
      && var c := o.call.value;
      && (plan.Folded? ==> Movi(X(0), plan.addr) in o.code)
      && (plan.Folded? && ramOk(plan.addr) ==> c.fastmem && !c.doFarcode && c.gprs == {} && c.fprs == {})
      && (!(plan.Folded? && ramOk(plan.addr)) ==> c.fastmem == jo.fastmem && c.doFarcode == jo.fastmem)
  {
    var o := LoadFinish(form, ph, t, fd, jo, ramOk);
    if ph.addr.plan.Folded? {
      var pre := t.0.code + ph.lock.code + ph.addr.code;
      assert Movi(X(0), ph.addr.plan.addr) == o.code[|pre|];
    }
  }

  /** When lfXX's call is not the fast-RAM one, its spill sets leave out W0, Q0 and
      the register holding FD, and cover every other live guest value in the
      caches as lfXX leaves them. */
  lemma LoadEffectMasks(g: CacheState, f: CacheState, form: Form, inst: Inst, jo: JitOptions, ramOk: u32 -> bool)
    requires Inv(Gpr, g) && Inv(Fpr, f)
    ensures var o := LoadFormEffect(g, f, form, inst, jo, ramOk);
      var plan := PlanAddress(form.update, form.indexed, inst.ra, inst.simm, ImmOf(g.gs[inst.ra]), ImmOf(g.gs[inst.rb]));
      var c := o.call.value;
      o.call.Some? && c.Backpatch? &&
      (!(plan.Folded? && ramOk(plan.addr)) ==>
         && 0 !in c.gprs && 0 !in c.fprs && BitIndex(c.rs) !in c.fprs
         && SavesLive(o.g.gs, o.f.gs, c.gprs, c.fprs, inst.fr))
  {
    ScratchInHosts(Gpr, g);
    ScratchInHosts(Fpr, f);
    GprStepsCache(g, LoadGprScratch, W(0), form.update, form.indexed, inst.ra, inst.rb, inst.simm, NeverGather);
    var ph := GprPhaseOf(g, LoadGprScratch, W(0), form.update, form.indexed, inst.ra, inst.rb, inst.simm, NeverGather);
    LoadTargetSpec(f, inst.fr, form.size == SizeF64);
    var t := LoadTarget(f, inst.fr, form.size == SizeF64);
    HostsKept(Fpr, f, t.0.s, FprScratch);
    GprPlan(g, LoadGprScratch, W(0), form.update, form.indexed, inst.ra, inst.rb, inst.simm, NeverGather);
    LoadMasksSpec(form, ph, t, inst.fr, jo, ramOk);
  }

  // ---------------------------------------------------------------------------
  // stfXX
  // ---------------------------------------------------------------------------

  /** The folded addresses stfXX sends to the gather pipe: those `gatherOk`
      (IsOptimizableGatherPipeWrite) accepts, when jo.optimizeGatherPipe is set. */
  function GatherTest(jo: JitOptions, gatherOk: u32 -> bool): u32 -> bool
  {
    if jo.optimizeGatherPipe then gatherOk else NeverGather
  }

  /** stfXX as written: V0 = R(FS) first, then Lock(W0, W1, W30) and Lock(Q0), the
      address into W1, RA's write-back, then the rest (`StoreFinish`). */
  function StoreEffect(g: CacheState, f: CacheState, inst: Inst, jo: JitOptions, ramOk: u32 -> bool,
                       gatherOk: u32 -> bool, gp: GatherPipe): Outcome
    requires Inv(Gpr, g) && Inv(Fpr, f)
  {
    StoreFormEffect(g, f, DecodeStore(inst.opcd, inst.subop10), inst, jo, ramOk, gatherOk, gp)
  }

  /** stfXX once the opcode is decoded into `form`. */
  function StoreFormEffect(g: CacheState, f: CacheState, form: Form, inst: Inst, jo: JitOptions, ramOk: u32 -> bool,
                           gatherOk: u32 -> bool, gp: GatherPipe): Outcome
    requires Inv(Gpr, g) && Inv(Fpr, f)
  {
    ScratchInHosts(Gpr, g);
    var rv := FprReadEffect(f, inst.fr, false);
    var ph := GprPhaseOf(g, StoreGprScratch, W(1), form.update, form.indexed, inst.ra, inst.rb, inst.simm,
                         GatherTest(jo, gatherOk));
    var fl := LockFrom(Fpr, rv.0.s, FprScratch, true, 0);
    StoreFinish(form, rv, ph, fl, jo, ramOk, gatherOk, gp)
  }

  /** The end of stfXX.  A folded address the gather pipe accepts is stored inline
      (the gather code, then RA's write-back of the address itself) and counted in
      js.fifoBytesThisBlock.  Any other address goes to a backpatch call storing V0
      through X1: a folded one is first materialised with MOVI2R and goes to the
      fast-RAM routine with no spill sets when in fast RAM and to the slow routine
      otherwise; a computed one goes to the routine jo.fastmem selects.  The spill
      sets are the caller-saved registers in use minus W0, W1 and Q0.  Then the
      scratch registers are unlocked. */
  function StoreFinish(form: Form, rv: (Effect, ARM64Reg), ph: GprPhase, fl: Effect, jo: JitOptions,
                       ramOk: u32 -> bool, gatherOk: u32 -> bool, gp: GatherPipe): Outcome
  {
    var v0 := rv.1;
    var plan := ph.addr.plan;
    var gu := LockFrom(Gpr, ph.wb.s, StoreGprScratch, false, 0);
    var fu := LockFrom(Fpr, fl.s, FprScratch, false, 0);
    var head := rv.0.code + ph.lock.code + fl.code + ph.addr.code;
    if ToPipe(plan, GatherTest(jo, gatherOk)) then
      Outcome(gu.s, fu.s, head + GatherCode(form.size, v0, gp) + ph.wb.code + gu.code + fu.code,
              AccessBits(form.size) / 8, v0, None, if form.update then Some(Movi(ph.ra, plan.addr)) else None)
    else
      var movi := if plan.Folded? then [Movi(X(1), plan.addr)] else [];
      var call := StoreCall(form, ph, fl, v0, jo, ramOk);
      Outcome(gu.s, fu.s, head + movi + ph.wb.code + [call] + gu.code + fu.code, 0, v0,
              Some(call), if form.update then Some(Mov(ph.ra, W(1))) else None)
  }

  /** stfXX's backpatch call storing `v0` through X1. */
  function StoreCall(form: Form, ph: GprPhase, fl: Effect, v0: ARM64Reg, jo: JitOptions, ramOk: u32 -> bool): Insn
  {
    var plan := ph.addr.plan;
    var flags := Flags(true, form.size, false);
    var gprs := CallerSavedUsed(Gpr, ph.wb.s.hs) - {0, 1};
    var fprs := CallerSavedUsed(Fpr, fl.s.hs) - {0};
    if plan.Folded? && ramOk(plan.addr) then Backpatch(flags, true, false, v0, X(1), {}, {})
    else if plan.Folded? then Backpatch(flags, false, false, v0, X(1), gprs, fprs)
    else Backpatch(flags, jo.fastmem, jo.fastmem, v0, X(1), gprs, fprs)
  }

  /** On the gather-pipe path stfXX stores V0 inline, counts the access size in
      bytes in the pipe and makes no call; an update form's write-back record puts
      the folded address into RA's register. */
  lemma StorePipeRecords(form: Form, rv: (Effect, ARM64Reg), ph: GprPhase, fl: Effect, jo: JitOptions,
                         ramOk: u32 -> bool, gatherOk: u32 -> bool, gp: GatherPipe)
    ensures var o := StoreFinish(form, rv, ph, fl, jo, ramOk, gatherOk, gp);
      ToPipe(ph.addr.plan, GatherTest(jo, gatherOk)) ==>
        && o.value == rv.1 && o.call.None? && o.fifoAdded == AccessBits(form.size) / 8
        && Within(GatherCode(form.size, o.value, gp), o.code)
  {
    if !ToPipe(ph.addr.plan, GatherTest(jo, gatherOk)) {
      return;
    }
    var o := StoreFinish(form, rv, ph, fl, jo, ramOk, gatherOk, gp);
    var gu := LockFrom(Gpr, ph.wb.s, StoreGprScratch, false, 0);
    var fu := LockFrom(Fpr, fl.s, FprScratch, false, 0);
    var head := rv.0.code + ph.lock.code + fl.code + ph.addr.code;
    var gc := GatherCode(form.size, o.value, gp);
    var tail := ph.wb.code + gu.code + fu.code;
    assert o.code == head + gc + tail;
    WithinMiddle(head, gc, tail);
  }

  /** On the gather-pipe path an update form's write-back record, which puts the
      folded address into RA's register, is among stfXX's records. */
  lemma StorePipeWriteBack(form: Form, rv: (Effect, ARM64Reg), ph: GprPhase, fl: Effect, jo: JitOptions,
                           ramOk: u32 -> bool, gatherOk: u32 -> bool, gp: GatherPipe)
    requires form.update ==>
      |ph.wb.code| >= 1 && ph.wb.code[|ph.wb.code| - 1] ==
        (if ToPipe(ph.addr.plan, GatherTest(jo, gatherOk)) then Movi(ph.ra, ph.addr.plan.addr) else Mov(ph.ra, W(1)))
    ensures var o := StoreFinish(form, rv, ph, fl, jo, ramOk, gatherOk, gp);
      ToPipe(ph.addr.plan, GatherTest(jo, gatherOk)) ==>
        && (form.update <==> o.writeBack.Some?)
        && (form.update ==> o.writeBack.value == Movi(ph.ra, ph.addr.plan.addr) && o.writeBack.value in o.code)
  {
    if !ToPipe(ph.addr.plan, GatherTest(jo, gatherOk)) {
      return;
    }
    var o := StoreFinish(form, rv, ph, fl, jo, ramOk, gatherOk, gp);
    var gu := LockFrom(Gpr, ph.wb.s, StoreGprScratch, false, 0);
    var fu := LockFrom(Fpr, fl.s, FprScratch, false, 0);
    var head := rv.0.code + ph.lock.code + fl.code + ph.addr.code + GatherCode(form.size, o.value, gp);
    assert o.code == head + ph.wb.code + (gu.code + fu.code);
    if form.update {
      LastIn(head, ph.wb.code, gu.code + fu.code);
    }
  }

  /** The last record of a non-empty middle run is among the records. */
  lemma LastIn(a: seq<Insn>, w: seq<Insn>, b: seq<Insn>)
    requires |w| >= 1
    ensures w[|w| - 1] in a + w + b
  {
    assert (a + w + b)[|a| + |w| - 1] == w[|w| - 1];
  }

  /** A run between two others is within their concatenation. */
  lemma WithinMiddle(a: seq<Insn>, part: seq<Insn>, b: seq<Insn>)
    ensures Within(part, a + part + b)
  {
    assert RunAt(a + part + b, |a|, |part|) == part;
  }

  /** Off the gather-pipe path stfXX makes a store call of V0 through X1 and counts
      nothing in the pipe; an update form's write-back record moves the address
      from W1 into RA's register. */
  lemma StoreCallRecords(form: Form, rv: (Effect, ARM64Reg), ph: GprPhase, fl: Effect, jo: JitOptions,
                         ramOk: u32 -> bool, gatherOk: u32 -> bool, gp: GatherPipe)
    requires form.update ==>
      |ph.wb.code| >= 1 && ph.wb.code[|ph.wb.code| - 1] ==
        (if ToPipe(ph.addr.plan, GatherTest(jo, gatherOk)) then Movi(ph.ra, ph.addr.plan.addr) else Mov(ph.ra, W(1)))
    ensures var o := StoreFinish(form, rv, ph, fl, jo, ramOk, gatherOk, gp);
      !ToPipe(ph.addr.plan, GatherTest(jo, gatherOk)) ==>
        && o.value == rv.1 && o.fifoAdded == 0
        && o.call.Some? && o.call.value.Backpatch? && o.call.value in o.code
        && o.call.value.flags == Flags(true, form.size, false)
        && o.call.value.rs == o.value && o.call.value.addr == X(1)
        && (form.update <==> o.writeBack.Some?)
        && (form.update ==> o.writeBack.value == Mov(ph.ra, W(1)) && o.writeBack.value in o.code)
  {
    if ToPipe(ph.addr.plan, GatherTest(jo, gatherOk)) {
      return;
    }
    var o := StoreFinish(form, rv, ph, fl, jo, ramOk, gatherOk, gp);
    var plan := ph.addr.plan;
    var gu := LockFrom(Gpr, ph.wb.s, StoreGprScratch, false, 0);
    var fu := LockFrom(Fpr, fl.s, FprScratch, false, 0);
    var movi := if plan.Folded? then [Movi(X(1), plan.addr)] else [];
    var pre := rv.0.code + ph.lock.code + fl.code + ph.addr.code + movi;
    assert o.code == pre + ph.wb.code + [o.call.value] + gu.code + fu.code;
    assert o.call.value == o.code[|pre + ph.wb.code|];
    if form.update {
      assert o.writeBack.value == o.code[|pre| + |ph.wb.code| - 1];
    }
  }

  /** Outside the gather pipe, a folded address is materialised into X1 and goes to
      the fast-RAM routine with no spill sets when in fast RAM and to the slow
      routine otherwise; a computed address goes to the routine jo.fastmem
      selects. */
  lemma StoreRouteSpec(form: Form, rv: (Effect, ARM64Reg), ph: GprPhase, fl: Effect, jo: JitOptions,
                       ramOk: u32 -> bool, gatherOk: u32 -> bool, gp: GatherPipe)
    ensures var o := StoreFinish(form, rv, ph, fl, jo, ramOk, gatherOk, gp);
      var plan := ph.addr.plan;
      !ToPipe(plan, GatherTest(jo, gatherOk)) ==>
        && o.call.Some? && o.call.value.Backpatch?
        && var c := o.call.value;
        && (plan.Folded? ==> Movi(X(1), plan.addr) in o.code)
        && (plan.Folded? && ramOk(plan.addr) ==> c.fastmem && !c.doFarcode && c.gprs == {} && c.fprs == {})
        && (plan.Folded? && !ramOk(plan.addr) ==> !c.fastmem && !c.doFarcode)
        && (!plan.Folded? ==> c.fastmem == jo.fastmem && c.doFarcode == jo.fastmem)
  {
    var o := StoreFinish(form, rv, ph, fl, jo, ramOk, gatherOk, gp);
    if !ToPipe(ph.addr.plan, GatherTest(jo, gatherOk)) && ph.addr.plan.Folded? {
      var head := rv.0.code + ph.lock.code + fl.code + ph.addr.code;
      assert Movi(X(1), ph.addr.plan.addr) == o.code[|head|];
    }
  }

  /** The spill sets of stfXX's slow-path calls leave out W0, W1 and Q0 and cover
      every live guest value in the caches as stfXX leaves them. */
  lemma StoreMasksSpec(form: Form, rv: (Effect, ARM64Reg), ph: GprPhase, fl: Effect, jo: JitOptions,
                       ramOk: u32 -> bool, gatherOk: u32 -> bool, gp: GatherPipe)
    requires Inv(Gpr, ph.wb.s) && Inv(Fpr, fl.s)
    requires forall h | h in StoreGprScratch :: Reserved(ph.wb.s, h) && h in Hosts(ph.wb.s.hs)
    requires Reserved(fl.s, Q(0)) && Q(0) in Hosts(fl.s.hs)
    ensures var o := StoreFinish(form, rv, ph, fl, jo, ramOk, gatherOk, gp);
      var plan := ph.addr.plan;
      !ToPipe(plan, GatherTest(jo, gatherOk)) && !(plan.Folded? && ramOk(plan.addr)) ==>
        && o.call.Some? && o.call.value.Backpatch?
        && var c := o.call.value;
        && 0 !in c.gprs && 1 !in c.gprs && 0 !in c.fprs
        && SavesLive(o.g.gs, o.f.gs, c.gprs, c.fprs, -1)
  {
    UnlockKeepsGuests(Gpr, ph.wb.s, StoreGprScratch);
    UnlockKeepsGuests(Fpr, fl.s, FprScratch);
    StoreMasksSaveLive(ph.wb.s, fl.s);
  }

  /** The caller-saved registers in use minus W0 and W1, and minus Q0, cover every
      live guest value. */
  lemma StoreMasksSaveLive(g: CacheState, f: CacheState)
    requires Inv(Gpr, g) && Inv(Fpr, f)
    requires forall h | h in StoreGprScratch :: Reserved(g, h) && h in Hosts(g.hs)
    requires Reserved(f, Q(0)) && Q(0) in Hosts(f.hs)
    ensures SavesLive(g.gs, f.gs, CallerSavedUsed(Gpr, g.hs) - {0, 1}, CallerSavedUsed(Fpr, f.hs) - {0}, -1)
  {
    assert W(0) in StoreGprScratch && W(1) in StoreGprScratch;
    MasksSaveLive(g, f, [W(0), W(1)], FprScratch, -1);
    ScratchBits();
  }

  /** stfXX's floating-cache steps: V0 = R(FS), Lock(Q0), and at the end Unlock(Q0).
      The unlock changes no guest entry and leaves the invariant and every other
      register's status as on entry. */
  lemma SourceReleased(f: CacheState, fs: Reg5)
    requires Inv(Fpr, f)
    ensures var rv := FprReadEffect(f, fs, false);
      var fl := LockFrom(Fpr, rv.0.s, FprScratch, true, 0);
      var fu := LockFrom(Fpr, fl.s, FprScratch, false, 0);
      && Inv(Fpr, fu.s) && fu.s.gs == fl.s.gs && Q(0) !in Locked(fu.s.hs)
      && (forall h | h != Q(0) :: Reserved(fu.s, h) <==> Reserved(f, h))
  {
    SourceLocked(f, fs);
    var rv := FprReadEffect(f, fs, false);
    var fl := LockFrom(Fpr, rv.0.s, FprScratch, true, 0);
    UnlockScratch(Fpr, fl.s, FprScratch);
  }

  /** After V0 = R(FS) and Lock(Q0), Q0 is a scratch register and no other
      register's status has changed.  FS stays in V0, unless V0 is Q0, which the
      lock flushes it out of. */
  lemma SourceLocked(f: CacheState, fs: Reg5)
    requires Inv(Fpr, f)
    ensures var rv := FprReadEffect(f, fs, false);
      var fl := LockFrom(Fpr, rv.0.s, FprScratch, true, 0);
      && Inv(Fpr, fl.s) && Reserved(fl.s, Q(0)) && Q(0) in Hosts(fl.s.hs)
      && (forall h | h != Q(0) :: Reserved(fl.s, h) <==> Reserved(f, h))
      && (rv.1 != Q(0) ==> fl.s.gs[fs].kind == Reg && fl.s.gs[fs].reg == rv.1)
      && (rv.1 == Q(0) ==> !fl.s.gs[fs].InHost())
  {
    ReadHolds(f, fs);
    var rv := FprReadEffect(f, fs, false);
    LockScratchFpr(rv.0.s);
    ScratchInHosts(Fpr, rv.0.s);
    LockSpec(Fpr, rv.0.s, FprScratch, true, 0);
    var fl := LockFrom(Fpr, rv.0.s, FprScratch, true, 0);
    assert FlushedFor(Fpr, fs, rv.0.s.gs[fs], fl.s.gs[fs], [Q(0)], StateStores(fl.code));
    BoundHas(fl.s.gs, fs);
  }

  /** R(FS) with the full register wanted leaves FS held whole in the register it
      returns, and keeps the invariant and every register's status. */
  lemma ReadHolds(f: CacheState, fs: Reg5)
    requires Inv(Fpr, f)
    ensures var rv := FprReadEffect(f, fs, false);
      && Inv(Fpr, rv.0.s) && (forall h :: Reserved(rv.0.s, h) <==> Reserved(f, h))
      && rv.0.s.gs[fs].kind == Reg && rv.0.s.gs[fs].reg == rv.1
  {
    FprReadSpec(f, fs, false);
  }

  /** stfXX keeps both caches consistent and releases its scratch registers,
      changing no other register's status. */
  lemma StoreEffectCaches(g: CacheState, f: CacheState, form: Form, inst: Inst, jo: JitOptions, ramOk: u32 -> bool,
                          gatherOk: u32 -> bool, gp: GatherPipe)
    requires Inv(Gpr, g) && Inv(Fpr, f)
    ensures var o := StoreFormEffect(g, f, form, inst, jo, ramOk, gatherOk, gp);
      && Inv(Gpr, o.g) && Inv(Fpr, o.f)
      && W(0) !in Locked(o.g.hs) && W(1) !in Locked(o.g.hs) && W(30) !in Locked(o.g.hs) && Q(0) !in Locked(o.f.hs)
      && (forall h | h !in StoreGprScratch :: Reserved(o.g, h) <==> Reserved(g, h))
      && (forall h | h != Q(0) :: Reserved(o.f, h) <==> Reserved(f, h))
  {
    ScratchInHosts(Gpr, g);
    GprReleased(g, StoreGprScratch, W(1), form.update, form.indexed, inst.ra, inst.rb, inst.simm,
                GatherTest(jo, gatherOk));
    SourceReleased(f, inst.fr);
    StoreFinishCaches(g, f, form, inst, jo, ramOk, gatherOk, gp);
  }

  /** stfXX's caches are the unlocks of its scratch registers after the general
      steps and after R(FS) and Lock(Q0); the accessed value is V0. */
  lemma StoreFinishCaches(g: CacheState, f: CacheState, form: Form, inst: Inst, jo: JitOptions, ramOk: u32 -> bool,
                          gatherOk: u32 -> bool, gp: GatherPipe)
    requires Inv(Gpr, g) && Inv(Fpr, f)
    requires forall h | h in StoreGprScratch :: h in Hosts(g.hs)
    ensures var o := StoreFormEffect(g, f, form, inst, jo, ramOk, gatherOk, gp);
      var ph := GprPhaseOf(g, StoreGprScratch, W(1), form.update, form.indexed, inst.ra, inst.rb, inst.simm,
                           GatherTest(jo, gatherOk));
      var rv := FprReadEffect(f, inst.fr, false);
      var fl := LockFrom(Fpr, rv.0.s, FprScratch, true, 0);
      && o.g == LockFrom(Gpr, ph.wb.s, StoreGprScratch, false, 0).s
      && o.f == LockFrom(Fpr, fl.s, FprScratch, false, 0).s
      && o.value == rv.1
  {
    ScratchInHosts(Gpr, g);
  }

  /** The value stfXX stores is FS's: after it FS is held whole in V0, the register
      the access reads, unless V0 was Q0, which Lock(Q0) flushed FS out of. */
  lemma StoreEffectSource(g: CacheState, f: CacheState, form: Form, inst: Inst, jo: JitOptions, ramOk: u32 -> bool,
                          gatherOk: u32 -> bool, gp: GatherPipe)
    requires Inv(Gpr, g) && Inv(Fpr, f)
    ensures var o := StoreFormEffect(g, f, form, inst, jo, ramOk, gatherOk, gp);
      && Inv(Fpr, o.f)
      && (o.value != Q(0) ==> o.f.gs[inst.fr].kind == Reg && o.f.gs[inst.fr].reg == o.value)
      && (o.value == Q(0) ==> !o.f.gs[inst.fr].InHost())
  {
    ScratchInHosts(Gpr, g);
    SourceLocked(f, inst.fr);
    SourceReleased(f, inst.fr);
    StoreFinishCaches(g, f, form, inst, jo, ramOk, gatherOk, gp);
  }

  /** An update form of stfXX leaves RA bound, dirty, to the register its
      write-back record writes: the folded address itself on the gather-pipe path,
      the address in W1 otherwise.  A form without update has no write-back. */
  lemma StoreEffectWriteBack(g: CacheState, f: CacheState, form: Form, inst: Inst, jo: JitOptions, ramOk: u32 -> bool,
                             gatherOk: u32 -> bool, gp: GatherPipe)
    requires Inv(Gpr, g) && Inv(Fpr, f)
    ensures var o := StoreFormEffect(g, f, form, inst, jo, ramOk, gatherOk, gp);
      var plan := PlanAddress(form.update, form.indexed, inst.ra, inst.simm, ImmOf(g.gs[inst.ra]), ImmOf(g.gs[inst.rb]));
      && Inv(Gpr, o.g)
      && var ra := o.g.gs[inst.ra].reg;
      && (form.update ==>
            && o.writeBack == Some(if ToPipe(plan, GatherTest(jo, gatherOk)) then Movi(ra, plan.addr) else Mov(ra, W(1)))
            && o.g.gs[inst.ra].kind == Reg && o.g.gs[inst.ra].dirty)
      && (!form.update ==> o.writeBack.None?)
  {
    ScratchInHosts(Gpr, g);
    GprReleased(g, StoreGprScratch, W(1), form.update, form.indexed, inst.ra, inst.rb, inst.simm,
                GatherTest(jo, gatherOk));
    GprPlan(g, StoreGprScratch, W(1), form.update, form.indexed, inst.ra, inst.rb, inst.simm, GatherTest(jo, gatherOk));
    StoreFinishCaches(g, f, form, inst, jo, ramOk, gatherOk, gp);
  }

  /** A folded address the gather pipe takes (jo.optimizeGatherPipe and
      IsOptimizableGatherPipeWrite) is stored inline: the gather code storing the
      accessed value is among the records, the access size in bytes is added to
      js.fifoBytesThisBlock, no call is made, and an update form's write-back record
      is among the records. */
  lemma StoreEffectPipe(g: CacheState, f: CacheState, form: Form, inst: Inst, jo: JitOptions, ramOk: u32 -> bool,
                        gatherOk: u32 -> bool, gp: GatherPipe)
    requires Inv(Gpr, g) && Inv(Fpr, f)
    ensures var o := StoreFormEffect(g, f, form, inst, jo, ramOk, gatherOk, gp);
      var plan := PlanAddress(form.update, form.indexed, inst.ra, inst.simm, ImmOf(g.gs[inst.ra]), ImmOf(g.gs[inst.rb]));
      ToPipe(plan, GatherTest(jo, gatherOk)) ==>
        && o.call.None? && o.fifoAdded == AccessBits(form.size) / 8
        && Within(GatherCode(form.size, o.value, gp), o.code)
        && (o.writeBack.Some? ==> o.writeBack.value in o.code)
  {
    ScratchInHosts(Gpr, g);
    var gather := GatherTest(jo, gatherOk);
    GprPlan(g, StoreGprScratch, W(1), form.update, form.indexed, inst.ra, inst.rb, inst.simm, gather);
    var ph := GprPhaseOf(g, StoreGprScratch, W(1), form.update, form.indexed, inst.ra, inst.rb, inst.simm, gather);
    GprWriteBackRecord(g, StoreGprScratch, W(1), form.update, form.indexed, inst.ra, inst.rb, inst.simm, gather);
    var rv := FprReadEffect(f, inst.fr, false);
    var fl := LockFrom(Fpr, rv.0.s, FprScratch, true, 0);
    StorePipeRecords(form, rv, ph, fl, jo, ramOk, gatherOk, gp);
    StorePipeWriteBack(form, rv, ph, fl, jo, ramOk, gatherOk, gp);
  }

  /** Every other store makes a backpatch call storing the accessed value through
      X1, with the store flags of its size, and adds nothing to
      js.fifoBytesThisBlock; an update form's write-back record is among the
      records. */
  lemma StoreEffectCall(g: CacheState, f: CacheState, form: Form, inst: Inst, jo: JitOptions, ramOk: u32 -> bool,
                        gatherOk: u32 -> bool, gp: GatherPipe)
    requires Inv(Gpr, g) && Inv(Fpr, f)
    ensures var o := StoreFormEffect(g, f, form, inst, jo, ramOk, gatherOk, gp);
      var plan := PlanAddress(form.update, form.indexed, inst.ra, inst.simm, ImmOf(g.gs[inst.ra]), ImmOf(g.gs[inst.rb]));
      !ToPipe(plan, GatherTest(jo, gatherOk)) ==>
        && o.fifoAdded == 0 && o.call.Some? && o.call.value.Backpatch? && o.call.value in o.code
        && o.call.value.flags == Flags(true, form.size, false)
        && o.call.value.rs == o.value && o.call.value.addr == X(1)
        && (o.writeBack.Some? ==> o.writeBack.value in o.code)
  {
    ScratchInHosts(Gpr, g);
    var gather := GatherTest(jo, gatherOk);
    GprPlan(g, StoreGprScratch, W(1), form.update, form.indexed, inst.ra, inst.rb, inst.simm, gather);
    var ph := GprPhaseOf(g, StoreGprScratch, W(1), form.update, form.indexed, inst.ra, inst.rb, inst.simm, gather);
    GprWriteBackRecord(g, StoreGprScratch, W(1), form.update, form.indexed, inst.ra, inst.rb, inst.simm, gather);
    var rv := FprReadEffect(f, inst.fr, false);
    var fl := LockFrom(Fpr, rv.0.s, FprScratch, true, 0);
    StoreCallRecords(form, rv, ph, fl, jo, ramOk, gatherOk, gp);
  }

  /** Off the gather pipe, stfXX decides its route on the immediates known on entry:
      a folded address is materialised into X1 with MOVI2R and goes to the fast-RAM
      routine with no spill sets when in fast RAM, to the slow routine otherwise;
      a computed address goes to the routine jo.fastmem selects. */
  lemma StoreEffectRoute(g: CacheState, f: CacheState, form: Form, inst: Inst, jo: JitOptions, ramOk: u32 -> bool,
                         gatherOk: u32 -> bool, gp: GatherPipe)
    requires Inv(Gpr, g) && Inv(Fpr, f)
    ensures var o := StoreFormEffect(g, f, form, inst, jo, ramOk, gatherOk, gp);
      var plan := PlanAddress(form.update, form.indexed, inst.ra, inst.simm, ImmOf(g.gs[inst.ra]), ImmOf(g.gs[inst.rb]));
      !ToPipe(plan, GatherTest(jo, gatherOk)) ==>
        && o.call.Some? && o.call.value.Backpatch?
        && var c := o.call.value;
        && (plan.Folded? ==> Movi(X(1), plan.addr) in o.code)
        && (plan.Folded? && ramOk(plan.addr) ==> c.fastmem && !c.doFarcode && c.gprs == {} && c.fprs == {})
        && (plan.Folded? && !ramOk(plan.addr) ==> !c.fastmem && !c.doFarcode)
        && (!plan.Folded? ==> c.fastmem == jo.fastmem && c.doFarcode == jo.fastmem)
  {
    ScratchInHosts(Gpr, g);
    var gather := GatherTest(jo, gatherOk);
    GprPlan(g, StoreGprScratch, W(1), form.update, form.indexed, inst.ra, inst.rb, inst.simm, gather);
    var ph := GprPhaseOf(g, StoreGprScratch, W(1), form.update, form.indexed, inst.ra, inst.rb, inst.simm, gather);
    var rv := FprReadEffect(f, inst.fr, false);
    var fl := LockFrom(Fpr, rv.0.s, FprScratch, true, 0);
    StoreRouteSpec(form, rv, ph, fl, jo, ramOk, gatherOk, gp);
  }

  /** When stfXX's call is a slow-path one, its spill sets leave out W0, W1 and Q0
      and cover every live guest value in the caches as stfXX leaves them. */
  lemma StoreEffectMasks(g: CacheState, f: CacheState, form: Form, inst: Inst, jo: JitOptions, ramOk: u32 -> bool,
                         gatherOk: u32 -> bool, gp: GatherPipe)
    requires Inv(Gpr, g) && Inv(Fpr, f)
    ensures var o := StoreFormEffect(g, f, form, inst, jo, ramOk, gatherOk, gp);
      var plan := PlanAddress(form.update, form.indexed, inst.ra, inst.simm, ImmOf(g.gs[inst.ra]), ImmOf(g.gs[inst.rb]));
      !ToPipe(plan, GatherTest(jo, gatherOk)) && !(plan.Folded? && ramOk(plan.addr)) ==>
        && o.call.Some? && o.call.value.Backpatch?
        && var c := o.call.value;
        && 0 !in c.gprs && 1 !in c.gprs && 0 !in c.fprs
        && SavesLive(o.g.gs, o.f.gs, c.gprs, c.fprs, -1)
  {
    ScratchInHosts(Gpr, g);
    var gather := GatherTest(jo, gatherOk);
    GprStepsCache(g, StoreGprScratch, W(1), form.update, form.indexed, inst.ra, inst.rb, inst.simm, gather);
    GprPlan(g, StoreGprScratch, W(1), form.update, form.indexed, inst.ra, inst.rb, inst.simm, gather);
    var ph := GprPhaseOf(g, StoreGprScratch, W(1), form.update, form.indexed, inst.ra, inst.rb, inst.simm, gather);
    SourceLocked(f, inst.fr);
    var rv := FprReadEffect(f, inst.fr, false);
    var fl := LockFrom(Fpr, rv.0.s, FprScratch, true, 0);
    StoreMasksSpec(form, rv, ph, fl, jo, ramOk, gatherOk, gp);
  }
}
