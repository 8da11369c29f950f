/** The parts of the JitArm64 class that the load/store generators lean on: the key
    that slow-memory handlers are shared under and its ordering, the records of the
    two handler maps, the switch between the near and the far code region, and the
    layout limits the JIT asserts about the guest state block. */
module Jit {
  import opened Wrappers
  import opened BackPatchInfo
  import opened Arm64
  import opened RegCacheState
  import opened RegCache
  import opened LoadStoreFloating
  import opened LoadStoreSteps

  // ---------------------------------------------------------------------------
  // SlowmemHandler and its ordering
  // ---------------------------------------------------------------------------

  /** The key of m_handler_to_loc.  Registers are kept as their enumeration values
      and the two register sets as their 32-bit masks, which is how operator<
      compares them. */
  datatype SlowmemHandler = SlowmemHandler(destReg: nat, addrReg: nat, gprs: u32, fprs: u32, flags: u32)

  /** SlowmemHandler::operator<: a chain of comparisons, field by field. */
  predicate Less(a: SlowmemHandler, b: SlowmemHandler)
  {
    if a.destReg < b.destReg then true
    else if a.destReg > b.destReg then false
    else if a.addrReg < b.addrReg then true
    else if a.addrReg > b.addrReg then false
    else if a.gprs < b.gprs then true
    else if a.gprs > b.gprs then false
    else if a.fprs < b.fprs then true
    else if a.fprs > b.fprs then false
    else if a.flags < b.flags then true
    else if a.flags > b.flags then false
    else false
  }

  /** The five compared fields, in the order they are compared. */
  function Fields(h: SlowmemHandler): (k: seq<int>)
    ensures |k| == 5
  {
    [h.destReg, h.addrReg, h.gprs, h.fprs, h.flags]
  }

  /** The reference order: lexicographic comparison of two integer sequences of the
      same length. */
  predicate LexLess(x: seq<int>, y: seq<int>)
    requires |x| == |y|
    decreases |x|
  {
    |x| > 0 && (x[0] < y[0] || (x[0] == y[0] && LexLess(x[1..], y[1..])))
  }

  lemma {:induction false} LexIrreflexive(x: seq<int>)
    ensures !LexLess(x, x)
    decreases |x|
  {
    if |x| > 0 {
      LexIrreflexive(x[1..]);
    }
  }

  lemma {:induction false} LexTransitive(x: seq<int>, y: seq<int>, z: seq<int>)
    requires |x| == |y| == |z|
    requires LexLess(x, y) && LexLess(y, z)
    ensures LexLess(x, z)
    decreases |x|
  {
    if x[0] == y[0] && y[0] == z[0] {
      LexTransitive(x[1..], y[1..], z[1..]);
    }
  }

  lemma {:induction false} LexTrichotomy(x: seq<int>, y: seq<int>)
    requires |x| == |y|
    ensures x == y || LexLess(x, y) || LexLess(y, x)
    decreases |x|
  {
    if |x| > 0 && x[0] == y[0] {
      LexTrichotomy(x[1..], y[1..]);
      if x[1..] == y[1..] {
        assert x == [x[0]] + x[1..] && y == [y[0]] + y[1..];
      }
    }
  }

  lemma {:induction false} LexAsymmetric(x: seq<int>, y: seq<int>)
    requires |x| == |y| && LexLess(x, y)
    ensures !LexLess(y, x)
    decreases |x|
  {
    if x[0] == y[0] {
      LexAsymmetric(x[1..], y[1..]);
    }
  }

  /** operator< is the lexicographic order on (dest_reg, addr_reg, gprs, fprs, flags). */
  lemma LessIsLexicographic(a: SlowmemHandler, b: SlowmemHandler)
    ensures Less(a, b) <==> LexLess(Fields(a), Fields(b))
  {
    var x, y := Fields(a), Fields(b);
    assert x[1..] == [a.addrReg, a.gprs, a.fprs, a.flags] && y[1..] == [b.addrReg, b.gprs, b.fprs, b.flags];
    assert x[2..] == [a.gprs, a.fprs, a.flags] && y[2..] == [b.gprs, b.fprs, b.flags];
    assert x[3..] == [a.fprs, a.flags] && y[3..] == [b.fprs, b.flags];
    assert x[4..] == [a.flags] && y[4..] == [b.flags];
    assert x[1..][1..] == x[2..] && x[2..][1..] == x[3..] && x[3..][1..] == x[4..] && x[4..][1..] == [];
    assert y[1..][1..] == y[2..] && y[2..][1..] == y[3..] && y[3..][1..] == y[4..] && y[4..][1..] == [];
    assert LexLess(x[4..], y[4..]) <==> a.flags < b.flags;
    assert LexLess(x[3..], y[3..]) <==> a.fprs < b.fprs || (a.fprs == b.fprs && LexLess(x[4..], y[4..]));
    assert LexLess(x[2..], y[2..]) <==> a.gprs < b.gprs || (a.gprs == b.gprs && LexLess(x[3..], y[3..]));
    assert LexLess(x[1..], y[1..]) <==> a.addrReg < b.addrReg || (a.addrReg == b.addrReg && LexLess(x[2..], y[2..]));
    assert LexLess(x, y) <==> a.destReg < b.destReg || (a.destReg == b.destReg && LexLess(x[1..], y[1..]));
  }

  lemma FieldsInjective(a: SlowmemHandler, b: SlowmemHandler)
    requires Fields(a) == Fields(b)
    ensures a == b
  {
    assert Fields(a)[0] == Fields(b)[0] && Fields(a)[1] == Fields(b)[1] && Fields(a)[2] == Fields(b)[2];
    assert Fields(a)[3] == Fields(b)[3] && Fields(a)[4] == Fields(b)[4];
  }

  /** operator< is a strict order: irreflexive and transitive. */
  lemma LessStrict(a: SlowmemHandler, b: SlowmemHandler, c: SlowmemHandler)
    ensures !Less(a, a)
    ensures Less(a, b) && Less(b, c) ==> Less(a, c)
    ensures Less(a, b) ==> !Less(b, a)
  {
    LessIsLexicographic(a, a);
    LexIrreflexive(Fields(a));
    LessIsLexicographic(a, b);
    LessIsLexicographic(b, c);
    LessIsLexicographic(a, c);
    LessIsLexicographic(b, a);
    if Less(a, b) && Less(b, c) {
      LexTransitive(Fields(a), Fields(b), Fields(c));
    }
    if Less(a, b) {
      LexAsymmetric(Fields(a), Fields(b));
    }
  }

  /** ... and total: two keys are equivalent for the map (neither is less than the
      other) exactly when all five fields agree.  So m_handler_to_loc holds one entry
      per distinct key, and a map keyed by equality models it. */
  lemma EquivalentIsEqual(a: SlowmemHandler, b: SlowmemHandler)
    ensures (!Less(a, b) && !Less(b, a)) <==> a == b
  {
    LessIsLexicographic(a, b);
    LessIsLexicographic(b, a);
    LexTrichotomy(Fields(a), Fields(b));
    if Fields(a) == Fields(b) {
      FieldsInjective(a, b);
    }
    if a == b {
      LexIrreflexive(Fields(a));
    }
  }

  /** What m_fault_to_handler records for a fastmem access: the length of the
      patchable sequence and where its slow-memory code is. */
  datatype FastmemArea = FastmemArea(length: u32, slowmemCode: nat)

  // ---------------------------------------------------------------------------
  // Reach of the guest state block
  // ---------------------------------------------------------------------------

  /** Byte offsets of the guest state fields the asserts name: spr[0], ps[0][0],
      xer_ca and xer_so_ov.  spr holds 32-bit entries and ps pairs of 64-bit ones. */
  datatype StateLayout = StateLayout(spr0: nat, ps00: nat, xerCa: nat, xerSoOv: nat)

  function SprOffset(l: StateLayout, i: nat): nat
  {
    l.spr0 + 4 * i
  }

  function PsOffset(l: StateLayout, i: nat, half: nat): nat
  {
    l.ps00 + 16 * i + 8 * half
  }

  /** The four static_asserts on the layout. */
  predicate LayoutAsserts(l: StateLayout)
  {
    && SprOffset(l, 1023) <= 16380
    && PsOffset(l, 0, 0) % 8 == 0
    && l.xerCa < 4096
    && l.xerSoOv < 4096
  }

  /** Whether an LDR/STR of `bytes` bytes with an unsigned immediate offset from X29
      can encode `off`: the 12-bit immediate is the offset divided by the access size. */
  predicate Reachable(bytes: nat, off: nat)
    requires bytes > 0
  {
    off % bytes == 0 && off / bytes < 4096
  }

  /** What the asserts buy: with spr 4-byte aligned, a 32-bit LDR reaches every SPR
      exactly when it reaches the last one, which is the first assert; every paired
      single is 8-byte aligned; STRB reaches xer_ca and xer_so_ov. */
  lemma {:induction false} LayoutReach(l: StateLayout)
    requires l.spr0 % 4 == 0
    ensures LayoutAsserts(l) ==> forall i | 0 <= i < 1024 :: Reachable(4, SprOffset(l, i))
    ensures Reachable(4, SprOffset(l, 1023)) <==> SprOffset(l, 1023) <= 16380
    ensures LayoutAsserts(l) ==> forall i, h | 0 <= i < 32 && 0 <= h < 2 :: PsOffset(l, i, h) % 8 == 0
    ensures LayoutAsserts(l) ==> Reachable(1, l.xerCa) && Reachable(1, l.xerSoOv)
  {
    var k := l.spr0 / 4;
    assert l.spr0 == 4 * k;
    forall i | 0 <= i < 1024
      ensures SprOffset(l, i) == 4 * (k + i) && SprOffset(l, i) % 4 == 0 && SprOffset(l, i) / 4 == k + i
    {
    }
    if LayoutAsserts(l) {
      forall i, h | 0 <= i < 32 && 0 <= h < 2 ensures PsOffset(l, i, h) % 8 == 0 {
        assert PsOffset(l, i, h) == l.ps00 + 8 * (2 * i + h);
      }
    }
  }

  // ---------------------------------------------------------------------------
  // The JIT object
  // ---------------------------------------------------------------------------

  /** JitArm64, reduced to what the floating load/store generators use.  The JIT is
      itself the near code block (`code`); both register caches emit into it. */
  class JitArm64 {
    const code: CodeBlock
    const farcode: CodeBlock
    /** Where near emission resumes, saved by SwitchToFarCode. */
    var nearcode: nat
    const gpr: RegCache
    const fpr: RegCache
    const jo: JitOptions
    /** js.fifoBytesThisBlock */
    var fifoBytesThisBlock: int
    var faultToHandler: map<nat, FastmemArea>
    var handlerToLoc: map<SlowmemHandler, nat>

    ghost predicate Valid()
      reads this, gpr, fpr, gpr.guest, fpr.guest
    {
      && gpr.bank == Gpr && fpr.bank == Fpr
      && gpr.emit == code && fpr.emit == code && code != farcode
      && gpr != fpr && gpr.guest != fpr.guest
      && gpr.Valid() && fpr.Valid()
    }

    constructor (jo: JitOptions, nearStart: nat, farStart: nat)
      ensures Valid() && fresh(code) && fresh(farcode)
      ensures code.ptr == nearStart && code.log == [] && farcode.ptr == farStart
      ensures this.jo == jo && fifoBytesThisBlock == 0
      ensures faultToHandler == map[] && handlerToLoc == map[]
    {
      this.jo := jo;
      var c := new CodeBlock(nearStart);
      code := c;
      farcode := new CodeBlock(farStart);
      nearcode := nearStart;
      gpr := new RegCache(Gpr, c);
      fpr := new RegCache(Fpr, c);
      fifoBytesThisBlock := 0;
      faultToHandler := map[];
      handlerToLoc := map[];
    }

    /** SwitchToFarCode: remember the near cursor and continue at the far one. */
    method SwitchToFarCode()
      requires code != farcode
      modifies this, code
      ensures nearcode == old(code.ptr) && code.ptr == farcode.ptr
      ensures code.log == old(code.log) && unchanged(farcode)
      ensures fifoBytesThisBlock == old(fifoBytesThisBlock)
      ensures faultToHandler == old(faultToHandler) && handlerToLoc == old(handlerToLoc)
    {
      nearcode := code.ptr;
      code.SetCodePtrUnsafe(farcode.ptr);
    }

    /** SwitchToNearCode: save the far cursor and go back to the near one. */
    method SwitchToNearCode()
      requires code != farcode
      modifies code, farcode
      ensures farcode.ptr == old(code.ptr) && code.ptr == nearcode
      ensures code.log == old(code.log) && farcode.log == old(farcode.log)
    {
      farcode.SetCodePtrUnsafe(code.ptr);
      code.SetCodePtrUnsafe(nearcode);
    }

    /** A far-code excursion as the generators make one: after it the near cursor is
        back where it was, and the far cursor has moved past what was emitted. */
    method EmitFar(i: Insn)
      requires Valid()
      modifies this, code, farcode
      ensures Valid()
      ensures code.ptr == old(code.ptr) && farcode.ptr == old(farcode.ptr) + 1
      ensures code.log == old(code.log) + [i] && nearcode == old(code.ptr)
      ensures farcode.log == old(farcode.log) && fifoBytesThisBlock == old(fifoBytesThisBlock)
      ensures faultToHandler == old(faultToHandler) && handlerToLoc == old(handlerToLoc)
    {
      SwitchToFarCode();
      code.Emit(i);
      SwitchToNearCode();
    }

    /** lfXX, with Q0 taken before FD is bound: the floating target, the scratch
        registers W0 and W30, the address into W0 (into X0 by MOVI2R when folded),
        RA's write-back, the backpatch call loading VD from X0, and the unlocks. */
    method LfXX(inst: Inst, ramOk: u32 -> bool)
      requires Valid()
      modifies this, code, gpr, gpr.guest, fpr, fpr.guest
      ensures Valid()
      ensures var o := LoadEffect(old(gpr.State()), old(fpr.State()), inst, jo, ramOk);
        && gpr.State() == o.g && fpr.State() == o.f
        && code.Appended(old(code.log), old(code.ptr), o.code)
        && fifoBytesThisBlock == old(fifoBytesThisBlock) + o.fifoAdded
      ensures nearcode == old(nearcode) && faultToHandler == old(faultToHandler) && handlerToLoc == old(handlerToLoc)
    {
      var form := DecodeLoad(inst.opcd, inst.subop10);
      ghost var g0, f0 := gpr.State(), fpr.State();
      ScratchInHosts(Gpr, g0);
      ghost var t := LoadTarget(f0, inst.fr, form.size == SizeF64);
      ghost var ph := GprPhaseOf(g0, LoadGprScratch, W(0), form.update, form.indexed, inst.ra, inst.rb, inst.simm, NeverGather);
      ghost var o := LoadEffect(g0, f0, inst, jo, ramOk);
      assert o == LoadFinish(form, ph, t, inst.fr, jo, ramOk);

      EmitLoad(gpr, fpr, form, inst, jo, ramOk, g0, f0, t, ph);
    }

    /** stfXX: V0 = R(FS), the scratch registers W0, W1, W30 and Q0, the address into
        W1, then either the inline store to the gather pipe (counted in
        js.fifoBytesThisBlock) or MOVI2R of a folded address into X1 and the backpatch
        call, RA's write-back, and the unlocks. */
    method StfXX(inst: Inst, ramOk: u32 -> bool, gatherOk: u32 -> bool, gp: GatherPipe)
      requires Valid()
      modifies this, code, gpr, gpr.guest, fpr, fpr.guest
      ensures Valid()
      ensures var o := StoreEffect(old(gpr.State()), old(fpr.State()), inst, jo, ramOk, gatherOk, gp);
        && gpr.State() == o.g && fpr.State() == o.f
        && code.Appended(old(code.log), old(code.ptr), o.code)
        && fifoBytesThisBlock == old(fifoBytesThisBlock) + o.fifoAdded
      ensures nearcode == old(nearcode) && faultToHandler == old(faultToHandler) && handlerToLoc == old(handlerToLoc)
    {
      var form := DecodeStore(inst.opcd, inst.subop10);
      ghost var g0, f0 := gpr.State(), fpr.State();
      ScratchInHosts(Gpr, g0);
      ghost var rv := FprReadEffect(f0, inst.fr, false);
      ghost var ph := GprPhaseOf(g0, StoreGprScratch, W(1), form.update, form.indexed, inst.ra, inst.rb, inst.simm,
                                 GatherTest(jo, gatherOk));
      ghost var fl := LockFrom(Fpr, rv.0.s, FprScratch, true, 0);
      ghost var o := StoreEffect(g0, f0, inst, jo, ramOk, gatherOk, gp);
      assert o == StoreFinish(form, rv, ph, fl, jo, ramOk, gatherOk, gp);
      var added := EmitStore(gpr, fpr, form, inst, jo, ramOk, gatherOk, gp, g0, f0, rv, ph, fl);
      fifoBytesThisBlock := fifoBytesThisBlock + added;
    }
  }

  // ---------------------------------------------------------------------------
  // Steps of the floating load/store generators
  // ---------------------------------------------------------------------------

  /** The address into `rd`, decided on what the general cache knows of RA and RB
      and read through R where the plan needs them. */
  method EmitAddress(gpr: RegCache, rd: ARM64Reg, update: bool, indexed: bool, a: Reg5, b: Reg5, offset: int)
    returns (plan: AddrPlan)
    requires gpr.Valid() && gpr.bank == Gpr
    modifies gpr, gpr.guest, gpr.emit
    ensures gpr.Valid()
    ensures var ad := AddressEffect(old(gpr.State()), rd, update, indexed, a, b, offset);
      && plan == ad.plan && gpr.State() == ad.s
      && gpr.emit.Appended(old(gpr.emit.log), old(gpr.emit.ptr), ad.code)
  {
    plan := PlanAddress(update, indexed, a, offset, ImmOf(gpr.guest[a]), ImmOf(gpr.guest[b]));
    if plan.AddIndex? || plan.MovIndex? {
      EmitIndexAddress(gpr, rd, update, indexed, a, b, offset, plan);
    } else {
      EmitOffsetAddress(gpr, rd, update, indexed, a, b, offset, plan);
    }
  }

  /** The address of a folded plan or of RA plus an offset. */
  method EmitOffsetAddress(gpr: RegCache, rd: ARM64Reg, update: bool, indexed: bool, a: Reg5, b: Reg5, offset: int,
                           plan: AddrPlan)
    requires gpr.Valid() && gpr.bank == Gpr
    requires plan == PlanAddress(update, indexed, a, offset, ImmOf(gpr.guest[a]), ImmOf(gpr.guest[b]))
    requires !plan.AddIndex? && !plan.MovIndex?
    modifies gpr, gpr.guest, gpr.emit
    ensures gpr.Valid()
    ensures var ad := AddressEffect(old(gpr.State()), rd, update, indexed, a, b, offset);
      && gpr.State() == ad.s && gpr.emit.Appended(old(gpr.emit.log), old(gpr.emit.ptr), ad.code)
  {
    match plan
    case Folded(_) =>
    case AddOffset(off) =>
      var _ := ReadThen(gpr, a, rd, plan);
    case SubOffset(off) =>
      var _ := ReadThen(gpr, a, rd, plan);
    case MoviAdd(o) =>
      MoviThenRead(gpr, a, rd, o);
  }

  /** The address of an indexed plan: RA + RB in the plan's order, or RB alone. */
  method EmitIndexAddress(gpr: RegCache, rd: ARM64Reg, update: bool, indexed: bool, a: Reg5, b: Reg5, offset: int,
                          plan: AddrPlan)
    requires gpr.Valid() && gpr.bank == Gpr
    requires plan == PlanAddress(update, indexed, a, offset, ImmOf(gpr.guest[a]), ImmOf(gpr.guest[b]))
    requires plan.AddIndex? || plan.MovIndex?
    modifies gpr, gpr.guest, gpr.emit
    ensures gpr.Valid()
    ensures var ad := AddressEffect(old(gpr.State()), rd, update, indexed, a, b, offset);
      && gpr.State() == ad.s && gpr.emit.Appended(old(gpr.emit.log), old(gpr.emit.ptr), ad.code)
  {
    if plan.AddIndex? {
      ReadTwiceThen(gpr, if plan.raFirst then a else b, if plan.raFirst then b else a, rd);
    } else {
      var _ := ReadThen(gpr, b, rd, plan);
    }
  }

  /** The record a one-register plan ends with, on the register R returned. */
  function LastRecord(plan: AddrPlan, r: ARM64Reg, rd: ARM64Reg): Insn
  {
    match plan
    case AddOffset(off) => AddImm(rd, r, off)
    case SubOffset(off) => SubImm(rd, r, off)
    case MoviAdd(_) => AddReg(rd, rd, r)
    case _ => Mov(rd, r)
  }

  /** R(p), then the plan's last record on the register returned. */
  method ReadThen(gpr: RegCache, p: Reg5, rd: ARM64Reg, plan: AddrPlan) returns (r: ARM64Reg)
    requires gpr.Valid() && gpr.bank == Gpr
    modifies gpr, gpr.guest, gpr.emit
    ensures gpr.Valid()
    ensures var er := GprReadEffect(old(gpr.State()), p);
      && r == er.1 && gpr.State() == er.0.s
      && gpr.emit.Appended(old(gpr.emit.log), old(gpr.emit.ptr), er.0.code + [LastRecord(plan, er.1, rd)])
  {
    ghost var log0, ptr0 := gpr.emit.log, gpr.emit.ptr;
    ghost var er := GprReadEffect(gpr.State(), p);
    r := gpr.GprR(p);
    ghost var log1, ptr1 := gpr.emit.log, gpr.emit.ptr;
    gpr.emit.Emit(LastRecord(plan, r, rd));
    gpr.emit.AppendedTwice(log0, ptr0, er.0.code, log1, ptr1, [LastRecord(plan, r, rd)]);
  }

  /** MOVI2R rd of the offset, R(a), then ADD rd, rd and the register returned. */
  method MoviThenRead(gpr: RegCache, a: Reg5, rd: ARM64Reg, o: int)
    requires gpr.Valid() && gpr.bank == Gpr
    modifies gpr, gpr.guest, gpr.emit
    ensures gpr.Valid()
    ensures var er := GprReadEffect(old(gpr.State()), a);
      && gpr.State() == er.0.s
      && gpr.emit.Appended(old(gpr.emit.log), old(gpr.emit.ptr), [Movi(rd, o)] + er.0.code + [AddReg(rd, rd, er.1)])
  {
    ghost var log0, ptr0 := gpr.emit.log, gpr.emit.ptr;
    ghost var er := GprReadEffect(gpr.State(), a);
    gpr.emit.Emit(Movi(rd, o));
    ghost var log1, ptr1 := gpr.emit.log, gpr.emit.ptr;
    var _ := ReadThen(gpr, a, rd, MoviAdd(o));
    gpr.emit.AppendedTwice(log0, ptr0, [Movi(rd, o)], log1, ptr1, er.0.code + [AddReg(rd, rd, er.1)]);
    assert [Movi(rd, o)] + (er.0.code + [AddReg(rd, rd, er.1)]) == [Movi(rd, o)] + er.0.code + [AddReg(rd, rd, er.1)];
  }

  /** R(p), R(q), then ADD rd of the two registers in that order. */
  method ReadTwiceThen(gpr: RegCache, p: Reg5, q: Reg5, rd: ARM64Reg)
    requires gpr.Valid() && gpr.bank == Gpr
    modifies gpr, gpr.guest, gpr.emit
    ensures gpr.Valid()
    ensures var e1 := GprReadEffect(old(gpr.State()), p);
      var e2 := GprReadEffect(e1.0.s, q);
      && gpr.State() == e2.0.s
      && gpr.emit.Appended(old(gpr.emit.log), old(gpr.emit.ptr), e1.0.code + e2.0.code + [AddReg(rd, e1.1, e2.1)])
  {
    ghost var e1 := GprReadEffect(gpr.State(), p);
    ghost var log0, ptr0 := gpr.emit.log, gpr.emit.ptr;
    var r1 := gpr.GprR(p);
    ghost var e2 := GprReadEffect(gpr.State(), q);
    ghost var log1, ptr1 := gpr.emit.log, gpr.emit.ptr;
    var r2 := gpr.GprR(q);
    ghost var log2, ptr2 := gpr.emit.log, gpr.emit.ptr;
    gpr.emit.AppendedTwice(log0, ptr0, e1.0.code, log1, ptr1, e2.0.code);
    gpr.emit.Emit(AddReg(rd, r1, r2));
    gpr.emit.AppendedTwice(log0, ptr0, e1.0.code + e2.0.code, log2, ptr2, [AddReg(rd, r1, r2)]);
  }

  /** lfXX's floating target with Q0 taken first: Lock(Q0), BindToRegister(FD,
      false, only_lower), then VD = R(FD, only_lower). */
  method EmitLoadTarget(fpr: RegCache, fd: Reg5, onlyLower: bool, ghost f0: CacheState, ghost t: (Effect, ARM64Reg))
    returns (vd: ARM64Reg)
    requires fpr.Valid() && fpr.bank == Fpr && fpr.State() == f0
    requires t == LoadTarget(f0, fd, onlyLower)
    modifies fpr, fpr.guest, fpr.emit
    ensures fpr.Valid()
    ensures vd == t.1 && fpr.State() == t.0.s && fpr.emit.Appended(old(fpr.emit.log), old(fpr.emit.ptr), t.0.code)
  {
    ghost var s0, log0, ptr0 := fpr.State(), fpr.emit.log, fpr.emit.ptr;
    ghost var l := LockFrom(Fpr, s0, FprScratch, true, 0);
    fpr.Lock(FprScratch);
    ghost var b := FprBindEffect(fpr.State(), fd, false, onlyLower);
    ghost var log1, ptr1 := fpr.emit.log, fpr.emit.ptr;
    fpr.FprBindToRegister(fd, false, onlyLower);
    fpr.emit.AppendedTwice(log0, ptr0, l.code, log1, ptr1, b.code);
    ghost var rd := FprReadEffect(fpr.State(), fd, onlyLower);
    ghost var log2, ptr2 := fpr.emit.log, fpr.emit.ptr;
    vd := fpr.FprR(fd, onlyLower);
    fpr.emit.AppendedTwice(log0, ptr0, l.code + b.code, log2, ptr2, rd.0.code);
  }

  /** RA's write-back when there is one: BindToRegister(RA, false), then the address
      moved into R(RA); InvalidReg and nothing emitted otherwise. */
  method EmitWriteBack(gpr: RegCache, a: Reg5, src: Option<WriteBackSource>) returns (ra: ARM64Reg)
    requires gpr.Valid() && gpr.bank == Gpr
    modifies gpr, gpr.guest, gpr.emit
    ensures gpr.Valid()
    ensures src.None? ==> ra == InvalidReg && gpr.State() == old(gpr.State()) && gpr.emit.Appended(old(gpr.emit.log), old(gpr.emit.ptr), [])
    ensures src.Some? ==> var w := WriteBackEffect(old(gpr.State()), a, src.value);
      && ra == w.1 && gpr.State() == w.0.s && gpr.emit.Appended(old(gpr.emit.log), old(gpr.emit.ptr), w.0.code)
  {
    ra := InvalidReg;
    if src.None? {
      return;
    }
    ghost var s0, log0, ptr0 := gpr.State(), gpr.emit.log, gpr.emit.ptr;
    ghost var b := GprBindEffect(s0, a, false);
    gpr.GprBindToRegister(a, false);
    ghost var rd := GprReadEffect(gpr.State(), a);
    ghost var log1, ptr1 := gpr.emit.log, gpr.emit.ptr;
    ra := gpr.GprR(a);
    gpr.emit.AppendedTwice(log0, ptr0, b.code, log1, ptr1, rd.0.code);
    var last := match src.value
      case FromReg(r) => Mov(ra, r)
      case FromImm(v) => Movi(ra, v);
    ghost var log2, ptr2 := gpr.emit.log, gpr.emit.ptr;
    gpr.emit.Emit(last);
    gpr.emit.AppendedTwice(log0, ptr0, b.code + rd.0.code, log2, ptr2, [last]);
  }

  /** stfXX's inline store of `v` to the gather pipe. */
  method EmitGather(code: CodeBlock, size: AccessSize, v: ARM64Reg, gp: GatherPipe)
    modifies code
    ensures code.Appended(old(code.log), old(code.ptr), GatherCode(size, v, gp))
  {
    ghost var log0, ptr0 := code.log, code.ptr;
    EmitGatherSetup(code, gp);
    ghost var log1, ptr1 := code.log, code.ptr;
    EmitGatherData(code, size, v, gp);
    code.AppendedTwice(log0, ptr0, GatherSetupCode(gp), log1, ptr1, GatherDataCode(size, v, gp));
    ghost var log2, ptr2 := code.log, code.ptr;
    var count := [AddImm(W(0), W(0), AccessBits(size) / 8), StrImm(32, W(0), X(30), gp.countAddr - GatherBase(gp))];
    code.EmitAll(count);
    code.AppendedTwice(log0, ptr0, GatherSetupCode(gp) + GatherDataCode(size, v, gp), log2, ptr2, count);
  }

  /** The base into X30, the pipe address into X1 when it is not the base, and the
      count into W0. */
  method EmitGatherSetup(code: CodeBlock, gp: GatherPipe)
    modifies code
    ensures code.Appended(old(code.log), old(code.ptr), GatherSetupCode(gp))
  {
    var base := GatherBase(gp);
    if gp.pipeAddr != base {
      code.EmitAll([Movi(X(30), base), AddImm(X(1), X(30), gp.pipeAddr - base), LdrImm(32, W(0), X(30), gp.countAddr - base)]);
    } else {
      code.EmitAll([Movi(X(30), base), LdrImm(32, W(0), X(30), gp.countAddr - base)]);
    }
  }

  /** The value, byte-reversed (converted to single first for a 32-bit access),
      stored at pipe + count. */
  method EmitGatherData(code: CodeBlock, size: AccessSize, v: ARM64Reg, gp: GatherPipe)
    modifies code
    ensures code.Appended(old(code.log), old(code.ptr), GatherDataCode(size, v, gp))
  {
    var pipe := if gp.pipeAddr != GatherBase(gp) then X(1) else X(30);
    if AccessBits(size) == 64 {
      code.EmitAll([Rev(64, Q(0), v), StrIdx(64, Q(0), pipe, X(0))]);
    } else {
      code.EmitAll([Fcvt(32, 64, D(0), ToDouble(v)), Rev(32, D(0), D(0)), StrIdx(32, D(0), pipe, X(0))]);
    }
  }

  /** The general-cache part of a generator up to its backpatch call, emitted after
      `pre`: Lock of the scratch registers, the address into `rd`, the MOVI2R of a
      folded address into `xa` unless the store goes to the gather pipe, and RA's
      write-back when the plan calls for one. */
  method EmitGprPhase(gpr: RegCache, scratch: seq<ARM64Reg>, rd: ARM64Reg, xa: ARM64Reg, update: bool, indexed: bool,
                      a: Reg5, b: Reg5, offset: int, gather: u32 -> bool, ghost g0: CacheState, ghost ph: GprPhase,
                      ghost L0: seq<Insn>, ghost P0: nat, ghost pre: seq<Insn>)
    returns (plan: AddrPlan, ra: ARM64Reg)
    requires gpr.Valid() && gpr.bank == Gpr && gpr.State() == g0
    requires forall h | h in scratch :: h in Hosts(g0.hs)
    requires ph == GprPhaseOf(g0, scratch, rd, update, indexed, a, b, offset, gather)
    requires gpr.emit.log == L0 + pre && gpr.emit.ptr == P0 + |pre|
    modifies gpr, gpr.guest, gpr.emit
    ensures gpr.Valid()
    ensures var movi := if ph.addr.plan.Folded? then [Movi(xa, ph.addr.plan.addr)] else [];
      && plan == ph.addr.plan && ra == ph.ra && gpr.State() == ph.wb.s
      && gpr.emit.Appended(L0, P0, pre + ph.lock.code + ph.addr.code + movi + ph.wb.code)
  {
    ghost var gl := LockFrom(Gpr, g0, scratch, true, 0);
    ghost var L1, P1 := gpr.emit.log, gpr.emit.ptr;
    gpr.Lock(scratch);
    gpr.emit.AppendedTwice(L0, P0, pre, L1, P1, gl.code);
    ghost var acc := pre + gl.code;

    ghost var ad := AddressEffect(gpr.State(), rd, update, indexed, a, b, offset);
    ghost var L2, P2 := gpr.emit.log, gpr.emit.ptr;
    plan := EmitAddress(gpr, rd, update, indexed, a, b, offset);
    gpr.emit.AppendedTwice(L0, P0, acc, L2, P2, ad.code);
    acc := acc + ad.code;

    var movi := if plan.Folded? then [Movi(xa, plan.addr)] else [];
    ghost var L3, P3 := gpr.emit.log, gpr.emit.ptr;
    gpr.emit.EmitAll(movi);
    gpr.emit.AppendedTwice(L0, P0, acc, L3, P3, movi);
    acc := acc + movi;

    var src := WriteBackFor(update, rd, plan, gather);
    ghost var wb := if src.Some? then WriteBackEffect(ad.s, a, src.value).0 else Effect(ad.s, []);
    ghost var L4, P4 := gpr.emit.log, gpr.emit.ptr;
    ra := EmitWriteBack(gpr, a, src);
    gpr.emit.AppendedTwice(L0, P0, acc, L4, P4, wb.code);
  }

  /** Unlock of the general scratch registers, then of Q0, emitted after `pre`. */
  method EmitUnlocks(gpr: RegCache, fpr: RegCache, scratch: seq<ARM64Reg>,
                     ghost L0: seq<Insn>, ghost P0: nat, ghost pre: seq<Insn>)
    requires gpr.Valid() && fpr.Valid() && gpr.emit == fpr.emit && gpr != fpr && gpr.guest != fpr.guest
    requires gpr.emit.log == L0 + pre && gpr.emit.ptr == P0 + |pre|
    modifies gpr, gpr.guest, fpr, fpr.guest, gpr.emit
    ensures gpr.Valid() && fpr.Valid()
    ensures var gu := LockFrom(gpr.bank, old(gpr.State()), scratch, false, 0);
      var fu := LockFrom(fpr.bank, old(fpr.State()), FprScratch, false, 0);
      && gpr.State() == gu.s && fpr.State() == fu.s
      && gpr.emit.Appended(L0, P0, pre + gu.code + fu.code)
  {
    ghost var gu := LockFrom(gpr.bank, gpr.State(), scratch, false, 0);
    ghost var fu := LockFrom(fpr.bank, fpr.State(), FprScratch, false, 0);
    ghost var L1, P1 := gpr.emit.log, gpr.emit.ptr;
    gpr.Unlock(scratch);
    gpr.emit.AppendedTwice(L0, P0, pre, L1, P1, gu.code);
    ghost var L2, P2 := gpr.emit.log, gpr.emit.ptr;
    fpr.Unlock(FprScratch);
    gpr.emit.AppendedTwice(L0, P0, pre + gu.code, L2, P2, fu.code);
  }

  /** lfXX's steps through the two caches, from the floating target to the unlocks. */
  method EmitLoad(gpr: RegCache, fpr: RegCache, form: Form, inst: Inst, jo: JitOptions, ramOk: u32 -> bool,
                  ghost g0: CacheState, ghost f0: CacheState, ghost t: (Effect, ARM64Reg), ghost ph: GprPhase)
    requires gpr.Valid() && fpr.Valid() && gpr.emit == fpr.emit && gpr != fpr && gpr.guest != fpr.guest
    requires gpr.bank == Gpr && fpr.bank == Fpr && gpr.State() == g0 && fpr.State() == f0
    requires forall h | h in LoadGprScratch :: h in Hosts(g0.hs)
    requires t == LoadTarget(f0, inst.fr, form.size == SizeF64)
    requires ph == GprPhaseOf(g0, LoadGprScratch, W(0), form.update, form.indexed, inst.ra, inst.rb, inst.simm, NeverGather)
    modifies gpr, gpr.guest, fpr, fpr.guest, gpr.emit
    ensures gpr.Valid() && fpr.Valid()
    ensures var o := LoadFinish(form, ph, t, inst.fr, jo, ramOk);
      && gpr.State() == o.g && fpr.State() == o.f && gpr.emit.Appended(old(gpr.emit.log), old(gpr.emit.ptr), o.code)
  {
    ghost var L0, P0 := gpr.emit.log, gpr.emit.ptr;
    var vd := EmitLoadTarget(fpr, inst.fr, form.size == SizeF64, f0, t);
    var plan, ra := EmitGprPhase(gpr, LoadGprScratch, W(0), X(0), form.update, form.indexed, inst.ra, inst.rb,
                                 inst.simm, NeverGather, g0, ph, L0, P0, t.0.code);
    EmitLoadCall(gpr, fpr, form, inst.fr, jo, ramOk, plan, vd, ph, t, L0, P0);
  }

  /** The end of lfXX once the address is formed: the spill sets, the backpatch
      call and the unlocks. */
  method EmitLoadCall(gpr: RegCache, fpr: RegCache, form: Form, fd: Reg5, jo: JitOptions, ramOk: u32 -> bool,
                      plan: AddrPlan, vd: ARM64Reg, ghost ph: GprPhase, ghost t: (Effect, ARM64Reg),
                      ghost L0: seq<Insn>, ghost P0: nat)
    requires gpr.Valid() && fpr.Valid() && gpr.emit == fpr.emit && gpr != fpr && gpr.guest != fpr.guest
    requires gpr.bank == Gpr && fpr.bank == Fpr
    requires gpr.State() == ph.wb.s && fpr.State() == t.0.s && plan == ph.addr.plan && vd == t.1
    requires var movi := if plan.Folded? then [Movi(X(0), plan.addr)] else [];
      gpr.emit.Appended(L0, P0, t.0.code + ph.lock.code + ph.addr.code + movi + ph.wb.code)
    modifies gpr, gpr.guest, fpr, fpr.guest, gpr.emit
    ensures gpr.Valid() && fpr.Valid()
    ensures var o := LoadFinish(form, ph, t, fd, jo, ramOk);
      && gpr.State() == o.g && fpr.State() == o.f && gpr.emit.Appended(L0, P0, o.code)
  {
    var onlyLower := form.size == SizeF64 && fpr.guest[fd].kind == LowerPair;
    var gprs := gpr.GetCallerSavedUsed();
    var fprs := fpr.GetCallerSavedUsed();
    gprs := gprs - {0};
    fprs := fprs - {0, BitIndex(vd)};
    var flags := Flags(false, form.size, onlyLower);
    var call :=
      if plan.Folded? && ramOk(plan.addr) then Backpatch(flags, true, false, vd, X(0), {}, {})
      else Backpatch(flags, jo.fastmem, jo.fastmem, vd, X(0), gprs, fprs);
    ghost var movi := if plan.Folded? then [Movi(X(0), plan.addr)] else [];
    ghost var acc := t.0.code + ph.lock.code + ph.addr.code + movi + ph.wb.code;
    ghost var L5, P5 := gpr.emit.log, gpr.emit.ptr;
    gpr.emit.Emit(call);
    gpr.emit.AppendedTwice(L0, P0, acc, L5, P5, [call]);
    EmitUnlocks(gpr, fpr, LoadGprScratch, L0, P0, acc + [call]);
  }

  /** The register an update form's write-back goes to, given the phase it is part
      of: RA bound and R(RA), as WriteBackEffect says, or none. */
  ghost predicate WriteBackIs(ph: GprPhase, a: Reg5, src: Option<WriteBackSource>)
  {
    && |ph.addr.s.gs| == GUEST_COUNT
    && if src.Some? then
         var w := WriteBackEffect(ph.addr.s, a, src.value);
         ph.wb == w.0 && ph.ra == w.1
       else ph.wb == Effect(ph.addr.s, []) && ph.ra == InvalidReg
  }

  /** stfXX's steps through the two caches, from R(FS) to the unlocks; `added` is
      what the gather pipe gains. */
  method EmitStore(gpr: RegCache, fpr: RegCache, form: Form, inst: Inst, jo: JitOptions, ramOk: u32 -> bool,
                   gatherOk: u32 -> bool, gp: GatherPipe, ghost g0: CacheState, ghost f0: CacheState,
                   ghost rv: (Effect, ARM64Reg), ghost ph: GprPhase, ghost fl: Effect)
    returns (added: nat)
    requires gpr.Valid() && fpr.Valid() && gpr.emit == fpr.emit && gpr != fpr && gpr.guest != fpr.guest
    requires gpr.bank == Gpr && fpr.bank == Fpr && gpr.State() == g0 && fpr.State() == f0
    requires forall h | h in StoreGprScratch :: h in Hosts(g0.hs)
    requires rv == FprReadEffect(f0, inst.fr, false) && fl == LockFrom(Fpr, rv.0.s, FprScratch, true, 0)
    requires ph == GprPhaseOf(g0, StoreGprScratch, W(1), form.update, form.indexed, inst.ra, inst.rb, inst.simm,
                              GatherTest(jo, gatherOk))
    modifies gpr, gpr.guest, fpr, fpr.guest, gpr.emit
    ensures gpr.Valid() && fpr.Valid()
    ensures var o := StoreFinish(form, rv, ph, fl, jo, ramOk, gatherOk, gp);
      && gpr.State() == o.g && fpr.State() == o.f && gpr.emit.Appended(old(gpr.emit.log), old(gpr.emit.ptr), o.code)
      && added == o.fifoAdded
  {
    ghost var L0, P0 := gpr.emit.log, gpr.emit.ptr;
    var v0, plan := EmitStoreHead(gpr, fpr, form, inst, GatherTest(jo, gatherOk), g0, f0, rv, ph, fl);
    added := EmitStoreTail(gpr, fpr, form, inst.ra, jo, ramOk, gatherOk, gp, v0, plan, rv, ph, fl, L0, P0);
  }

  /** V0 = R(FS), Lock(W0, W1, W30), Lock(Q0), and the address into W1. */
  method EmitStoreHead(gpr: RegCache, fpr: RegCache, form: Form, inst: Inst, gather: u32 -> bool,
                       ghost g0: CacheState, ghost f0: CacheState,
                       ghost rv: (Effect, ARM64Reg), ghost ph: GprPhase, ghost fl: Effect)
    returns (v0: ARM64Reg, plan: AddrPlan)
    requires gpr.Valid() && fpr.Valid() && gpr.emit == fpr.emit && gpr != fpr && gpr.guest != fpr.guest
    requires gpr.bank == Gpr && fpr.bank == Fpr && gpr.State() == g0 && fpr.State() == f0
    requires forall h | h in StoreGprScratch :: h in Hosts(g0.hs)
    requires rv == FprReadEffect(f0, inst.fr, false) && fl == LockFrom(Fpr, rv.0.s, FprScratch, true, 0)
    requires ph == GprPhaseOf(g0, StoreGprScratch, W(1), form.update, form.indexed, inst.ra, inst.rb, inst.simm, gather)
    modifies gpr, gpr.guest, fpr, fpr.guest, gpr.emit
    ensures gpr.Valid() && fpr.Valid()
    ensures v0 == rv.1 && plan == ph.addr.plan && gpr.State() == ph.addr.s && fpr.State() == fl.s
    ensures WriteBackIs(ph, inst.ra, WriteBackFor(form.update, W(1), plan, gather))
    ensures gpr.emit.Appended(old(gpr.emit.log), old(gpr.emit.ptr), rv.0.code + ph.lock.code + fl.code + ph.addr.code)
  {
    ghost var L0, P0 := gpr.emit.log, gpr.emit.ptr;
    v0 := fpr.FprR(inst.fr, false);
    ghost var L1, P1 := gpr.emit.log, gpr.emit.ptr;
    gpr.Lock(StoreGprScratch);
    gpr.emit.AppendedTwice(L0, P0, rv.0.code, L1, P1, ph.lock.code);
    ghost var L2, P2 := gpr.emit.log, gpr.emit.ptr;
    fpr.Lock(FprScratch);
    gpr.emit.AppendedTwice(L0, P0, rv.0.code + ph.lock.code, L2, P2, fl.code);
    ghost var L3, P3 := gpr.emit.log, gpr.emit.ptr;
    plan := EmitAddress(gpr, W(1), form.update, form.indexed, inst.ra, inst.rb, inst.simm);
    gpr.emit.AppendedTwice(L0, P0, rv.0.code + ph.lock.code + fl.code, L3, P3, ph.addr.code);
  }

  /** The rest of stfXX once the address is formed. */
  method EmitStoreTail(gpr: RegCache, fpr: RegCache, form: Form, a: Reg5, jo: JitOptions, ramOk: u32 -> bool,
                       gatherOk: u32 -> bool, gp: GatherPipe, v0: ARM64Reg, plan: AddrPlan,
                       ghost rv: (Effect, ARM64Reg), ghost ph: GprPhase, ghost fl: Effect,
                       ghost L0: seq<Insn>, ghost P0: nat)
    returns (added: nat)
    requires gpr.Valid() && fpr.Valid() && gpr.emit == fpr.emit && gpr != fpr && gpr.guest != fpr.guest
    requires gpr.bank == Gpr && fpr.bank == Fpr
    requires v0 == rv.1 && plan == ph.addr.plan && gpr.State() == ph.addr.s && fpr.State() == fl.s
    requires WriteBackIs(ph, a, WriteBackFor(form.update, W(1), plan, GatherTest(jo, gatherOk)))
    requires gpr.emit.Appended(L0, P0, rv.0.code + ph.lock.code + fl.code + ph.addr.code)
    modifies gpr, gpr.guest, fpr, fpr.guest, gpr.emit
    ensures gpr.Valid() && fpr.Valid()
    ensures var o := StoreFinish(form, rv, ph, fl, jo, ramOk, gatherOk, gp);
      && gpr.State() == o.g && fpr.State() == o.f && gpr.emit.Appended(L0, P0, o.code) && added == o.fifoAdded
  {
    ghost var head := rv.0.code + ph.lock.code + fl.code + ph.addr.code;
    ghost var body: seq<Insn>;
    if plan.Folded? && jo.optimizeGatherPipe && gatherOk(plan.addr) {
      assert ToPipe(plan, GatherTest(jo, gatherOk));
      EmitStorePipe(gpr, form, a, v0, plan, gp, WriteBackFor(form.update, W(1), plan, GatherTest(jo, gatherOk)), ph, L0, P0, head);
      added := AccessBits(form.size) / 8;
      body := head + GatherCode(form.size, v0, gp) + ph.wb.code;
    } else {
      assert !ToPipe(plan, GatherTest(jo, gatherOk));
      EmitStoreCall(gpr, fpr, form, a, jo, ramOk, v0, plan, WriteBackFor(form.update, W(1), plan, GatherTest(jo, gatherOk)),
                    ph, fl, L0, P0, head);
      added := 0;
      var movi := if plan.Folded? then [Movi(X(1), plan.addr)] else [];
      body := head + movi + ph.wb.code + [StoreCall(form, ph, fl, v0, jo, ramOk)];
    }
    EmitUnlocks(gpr, fpr, StoreGprScratch, L0, P0, body);
  }

  /** The gather-pipe path: the inline store, then RA's write-back of the folded
      address. */
  method EmitStorePipe(gpr: RegCache, form: Form, a: Reg5, v0: ARM64Reg, plan: AddrPlan, gp: GatherPipe,
                       src: Option<WriteBackSource>, ghost ph: GprPhase,
                       ghost L0: seq<Insn>, ghost P0: nat, ghost head: seq<Insn>)
    requires gpr.Valid() && gpr.bank == Gpr && gpr.State() == ph.addr.s
    requires WriteBackIs(ph, a, src)
    requires gpr.emit.Appended(L0, P0, head)
    modifies gpr, gpr.guest, gpr.emit
    ensures gpr.Valid() && gpr.State() == ph.wb.s
    ensures gpr.emit.Appended(L0, P0, head + GatherCode(form.size, v0, gp) + ph.wb.code)
  {
    ghost var L1, P1 := gpr.emit.log, gpr.emit.ptr;
    EmitGather(gpr.emit, form.size, v0, gp);
    gpr.emit.AppendedTwice(L0, P0, head, L1, P1, GatherCode(form.size, v0, gp));
    ghost var L2, P2 := gpr.emit.log, gpr.emit.ptr;
    var _ := EmitWriteBack(gpr, a, src);
    gpr.emit.AppendedTwice(L0, P0, head + GatherCode(form.size, v0, gp), L2, P2, ph.wb.code);
  }

  /** The call path: MOVI2R of a folded address into X1, RA's write-back, the spill
      sets and the backpatch call. */
  method EmitStoreCall(gpr: RegCache, fpr: RegCache, form: Form, a: Reg5, jo: JitOptions, ramOk: u32 -> bool,
                       v0: ARM64Reg, plan: AddrPlan, src: Option<WriteBackSource>,
                       ghost ph: GprPhase, ghost fl: Effect,
                       ghost L0: seq<Insn>, ghost P0: nat, ghost head: seq<Insn>)
    requires gpr.Valid() && fpr.Valid() && gpr.emit == fpr.emit && gpr != fpr && gpr.guest != fpr.guest
    requires gpr.bank == Gpr && fpr.bank == Fpr
    requires plan == ph.addr.plan && gpr.State() == ph.addr.s && fpr.State() == fl.s
    requires WriteBackIs(ph, a, src)
    requires gpr.emit.Appended(L0, P0, head)
    modifies gpr, gpr.guest, gpr.emit
    ensures gpr.Valid() && fpr.Valid() && gpr.State() == ph.wb.s && fpr.State() == fl.s
    ensures var movi := if plan.Folded? then [Movi(X(1), plan.addr)] else [];
      gpr.emit.Appended(L0, P0, head + movi + ph.wb.code + [StoreCall(form, ph, fl, v0, jo, ramOk)])
  {
    var movi := if plan.Folded? then [Movi(X(1), plan.addr)] else [];
    ghost var L1, P1 := gpr.emit.log, gpr.emit.ptr;
    gpr.emit.EmitAll(movi);
    gpr.emit.AppendedTwice(L0, P0, head, L1, P1, movi);
    ghost var L2, P2 := gpr.emit.log, gpr.emit.ptr;
    var _ := EmitWriteBack(gpr, a, src);
    gpr.emit.AppendedTwice(L0, P0, head + movi, L2, P2, ph.wb.code);
    var gprs := gpr.GetCallerSavedUsed();
    var fprs := fpr.GetCallerSavedUsed();
    gprs := gprs - {0, 1};
    fprs := fprs - {0};
    var flags := Flags(true, form.size, false);
    var call :=
      if plan.Folded? && ramOk(plan.addr) then Backpatch(flags, true, false, v0, X(1), {}, {})
      else if plan.Folded? then Backpatch(flags, false, false, v0, X(1), gprs, fprs)
      else Backpatch(flags, jo.fastmem, jo.fastmem, v0, X(1), gprs, fprs);
    ghost var L3, P3 := gpr.emit.log, gpr.emit.ptr;
    gpr.emit.Emit(call);
    gpr.emit.AppendedTwice(L0, P0, head + movi + ph.wb.code, L3, P3, [call]);
  }
}
