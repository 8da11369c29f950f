/** The register cache as the JIT holds it: an object with the 32 guest entries in
    an array, the host registers in a list that the methods reassign, and the code
    block it emits into.  Each method is proved to perform the transition of the same
    name in RegCacheState, whose lemmas carry the properties. */
module RegCache {
  import opened Wrappers
  import opened Arm64
  import opened RegCacheState

  /** Arm64RegCache with its two subclasses: `bank` says which one it is. */
  class RegCache {
    const bank: Bank
    const emit: CodeBlock
    /** m_guest_registers */
    const guest: array<OpArg>
    /** m_host_registers, in allocation order */
    var hosts: seq<HostReg>

    ghost function State(): CacheState
      reads this, guest
    {
      CacheState(guest[..], hosts)
    }

    ghost predicate Valid()
      reads this, guest
    {
      guest.Length == GUEST_COUNT && Inv(bank, State())
    }

    /** Construction followed by Init: every guest register unloaded, and the host
        registers of the bank's allocation order, all unlocked. */
    constructor (bank: Bank, emit: CodeBlock)
      ensures Valid() && fresh(guest)
      ensures this.bank == bank && this.emit == emit
      ensures forall p | 0 <= p < GUEST_COUNT :: guest[p] == Unloaded
      ensures hosts == Unlocked(AllocationOrder(bank))
    {
      this.bank := bank;
      this.emit := emit;
      guest := new OpArg[GUEST_COUNT](_ => Unloaded);
      hosts := [];
      new;
      GetAllocationOrder();
      InitialInv(bank, guest[..], hosts);
    }

    /** Appends the bank's allocation order to the host list, unlocked. */
    method GetAllocationOrder()
      modifies this
      ensures hosts == old(hosts) + Unlocked(AllocationOrder(bank))
    {
      var order := AllocationOrder(bank);
      for k := 0 to |order|
        invariant hosts == old(hosts) + Unlocked(order[..k])
      {
        assert Unlocked(order[..k + 1]) == Unlocked(order[..k]) + [HostReg(order[k], false)];
        hosts := hosts + [HostReg(order[k], false)];
      }
    }

    /** IncrementAllUsed: every entry one access older. */
    method IncrementAllUsed()
      requires guest.Length == GUEST_COUNT
      modifies guest
      ensures State() == AgeAll(old(State()))
    {
      for i := 0 to guest.Length
        invariant forall q | 0 <= q < guest.Length ::
          guest[q] == if q < i then old(guest[q]).(lastUsed := old(guest[q]).lastUsed + 1) else old(guest[q])
      {
        guest[i] := guest[i].(lastUsed := guest[i].lastUsed + 1);
      }
    }

    method GetUnlockedRegisterCount() returns (n: nat)
      ensures n == CountUnlocked(hosts)
    {
      n := 0;
      for k := 0 to |hosts|
        invariant n == CountUnlocked(hosts[..k])
      {
        assert hosts[..k + 1][..k] == hosts[..k];
        if !hosts[k].locked {
          n := n + 1;
        }
      }
      assert hosts[..|hosts|] == hosts;
    }

    /** std::find over the host list: the position of `r`, or |hosts| if absent. */
    method FindHost(r: ARM64Reg) returns (k: nat)
      ensures k <= |hosts|
      ensures forall j | 0 <= j < k :: hosts[j].reg != r
      ensures k < |hosts| ==> hosts[k].reg == r
    {
      k := 0;
      while k < |hosts| && hosts[k].reg != r
        invariant k <= |hosts|
        invariant forall j | 0 <= j < k :: hosts[j].reg != r
      {
        k := k + 1;
      }
    }

    /** A register that is not in the host list is left alone (the source asserts). */
    method LockRegister(r: ARM64Reg)
      requires HostsInOrder(bank, hosts)
      modifies this
      ensures hosts == SetLock(old(hosts), r, true)
    {
      var k := FindHost(r);
      if k < |hosts| {
        SetLockAt(bank, hosts, k, true);
        hosts := hosts[k := hosts[k].(locked := true)];
      } else {
        assert hosts == SetLock(hosts, r, true);
      }
    }

    method UnlockRegister(r: ARM64Reg)
      requires HostsInOrder(bank, hosts)
      modifies this
      ensures hosts == SetLock(old(hosts), r, false)
    {
      var k := FindHost(r);
      if k < |hosts| {
        SetLockAt(bank, hosts, k, false);
        hosts := hosts[k := hosts[k].(locked := false)];
      } else {
        assert hosts == SetLock(hosts, r, false);
      }
    }

    /** GetReg: evict when no host register is free, then lock and hand out the first
        free one in allocation order, or INVALID_REG. */
    method GetReg() returns (r: ARM64Reg)
      requires Valid()
      modifies this, guest, emit
      decreases 3, 0
      ensures Valid()
      ensures r == Allocated(old(State())) && State() == AfterGetReg(old(State()))
      ensures emit.Appended(old(emit.log), old(emit.ptr), VictimCode(bank, old(State())))
    {
      ghost var s := State();
      GetRegKeepsInv(bank, s);
      var n := GetUnlockedRegisterCount();
      if n == 0 {
        MostStaleIsEviction(bank, s);
        FlushMostStaleRegister();
      }
      var k := FirstFree();
      if k < |hosts| {
        r := hosts[k].reg;
        SetLockAt(bank, hosts, k, true);
        hosts := hosts[k := hosts[k].(locked := true)];
      } else {
        r := InvalidReg;
      }
    }

    /** The scan of GetReg's loop: the first unlocked host register, or |hosts|. */
    method FirstFree() returns (k: nat)
      ensures k <= |hosts|
      ensures k < |hosts| ==> FirstUnlocked(hosts, 0) == Some(k)
      ensures k == |hosts| ==> FirstUnlocked(hosts, 0).None?
    {
      k := 0;
      while k < |hosts| && hosts[k].locked
        invariant k <= |hosts| && FirstUnlocked(hosts, k) == FirstUnlocked(hosts, 0)
      {
        k := k + 1;
      }
    }

    /** FlushMostStaleRegister: the scan is the source's, and so is the flush of its
        choice, except that the fallback to guest register 0 is skipped when that
        entry is held in a host register or is a nonzero immediate. */
    method FlushMostStaleRegister()
      requires Valid()
      modifies this, guest, emit
      decreases 2, 0
      ensures Valid()
      ensures var e := MostStaleEffect(bank, old(State()));
        State() == e.s && emit.Appended(old(emit.log), old(emit.ptr), e.code)
    {
      ghost var s := State();
      StaleScanChoice(s.gs, GUEST_COUNT);
      var mostStalePreg: nat, mostStaleAmount: nat := 0, 0;
      for i := 0 to GUEST_COUNT
        invariant (mostStalePreg, mostStaleAmount) == StaleScan(guest[..], i)
      {
        var lastUsed := guest[i].lastUsed;
        if lastUsed > mostStaleAmount && guest[i].kind != NotLoaded && guest[i].kind != Imm {
          mostStalePreg, mostStaleAmount := i, lastUsed;
        }
      }
      if mostStaleAmount > 0 || !FallbackSkipped(guest[mostStalePreg]) {
        FlushRegister(mostStalePreg, false);
      }
    }

    /** FlushRegister: each cache's own version. */
    method FlushRegister(p: nat, maintain: bool)
      requires Valid() && p < GUEST_COUNT
      modifies this, guest, emit
      decreases if bank == Gpr && guest[p].kind == Imm && guest[p].imm != 0 then 4 else 1, 3
      ensures Valid()
      ensures var e := FlushEffect(bank, old(State()), p, maintain);
        State() == e.s && emit.Appended(old(emit.log), old(emit.ptr), e.code)
    {
      if bank == Gpr {
        GprFlushRegister(p, maintain);
      } else {
        FprFlushRegister(p, maintain);
      }
    }

    /** Arm64GPRCache::FlushRegister. */
    method GprFlushRegister(p: nat, maintain: bool)
      requires Valid() && bank == Gpr && p < GUEST_COUNT
      modifies this, guest, emit
      decreases if guest[p].kind == Imm && guest[p].imm != 0 then 4 else 1, 2
      ensures Valid()
      ensures var e := FlushEffect(bank, old(State()), p, maintain);
        State() == e.s && emit.Appended(old(emit.log), old(emit.ptr), e.code)
    {
      ghost var s := State();
      FlushKeepsInv(bank, s, p, maintain);
      var o := guest[p];
      if o.kind == Reg {
        if o.dirty {
          emit.Emit(StrState(32, o.reg, GprField(p)));
        }
        if !maintain {
          UnlockRegister(o.reg);
          guest[p] := o.(kind := NotLoaded);
        }
      } else if o.kind == Imm {
        FlushImmediate(p, maintain);
      }
    }

    /** The immediate case of Arm64GPRCache::FlushRegister: 0 is stored from the zero
        register, any other value through a temporary. */
    method FlushImmediate(p: nat, maintain: bool)
      requires Valid() && bank == Gpr && p < GUEST_COUNT && guest[p].kind == Imm
      modifies this, guest, emit
      decreases if guest[p].imm != 0 then 4 else 1, 1
      ensures Valid()
      ensures var e := FlushEffect(bank, old(State()), p, maintain);
        State() == e.s && emit.Appended(old(emit.log), old(emit.ptr), e.code)
    {
      ghost var s := State();
      ImmediateFlushEffect(s, p, maintain);
      if guest[p].imm == 0 {
        emit.Emit(StrState(32, WSP, GprField(p)));
      } else {
        StoreImmediate(p);
      }
      if !maintain {
        guest[p] := guest[p].(kind := NotLoaded);
      }
    }

    /** The nonzero-immediate case of Arm64GPRCache::FlushRegister: the value goes
        home through a temporary, which is unlocked again. */
    method StoreImmediate(p: nat)
      requires Valid() && bank == Gpr && p < GUEST_COUNT && guest[p].kind == Imm && guest[p].imm != 0
      modifies this, guest, emit
      decreases 4, 0
      ensures Valid()
      ensures State() == AfterVictim(old(State())) && guest[p] == old(guest[p])
      ensures emit.Appended(old(emit.log), old(emit.ptr),
        VictimCode(Gpr, old(State())) + [Movi(Allocated(old(State())), old(guest[p]).imm),
                                         StrState(32, Allocated(old(State())), GprField(p))])
    {
      ghost var s := State();
      TemporaryReleased(bank, s, p);
      var imm := guest[p].imm;
      var t := GetReg();
      emit.Emit(Movi(t, imm));
      emit.Emit(StrState(32, t, GprField(p)));
      UnlockRegister(t);
    }

    /** Arm64FPRCache::FlushRegister. */
    method FprFlushRegister(p: nat, maintain: bool)
      requires Valid() && bank == Fpr && p < GUEST_COUNT
      modifies this, guest, emit
      ensures Valid()
      ensures var e := FlushEffect(bank, old(State()), p, maintain);
        State() == e.s && emit.Appended(old(emit.log), old(emit.ptr), e.code)
    {
      ghost var s := State();
      FlushKeepsInv(bank, s, p, maintain);
      var o := guest[p];
      if o.kind == Reg || o.kind == LowerPair {
        var size := if o.kind == Reg then 128 else 64;
        if o.dirty {
          emit.Emit(StrState(size, o.reg, PsField(p, 0)));
        }
        if !maintain {
          UnlockRegister(o.reg);
          guest[p] := o.(kind := NotLoaded);
        }
      }
    }

    /** FlushRegisters of either cache: the listed entries in ascending order.  The
        general cache writes two neighbouring dirty host-held entries with one STP. */
    method FlushRegisters(regs: set<nat>, maintain: bool)
      requires Valid()
      modifies this, guest, emit
      ensures Valid()
      ensures var e := FlushFrom(bank, old(State()), regs, maintain, 0);
        State() == e.s && emit.Appended(old(emit.log), old(emit.ptr), e.code)
    {
      ghost var total := FlushFrom(bank, State(), regs, maintain, 0);
      ghost var done: seq<Insn> := [];
      var i := 0;
      while i < GUEST_COUNT
        invariant i <= GUEST_COUNT && Valid()
        invariant var rest := FlushFrom(bank, State(), regs, maintain, i);
          rest.s == total.s && done + rest.code == total.code
        invariant emit.Appended(old(emit.log), old(emit.ptr), done)
        decreases GUEST_COUNT - i
      {
        ghost var st := FlushStep(bank, State(), regs, maintain, i);
        ghost var log1, ptr1 := emit.log, emit.ptr;
        FlushFromAdvance(bank, State(), regs, maintain, i, done, total);
        i := FlushOne(regs, maintain, i);
        emit.AppendedTwice(old(emit.log), old(emit.ptr), done, log1, ptr1, st.0.code);
        done := done + st.0.code;
      }
    }

    /** One iteration of the loop of FlushRegisters: entry i is skipped, stored
        together with entry i + 1, or flushed on its own. */
    method FlushOne(regs: set<nat>, maintain: bool, i: nat) returns (next: nat)
      requires Valid() && i < GUEST_COUNT
      modifies this, guest, emit
      ensures Valid()
      ensures var st := FlushStep(bank, old(State()), regs, maintain, i);
        next == st.1 && State() == st.0.s && emit.Appended(old(emit.log), old(emit.ptr), st.0.code)
    {
      if i in regs {
        if bank == Gpr && i < 31 && i + 1 in regs && guest[i].dirty && guest[i + 1].dirty
           && guest[i].kind == Reg && guest[i + 1].kind == Reg
        {
          StorePair(i, maintain);
          return i + 2;
        }
        FlushRegister(i, maintain);
      }
      return i + 1;
    }

    /** The paired store of Arm64GPRCache::FlushRegisters. */
    method StorePair(i: nat, maintain: bool)
      requires Valid() && bank == Gpr && i < 31
      requires guest[i].dirty && guest[i + 1].dirty && guest[i].kind == Reg && guest[i + 1].kind == Reg
      modifies this, guest, emit
      ensures Valid()
      ensures var e := PairEffect(old(State()), i, maintain);
        State() == e.s && emit.Appended(old(emit.log), old(emit.ptr), e.code)
    {
      PairKeepsInv(State(), i, maintain);
      var rx1 := GprR(i);
      var rx2 := GprR(i + 1);
      emit.Emit(StpState(32, rx1, rx2, GprField(i)));
      if !maintain {
        UnlockRegister(rx1);
        UnlockRegister(rx2);
        guest[i] := guest[i].(kind := NotLoaded);
        guest[i + 1] := guest[i + 1].(kind := NotLoaded);
      }
    }

    /** The set of guest registers Arm64GPRCache::Flush hands to FlushRegisters. */
    method GprFlushSetOf(mode: FlushMode, used: set<nat>) returns (toFlush: set<nat>)
      requires guest.Length == GUEST_COUNT
      ensures toFlush == GprFlushSet(guest[..], mode, used)
    {
      toFlush := {};
      for i := 0 to GUEST_COUNT
        invariant forall j: nat :: j in toFlush <==> j < i && j in GprFlushSet(guest[..], mode, used)
      {
        var flush := true;
        if mode == FlushInterpreter && i !in used {
          flush := false;
        }
        if guest[i].kind == Reg {
          flush := if IsCalleeSaved(Gpr, guest[i].reg) then flush else true;
        }
        if flush {
          toFlush := toFlush + {i};
        }
      }
    }

    /** Flush(mode, op): `used` is the set of guest registers the instruction `op`
        reads or writes, consulted only in FLUSH_INTERPRETER mode. */
    method Flush(mode: FlushMode, used: set<nat>)
      requires Valid()
      modifies this, guest, emit
      ensures Valid()
      ensures var e := FlushModeEffect(bank, old(State()), mode, used);
        State() == e.s && emit.Appended(old(emit.log), old(emit.ptr), e.code)
    {
      if bank == Gpr {
        var toFlush := GprFlushSetOf(mode, used);
        FlushRegisters(toFlush, mode == FlushMaintainState);
      } else {
        FprFlush(mode == FlushMaintainState);
      }
    }

    /** Arm64FPRCache::Flush: every host-held entry is flushed. */
    method FprFlush(maintain: bool)
      requires Valid() && bank == Fpr
      modifies this, guest, emit
      ensures Valid()
      ensures var e := FprFlushFrom(old(State()), maintain, 0);
        State() == e.s && emit.Appended(old(emit.log), old(emit.ptr), e.code)
    {
      ghost var total := FprFlushFrom(State(), maintain, 0);
      ghost var done: seq<Insn> := [];
      for i := 0 to GUEST_COUNT
        invariant Valid()
        invariant var rest := FprFlushFrom(State(), maintain, i);
          rest.s == total.s && done + rest.code == total.code
        invariant emit.Appended(old(emit.log), old(emit.ptr), done)
      {
        ghost var f := FlushEffect(bank, State(), i, maintain);
        ghost var log1, ptr1 := emit.log, emit.ptr;
        FprFlushAdvance(State(), maintain, i, done, total);
        FlushIfHeld(i, maintain);
        emit.AppendedTwice(old(emit.log), old(emit.ptr), done, log1, ptr1, f.code);
        done := done + f.code;
      }
    }

    /** The body of the loop of Arm64FPRCache::Flush. */
    method FlushIfHeld(i: nat, maintain: bool)
      requires Valid() && bank == Fpr && i < GUEST_COUNT
      modifies this, guest, emit
      ensures Valid()
      ensures var f := FlushEffect(bank, old(State()), i, maintain);
        State() == f.s && emit.Appended(old(emit.log), old(emit.ptr), f.code)
    {
      if guest[i].kind != NotLoaded && guest[i].kind != Imm {
        FlushRegister(i, maintain);
      }
    }

    /** Arm64GPRCache::R: the host register holding guest register p, loading or
        materialising it if needed. */
    method GprR(p: nat) returns (r: ARM64Reg)
      requires Valid() && bank == Gpr && p < GUEST_COUNT
      modifies this, guest, emit
      ensures Valid()
      ensures var er := GprReadEffect(old(State()), p);
        r == er.1 && State() == er.0.s && emit.Appended(old(emit.log), old(emit.ptr), er.0.code)
    {
      GprReadKeepsInv(State(), p);
      IncrementAllUsed();
      guest[p] := guest[p].(lastUsed := 0);
      var o := guest[p];
      if o.kind == Reg {
        r := o.reg;
      } else if o.kind == Imm {
        r := GetReg();
        emit.Emit(Movi(r, o.imm));
        guest[p] := guest[p].(kind := Reg, reg := r, dirty := true);
      } else if o.kind == NotLoaded {
        r := GetReg();
        guest[p] := guest[p].(kind := Reg, reg := r, dirty := false);
        emit.Emit(LdrState(32, r, GprField(p)));
      } else {
        r := InvalidReg;
      }
    }

    /** Arm64FPRCache::R(p, only_lower). */
    method FprR(p: nat, onlyLower: bool) returns (r: ARM64Reg)
      requires Valid() && bank == Fpr && p < GUEST_COUNT
      modifies this, guest, emit
      ensures Valid()
      ensures var er := FprReadEffect(old(State()), p, onlyLower);
        r == er.1 && State() == er.0.s && emit.Appended(old(emit.log), old(emit.ptr), er.0.code)
    {
      FprReadKeepsInv(State(), p, onlyLower);
      IncrementAllUsed();
      guest[p] := guest[p].(lastUsed := 0);
      var o := guest[p];
      if o.kind == Reg {
        r := o.reg;
      } else if o.kind == LowerPair {
        if !onlyLower {
          FillUpperHalf(p);
          guest[p] := guest[p].(kind := Reg);
        }
        r := o.reg;
      } else if o.kind == NotLoaded {
        r := GetReg();
        guest[p] := guest[p].(kind := if onlyLower then LowerPair else Reg, reg := r, dirty := false);
        emit.Emit(LdrState(if onlyLower then 64 else 128, r, PsField(p, 0)));
      } else {
        r := InvalidReg;
      }
    }

    /** Loading ps[p][1] into the high half of the lower pair p through a temporary,
        as R and BindToRegister of the floating cache do. */
    method FillUpperHalf(p: nat)
      requires Valid() && bank == Fpr && p < GUEST_COUNT && guest[p].kind == LowerPair && guest[p].lastUsed == 0
      modifies this, guest, emit
      ensures Valid()
      ensures State() == UnlockHost(AfterGetReg(old(State())), Allocated(old(State())))
      ensures guest[p] == old(guest[p])
      ensures emit.Appended(old(emit.log), old(emit.ptr),
        VictimCode(Fpr, old(State())) + UpperHalfCode(p, old(guest[p]).reg, Allocated(old(State()))))
    {
      ghost var s := State();
      UpperHalfKeepsInv(s, p);
      var tmp := GetReg();
      emit.Emit(LdrState(64, tmp, PsField(p, 1)));
      emit.Emit(Ins(64, guest[p].reg, 1, tmp, 0));
      UnlockRegister(tmp);
    }

    /** Arm64GPRCache::BindToRegister(p, do_load). */
    method GprBindToRegister(p: nat, doLoad: bool)
      requires Valid() && bank == Gpr && p < GUEST_COUNT
      modifies this, guest, emit
      ensures Valid()
      ensures var e := GprBindEffect(old(State()), p, doLoad);
        State() == e.s && emit.Appended(old(emit.log), old(emit.ptr), e.code)
    {
      GprBindKeepsInv(State(), p, doLoad);
      guest[p] := guest[p].(lastUsed := 0, dirty := true);
      if guest[p].kind == NotLoaded {
        var t := GetReg();
        guest[p] := guest[p].(kind := Reg, reg := t);
        if doLoad {
          emit.Emit(LdrState(32, t, GprField(p)));
        }
      }
    }

    /** Arm64FPRCache::BindToRegister(p, do_load, only_lower). */
    method FprBindToRegister(p: nat, doLoad: bool, onlyLower: bool)
      requires Valid() && bank == Fpr && p < GUEST_COUNT
      modifies this, guest, emit
      ensures Valid()
      ensures var e := FprBindEffect(old(State()), p, doLoad, onlyLower);
        State() == e.s && emit.Appended(old(emit.log), old(emit.ptr), e.code)
    {
      FprBindKeepsInv(State(), p, doLoad, onlyLower);
      var wasDirty := guest[p].dirty;
      guest[p] := guest[p].(lastUsed := 0, dirty := true);
      var o := guest[p];
      if o.kind == NotLoaded {
        var t := GetReg();
        guest[p] := guest[p].(kind := if onlyLower then LowerPair else Reg, reg := t);
        if doLoad {
          emit.Emit(LdrState(if onlyLower then 64 else 128, t, PsField(p, 0)));
        }
      } else if o.kind == LowerPair {
        if !onlyLower {
          if doLoad {
            FillUpperHalf(p);
          }
          guest[p] := guest[p].(kind := Reg);
        }
      } else if o.kind == Reg {
        if onlyLower {
          if wasDirty {
            emit.Emit(StrState(128, o.reg, PsField(p, 0)));
          }
          guest[p] := guest[p].(kind := LowerPair);
        }
      }
    }

    /** Arm64GPRCache::SetImmediate. */
    method SetImmediate(p: nat, imm: u32)
      requires Valid() && bank == Gpr && p < GUEST_COUNT
      modifies this, guest
      ensures Valid()
      ensures State() == SetImmediateEffect(old(State()), p, imm)
    {
      SetImmediateKeepsInv(State(), p, imm);
      if guest[p].kind == Reg {
        UnlockRegister(guest[p].reg);
      }
      guest[p] := guest[p].(kind := Imm, imm := imm);
    }

    /** GetCallerSavedUsed: the register mask of the locked host registers a call
        would clobber. */
    method GetCallerSavedUsed() returns (mask: set<nat>)
      ensures mask == CallerSavedUsed(bank, hosts)
    {
      mask := {};
      for k := 0 to |hosts|
        invariant mask == CallerSavedUsed(bank, hosts[..k])
      {
        assert hosts[..k + 1] == hosts[..k] + [hosts[k]];
        CallerSavedUsedSnoc(bank, hosts[..k], hosts[k]);
        if hosts[k].locked && (bank == Fpr || !IsCalleeSaved(Gpr, hosts[k].reg)) {
          mask := mask + {BitIndex(hosts[k].reg)};
        }
      }
      assert hosts[..|hosts|] == hosts;
    }

    /** FlushByHost(r): flush the first guest entry held in `r`, if any. */
    method FlushByHost(r: ARM64Reg)
      requires Valid()
      modifies this, guest, emit
      ensures Valid()
      ensures var e := FlushByHostEffect(bank, old(State()), r);
        State() == e.s && emit.Appended(old(emit.log), old(emit.ptr), e.code)
    {
      ghost var s := State();
      FlushByHostKeepsInv(bank, s, r);
      for i := 0 to GUEST_COUNT
        invariant State() == s && emit.log == old(emit.log) && emit.ptr == old(emit.ptr)
        invariant FirstHolder(bank, s.gs, r, i) == FirstHolder(bank, s.gs, r, 0)
      {
        var o := guest[i];
        var holds := if bank == Gpr then o.kind == Reg else o.kind != NotLoaded && o.kind != Imm;
        if holds && o.reg == r {
          FlushRegister(i, false);
          return;
        }
      }
    }

    /** Lock(regs...): each listed host register is taken away from any guest value it
        holds and reserved. */
    method Lock(regs: seq<ARM64Reg>)
      requires Valid()
      modifies this, guest, emit
      ensures Valid()
      ensures var e := LockFrom(bank, old(State()), regs, true, 0);
        State() == e.s && emit.Appended(old(emit.log), old(emit.ptr), e.code)
    {
      LockOrUnlock(regs, true);
    }

    /** Unlock(regs...): each listed host register is released. */
    method Unlock(regs: seq<ARM64Reg>)
      requires Valid()
      modifies this, guest, emit
      ensures Valid()
      ensures var e := LockFrom(bank, old(State()), regs, false, 0);
        State() == e.s && emit.Appended(old(emit.log), old(emit.ptr), e.code)
    {
      LockOrUnlock(regs, false);
    }

    method LockOrUnlock(regs: seq<ARM64Reg>, lock: bool)
      requires Valid()
      modifies this, guest, emit
      ensures Valid()
      ensures var e := LockFrom(bank, old(State()), regs, lock, 0);
        State() == e.s && emit.Appended(old(emit.log), old(emit.ptr), e.code)
    {
      ghost var total := LockFrom(bank, State(), regs, lock, 0);
      ghost var done: seq<Insn> := [];
      for k := 0 to |regs|
        invariant Valid()
        invariant var rest := LockFrom(bank, State(), regs, lock, k);
          rest.s == total.s && done + rest.code == total.code
        invariant emit.Appended(old(emit.log), old(emit.ptr), done)
      {
        ghost var f := FlushByHostEffect(bank, State(), regs[k]);
        ghost var log1, ptr1 := emit.log, emit.ptr;
        LockFromAdvance(bank, State(), regs, lock, k, done, total);
        LockOne(regs[k], lock);
        emit.AppendedTwice(old(emit.log), old(emit.ptr), done, log1, ptr1, f.code);
        done := done + f.code;
      }
    }

    /** One register of Lock/Unlock: FlushByHost, then LockRegister or UnlockRegister. */
    method LockOne(r: ARM64Reg, lock: bool)
      requires Valid()
      modifies this, guest, emit
      ensures Valid()
      ensures var f := FlushByHostEffect(bank, old(State()), r);
        State() == f.s.(hs := SetLock(f.s.hs, r, lock)) && emit.Appended(old(emit.log), old(emit.ptr), f.code)
    {
      LockStepKeepsInv(bank, State(), r, lock);
      FlushByHost(r);
      if lock {
        LockRegister(r);
      } else {
        UnlockRegister(r);
      }
    }
  }

  // Small views of the transition lemmas, for the methods above.

  lemma PairKeepsInv(s: CacheState, i: nat, maintain: bool)
    requires Inv(Gpr, s) && i < 31
    requires s.gs[i].dirty && s.gs[i + 1].dirty && s.gs[i].kind == Reg && s.gs[i + 1].kind == Reg
    ensures Inv(Gpr, PairEffect(s, i, maintain).s)
    ensures Inv(Gpr, GprReadEffect(s, i).0.s) && Inv(Gpr, GprReadEffect(GprReadEffect(s, i).0.s, i + 1).0.s)
  {
    PairSpec(s, {i, i + 1}, i, maintain);
    GprReadKeepsInv(s, i);
    GprReadKeepsInv(GprReadEffect(s, i).0.s, i + 1);
  }

  lemma GprReadKeepsInv(s: CacheState, p: nat)
    requires Inv(Gpr, s) && p < |s.gs|
    ensures Inv(Gpr, Touch(AgeAll(s), p)) && Inv(Gpr, GprReadEffect(s, p).0.s)
  {
    UseSpec(Gpr, s, p);
    GprReadSpec(s, p);
  }

  lemma FprReadKeepsInv(s: CacheState, p: nat, onlyLower: bool)
    requires Inv(Fpr, s) && p < |s.gs|
    ensures Inv(Fpr, Touch(AgeAll(s), p)) && Inv(Fpr, FprReadEffect(s, p, onlyLower).0.s)
  {
    UseSpec(Fpr, s, p);
    FprReadSpec(s, p, onlyLower);
  }

  lemma UpperHalfKeepsInv(s: CacheState, p: nat)
    requires Inv(Fpr, s) && p < |s.gs| && s.gs[p].lastUsed == 0
    ensures Inv(Fpr, AfterGetReg(s)) && AfterGetReg(s).gs[p] == s.gs[p]
    ensures Inv(Fpr, UnlockHost(AfterGetReg(s), Allocated(s)))
  {
    GetRegSpec(Fpr, s);
    EvictSparesFresh(Fpr, s, p);
    GetRegThenUnlock(Fpr, s);
    EvictSpec(Fpr, s);
  }

  lemma GprBindKeepsInv(s: CacheState, p: nat, doLoad: bool)
    requires Inv(Gpr, s) && p < |s.gs|
    ensures Inv(Gpr, MarkWritten(s, p)) && Inv(Gpr, GprBindEffect(s, p, doLoad).s)
    ensures s.gs[p].kind != Imm ==> AfterGetReg(MarkWritten(s, p)).gs[p] == MarkWritten(s, p).gs[p]
  {
    MarkWrittenSpec(Gpr, s, p);
    GprBindSpec(s, p, doLoad);
    EvictSparesFresh(Gpr, MarkWritten(s, p), p);
  }

  lemma FprBindKeepsInv(s: CacheState, p: nat, doLoad: bool, onlyLower: bool)
    requires Inv(Fpr, s) && p < |s.gs|
    ensures Inv(Fpr, MarkWritten(s, p)) && Inv(Fpr, FprBindEffect(s, p, doLoad, onlyLower).s)
    ensures AfterGetReg(MarkWritten(s, p)).gs[p] == MarkWritten(s, p).gs[p]
  {
    MarkWrittenSpec(Fpr, s, p);
    FprBindSpec(s, p, doLoad, onlyLower);
    EvictSparesFresh(Fpr, MarkWritten(s, p), p);
  }

  lemma SetImmediateKeepsInv(s: CacheState, p: nat, imm: u32)
    requires Inv(Gpr, s) && p < |s.gs|
    ensures Inv(Gpr, SetImmediateEffect(s, p, imm))
  {
    SetImmediateSpec(s, p, imm);
  }

  /** One iteration of a loop that runs FlushFrom: what remains after the step is
      what remained before, less the step. */
  lemma FlushFromAdvance(bank: Bank, s: CacheState, regs: set<nat>, maintain: bool, i: nat,
                         done: seq<Insn>, total: Effect)
    requires |s.gs| == GUEST_COUNT && i < GUEST_COUNT
    requires FlushFrom(bank, s, regs, maintain, i).s == total.s
    requires done + FlushFrom(bank, s, regs, maintain, i).code == total.code
    ensures var st := FlushStep(bank, s, regs, maintain, i);
      var rest := FlushFrom(bank, st.0.s, regs, maintain, st.1);
      rest.s == total.s && (done + st.0.code) + rest.code == total.code
  {
    FlushFromUnfold(bank, s, regs, maintain, i);
    var st := FlushStep(bank, s, regs, maintain, i);
    var rest := FlushFrom(bank, st.0.s, regs, maintain, st.1);
    assert (done + st.0.code) + rest.code == done + (st.0.code + rest.code);
  }

  lemma LockFromAdvance(bank: Bank, s: CacheState, regs: seq<ARM64Reg>, lock: bool, k: nat,
                        done: seq<Insn>, total: Effect)
    requires k < |regs|
    requires LockFrom(bank, s, regs, lock, k).s == total.s
    requires done + LockFrom(bank, s, regs, lock, k).code == total.code
    ensures var f := FlushByHostEffect(bank, s, regs[k]);
      var rest := LockFrom(bank, f.s.(hs := SetLock(f.s.hs, regs[k], lock)), regs, lock, k + 1);
      rest.s == total.s && (done + f.code) + rest.code == total.code
  {
    var f := FlushByHostEffect(bank, s, regs[k]);
    var rest := LockFrom(bank, f.s.(hs := SetLock(f.s.hs, regs[k], lock)), regs, lock, k + 1);
    assert (done + f.code) + rest.code == done + (f.code + rest.code);
  }

  lemma FprFlushAdvance(s: CacheState, maintain: bool, i: nat, done: seq<Insn>, total: Effect)
    requires Inv(Fpr, s) && i < GUEST_COUNT
    requires FprFlushFrom(s, maintain, i).s == total.s
    requires done + FprFlushFrom(s, maintain, i).code == total.code
    ensures var f := FlushEffect(Fpr, s, i, maintain);
      var rest := FprFlushFrom(f.s, maintain, i + 1);
      rest.s == total.s && (done + f.code) + rest.code == total.code
  {
    var f := FlushEffect(Fpr, s, i, maintain);
    var rest := FprFlushFrom(f.s, maintain, i + 1);
    assert (done + f.code) + rest.code == done + (f.code + rest.code);
  }

  lemma FlushByHostKeepsInv(bank: Bank, s: CacheState, r: ARM64Reg)
    requires Inv(bank, s)
    ensures Inv(bank, FlushByHostEffect(bank, s, r).s)
  {
    FlushByHostSpec(bank, s, r);
  }

  lemma LockStepKeepsInv(bank: Bank, s: CacheState, r: ARM64Reg, lock: bool)
    requires Inv(bank, s)
    ensures var f := FlushByHostEffect(bank, s, r);
      Inv(bank, f.s) && Inv(bank, f.s.(hs := SetLock(f.s.hs, r, lock)))
  {
    FlushByHostSpec(bank, s, r);
    LockStep(bank, s, r, lock);
  }

  lemma GetRegKeepsInv(bank: Bank, s: CacheState)
    requires Inv(bank, s)
    ensures Inv(bank, AfterGetReg(s))
    ensures CountUnlocked(s.hs) > 0 ==> AfterVictim(s) == s && VictimCode(bank, s) == []
  {
    GetRegSpec(bank, s);
  }

  lemma MostStaleIsEviction(bank: Bank, s: CacheState)
    requires Inv(bank, s) && CountUnlocked(s.hs) == 0
    ensures MostStaleEffect(bank, s) == Effect(AfterVictim(s), VictimCode(bank, s))
  {
    MostStaleSpec(bank, s);
  }

  lemma FlushKeepsInv(bank: Bank, s: CacheState, p: nat, maintain: bool)
    requires Inv(bank, s) && p < |s.gs|
    ensures Inv(bank, FlushEffect(bank, s, p, maintain).s)
  {
    FlushSpec(bank, s, p, maintain);
  }

  /** A temporary taken and given back leaves the eviction behind, which spares a
      nonzero immediate. */
  lemma TemporaryReleased(bank: Bank, s: CacheState, p: nat)
    requires Inv(bank, s) && p < |s.gs| && s.gs[p].kind == Imm && s.gs[p].imm != 0
    ensures UnlockHost(AfterGetReg(s), Allocated(s)) == AfterVictim(s)
    ensures Inv(bank, AfterVictim(s)) && Inv(bank, AfterGetReg(s)) && AfterVictim(s).gs[p] == s.gs[p]
  {
    GetRegThenUnlock(bank, s);
    GetRegSpec(bank, s);
    EvictEvolves(bank, s);
  }

  /** FlushRegister of an immediate, with the temporary's lock and unlock cancelled. */
  lemma ImmediateFlushEffect(s: CacheState, p: nat, maintain: bool)
    requires Inv(Gpr, s) && p < |s.gs| && s.gs[p].kind == Imm
    ensures var e := FlushEffect(Gpr, s, p, maintain);
      var o := s.gs[p];
      var s1 := if o.imm == 0 then s else AfterVictim(s);
      && Inv(Gpr, e.s) && Inv(Gpr, s1) && s1.gs[p] == o
      && e.s == (if maintain then s1 else Forget(s1, p))
      && e.code == (if o.imm == 0 then [StrState(32, WSP, GprField(p))]
                    else VictimCode(Gpr, s) + [Movi(Allocated(s), o.imm), StrState(32, Allocated(s), GprField(p))])
  {
    FlushSpec(Gpr, s, p, maintain);
    if s.gs[p].imm != 0 {
      TemporaryReleased(Gpr, s, p);
    }
  }
}
