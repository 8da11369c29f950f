/** The ARM64 JIT's register caches: one for the 32 guest general registers and one
    for the 32 guest paired-single/floating registers.

    Each guest register is either not loaded, a known immediate (general registers
    only), held in a host register, or held in the low 64 bits of a host vector
    register (floating registers only).  Host registers are kept in a fixed
    allocation order, each with a lock flag: a host register is locked while a guest
    binding or a scratch use owns it.

    The first half of the module describes the cache as a value (`CacheState`) and
    each operation as a transition on it together with the records it emits; the
    lemmas there carry the invariant and the properties the operations promise.  The
    class `RegCache.RegCache` is the mutable cache, each of its methods proved to
    perform the transition of the same name. */
module RegCacheState {
  import opened Wrappers
  import opened Arm64

  /** The two banks.  The C++ code splits them into two subclasses of one base. */
  datatype Bank = Gpr | Fpr

  /** REG_NOTLOADED, REG_IMM, REG_REG and REG_LOWER_PAIR. */
  datatype RegType = NotLoaded | Imm | Reg | LowerPair

  /** One guest register's entry: where its value is, whether the cached copy is newer
      than the one in the guest state block, and how many accesses ago it was used. */
  datatype OpArg = OpArg(kind: RegType, reg: ARM64Reg, imm: u32, dirty: bool, lastUsed: nat)
  {
    /** The value lives in host register `reg` (fully or in its low half). */
    predicate InHost()
    {
      kind == Reg || kind == LowerPair
    }
  }

  datatype HostReg = HostReg(reg: ARM64Reg, locked: bool)

  /** FLUSH_ALL, FLUSH_MAINTAIN_STATE and FLUSH_INTERPRETER. */
  datatype FlushMode = FlushAll | FlushMaintainState | FlushInterpreter

  const GUEST_COUNT: nat := 32

  const Unloaded: OpArg := OpArg(NotLoaded, InvalidReg, 0, false, 0)

  /** The host registers a bank allocates from, in the order it tries them: the
      callee-saved ones first, so that bindings survive calls as often as possible.
      General: W27..W19, then W18..W0, then W30.  Vector: Q8..Q15, then Q16..Q31, then
      Q7..Q0. */
  function AllocationOrder(bank: Bank): seq<ARM64Reg>
  {
    match bank
    case Gpr =>
      seq(9, k requires 0 <= k < 9 => W(27 - k)) + seq(19, k requires 0 <= k < 19 => W(18 - k)) + [W(30)]
    case Fpr =>
      seq(8, k requires 0 <= k < 8 => Q(8 + k)) + seq(16, k requires 0 <= k < 16 => Q(16 + k)) + seq(8, k requires 0 <= k < 8 => Q(7 - k))
  }

  /** The registers the AAPCS64 procedure call standard makes a callee preserve:
      X19-X28 (section 6.1.1) and V8-V15 (section 6.1.2; only their low 64 bits).
      Both lists in the source also hold INVALID_REG. */
  predicate IsCalleeSaved(bank: Bank, r: ARM64Reg)
  {
    match bank
    case Gpr =>
      var r64 := EncodeRegTo64(r);
      (r64.X? && 19 <= r64.n <= 28) || r64 == InvalidReg
    case Fpr =>
      (r.Q? && 8 <= r.n <= 15) || r == InvalidReg
  }

  /** The bit a host register occupies in a register mask: its number. */
  function BitIndex(r: ARM64Reg): nat
  {
    match r
    case W(n) => n
    case X(n) => n
    case D(n) => n
    case Q(n) => n
    case _ => 0
  }

  lemma AllocationOrderShape(bank: Bank)
    ensures |AllocationOrder(bank)| == (if bank == Gpr then 29 else 32)
    ensures forall k | 0 <= k < |AllocationOrder(bank)| ::
      var r := AllocationOrder(bank)[k];
      (if bank == Gpr then r.W? else r.Q?) && r.n <= 31
      && IsCalleeSaved(bank, r) == (k < (if bank == Gpr then 9 else 8))
    ensures forall i, j | 0 <= i < j < |AllocationOrder(bank)| ::
      AllocationOrder(bank)[i].n != AllocationOrder(bank)[j].n
  {
  }

  /** No host register appears twice in an allocation order, and none is W28 or W29
      (general) or outside Q0..Q31 (vector). */
  lemma AllocationOrderDistinct(bank: Bank)
    ensures forall i, j | 0 <= i < j < |AllocationOrder(bank)| ::
      AllocationOrder(bank)[i] != AllocationOrder(bank)[j]
      && BitIndex(AllocationOrder(bank)[i]) != BitIndex(AllocationOrder(bank)[j])
    ensures forall k | 0 <= k < |AllocationOrder(bank)| ::
      AllocationOrder(bank)[k] != InvalidReg
      && (bank == Gpr ==> AllocationOrder(bank)[k] !in {W(28), W(29)})
      && BitIndex(AllocationOrder(bank)[k]) < 32
  {
    AllocationOrderShape(bank);
  }

  // ---------------------------------------------------------------------------
  // The cache as a value
  // ---------------------------------------------------------------------------

  /** The guest entries (indexed by guest register) and the host registers (in
      allocation order). */
  datatype CacheState = CacheState(gs: seq<OpArg>, hs: seq<HostReg>)

  function Hosts(hs: seq<HostReg>): set<ARM64Reg>
  {
    set k | 0 <= k < |hs| :: hs[k].reg
  }

  function Locked(hs: seq<HostReg>): set<ARM64Reg>
  {
    set k | 0 <= k < |hs| && hs[k].locked :: hs[k].reg
  }

  /** Host registers some guest entry is bound to. */
  function Bound(gs: seq<OpArg>): set<ARM64Reg>
  {
    set p | 0 <= p < |gs| && gs[p].InHost() :: gs[p].reg
  }

  /** A scratch register: locked, but holding no guest value. */
  predicate Reserved(s: CacheState, r: ARM64Reg)
  {
    r in Locked(s.hs) && r !in Bound(s.gs)
  }

  predicate HostsInOrder(bank: Bank, hs: seq<HostReg>)
  {
    |hs| == |AllocationOrder(bank)|
    && forall k | 0 <= k < |hs| :: hs[k].reg == AllocationOrder(bank)[k]
  }

  predicate BankKind(bank: Bank, kind: RegType)
  {
    (bank == Gpr ==> kind != LowerPair) && (bank == Fpr ==> kind != Imm)
  }

  /** The cache invariant: 32 guest entries; the host list is the bank's allocation
      order; a host register holding a guest value is locked; no two guest entries
      share a host register; general entries are never lower pairs and floating
      entries never immediates.  A binding to INVALID_REG (what an allocation that
      found nothing free hands out) is outside the first two clauses. */
  ghost predicate Inv(bank: Bank, s: CacheState)
  {
    && |s.gs| == GUEST_COUNT
    && HostsInOrder(bank, s.hs)
    && (forall p | 0 <= p < |s.gs| && s.gs[p].InHost() && s.gs[p].reg != InvalidReg ::
          s.gs[p].reg in Locked(s.hs))
    && (forall p, q | 0 <= p < |s.gs| && 0 <= q < |s.gs| && p != q ::
          s.gs[p].InHost() && s.gs[q].InHost() && s.gs[p].reg != InvalidReg ==> s.gs[p].reg != s.gs[q].reg)
    && (forall p | 0 <= p < |s.gs| :: BankKind(bank, s.gs[p].kind))
  }

  /** Every host register with the name `r` gets lock flag `locked`. */
  function SetLock(hs: seq<HostReg>, r: ARM64Reg, locked: bool): (hs': seq<HostReg>)
    ensures |hs'| == |hs|
    ensures forall k | 0 <= k < |hs| :: hs'[k].reg == hs[k].reg
    ensures forall k | 0 <= k < |hs| :: hs'[k].locked == if hs[k].reg == r then locked else hs[k].locked
  {
    seq(|hs|, k requires 0 <= k < |hs| => if hs[k].reg == r then HostReg(r, locked) else hs[k])
  }

  lemma SetLockLocked(hs: seq<HostReg>, r: ARM64Reg)
    ensures Locked(SetLock(hs, r, false)) == Locked(hs) - {r}
    ensures r in Hosts(hs) ==> Locked(SetLock(hs, r, true)) == Locked(hs) + {r}
    ensures r !in Hosts(hs) ==> SetLock(hs, r, true) == hs && SetLock(hs, r, false) == hs
    ensures Hosts(SetLock(hs, r, true)) == Hosts(hs) && Hosts(SetLock(hs, r, false)) == Hosts(hs)
  {
    var off, on := SetLock(hs, r, false), SetLock(hs, r, true);
    forall h | h in Locked(hs) - {r} ensures h in Locked(off) {
      var k :| 0 <= k < |hs| && hs[k].locked && hs[k].reg == h;
      assert off[k].locked && off[k].reg == h;
    }
    if r in Hosts(hs) {
      var k :| 0 <= k < |hs| && hs[k].reg == r;
      assert on[k].locked && on[k].reg == r;
      forall h | h in Locked(hs) ensures h in Locked(on) {
        var j :| 0 <= j < |hs| && hs[j].locked && hs[j].reg == h;
        assert on[j].locked && on[j].reg == h;
      }
    }
    forall h | h in Hosts(hs) ensures h in Hosts(on) && h in Hosts(off) {
      var k :| 0 <= k < |hs| && hs[k].reg == h;
      assert on[k].reg == h && off[k].reg == h;
    }
  }

  /** Locking a free host register and unlocking it again restores the host list. */
  lemma LockUnlockRestores(hs: seq<HostReg>, k: nat)
    requires k < |hs| && !hs[k].locked
    requires forall i, j | 0 <= i < j < |hs| :: hs[i].reg != hs[j].reg
    ensures SetLock(SetLock(hs, hs[k].reg, true), hs[k].reg, false) == hs
  {
  }

  lemma HostsOfOrder(bank: Bank, hs: seq<HostReg>)
    requires HostsInOrder(bank, hs)
    ensures forall i, j | 0 <= i < j < |hs| :: hs[i].reg != hs[j].reg
    ensures InvalidReg !in Hosts(hs)
  {
    AllocationOrderDistinct(bank);
  }

  /** The host list Init builds from an allocation order: every register unlocked. */
  function Unlocked(order: seq<ARM64Reg>): (hs: seq<HostReg>)
    ensures |hs| == |order|
    ensures forall k | 0 <= k < |order| :: hs[k] == HostReg(order[k], false)
  {
    seq(|order|, k requires 0 <= k < |order| => HostReg(order[k], false))
  }

  function LockHost(s: CacheState, r: ARM64Reg): CacheState
  {
    s.(hs := SetLock(s.hs, r, true))
  }

  function UnlockHost(s: CacheState, r: ARM64Reg): CacheState
  {
    s.(hs := SetLock(s.hs, r, false))
  }

  /** OpArg::Flush: the entry no longer holds a value. */
  function Forget(s: CacheState, p: nat): CacheState
    requires p < |s.gs|
  {
    s.(gs := s.gs[p := s.gs[p].(kind := NotLoaded)])
  }

  /** Dropping a host binding: its host register is unlocked and the entry forgotten. */
  function Spill(s: CacheState, p: nat): CacheState
    requires p < |s.gs|
  {
    UnlockHost(Forget(s, p), s.gs[p].reg)
  }

  /** Binding entry `p` to host register `r` with the given kind and dirty bit. */
  function Bind(s: CacheState, p: nat, kind: RegType, r: ARM64Reg, dirty: bool): CacheState
    requires p < |s.gs|
  {
    s.(gs := s.gs[p := s.gs[p].(kind := kind, reg := r, dirty := dirty)])
  }

  /** IncrementAllUsed: every entry is one access older. */
  function AgeAll(s: CacheState): CacheState
  {
    s.(gs := seq(|s.gs|, q requires 0 <= q < |s.gs| => s.gs[q].(lastUsed := s.gs[q].lastUsed + 1)))
  }

  /** ResetLastUsed on entry `p`. */
  function Touch(s: CacheState, p: nat): CacheState
    requires p < |s.gs|
  {
    s.(gs := s.gs[p := s.gs[p].(lastUsed := 0)])
  }

  /** Replacing one entry changes which host registers are bound only in the old and
      the new entry's registers. */
  lemma BoundUpdate(gs: seq<OpArg>, p: nat, n: OpArg)
    requires p < |gs|
    ensures forall h | !(gs[p].InHost() && h == gs[p].reg) && !(n.InHost() && h == n.reg) ::
      h in Bound(gs[p := n]) <==> h in Bound(gs)
    ensures n.InHost() ==> n.reg in Bound(gs[p := n])
    ensures gs[p].InHost() ==> gs[p].reg in Bound(gs)
    ensures forall h | h in Bound(gs[p := n]) && !(n.InHost() && h == n.reg) :: h in Bound(gs)
  {
    var gs' := gs[p := n];
    forall h | h in Bound(gs) && !(gs[p].InHost() && h == gs[p].reg) ensures h in Bound(gs') {
      var q :| 0 <= q < |gs| && gs[q].InHost() && gs[q].reg == h;
      assert q != p && gs'[q] == gs[q];
    }
    forall h | h in Bound(gs') && !(n.InHost() && h == n.reg) ensures h in Bound(gs) {
      var q :| 0 <= q < |gs'| && gs'[q].InHost() && gs'[q].reg == h;
      assert q != p && gs'[q] == gs[q];
    }
    if n.InHost() {
      assert gs'[p] == n;
    }
  }

  lemma SpillKeepsInv(bank: Bank, s: CacheState, p: nat)
    requires Inv(bank, s) && p < |s.gs| && s.gs[p].InHost()
    ensures Inv(bank, Spill(s, p))
    ensures Locked(Spill(s, p).hs) == Locked(s.hs) - {s.gs[p].reg}
    ensures forall h :: Reserved(Spill(s, p), h) <==> Reserved(s, h)
  {
    var s' := Spill(s, p);
    var r := s.gs[p].reg;
    SetLockLocked(s.hs, r);
    BoundUpdate(s.gs, p, s'.gs[p]);
    forall q | 0 <= q < |s'.gs| && s'.gs[q].InHost() && s'.gs[q].reg != InvalidReg
      ensures s'.gs[q].reg in Locked(s'.hs)
    {
      assert q != p && s'.gs[q] == s.gs[q];
    }
  }

  lemma ForgetKeepsInv(bank: Bank, s: CacheState, p: nat)
    requires Inv(bank, s) && p < |s.gs| && !s.gs[p].InHost()
    ensures Inv(bank, Forget(s, p))
    ensures Forget(s, p).hs == s.hs && Bound(Forget(s, p).gs) == Bound(s.gs)
  {
    BoundUpdate(s.gs, p, Forget(s, p).gs[p]);
  }

  lemma AgeKeepsInv(bank: Bank, s: CacheState, p: nat)
    requires Inv(bank, s) && p < |s.gs|
    ensures Inv(bank, AgeAll(s)) && Inv(bank, Touch(s, p))
    ensures Bound(AgeAll(s).gs) == Bound(s.gs) && Bound(Touch(s, p).gs) == Bound(s.gs)
  {
    var a, t := AgeAll(s), Touch(s, p);
    forall h | h in Bound(s.gs) ensures h in Bound(a.gs) && h in Bound(t.gs) {
      var q :| 0 <= q < |s.gs| && s.gs[q].InHost() && s.gs[q].reg == h;
      assert a.gs[q].InHost() && a.gs[q].reg == h;
      assert t.gs[q].InHost() && t.gs[q].reg == h;
    }
  }

  /** Binding a free entry to a scratch register (or to INVALID_REG), or changing the
      kind of a host binding without moving it, keeps the invariant; every other
      scratch register stays a scratch register. */
  lemma BindKeepsInv(bank: Bank, s: CacheState, p: nat, kind: RegType, r: ARM64Reg, dirty: bool)
    requires Inv(bank, s) && p < |s.gs|
    requires kind == Reg || kind == LowerPair
    requires BankKind(bank, kind)
    requires if s.gs[p].InHost() then r == s.gs[p].reg else r == InvalidReg || Reserved(s, r)
    ensures Inv(bank, Bind(s, p, kind, r, dirty))
    ensures forall h | h != r :: Reserved(Bind(s, p, kind, r, dirty), h) <==> Reserved(s, h)
    ensures !Reserved(Bind(s, p, kind, r, dirty), r)
  {
    var s' := Bind(s, p, kind, r, dirty);
    BoundUpdate(s.gs, p, s'.gs[p]);
  }

  // ---------------------------------------------------------------------------
  // Allocation: choosing a register to evict, and taking the first free host
  // ---------------------------------------------------------------------------

  /** The scan FlushMostStaleRegister makes over entries 0..i-1: the index and age of
      the oldest host-held entry so far.  The choice starts at (0, 0) and only a
      strictly greater age replaces it. */
  function StaleScan(gs: seq<OpArg>, i: nat): (r: (nat, nat))
    requires i <= |gs|
    ensures r.1 > 0 ==> r.0 < i
    ensures r.1 == 0 ==> r.0 == 0
  {
    if i == 0 then (0, 0)
    else
      var prev := StaleScan(gs, i - 1);
      var o := gs[i - 1];
      if o.lastUsed > prev.1 && o.InHost() then (i - 1, o.lastUsed) else prev
  }

  /** The scan finds the greatest age among host-held entries, at the lowest index
      that has it; an age of 0 means no host-held entry has aged. */
  lemma {:induction false} StaleScanChoice(gs: seq<OpArg>, i: nat)
    requires i <= |gs|
    ensures StaleScan(gs, i).1 > 0 ==>
      gs[StaleScan(gs, i).0].InHost() && gs[StaleScan(gs, i).0].lastUsed == StaleScan(gs, i).1
    ensures forall q | 0 <= q < i && gs[q].InHost() :: gs[q].lastUsed <= StaleScan(gs, i).1
    ensures forall q | 0 <= q < StaleScan(gs, i).0 && gs[q].InHost() :: gs[q].lastUsed < StaleScan(gs, i).1
  {
    if i > 0 {
      StaleScanChoice(gs, i - 1);
    }
  }

  /** The entry FlushMostStaleRegister flushes as written: the scan's choice, which
      is entry 0 when no host-held entry has aged. */
  function MostStaleAsWritten(gs: seq<OpArg>): nat
    requires |gs| > 0
  {
    StaleScan(gs, |gs|).0
  }

  /** The scan's choice when it found an aged host-held entry; None when
      FlushMostStaleRegister falls back to entry 0. */
  function StaleVictim(gs: seq<OpArg>): (v: Option<nat>)
    ensures v.Some? ==> v.value < |gs|
  {
    var (p, amount) := StaleScan(gs, |gs|);
    if amount > 0 then Some(p) else None
  }

  /** The evicted entry holds a host register and is the oldest such entry (the
      lowest-numbered one among equals); there is none exactly when no host-held
      entry has been passed over since its last use. */
  lemma StaleVictimSpec(gs: seq<OpArg>)
    ensures StaleVictim(gs).Some? ==>
      var v := StaleVictim(gs).value;
      && gs[v].InHost() && gs[v].lastUsed > 0
      && (forall q | 0 <= q < |gs| && gs[q].InHost() :: gs[q].lastUsed <= gs[v].lastUsed)
      && (forall q | 0 <= q < v && gs[q].InHost() :: gs[q].lastUsed < gs[v].lastUsed)
    ensures StaleVictim(gs).None? <==> forall q | 0 <= q < |gs| && gs[q].InHost() :: gs[q].lastUsed == 0
  {
    StaleScanChoice(gs, |gs|);
    if StaleVictim(gs).None? {
      assert StaleScan(gs, |gs|).1 == 0;
    } else {
      var v := StaleVictim(gs).value;
      assert v == StaleScan(gs, |gs|).0 && gs[v].lastUsed == StaleScan(gs, |gs|).1;
    }
  }

  /** GetUnlockedRegisterCount, counted over the host list. */
  function CountUnlocked(hs: seq<HostReg>): nat
  {
    if hs == [] then 0 else CountUnlocked(hs[..|hs| - 1]) + (if hs[|hs| - 1].locked then 0 else 1)
  }

  lemma {:induction false} CountUnlockedZero(hs: seq<HostReg>)
    ensures CountUnlocked(hs) == 0 <==> forall k | 0 <= k < |hs| :: hs[k].locked
    ensures CountUnlocked(hs) <= |hs|
  {
    if hs != [] {
      var init := hs[..|hs| - 1];
      CountUnlockedZero(init);
      assert forall k | 0 <= k < |init| :: init[k] == hs[k];
    }
  }

  /** The first host register at or after `from` that is not locked. */
  function FirstUnlocked(hs: seq<HostReg>, from: nat): (k: Option<nat>)
    requires from <= |hs|
    decreases |hs| - from
    ensures k.Some? ==> from <= k.value < |hs| && !hs[k.value].locked
    ensures k.Some? ==> forall j | from <= j < k.value :: hs[j].locked
    ensures k.None? ==> forall j | from <= j < |hs| :: hs[j].locked
  {
    if from == |hs| then None
    else if !hs[from].locked then Some(from)
    else FirstUnlocked(hs, from + 1)
  }

  /** When the scan finds no aged host-held entry, FlushMostStaleRegister falls back
      to flushing entry 0.  The model skips that fallback when entry 0 is held in a
      host register (it has not aged since its last use, so its register may be in
      use) or is a nonzero immediate (its flush needs GetReg, which would come back
      here); an immediate 0 or an unloaded entry is flushed as written. */
  predicate FallbackSkipped(o: OpArg)
  {
    o.InHost() || (o.kind == Imm && o.imm != 0)
  }

  /** The entry GetReg's eviction flushes: only when no host register is free, the
      scan's choice, or else entry 0 when it is the immediate 0 (an unloaded entry 0
      is flushed too, but that changes nothing). */
  function Victim(s: CacheState): (v: Option<nat>)
    ensures v.Some? ==> v.value < |s.gs|
  {
    if CountUnlocked(s.hs) != 0 then None
    else match StaleVictim(s.gs)
      case Some(v) => Some(v)
      case None => if |s.gs| > 0 && s.gs[0].kind == Imm && s.gs[0].imm == 0 then Some(0) else None
  }

  /** The state once GetReg's eviction (if any) is done: a host-held victim is
      spilled, the immediate 0 is forgotten. */
  function AfterVictim(s: CacheState): (s': CacheState)
    ensures |s'.gs| == |s.gs|
  {
    match Victim(s)
    case Some(v) => if s.gs[v].InHost() then Spill(s, v) else Forget(s, v)
    case None => s
  }

  /** The field of the guest state block that is entry `p`'s home: gpr[p] or ps[p][0]. */
  function Home(bank: Bank, p: nat): StateField
  {
    if bank == Gpr then GprField(p) else PsField(p, 0)
  }

  /** Writing a host-held entry back to its home, as FlushRegister does: nothing when
      it is clean; a 32-bit store for a general register; for a floating register a
      128-bit store of both halves, or a 64-bit one for a lower pair. */
  function StoreCode(bank: Bank, p: nat, o: OpArg): seq<Insn>
  {
    if !o.dirty then []
    else [StrState(if bank == Gpr then 32 else if o.kind == Reg then 128 else 64, o.reg, Home(bank, p))]
  }

  /** What the eviction emits: a host-held victim's write-back, or the store of the
      zero register for the immediate 0 (the floating cache holds no immediates). */
  function VictimCode(bank: Bank, s: CacheState): seq<Insn>
  {
    match Victim(s)
    case Some(v) =>
      if s.gs[v].InHost() then StoreCode(bank, v, s.gs[v])
      else if bank == Gpr then [StrState(32, WSP, GprField(v))]
      else []
    case None => []
  }

  /** The host register GetReg hands out: the first free one after the eviction, or
      INVALID_REG. */
  function Allocated(s: CacheState): ARM64Reg
  {
    var hs := AfterVictim(s).hs;
    match FirstUnlocked(hs, 0)
    case Some(k) => hs[k].reg
    case None => InvalidReg
  }

  /** The state after GetReg: eviction, then the handed-out register locked. */
  function AfterGetReg(s: CacheState): (s': CacheState)
    ensures s'.gs == AfterVictim(s).gs
  {
    var s1 := AfterVictim(s);
    match FirstUnlocked(s1.hs, 0)
    case Some(k) => LockHost(s1, s1.hs[k].reg)
    case None => s1
  }

  /** GetReg's eviction step keeps the invariant and the set of scratch registers;
      it happens only when every host register is locked.  It then removes the most
      stale host-held entry, written back if dirty, and only an entry that has aged
      since its last use; when there is none, it stores and forgets entry 0 if that
      is the immediate 0 of the general cache, and otherwise does nothing. */
  lemma EvictSpec(bank: Bank, s: CacheState)
    requires Inv(bank, s)
    ensures Inv(bank, AfterVictim(s))
    ensures forall h :: Reserved(AfterVictim(s), h) <==> Reserved(s, h)
    ensures CountUnlocked(s.hs) > 0 ==> Victim(s).None?
    ensures Victim(s).Some? ==>
      var v := Victim(s).value;
      && (forall k | 0 <= k < |s.hs| :: s.hs[k].locked)
      && (forall q | 0 <= q < |s.gs| && s.gs[q].InHost() :: s.gs[q].lastUsed <= s.gs[v].lastUsed)
      && (s.gs[v].InHost() ==>
            s.gs[v].lastUsed > 0 && AfterVictim(s) == Spill(s, v) && VictimCode(bank, s) == StoreCode(bank, v, s.gs[v]))
      && (!s.gs[v].InHost() ==>
            && v == 0 && bank == Gpr && s.gs[0].kind == Imm && s.gs[0].imm == 0
            && (forall q | 0 <= q < |s.gs| && s.gs[q].InHost() :: s.gs[q].lastUsed == 0)
            && AfterVictim(s) == Forget(s, 0) && VictimCode(bank, s) == [StrState(32, WSP, GprField(0))])
    ensures Victim(s).None? ==> AfterVictim(s) == s && VictimCode(bank, s) == []
    ensures Victim(s).None? && CountUnlocked(s.hs) == 0 ==>
      (forall q | 0 <= q < |s.gs| && s.gs[q].InHost() :: s.gs[q].lastUsed == 0)
      && !(s.gs[0].kind == Imm && s.gs[0].imm == 0)
  {
    CountUnlockedZero(s.hs);
    StaleVictimSpec(s.gs);
    if v :| Victim(s) == Some(v) {
      if s.gs[v].InHost() {
        SpillKeepsInv(bank, s, v);
      } else {
        ForgetKeepsInv(bank, s, v);
      }
    }
  }

  /** Locking the first free host register: it becomes a scratch register, and it is
      the only register whose scratch status changes. */
  lemma LockFirstFreeSpec(bank: Bank, s: CacheState, k: nat)
    requires Inv(bank, s) && FirstUnlocked(s.hs, 0) == Some(k)
    ensures Inv(bank, LockHost(s, s.hs[k].reg))
    ensures s.hs[k].reg != InvalidReg
    ensures Reserved(LockHost(s, s.hs[k].reg), s.hs[k].reg) && !Reserved(s, s.hs[k].reg)
    ensures forall h | h != s.hs[k].reg :: Reserved(LockHost(s, s.hs[k].reg), h) <==> Reserved(s, h)
  {
    var t := s.hs[k].reg;
    HostsOfOrder(bank, s.hs);
    SetLockLocked(s.hs, t);
    assert t in Hosts(s.hs);
    assert t !in Locked(s.hs);
  }

  /** GetReg keeps the invariant.  With a free host register it evicts nothing and
      hands out the first free one in allocation order; only when every host register
      is locked does it evict, and then the most stale host-held entry, written back
      if dirty.  It returns INVALID_REG only when no host register is free even after
      that.  The register it hands out was not a scratch register before and is one
      afterwards; no other register changes from or to being one. */
  lemma GetRegSpec(bank: Bank, s: CacheState)
    requires Inv(bank, s)
    ensures Inv(bank, AfterGetReg(s))
    ensures CountUnlocked(s.hs) > 0 ==> AfterVictim(s) == s && VictimCode(bank, s) == []
    ensures Allocated(s) != InvalidReg ==>
      var k := FirstUnlocked(AfterVictim(s).hs, 0).value;
      && Allocated(s) == AfterVictim(s).hs[k].reg
      && (forall j | 0 <= j < k :: AfterVictim(s).hs[j].locked)
      && Reserved(AfterGetReg(s), Allocated(s)) && !Reserved(s, Allocated(s))
    ensures Allocated(s) == InvalidReg ==>
      AfterGetReg(s) == AfterVictim(s) && forall k | 0 <= k < |s.hs| :: AfterVictim(s).hs[k].locked
    ensures forall h | h != Allocated(s) :: Reserved(AfterGetReg(s), h) <==> Reserved(s, h)
  {
    EvictSpec(bank, s);
    var s1 := AfterVictim(s);
    match FirstUnlocked(s1.hs, 0)
    case Some(k) =>
      LockFirstFreeSpec(bank, s1, k);
    case None =>
  }

  /** Locking the register GetReg handed out and unlocking it again leaves only the
      eviction behind: a temporary costs no lock. */
  lemma GetRegThenUnlock(bank: Bank, s: CacheState)
    requires Inv(bank, s)
    ensures UnlockHost(AfterGetReg(s), Allocated(s)) == AfterVictim(s)
  {
    EvictSpec(bank, s);
    var s1 := AfterVictim(s);
    HostsOfOrder(bank, s1.hs);
    match FirstUnlocked(s1.hs, 0)
    case Some(k) =>
      LockUnlockRestores(s1.hs, k);
    case None =>
      SetLockLocked(s1.hs, InvalidReg);
  }

  // ---------------------------------------------------------------------------
  // The eviction as written
  // ---------------------------------------------------------------------------

  /** GetReg of the general cache with FlushMostStaleRegister as written, which flushes
      MostStaleAsWritten even when no host-held entry qualifies.  The nested
      GetReg -> FlushMostStaleRegister -> FlushRegister -> GetReg calls are followed
      for at most `fuel` levels; None means they had not ended by then.  Only the
      cache state and the handed-out register are modelled. */
  function GprGetRegAsWritten(s: CacheState, fuel: nat): (r: Option<(CacheState, ARM64Reg)>)
    requires |s.gs| == GUEST_COUNT
    ensures r.Some? ==> |r.value.0.gs| == GUEST_COUNT
    decreases fuel, 1
  {
    if fuel == 0 then None
    else
      var flushed := if CountUnlocked(s.hs) == 0 then GprFlushAsWritten(s, MostStaleAsWritten(s.gs), fuel - 1) else Some(s);
      match flushed
      case None => None
      case Some(s1) =>
        match FirstUnlocked(s1.hs, 0)
        case Some(k) => Some((LockHost(s1, s1.hs[k].reg), s1.hs[k].reg))
        case None => Some((s1, InvalidReg))
  }

  /** FlushRegister(p, false) of the general cache, allocating through
      GprGetRegAsWritten. */
  function GprFlushAsWritten(s: CacheState, p: nat, fuel: nat): (r: Option<CacheState>)
    requires |s.gs| == GUEST_COUNT && p < |s.gs|
    ensures r.Some? ==> |r.value.gs| == GUEST_COUNT
    decreases fuel, 2
  {
    var o := s.gs[p];
    if o.kind == Reg then Some(Spill(s, p))
    else if o.kind == Imm then
      if o.imm == 0 then Some(Forget(s, p))
      else
        match GprGetRegAsWritten(s, fuel)
        case None => None
        case Some((s1, t)) => Some(Forget(UnlockHost(s1, t), p))
    else Some(s)
  }

  /** A general cache with every host register locked, guest registers 1..29 held in
      them (all just used), guest register 0 the immediate 1, and 30, 31 unloaded. */
  function AllLockedState(): CacheState
  {
    var order := AllocationOrder(Gpr);
    CacheState(
      seq(32, q requires 0 <= q < 32 =>
        if q == 0 then OpArg(Imm, InvalidReg, 1, false, 0)
        else if q < 30 then OpArg(Reg, order[q - 1], 0, true, 0)
        else Unloaded),
      seq(|order|, k requires 0 <= k < |order| => HostReg(order[k], true)))
  }

  lemma AllLockedStateEntries()
    ensures |AllLockedState().gs| == GUEST_COUNT && |AllLockedState().hs| == |AllocationOrder(Gpr)|
    ensures forall k | 0 <= k < |AllLockedState().hs| ::
      AllLockedState().hs[k] == HostReg(AllocationOrder(Gpr)[k], true)
    ensures forall p | 0 <= p < GUEST_COUNT :: AllLockedState().gs[p].lastUsed == 0
    ensures forall p | 0 <= p < GUEST_COUNT && AllLockedState().gs[p].InHost() ::
      1 <= p < 30 && AllLockedState().gs[p].kind == Reg && AllLockedState().gs[p].reg == AllocationOrder(Gpr)[p - 1]
    ensures AllLockedState().gs[0].kind == Imm && AllLockedState().gs[0].imm != 0
  {
  }

  lemma LockedStateFacts(s: CacheState)
    requires |s.gs| == GUEST_COUNT && |s.hs| == |AllocationOrder(Gpr)|
    requires forall k | 0 <= k < |s.hs| :: s.hs[k] == HostReg(AllocationOrder(Gpr)[k], true)
    requires forall p | 0 <= p < GUEST_COUNT :: s.gs[p].lastUsed == 0
    requires forall p | 0 <= p < GUEST_COUNT && s.gs[p].InHost() ::
      1 <= p < 30 && s.gs[p].kind == Reg && s.gs[p].reg == AllocationOrder(Gpr)[p - 1]
    ensures Inv(Gpr, s)
    ensures CountUnlocked(s.hs) == 0
    ensures StaleScan(s.gs, GUEST_COUNT).1 == 0 && StaleScan(s.gs, GUEST_COUNT).0 == 0
  {
    AllocationOrderDistinct(Gpr);
    forall p | 0 <= p < |s.gs| && s.gs[p].InHost() && s.gs[p].reg != InvalidReg
      ensures s.gs[p].reg in Locked(s.hs)
    {
      assert s.hs[p - 1].locked && s.hs[p - 1].reg == s.gs[p].reg;
    }
    forall p, q | 0 <= p < |s.gs| && 0 <= q < |s.gs| && p != q && s.gs[p].InHost() && s.gs[q].InHost()
      ensures s.gs[p].reg != s.gs[q].reg
    {
      if p < q {
        assert AllocationOrder(Gpr)[p - 1] != AllocationOrder(Gpr)[q - 1];
      } else {
        assert AllocationOrder(Gpr)[q - 1] != AllocationOrder(Gpr)[p - 1];
      }
    }
    StaleScanChoice(s.gs, |s.gs|);
    CountUnlockedZero(s.hs);
  }

  /** That state satisfies the cache invariant, every host register is locked, and no
      host-held entry in it has aged, so the eviction as written picks entry 0. */
  lemma AllLockedStateFacts()
    ensures Inv(Gpr, AllLockedState())
    ensures CountUnlocked(AllLockedState().hs) == 0
    ensures MostStaleAsWritten(AllLockedState().gs) == 0
    ensures StaleScan(AllLockedState().gs, GUEST_COUNT).1 == 0
    ensures AllLockedState().gs[0].kind == Imm && AllLockedState().gs[0].imm != 0
  {
    AllLockedStateEntries();
    LockedStateFacts(AllLockedState());
  }

  /** On a state whose host registers are all locked, where the scan settles on
      entry 0 and entry 0 is a nonzero immediate, the eviction as written never ends:
      flushing entry 0 needs a temporary, and allocating it evicts entry 0 again. */
  lemma {:induction false} AsWrittenLoops(s: CacheState, fuel: nat)
    requires |s.gs| == GUEST_COUNT && CountUnlocked(s.hs) == 0 && MostStaleAsWritten(s.gs) == 0
    requires s.gs[0].kind == Imm && s.gs[0].imm != 0
    ensures GprGetRegAsWritten(s, fuel).None?
    decreases fuel
  {
    if fuel > 0 {
      AsWrittenLoops(s, fuel - 1);
      assert GprFlushAsWritten(s, 0, fuel - 1).None?;
    }
  }

  /** In particular the eviction as written never ends on AllLockedState. */
  lemma AsWrittenEvictionDiverges(fuel: nat)
    ensures GprGetRegAsWritten(AllLockedState(), fuel).None?
  {
    AllLockedStateFacts();
    AsWrittenLoops(AllLockedState(), fuel);
  }

  /** With the fallback skipped for a nonzero immediate, GetReg on a state whose
      host registers are all locked and whose host-held entries have not aged frees
      no register and returns INVALID_REG; it stores and forgets entry 0 when that is
      the immediate 0 and otherwise changes nothing.  In particular it stops on
      AllLockedState. */
  lemma CorrectedEvictionStops(s: CacheState)
    requires Inv(Gpr, s) && CountUnlocked(s.hs) == 0
    requires forall q | 0 <= q < |s.gs| && s.gs[q].InHost() :: s.gs[q].lastUsed == 0
    ensures Allocated(s) == InvalidReg
    ensures s.gs[0].kind == Imm && s.gs[0].imm == 0 ==>
      Victim(s) == Some(0) && AfterGetReg(s) == Forget(s, 0) && VictimCode(Gpr, s) == [StrState(32, WSP, GprField(0))]
    ensures !(s.gs[0].kind == Imm && s.gs[0].imm == 0) ==> Victim(s).None? && AfterGetReg(s) == s
  {
    StaleVictimSpec(s.gs);
    CountUnlockedZero(s.hs);
    assert AfterVictim(s).hs == s.hs;
  }

  /** GetReg of the floating cache with FlushMostStaleRegister as written, which
      spills entry 0 when no host-held entry has aged and entry 0 is held in a host
      register.  The floating FlushRegister allocates nothing, so this ends. */
  function FprGetRegAsWritten(s: CacheState): (r: (CacheState, ARM64Reg))
    requires |s.gs| > 0
  {
    var v := MostStaleAsWritten(s.gs);
    var s1 := if CountUnlocked(s.hs) == 0 && s.gs[v].InHost() then Spill(s, v) else s;
    match FirstUnlocked(s1.hs, 0)
    case Some(k) => (LockHost(s1, s1.hs[k].reg), s1.hs[k].reg)
    case None => (s1, InvalidReg)
  }

  /** Arm64FPRCache::R(p, false) of a lower pair over FprGetRegAsWritten: the new
      state and the temporary that carried the high half. */
  function FprUpgradeAsWritten(s: CacheState, p: nat): (r: (CacheState, ARM64Reg))
    requires p < |s.gs|
  {
    var s0 := Touch(AgeAll(s), p);
    var (s1, t) := FprGetRegAsWritten(s0);
    (Bind(UnlockHost(s1, t), p, Reg, s0.gs[p].reg, s0.gs[p].dirty), t)
  }

  /** A floating cache with every host register locked and one value held: guest
      register 0, as a dirty lower pair in the first register of the allocation
      order. */
  function LonePairState(): CacheState
  {
    var order := AllocationOrder(Fpr);
    CacheState(
      seq(32, q requires 0 <= q < 32 => if q == 0 then OpArg(LowerPair, order[0], 0, true, 0) else Unloaded),
      seq(|order|, k requires 0 <= k < |order| => HostReg(order[k], true)))
  }

  lemma LonePairStateFacts()
    ensures Inv(Fpr, LonePairState()) && CountUnlocked(LonePairState().hs) == 0
    ensures LonePairState().gs[0].kind == LowerPair && LonePairState().gs[0].reg != InvalidReg
    ensures forall q | 0 < q < |LonePairState().gs| :: !LonePairState().gs[q].InHost()
  {
    var s := LonePairState();
    AllocationOrderDistinct(Fpr);
    assert s.hs[0].locked && s.hs[0].reg == s.gs[0].reg;
    CountUnlockedZero(s.hs);
  }

  /** On a floating cache whose host registers are all locked and whose only held
      value is guest register 0 as a lower pair, R(0, false) as written evicts guest
      register 0 inside its own upgrade: the temporary that is to carry ps[0][1] is
      guest 0's own host register, so the load overwrites the low half it was to
      keep, and guest 0 ends bound to a host register that is no longer locked. */
  lemma UpgradeAsWrittenSelfEvicts(s: CacheState)
    requires Inv(Fpr, s) && CountUnlocked(s.hs) == 0 && s.gs[0].kind == LowerPair && s.gs[0].reg != InvalidReg
    requires forall q | 0 < q < |s.gs| :: !s.gs[q].InHost()
    ensures FprUpgradeAsWritten(s, 0).1 == s.gs[0].reg
    ensures var s' := FprUpgradeAsWritten(s, 0).0;
      s'.gs[0].InHost() && s'.gs[0].reg != InvalidReg && s'.gs[0].reg !in Locked(s'.hs)
    ensures !Inv(Fpr, FprUpgradeAsWritten(s, 0).0)
  {
    var r := s.gs[0].reg;
    var s0 := Touch(AgeAll(s), 0);
    UseSpec(Fpr, s, 0);
    HostsOfOrder(Fpr, s.hs);
    CountUnlockedZero(s.hs);
    var k :| 0 <= k < |s.hs| && s.hs[k].reg == r;
    StaleScanChoice(s0.gs, |s0.gs|);
    assert StaleScan(s0.gs, |s0.gs|).1 == 0;
    var s1 := Spill(s0, 0);
    assert s1.hs == SetLock(s.hs, r, false);
    assert FirstUnlocked(s1.hs, 0) == Some(k);
    SetLockLocked(SetLock(s1.hs, r, true), r);
  }

  /** In particular on LonePairState. */
  lemma LonePairUpgradeAsWritten()
    ensures FprUpgradeAsWritten(LonePairState(), 0).1 == LonePairState().gs[0].reg
    ensures !Inv(Fpr, FprUpgradeAsWritten(LonePairState(), 0).0)
  {
    LonePairStateFacts();
    UpgradeAsWrittenSelfEvicts(LonePairState());
  }

  /** The corrected eviction keeps guest register 0 in place on such a state: the
      upgrade's temporary is INVALID_REG, and guest 0 becomes a full register in its
      own host register with the invariant kept. */
  lemma UpgradeCorrectedKeepsPair(s: CacheState)
    requires Inv(Fpr, s) && CountUnlocked(s.hs) == 0 && s.gs[0].kind == LowerPair
    requires forall q | 0 < q < |s.gs| :: !s.gs[q].InHost()
    ensures Allocated(Touch(AgeAll(s), 0)) == InvalidReg
    ensures var e := FprReadEffect(s, 0, false).0;
      Inv(Fpr, e.s) && e.s.gs[0].kind == Reg && e.s.gs[0].reg == s.gs[0].reg
  {
    var s0 := Touch(AgeAll(s), 0);
    UseSpec(Fpr, s, 0);
    StaleVictimSpec(s0.gs);
    CountUnlockedZero(s0.hs);
    FprReadSpec(s, 0, false);
  }

  // ---------------------------------------------------------------------------
  // The operations as transitions
  // ---------------------------------------------------------------------------

  /** An operation's outcome: the new cache state and the records it emitted. */
  datatype Effect = Effect(s: CacheState, code: seq<Insn>)

  /** Two entries hold the same value in the same place (ages aside). */
  predicate SameBinding(o: OpArg, n: OpArg)
  {
    o.kind == n.kind && o.reg == n.reg && o.imm == n.imm && o.dirty == n.dirty
  }

  /** What a flush may do to an entry it was not asked to flush (an eviction): leave
      it where it is, or drop its value once a value that must go home has gone. */
  predicate Evolved(bank: Bank, q: nat, o: OpArg, n: OpArg, stored: set<StateField>)
  {
    SameBinding(o, n) || (o.kind != NotLoaded && n.kind == NotLoaded && (MustStore(o) ==> Home(bank, q) in stored))
  }

  /** An entry whose flush writes its value home: an immediate, or a dirty host
      binding. */
  predicate MustStore(o: OpArg)
  {
    o.kind == Imm || (o.InHost() && o.dirty)
  }

  /** Arm64GPRCache::FlushRegister and Arm64FPRCache::FlushRegister. */
  function FlushEffect(bank: Bank, s: CacheState, p: nat, maintain: bool): (e: Effect)
    requires p < |s.gs|
    ensures |e.s.gs| == |s.gs|
  {
    var o := s.gs[p];
    if bank == Gpr then
      if o.kind == Reg then
        Effect(if maintain then s else Spill(s, p), StoreCode(Gpr, p, o))
      else if o.kind == Imm then
        if o.imm == 0 then
          Effect(if maintain then s else Forget(s, p), [StrState(32, WSP, GprField(p))])
        else
          var t := Allocated(s);
          var s1 := UnlockHost(AfterGetReg(s), t);
          Effect(if maintain then s1 else Forget(s1, p),
                 VictimCode(Gpr, s) + [Movi(t, o.imm), StrState(32, t, GprField(p))])
      else Effect(s, [])
    else if o.InHost() then
      Effect(if maintain then s else Spill(s, p), StoreCode(Fpr, p, o))
    else Effect(s, [])
  }

  /** The eviction keeps every entry it does not evict and writes an evicted value
      home when it must; it leaves an entry that holds no host register alone, but
      for the immediate 0 at entry 0. */
  lemma EvictEvolves(bank: Bank, s: CacheState)
    requires Inv(bank, s)
    ensures forall q | 0 <= q < |s.gs| ::
      && Evolved(bank, q, s.gs[q], AfterVictim(s).gs[q], StateStores(VictimCode(bank, s)))
      && AfterVictim(s).gs[q].lastUsed == s.gs[q].lastUsed
      && (!s.gs[q].InHost() && !(q == 0 && s.gs[q].kind == Imm && s.gs[q].imm == 0) ==> AfterVictim(s).gs[q] == s.gs[q])
  {
    EvictSpec(bank, s);
    if v :| Victim(s) == Some(v) {
      assert StateStores(VictimCode(bank, s)) == if MustStore(s.gs[v]) then {Home(bank, v)} else {};
    }
  }

  /** Code appended later keeps the stores made earlier. */
  lemma StoresGrow(a: seq<Insn>, b: seq<Insn>)
    ensures StateStores(a) <= StateStores(a + b) && StateStores(b) <= StateStores(a + b)
  {
    StateStoresAppend(a, b);
  }

  /** FlushRegister of a general entry keeps the invariant and the scratch registers.
      A host binding is stored only if dirty; an immediate is always stored, 0 from
      the zero register without touching the host list, any other value through a
      temporary that is unlocked again.  Without maintain_state the entry ends
      unloaded and its host register unlocked; with it the entry is unchanged.  Any
      other entry changes only by being evicted for the temporary. */
  lemma GprFlushSpec(s: CacheState, p: nat, maintain: bool)
    requires Inv(Gpr, s) && p < |s.gs|
    ensures var e := FlushEffect(Gpr, s, p, maintain);
      && Inv(Gpr, e.s)
      && (forall h :: Reserved(e.s, h) <==> Reserved(s, h))
      && (MustStore(s.gs[p]) ==> GprField(p) in StateStores(e.code))
      && (s.gs[p].kind == Reg && !s.gs[p].dirty ==> e.code == [])
      && (s.gs[p].kind == Imm && s.gs[p].imm == 0 ==> e.code == [StrState(32, WSP, GprField(p))] && e.s.hs == s.hs)
      && (maintain ==> SameBinding(s.gs[p], e.s.gs[p]))
      && (!maintain ==> e.s.gs[p].kind == NotLoaded)
      && (!maintain && s.gs[p].kind == Reg ==> s.gs[p].reg !in Locked(e.s.hs))
      && (forall q | 0 <= q < |s.gs| && q != p :: Evolved(Gpr, q, s.gs[q], e.s.gs[q], StateStores(e.code)))
      && (forall q | 0 <= q < |s.gs| :: e.s.gs[q].lastUsed == s.gs[q].lastUsed)
  {
    var o := s.gs[p];
    var e := FlushEffect(Gpr, s, p, maintain);
    if o.kind == Reg {
      if !maintain {
        SpillKeepsInv(Gpr, s, p);
      }
    } else if o.kind == Imm {
      if o.imm == 0 {
        if !maintain {
          ForgetKeepsInv(Gpr, s, p);
        }
      } else {
        GprFlushImmSpec(s, p, maintain);
      }
    }
  }

  /** The nonzero-immediate case of GprFlushSpec: a scratch register is taken (perhaps
      evicting another entry), loaded with the value, stored home and given back. */
  lemma GprFlushImmSpec(s: CacheState, p: nat, maintain: bool)
    requires Inv(Gpr, s) && p < |s.gs| && s.gs[p].kind == Imm && s.gs[p].imm != 0
    ensures var e := FlushEffect(Gpr, s, p, maintain);
      && Inv(Gpr, e.s)
      && (forall h :: Reserved(e.s, h) <==> Reserved(s, h))
      && GprField(p) in StateStores(e.code)
      && (maintain ==> SameBinding(s.gs[p], e.s.gs[p]))
      && (!maintain ==> e.s.gs[p].kind == NotLoaded)
      && (forall q | 0 <= q < |s.gs| && q != p :: Evolved(Gpr, q, s.gs[q], e.s.gs[q], StateStores(e.code)))
      && (forall q | 0 <= q < |s.gs| :: e.s.gs[q].lastUsed == s.gs[q].lastUsed)
  {
    var o := s.gs[p];
    var t := Allocated(s);
    GetRegThenUnlock(Gpr, s);
    EvictSpec(Gpr, s);
    EvictEvolves(Gpr, s);
    var s1 := AfterVictim(s);
    assert s1.gs[p] == o;
    if !maintain {
      ForgetKeepsInv(Gpr, s1, p);
    }
    StoresGrow(VictimCode(Gpr, s), [Movi(t, o.imm), StrState(32, t, GprField(p))]);
    StateStoresAppend([Movi(t, o.imm)], [StrState(32, t, GprField(p))]);
  }

  /** FlushRegister of a floating entry keeps the invariant and the scratch registers;
      it writes a dirty host-held value home (128 bits for a full register, 64 for a
      lower pair), unbinds it unless maintain_state is set, and touches nothing else. */
  lemma FprFlushSpec(s: CacheState, p: nat, maintain: bool)
    requires Inv(Fpr, s) && p < |s.gs|
    ensures var e := FlushEffect(Fpr, s, p, maintain);
      && Inv(Fpr, e.s)
      && (forall h :: Reserved(e.s, h) <==> Reserved(s, h))
      && (MustStore(s.gs[p]) ==> PsField(p, 0) in StateStores(e.code))
      && (!s.gs[p].dirty ==> e.code == [])
      && (maintain ==> e.s == s)
      && (!maintain ==> e.s.gs[p].kind == NotLoaded)
      && (!maintain && s.gs[p].InHost() ==> s.gs[p].reg !in Locked(e.s.hs))
      && (forall q | 0 <= q < |s.gs| && q != p :: e.s.gs[q] == s.gs[q])
      && (forall q | 0 <= q < |s.gs| :: e.s.gs[q].lastUsed == s.gs[q].lastUsed)
  {
    if s.gs[p].InHost() && !maintain {
      SpillKeepsInv(Fpr, s, p);
    }
  }

  /** Arm64GPRCache::R: every entry ages and this one is reset; a held value is
      returned as is, an immediate is materialised into a newly allocated register
      (dirty), an unloaded value is loaded from gpr[p] (clean). */
  function GprReadEffect(s: CacheState, p: nat): (er: (Effect, ARM64Reg))
    requires p < |s.gs|
    ensures |er.0.s.gs| == |s.gs|
  {
    var s0 := Touch(AgeAll(s), p);
    var o := s0.gs[p];
    var t := Allocated(s0);
    if o.kind == Reg then (Effect(s0, []), o.reg)
    else if o.kind == Imm then
      (Effect(Bind(AfterGetReg(s0), p, Reg, t, true), VictimCode(Gpr, s0) + [Movi(t, o.imm)]), t)
    else if o.kind == NotLoaded then
      (Effect(Bind(AfterGetReg(s0), p, Reg, t, false), VictimCode(Gpr, s0) + [LdrState(32, t, GprField(p))]), t)
    else (Effect(s0, []), InvalidReg)
  }

  /** Filling the high half of a lower pair: load ps[p][1] into the temporary `t` and
      insert it as lane 1 of `r`. */
  function UpperHalfCode(p: nat, r: ARM64Reg, t: ARM64Reg): seq<Insn>
  {
    [LdrState(64, t, PsField(p, 1)), Ins(64, r, 1, t, 0)]
  }

  /** Arm64FPRCache::R(p, only_lower). */
  function FprReadEffect(s: CacheState, p: nat, onlyLower: bool): (er: (Effect, ARM64Reg))
    requires p < |s.gs|
    ensures |er.0.s.gs| == |s.gs|
  {
    var s0 := Touch(AgeAll(s), p);
    var o := s0.gs[p];
    var t := Allocated(s0);
    if o.kind == Reg then (Effect(s0, []), o.reg)
    else if o.kind == LowerPair then
      if onlyLower then (Effect(s0, []), o.reg)
      else
        (Effect(Bind(UnlockHost(AfterGetReg(s0), t), p, Reg, o.reg, o.dirty),
                VictimCode(Fpr, s0) + UpperHalfCode(p, o.reg, t)), o.reg)
    else if o.kind == NotLoaded then
      (Effect(Bind(AfterGetReg(s0), p, if onlyLower then LowerPair else Reg, t, false),
              VictimCode(Fpr, s0) + [LdrState(if onlyLower then 64 else 128, t, PsField(p, 0))]), t)
    else (Effect(s0, []), InvalidReg)
  }

  /** ResetLastUsed and SetDirty(true), with which both BindToRegister start. */
  function MarkWritten(s: CacheState, p: nat): (s': CacheState)
    requires p < |s.gs|
    ensures |s'.gs| == |s.gs|
  {
    s.(gs := s.gs[p := s.gs[p].(lastUsed := 0, dirty := true)])
  }

  /** Arm64GPRCache::BindToRegister(p, do_load): the entry is about to be written;
      only an unloaded entry gets a host register (loaded from gpr[p] if asked). */
  function GprBindEffect(s: CacheState, p: nat, doLoad: bool): (e: Effect)
    requires p < |s.gs|
    ensures |e.s.gs| == |s.gs|
  {
    var s0 := MarkWritten(s, p);
    var t := Allocated(s0);
    if s0.gs[p].kind == NotLoaded then
      Effect(Bind(AfterGetReg(s0), p, Reg, t, true),
             VictimCode(Gpr, s0) + (if doLoad then [LdrState(32, t, GprField(p))] else []))
    else Effect(s0, [])
  }

  /** Arm64FPRCache::BindToRegister(p, do_load, only_lower). */
  function FprBindEffect(s: CacheState, p: nat, doLoad: bool, onlyLower: bool): (e: Effect)
    requires p < |s.gs|
    ensures |e.s.gs| == |s.gs|
  {
    var wasDirty := s.gs[p].dirty;
    var s0 := MarkWritten(s, p);
    var o := s0.gs[p];
    var t := Allocated(s0);
    if o.kind == NotLoaded then
      Effect(Bind(AfterGetReg(s0), p, if onlyLower then LowerPair else Reg, t, true),
             VictimCode(Fpr, s0) + (if doLoad then [LdrState(if onlyLower then 64 else 128, t, PsField(p, 0))] else []))
    else if o.kind == LowerPair && !onlyLower then
      if doLoad then
        Effect(Bind(UnlockHost(AfterGetReg(s0), t), p, Reg, o.reg, true), VictimCode(Fpr, s0) + UpperHalfCode(p, o.reg, t))
      else Effect(Bind(s0, p, Reg, o.reg, true), [])
    else if o.kind == Reg && onlyLower then
      Effect(Bind(s0, p, LowerPair, o.reg, true), if wasDirty then [StrState(128, o.reg, PsField(p, 0))] else [])
    else Effect(s0, [])
  }

  /** Arm64GPRCache::SetImmediate: a host binding is released, then the entry holds
      the immediate. */
  function SetImmediateEffect(s: CacheState, p: nat, imm: u32): (s': CacheState)
    requires p < |s.gs|
    ensures |s'.gs| == |s.gs|
  {
    var o := s.gs[p];
    var s1 := if o.kind == Reg then UnlockHost(s, o.reg) else s;
    s1.(gs := s1.gs[p := o.(kind := Imm, imm := imm)])
  }

  /** Allocating a register for an entry that holds none and has just been used, and
      binding the entry to it: the invariant and the scratch registers are kept, the
      register was not a scratch register, and the only other change is the eviction. */
  lemma AllocBindSpec(bank: Bank, s0: CacheState, p: nat, kind: RegType, dirty: bool)
    requires Inv(bank, s0) && p < |s0.gs| && !s0.gs[p].InHost() && s0.gs[p].lastUsed == 0
    requires (kind == Reg || kind == LowerPair) && BankKind(bank, kind)
    ensures var t := Allocated(s0);
      var s' := Bind(AfterGetReg(s0), p, kind, t, dirty);
      && Inv(bank, s')
      && (forall h :: Reserved(s', h) <==> Reserved(s0, h))
      && !Reserved(s0, t)
      && s'.gs[p] == s0.gs[p].(kind := kind, reg := t, dirty := dirty)
      && (forall q | 0 <= q < |s0.gs| && q != p ::
            Evolved(bank, q, s0.gs[q], s'.gs[q], StateStores(VictimCode(bank, s0))) && s'.gs[q].lastUsed == s0.gs[q].lastUsed)
  {
    var t := Allocated(s0);
    GetRegSpec(bank, s0);
    var s2 := AfterGetReg(s0);
    AllocBindEntries(bank, s0, p, kind, dirty);
    BindKeepsInv(bank, s2, p, kind, t, dirty);
  }

  lemma AllocBindEntries(bank: Bank, s0: CacheState, p: nat, kind: RegType, dirty: bool)
    requires Inv(bank, s0) && p < |s0.gs| && !s0.gs[p].InHost()
    ensures var s' := Bind(AfterGetReg(s0), p, kind, Allocated(s0), dirty);
      && AfterGetReg(s0).gs[p].(kind := s0.gs[p].kind) == s0.gs[p]
      && (forall q | 0 <= q < |s0.gs| && q != p ::
            Evolved(bank, q, s0.gs[q], s'.gs[q], StateStores(VictimCode(bank, s0))) && s'.gs[q].lastUsed == s0.gs[q].lastUsed)
  {
    EvictEvolves(bank, s0);
  }

  /** Turning a lower pair that has just been used into a full register with the help
      of a temporary: the entry keeps its host register, the temporary is released,
      and the only other change is the eviction the temporary needed. */
  lemma UpgradeSpec(s0: CacheState, p: nat, dirty: bool)
    requires Inv(Fpr, s0) && p < |s0.gs| && s0.gs[p].kind == LowerPair && s0.gs[p].lastUsed == 0
    ensures var s' := Bind(UnlockHost(AfterGetReg(s0), Allocated(s0)), p, Reg, s0.gs[p].reg, dirty);
      && Inv(Fpr, s')
      && (forall h :: Reserved(s', h) <==> Reserved(s0, h))
      && s'.gs[p] == s0.gs[p].(kind := Reg, dirty := dirty)
      && (forall q | 0 <= q < |s0.gs| && q != p ::
            Evolved(Fpr, q, s0.gs[q], s'.gs[q], StateStores(VictimCode(Fpr, s0))) && s'.gs[q].lastUsed == s0.gs[q].lastUsed)
  {
    GetRegThenUnlock(Fpr, s0);
    EvictSpec(Fpr, s0);
    EvictEvolves(Fpr, s0);
    var s1 := AfterVictim(s0);
    assert s1.gs[p] == s0.gs[p];
    BindKeepsInv(Fpr, s1, p, Reg, s0.gs[p].reg, dirty);
  }

  /** Ageing every entry and resetting one keeps the invariant and the scratch
      registers. */
  lemma UseSpec(bank: Bank, s: CacheState, p: nat)
    requires Inv(bank, s) && p < |s.gs|
    ensures var s0 := Touch(AgeAll(s), p);
      && Inv(bank, s0) && s0.hs == s.hs
      && (forall h :: Reserved(s0, h) <==> Reserved(s, h))
      && s0.gs[p] == s.gs[p].(lastUsed := 0)
      && (forall q | 0 <= q < |s.gs| && q != p :: s0.gs[q] == s.gs[q].(lastUsed := s.gs[q].lastUsed + 1))
  {
    AgeKeepsInv(bank, s, p);
    AgeKeepsInv(bank, AgeAll(s), p);
  }

  /** Entries that evolved from their state after a use evolved from their state
      before it, one access older. */
  lemma EvolvedAcrossUse(bank: Bank, s: CacheState, p: nat, n: seq<OpArg>, stored: set<StateField>, stored': set<StateField>)
    requires p < |s.gs| && |n| == |s.gs| && stored <= stored'
    requires forall q | 0 <= q < |s.gs| && q != p ::
      Evolved(bank, q, Touch(AgeAll(s), p).gs[q], n[q], stored) && n[q].lastUsed == Touch(AgeAll(s), p).gs[q].lastUsed
    ensures forall q | 0 <= q < |s.gs| && q != p ::
      Evolved(bank, q, s.gs[q], n[q], stored') && n[q].lastUsed == s.gs[q].lastUsed + 1
  {
    var s0 := Touch(AgeAll(s), p);
    forall q | 0 <= q < |s.gs| && q != p
      ensures Evolved(bank, q, s.gs[q], n[q], stored') && n[q].lastUsed == s.gs[q].lastUsed + 1
    {
      assert s0.gs[q] == s.gs[q].(lastUsed := s.gs[q].lastUsed + 1);
      assert Evolved(bank, q, s0.gs[q], n[q], stored);
    }
  }

  /** R of a general entry keeps the invariant and the scratch registers, and never
      returns a scratch register.  Every other entry is one access older and this one
      is reset.  A held value comes back unchanged with no code; an immediate is
      materialised into a newly allocated register and marked dirty; an unloaded
      value is loaded from gpr[p] and marked clean.  Other entries change only by the
      eviction the allocation needed. */
  lemma GprReadSpec(s: CacheState, p: nat)
    requires Inv(Gpr, s) && p < |s.gs|
    ensures var er := GprReadEffect(s, p);
      var e, r := er.0, er.1;
      var o := s.gs[p];
      && Inv(Gpr, e.s)
      && (forall h :: Reserved(e.s, h) <==> Reserved(s, h))
      && !Reserved(s, r)
      && e.s.gs[p].lastUsed == 0
      && (forall q | 0 <= q < |s.gs| && q != p ::
            Evolved(Gpr, q, s.gs[q], e.s.gs[q], StateStores(e.code)) && e.s.gs[q].lastUsed == s.gs[q].lastUsed + 1)
      && (o.kind == Reg ==> r == o.reg && e.code == [] && SameBinding(o, e.s.gs[p])
                            && forall q | 0 <= q < |s.gs| && q != p :: SameBinding(s.gs[q], e.s.gs[q]))
      && (o.kind == Imm ==> e.s.gs[p] == o.(kind := Reg, reg := r, dirty := true, lastUsed := 0)
                            && e.code == VictimCode(Gpr, Touch(AgeAll(s), p)) + [Movi(r, o.imm)])
      && (o.kind == NotLoaded ==> e.s.gs[p] == o.(kind := Reg, reg := r, dirty := false, lastUsed := 0)
                                  && e.code == VictimCode(Gpr, Touch(AgeAll(s), p)) + [LdrState(32, r, GprField(p))])
  {
    var s0 := Touch(AgeAll(s), p);
    UseSpec(Gpr, s, p);
    var o := s0.gs[p];
    var e := GprReadEffect(s, p).0;
    if o.kind == Imm {
      AllocBindSpec(Gpr, s0, p, Reg, true);
      StoresGrow(VictimCode(Gpr, s0), [Movi(Allocated(s0), o.imm)]);
      EvolvedAcrossUse(Gpr, s, p, e.s.gs, StateStores(VictimCode(Gpr, s0)), StateStores(e.code));
    } else if o.kind == NotLoaded {
      AllocBindSpec(Gpr, s0, p, Reg, false);
      StoresGrow(VictimCode(Gpr, s0), [LdrState(32, Allocated(s0), GprField(p))]);
      EvolvedAcrossUse(Gpr, s, p, e.s.gs, StateStores(VictimCode(Gpr, s0)), StateStores(e.code));
    }
  }

  /** R of a floating entry keeps the invariant and the scratch registers, and never
      returns a scratch register.  A full register comes back unchanged, and so does
      a lower pair when only the low half is wanted; otherwise a lower pair becomes a
      full register in the same host register, its high half loaded from ps[p][1]
      through a temporary that is released again.  An unloaded value is loaded from
      ps[p][0] (64 or 128 bits) into a newly allocated register and marked clean. */
  lemma FprReadSpec(s: CacheState, p: nat, onlyLower: bool)
    requires Inv(Fpr, s) && p < |s.gs|
    ensures var er := FprReadEffect(s, p, onlyLower);
      var e, r := er.0, er.1;
      var o := s.gs[p];
      var s0 := Touch(AgeAll(s), p);
      && Inv(Fpr, e.s)
      && (forall h :: Reserved(e.s, h) <==> Reserved(s, h))
      && !Reserved(s, r)
      && e.s.gs[p].lastUsed == 0
      && (forall q | 0 <= q < |s.gs| && q != p ::
            Evolved(Fpr, q, s.gs[q], e.s.gs[q], StateStores(e.code)) && e.s.gs[q].lastUsed == s.gs[q].lastUsed + 1)
      && ((o.kind == Reg || (o.kind == LowerPair && onlyLower)) ==>
            r == o.reg && e.code == [] && e.s == s0)
      && (o.kind == LowerPair && !onlyLower ==>
            r == o.reg && e.s.gs[p] == o.(kind := Reg, lastUsed := 0)
            && e.code == VictimCode(Fpr, s0) + UpperHalfCode(p, r, Allocated(s0)))
      && (o.kind == NotLoaded ==>
            e.s.gs[p] == o.(kind := if onlyLower then LowerPair else Reg, reg := r, dirty := false, lastUsed := 0)
            && e.code == VictimCode(Fpr, s0) + [LdrState(if onlyLower then 64 else 128, r, PsField(p, 0))])
  {
    var s0 := Touch(AgeAll(s), p);
    UseSpec(Fpr, s, p);
    var o := s0.gs[p];
    if o.kind == LowerPair && !onlyLower {
      FprReadUpgrade(s, p);
    } else if o.kind == NotLoaded {
      FprReadLoad(s, p, onlyLower);
    }
  }

  lemma FprReadUpgrade(s: CacheState, p: nat)
    requires Inv(Fpr, s) && p < |s.gs| && s.gs[p].kind == LowerPair
    ensures var er := FprReadEffect(s, p, false);
      var e, r := er.0, er.1;
      var s0 := Touch(AgeAll(s), p);
      && Inv(Fpr, e.s)
      && (forall h :: Reserved(e.s, h) <==> Reserved(s, h))
      && r == s.gs[p].reg && e.s.gs[p] == s.gs[p].(kind := Reg, lastUsed := 0)
      && e.code == VictimCode(Fpr, s0) + UpperHalfCode(p, r, Allocated(s0))
      && (forall q | 0 <= q < |s.gs| && q != p ::
            Evolved(Fpr, q, s.gs[q], e.s.gs[q], StateStores(e.code)) && e.s.gs[q].lastUsed == s.gs[q].lastUsed + 1)
  {
    var s0 := Touch(AgeAll(s), p);
    UseSpec(Fpr, s, p);
    var o := s0.gs[p];
    UpgradeSpec(s0, p, o.dirty);
    var e := FprReadEffect(s, p, false).0;
    StoresGrow(VictimCode(Fpr, s0), UpperHalfCode(p, o.reg, Allocated(s0)));
    EvolvedAcrossUse(Fpr, s, p, e.s.gs, StateStores(VictimCode(Fpr, s0)), StateStores(e.code));
  }

  lemma FprReadLoad(s: CacheState, p: nat, onlyLower: bool)
    requires Inv(Fpr, s) && p < |s.gs| && s.gs[p].kind == NotLoaded
    ensures var er := FprReadEffect(s, p, onlyLower);
      var e, r := er.0, er.1;
      var s0 := Touch(AgeAll(s), p);
      && Inv(Fpr, e.s)
      && (forall h :: Reserved(e.s, h) <==> Reserved(s, h))
      && !Reserved(s, r)
      && e.s.gs[p] == s.gs[p].(kind := if onlyLower then LowerPair else Reg, reg := r, dirty := false, lastUsed := 0)
      && e.code == VictimCode(Fpr, s0) + [LdrState(if onlyLower then 64 else 128, r, PsField(p, 0))]
      && (forall q | 0 <= q < |s.gs| && q != p ::
            Evolved(Fpr, q, s.gs[q], e.s.gs[q], StateStores(e.code)) && e.s.gs[q].lastUsed == s.gs[q].lastUsed + 1)
  {
    var s0 := Touch(AgeAll(s), p);
    UseSpec(Fpr, s, p);
    AllocBindSpec(Fpr, s0, p, if onlyLower then LowerPair else Reg, false);
    var e := FprReadEffect(s, p, onlyLower).0;
    StoresGrow(VictimCode(Fpr, s0), [LdrState(if onlyLower then 64 else 128, Allocated(s0), PsField(p, 0))]);
    EvolvedAcrossUse(Fpr, s, p, e.s.gs, StateStores(VictimCode(Fpr, s0)), StateStores(e.code));
  }


  /** Marking an entry written keeps the invariant and the scratch registers. */
  lemma MarkWrittenSpec(bank: Bank, s: CacheState, p: nat)
    requires Inv(bank, s) && p < |s.gs|
    ensures Inv(bank, MarkWritten(s, p)) && MarkWritten(s, p).hs == s.hs
    ensures forall h :: Reserved(MarkWritten(s, p), h) <==> Reserved(s, h)
  {
    var s0 := MarkWritten(s, p);
    forall h | h in Bound(s.gs) ensures h in Bound(s0.gs) {
      var q :| 0 <= q < |s.gs| && s.gs[q].InHost() && s.gs[q].reg == h;
      assert s0.gs[q].InHost() && s0.gs[q].reg == h;
    }
  }

  /** BindToRegister of a general entry keeps the invariant and the scratch
      registers; the entry is now dirty and just used.  An unloaded entry gets a newly
      allocated host register (never a scratch register), loaded from gpr[p] only if
      asked; any other entry keeps its place and nothing is emitted. */
  lemma GprBindSpec(s: CacheState, p: nat, doLoad: bool)
    requires Inv(Gpr, s) && p < |s.gs|
    ensures var e := GprBindEffect(s, p, doLoad);
      var o := s.gs[p];
      var t := Allocated(MarkWritten(s, p));
      && Inv(Gpr, e.s)
      && (forall h :: Reserved(e.s, h) <==> Reserved(s, h))
      && e.s.gs[p].dirty && e.s.gs[p].lastUsed == 0
      && (forall q | 0 <= q < |s.gs| && q != p ::
            Evolved(Gpr, q, s.gs[q], e.s.gs[q], StateStores(e.code)) && e.s.gs[q].lastUsed == s.gs[q].lastUsed)
      && (o.kind == NotLoaded ==>
            e.s.gs[p].kind == Reg && e.s.gs[p].reg == t && !Reserved(s, t)
            && e.code == VictimCode(Gpr, MarkWritten(s, p)) + (if doLoad then [LdrState(32, t, GprField(p))] else []))
      && (o.kind != NotLoaded ==>
            e.code == [] && e.s == MarkWritten(s, p))
  {
    var s0 := MarkWritten(s, p);
    MarkWrittenSpec(Gpr, s, p);
    if s0.gs[p].kind == NotLoaded {
      var t := Allocated(s0);
      AllocBindSpec(Gpr, s0, p, Reg, true);
      StoresGrow(VictimCode(Gpr, s0), if doLoad then [LdrState(32, t, GprField(p))] else []);
    }
  }

  /** BindToRegister of a floating entry keeps the invariant and the scratch
      registers; the entry is now dirty and just used.  An unloaded entry gets a newly
      allocated register (a lower pair if only the low half is wanted).  A lower pair
      asked for in full becomes a full register in the same host register, its high
      half filled through a released temporary when the value is to be loaded.  A full
      register asked for only in its low half is stored whole (if it was dirty) and
      becomes a lower pair in the same host register. */
  lemma FprBindSpec(s: CacheState, p: nat, doLoad: bool, onlyLower: bool)
    requires Inv(Fpr, s) && p < |s.gs|
    ensures var e := FprBindEffect(s, p, doLoad, onlyLower);
      var o := s.gs[p];
      var s0 := MarkWritten(s, p);
      var t := Allocated(s0);
      && Inv(Fpr, e.s)
      && (forall h :: Reserved(e.s, h) <==> Reserved(s, h))
      && e.s.gs[p].dirty && e.s.gs[p].lastUsed == 0
      && (forall q | 0 <= q < |s.gs| && q != p ::
            Evolved(Fpr, q, s.gs[q], e.s.gs[q], StateStores(e.code)) && e.s.gs[q].lastUsed == s.gs[q].lastUsed)
      && (o.kind == NotLoaded ==>
            e.s.gs[p].kind == (if onlyLower then LowerPair else Reg) && e.s.gs[p].reg == t && !Reserved(s, t)
            && e.code == VictimCode(Fpr, s0)
                         + (if doLoad then [LdrState(if onlyLower then 64 else 128, t, PsField(p, 0))] else []))
      && (o.kind == LowerPair && !onlyLower ==>
            e.s.gs[p].kind == Reg && e.s.gs[p].reg == o.reg
            && e.code == (if doLoad then VictimCode(Fpr, s0) + UpperHalfCode(p, o.reg, t) else []))
      && (o.kind == Reg && onlyLower ==>
            e.s.gs[p].kind == LowerPair && e.s.gs[p].reg == o.reg
            && e.code == (if o.dirty then [StrState(128, o.reg, PsField(p, 0))] else []))
      && ((o.kind == Reg && !onlyLower) || (o.kind == LowerPair && onlyLower) ==>
            e.code == [] && e.s == s0)
  {
    var s0 := MarkWritten(s, p);
    MarkWrittenSpec(Fpr, s, p);
    var o := s0.gs[p];
    var t := Allocated(s0);
    if o.kind == NotLoaded {
      AllocBindSpec(Fpr, s0, p, if onlyLower then LowerPair else Reg, true);
      StoresGrow(VictimCode(Fpr, s0), if doLoad then [LdrState(if onlyLower then 64 else 128, t, PsField(p, 0))] else []);
    } else if o.kind == LowerPair && !onlyLower {
      if doLoad {
        UpgradeSpec(s0, p, true);
        StoresGrow(VictimCode(Fpr, s0), UpperHalfCode(p, o.reg, t));
      } else {
        BindKeepsInv(Fpr, s0, p, Reg, o.reg, true);
      }
    } else if o.kind == Reg && onlyLower {
      BindKeepsInv(Fpr, s0, p, LowerPair, o.reg, true);
    }
  }

  /** SetImmediate keeps the invariant and the scratch registers: the entry holds the
      immediate, a host register it held is unlocked, and nothing else changes. */
  lemma SetImmediateSpec(s: CacheState, p: nat, imm: u32)
    requires Inv(Gpr, s) && p < |s.gs|
    ensures var s' := SetImmediateEffect(s, p, imm);
      && Inv(Gpr, s')
      && (forall h :: Reserved(s', h) <==> Reserved(s, h))
      && s'.gs[p].kind == Imm && s'.gs[p].imm == imm
      && (s.gs[p].kind == Reg ==> s.gs[p].reg !in Locked(s'.hs))
      && (s.gs[p].kind != Reg ==> s'.hs == s.hs)
      && (forall q | 0 <= q < |s.gs| && q != p :: s'.gs[q] == s.gs[q])
  {
    var o := s.gs[p];
    var s1 := if o.kind == Reg then Spill(s, p) else Forget(s, p);
    if o.kind == Reg {
      SpillKeepsInv(Gpr, s, p);
    } else {
      ForgetKeepsInv(Gpr, s, p);
    }
    var s' := SetImmediateEffect(s, p, imm);
    assert s' == s1.(gs := s1.gs[p := o.(kind := Imm, imm := imm)]);
    forall h | h in Bound(s1.gs) ensures h in Bound(s'.gs) {
      var q :| 0 <= q < |s1.gs| && s1.gs[q].InHost() && s1.gs[q].reg == h;
      assert q != p && s'.gs[q] == s1.gs[q];
    }
    assert Bound(s'.gs) <= Bound(s1.gs);
  }

  // ---------------------------------------------------------------------------
  // Evictions and flushes over several steps
  // ---------------------------------------------------------------------------

  /** GetReg's eviction never takes a host register from an entry that has just
      been used; such an entry loses its value only when it is the immediate 0 at
      entry 0, which goes home first. */
  lemma EvictSparesFresh(bank: Bank, s: CacheState, p: nat)
    requires Inv(bank, s) && p < |s.gs| && s.gs[p].lastUsed == 0
    ensures !(p == 0 && s.gs[p].kind == Imm && s.gs[p].imm == 0) ==>
      AfterVictim(s).gs[p] == s.gs[p] && AfterGetReg(s).gs[p] == s.gs[p]
    ensures AfterGetReg(s).gs[p] == s.gs[p] || AfterGetReg(s).gs[p] == s.gs[p].(kind := NotLoaded)
  {
    EvictSpec(bank, s);
  }

  /** Entry changes compose: what evolved twice evolved once, with the stores of both
      steps, and an entry without a value keeps none. */
  lemma EvolvedTrans(bank: Bank, q: nat, a: OpArg, b: OpArg, c: OpArg, st1: set<StateField>, st2: set<StateField>)
    requires Evolved(bank, q, a, b, st1) && Evolved(bank, q, b, c, st2)
    ensures Evolved(bank, q, a, c, st1 + st2)
    ensures b.kind == NotLoaded ==> c.kind == NotLoaded
  {
  }

  /** Both register-cache FlushRegister versions, as far as a caller that flushes many
      entries needs them: the invariant and the scratch registers are kept, a value
      that must go home does, the entry ends unloaded unless maintain_state is set
      (and is otherwise left in place), and every other entry only evolves. */
  lemma FlushSpec(bank: Bank, s: CacheState, p: nat, maintain: bool)
    requires Inv(bank, s) && p < |s.gs|
    ensures var e := FlushEffect(bank, s, p, maintain);
      && Inv(bank, e.s)
      && (forall h :: Reserved(e.s, h) <==> Reserved(s, h))
      && (MustStore(s.gs[p]) ==> Home(bank, p) in StateStores(e.code))
      && (maintain ==> SameBinding(s.gs[p], e.s.gs[p]))
      && (!maintain ==> e.s.gs[p].kind == NotLoaded)
      && (forall q | 0 <= q < |s.gs| && q != p :: Evolved(bank, q, s.gs[q], e.s.gs[q], StateStores(e.code)))
  {
    if bank == Gpr {
      GprFlushSpec(s, p, maintain);
    } else {
      FprFlushSpec(s, p, maintain);
      var e := FlushEffect(bank, s, p, maintain);
      if !s.gs[p].InHost() {
        assert e.s == s;
      }
    }
  }

  /** FlushMostStaleRegister: the most stale host-held entry is flushed and its
      binding dropped; when no host-held entry has aged, entry 0 is flushed unless
      the fallback is skipped for it. */
  function MostStaleEffect(bank: Bank, s: CacheState): Effect
  {
    match StaleVictim(s.gs)
    case Some(v) => FlushEffect(bank, s, v, false)
    case None => if |s.gs| == 0 || FallbackSkipped(s.gs[0]) then Effect(s, []) else FlushEffect(bank, s, 0, false)
  }

  /** FlushMostStaleRegister keeps the invariant and the scratch registers.  It is
      FlushRegister(p, false) of the entry the source's scan settles on, except that it
      does nothing where the fallback is skipped; it spills the most stale host-held
      entry when one has aged, and otherwise at most stores and forgets the immediate
      0 at entry 0.  With every host register locked it is exactly GetReg's
      eviction. */
  lemma MostStaleSpec(bank: Bank, s: CacheState)
    requires Inv(bank, s)
    ensures var e := MostStaleEffect(bank, s);
      && Inv(bank, e.s)
      && (forall h :: Reserved(e.s, h) <==> Reserved(s, h))
      && (StaleVictim(s.gs).Some? || !FallbackSkipped(s.gs[0]) ==>
            e == FlushEffect(bank, s, MostStaleAsWritten(s.gs), false))
      && (StaleVictim(s.gs).Some? ==>
            var v := StaleVictim(s.gs).value;
            s.gs[v].InHost() && e.s == Spill(s, v) && e.code == StoreCode(bank, v, s.gs[v]))
      && (StaleVictim(s.gs).None? && !(s.gs[0].kind == Imm && s.gs[0].imm == 0) ==> e == Effect(s, []))
      && (StaleVictim(s.gs).None? && s.gs[0].kind == Imm && s.gs[0].imm == 0 ==>
            bank == Gpr && e == Effect(Forget(s, 0), [StrState(32, WSP, GprField(0))]))
      && (CountUnlocked(s.hs) == 0 ==> e == Effect(AfterVictim(s), VictimCode(bank, s)))
  {
    StaleVictimSpec(s.gs);
    StaleScanChoice(s.gs, |s.gs|);
    if v :| StaleVictim(s.gs) == Some(v) {
      SpillKeepsInv(bank, s, v);
    } else if !s.gs[0].InHost() {
      ForgetKeepsInv(bank, s, 0);
    }
  }

  /** The entry FlushByHost flushes for host register `r`: a general entry of kind
      REG_REG, or a floating entry that is neither unloaded nor an immediate, bound
      to `r`. */
  predicate Holds(bank: Bank, o: OpArg, r: ARM64Reg)
  {
    (if bank == Gpr then o.kind == Reg else o.InHost()) && o.reg == r
  }

  function FirstHolder(bank: Bank, gs: seq<OpArg>, r: ARM64Reg, from: nat): (p: Option<nat>)
    requires from <= |gs|
    decreases |gs| - from
    ensures p.Some? ==> from <= p.value < |gs| && Holds(bank, gs[p.value], r)
    ensures p.Some? ==> forall q | from <= q < p.value :: !Holds(bank, gs[q], r)
    ensures p.None? ==> forall q | from <= q < |gs| :: !Holds(bank, gs[q], r)
  {
    if from == |gs| then None
    else if Holds(bank, gs[from], r) then Some(from)
    else FirstHolder(bank, gs, r, from + 1)
  }

  /** FlushByHost(r): the first entry holding `r` is flushed without maintain_state. */
  function FlushByHostEffect(bank: Bank, s: CacheState, r: ARM64Reg): Effect
  {
    match FirstHolder(bank, s.gs, r, 0)
    case Some(p) => FlushEffect(bank, s, p, false)
    case None => Effect(s, [])
  }

  /** The entry changes of a step that flushes the holders of some host registers:
      an entry is kept, or it held one of them, is now unloaded (nothing else about
      it changes), and went home if dirty. */
  predicate FlushedFor(bank: Bank, q: nat, o: OpArg, n: OpArg, rs: seq<ARM64Reg>, stored: set<StateField>)
  {
    n == o || (o.InHost() && o.reg in rs && n == o.(kind := NotLoaded) && (o.dirty ==> Home(bank, q) in stored))
  }

  /** FlushByHost keeps the invariant and the scratch registers.  Afterwards `r`
      (a real register) holds no guest value and, if it held one, is unlocked; the
      entry that held it is unloaded and was stored if dirty; nothing else changes. */
  lemma FlushByHostSpec(bank: Bank, s: CacheState, r: ARM64Reg)
    requires Inv(bank, s)
    ensures var e := FlushByHostEffect(bank, s, r);
      && Inv(bank, e.s) && |e.s.gs| == |s.gs| && Hosts(e.s.hs) == Hosts(s.hs)
      && (forall h :: Reserved(e.s, h) <==> Reserved(s, h))
      && (forall h | h != r :: (h in Locked(e.s.hs) <==> h in Locked(s.hs)) && (h in Bound(e.s.gs) <==> h in Bound(s.gs)))
      && Bound(e.s.gs) <= Bound(s.gs)
      && (r != InvalidReg ==> r !in Bound(e.s.gs))
      && (r != InvalidReg && r in Bound(s.gs) ==> r !in Locked(e.s.hs))
      && (r !in Bound(s.gs) ==> e == Effect(s, []))
      && (forall q | 0 <= q < |s.gs| :: FlushedFor(bank, q, s.gs[q], e.s.gs[q], [r], StateStores(e.code)))
  {
    match FirstHolder(bank, s.gs, r, 0)
    case Some(p) =>
      FlushByHostLocks(bank, s, r, p);
      FlushByHostEntries(bank, s, r, p);
    case None =>
      forall q | 0 <= q < |s.gs| && s.gs[q].InHost() ensures s.gs[q].reg != r {
        assert !Holds(bank, s.gs[q], r);
      }
  }

  /** Hosts and locks once the holder `p` of `r` is spilled. */
  lemma FlushByHostLocks(bank: Bank, s: CacheState, r: ARM64Reg, p: nat)
    requires Inv(bank, s) && p < |s.gs| && Holds(bank, s.gs[p], r)
    ensures var e := FlushEffect(bank, s, p, false);
      && e.s == Spill(s, p) && e.code == StoreCode(bank, p, s.gs[p])
      && Inv(bank, e.s) && Hosts(e.s.hs) == Hosts(s.hs)
      && (forall h :: Reserved(e.s, h) <==> Reserved(s, h))
      && Locked(e.s.hs) == Locked(s.hs) - {r}
      && r in Bound(s.gs)
  {
    SpillKeepsInv(bank, s, p);
    SetLockHosts(s.hs, r, false);
    BoundUpdate(s.gs, p, Spill(s, p).gs[p]);
  }

  /** Bindings and entries once the holder `p` of `r` is spilled. */
  lemma FlushByHostEntries(bank: Bank, s: CacheState, r: ARM64Reg, p: nat)
    requires Inv(bank, s) && p < |s.gs| && Holds(bank, s.gs[p], r)
    ensures var s' := Spill(s, p);
      && (forall h | h != r :: h in Bound(s'.gs) <==> h in Bound(s.gs))
      && Bound(s'.gs) <= Bound(s.gs)
      && (r != InvalidReg ==> r !in Bound(s'.gs))
      && (forall q | 0 <= q < |s.gs| :: FlushedFor(bank, q, s.gs[q], s'.gs[q], [r], StateStores(StoreCode(bank, p, s.gs[p]))))
  {
    var s' := Spill(s, p);
    BoundUpdate(s.gs, p, s'.gs[p]);
    if s.gs[p].dirty {
      var c := StoreCode(bank, p, s.gs[p]);
      assert StateStores(c) == {Home(bank, p)} by {
        assert c[1..] == [];
      }
    }
    if r != InvalidReg {
      forall q | 0 <= q < |s'.gs| && s'.gs[q].InHost() ensures s'.gs[q].reg != r {
        if q != p {
          assert s'.gs[q] == s.gs[q];
        }
      }
    }
  }

  lemma SetLockHosts(hs: seq<HostReg>, r: ARM64Reg, locked: bool)
    ensures Hosts(SetLock(hs, r, locked)) == Hosts(hs)
  {
    var hs' := SetLock(hs, r, locked);
    forall h | h in Hosts(hs) ensures h in Hosts(hs') {
      var k :| 0 <= k < |hs| && hs[k].reg == h;
      assert hs'[k].reg == h;
    }
  }

  /** The Lock(...) and Unlock(...) helpers of the caches, from the i-th listed host
      register on: each in turn is freed of its guest value with FlushByHost, then
      locked with LockRegister (lock) or unlocked with UnlockRegister (!lock). */
  function LockFrom(bank: Bank, s: CacheState, regs: seq<ARM64Reg>, lock: bool, i: nat): (e: Effect)
    requires i <= |regs|
    decreases |regs| - i
  {
    if i == |regs| then Effect(s, [])
    else
      var f := FlushByHostEffect(bank, s, regs[i]);
      var rest := LockFrom(bank, f.s.(hs := SetLock(f.s.hs, regs[i], lock)), regs, lock, i + 1);
      Effect(rest.s, f.code + rest.code)
  }

  /** Setting the lock flag of a host register keeps the invariant, unless it
      unlocks a register that holds a guest value. */
  lemma SetLockKeepsInv(bank: Bank, s: CacheState, r: ARM64Reg, lock: bool)
    requires Inv(bank, s)
    requires !lock ==> r == InvalidReg || r !in Bound(s.gs)
    ensures Inv(bank, s.(hs := SetLock(s.hs, r, lock)))
    ensures forall h | h != r :: h in Locked(SetLock(s.hs, r, lock)) <==> h in Locked(s.hs)
    ensures lock && r in Hosts(s.hs) ==> r in Locked(SetLock(s.hs, r, lock))
    ensures !lock ==> r !in Locked(SetLock(s.hs, r, lock))
  {
    SetLockLocked(s.hs, r);
    if !lock {
      forall p | 0 <= p < |s.gs| && s.gs[p].InHost() && s.gs[p].reg != InvalidReg
        ensures s.gs[p].reg != r
      {
        assert s.gs[p].reg in Bound(s.gs);
      }
    }
  }

  /** One step of Lock/Unlock. */
  lemma LockStep(bank: Bank, s: CacheState, r: ARM64Reg, lock: bool)
    requires Inv(bank, s)
    ensures var f := FlushByHostEffect(bank, s, r);
      var s1 := f.s.(hs := SetLock(f.s.hs, r, lock));
      && Inv(bank, s1) && Hosts(s1.hs) == Hosts(s.hs)
      && (forall h | h != r :: (h in Locked(s1.hs) <==> h in Locked(s.hs)) && (h in Bound(s1.gs) <==> h in Bound(s.gs)))
      && Bound(s1.gs) <= Bound(s.gs)
      && (lock && r in Hosts(s.hs) ==> Reserved(s1, r))
      && (!lock && r != InvalidReg ==> r !in Locked(s1.hs) && r !in Bound(s1.gs))
      && (forall q | 0 <= q < |s.gs| :: FlushedFor(bank, q, s.gs[q], s1.gs[q], [r], StateStores(f.code)))
  {
    FlushByHostSpec(bank, s, r);
    var f := FlushByHostEffect(bank, s, r);
    SetLockKeepsInv(bank, f.s, r, lock);
    SetLockHosts(f.s.hs, r, lock);
  }

  lemma FlushedForTrans(bank: Bank, q: nat, a: OpArg, b: OpArg, c: OpArg,
                        rs1: seq<ARM64Reg>, rs2: seq<ARM64Reg>, rs: seq<ARM64Reg>,
                        st1: set<StateField>, st2: set<StateField>, st: set<StateField>)
    requires FlushedFor(bank, q, a, b, rs1, st1) && FlushedFor(bank, q, b, c, rs2, st2)
    requires (forall h | h in rs1 :: h in rs) && (forall h | h in rs2 :: h in rs)
    requires st1 <= st && st2 <= st
    ensures FlushedFor(bank, q, a, c, rs, st)
  {
  }

  /** Lock(regs[i..]) and Unlock(regs[i..]) keep the invariant and touch only the
      listed host registers: after Lock every listed register of the bank is a
      scratch register, after Unlock every listed register is unlocked and holds no
      guest value, and any other register keeps its lock and its binding.  Entries
      change only by being flushed because they held a listed register. */
  lemma {:induction false} LockSpec(bank: Bank, s: CacheState, regs: seq<ARM64Reg>, lock: bool, i: nat)
    requires Inv(bank, s) && i <= |regs|
    decreases |regs| - i
    ensures var e := LockFrom(bank, s, regs, lock, i);
      && Inv(bank, e.s) && Hosts(e.s.hs) == Hosts(s.hs)
      && (forall h | h !in regs[i..] :: (h in Locked(e.s.hs) <==> h in Locked(s.hs)) && (h in Bound(e.s.gs) <==> h in Bound(s.gs)))
      && Bound(e.s.gs) <= Bound(s.gs)
      && (lock ==> forall h | h in regs[i..] && h in Hosts(s.hs) :: Reserved(e.s, h))
      && (!lock ==> forall h | h in regs[i..] && h != InvalidReg :: h !in Locked(e.s.hs) && h !in Bound(e.s.gs))
      && (forall q | 0 <= q < |s.gs| :: FlushedFor(bank, q, s.gs[q], e.s.gs[q], regs[i..], StateStores(e.code)))
  {
    if i < |regs| {
      var r := regs[i];
      var f := FlushByHostEffect(bank, s, r);
      var s1 := f.s.(hs := SetLock(f.s.hs, r, lock));
      LockStep(bank, s, r, lock);
      LockSpec(bank, s1, regs, lock, i + 1);
      var rest := LockFrom(bank, s1, regs, lock, i + 1);
      var e := LockFrom(bank, s, regs, lock, i);
      assert e == Effect(rest.s, f.code + rest.code);
      StoresGrow(f.code, rest.code);
      assert regs[i..] == [r] + regs[i + 1..];
      forall q | 0 <= q < |s.gs|
        ensures FlushedFor(bank, q, s.gs[q], e.s.gs[q], regs[i..], StateStores(e.code))
      {
        FlushedForTrans(bank, q, s.gs[q], s1.gs[q], e.s.gs[q], [r], regs[i + 1..], regs[i..],
                        StateStores(f.code), StateStores(rest.code), StateStores(e.code));
      }
    }
  }

  // ---------------------------------------------------------------------------
  // FlushRegisters and Flush
  // ---------------------------------------------------------------------------

  /** Whether FlushRegisters writes guest registers i and i + 1 with a single STP: a
      general cache, both in the set, both dirty and both held in host registers. */
  predicate PairStore(bank: Bank, s: CacheState, regs: set<nat>, i: nat)
    requires |s.gs| == GUEST_COUNT && i < GUEST_COUNT
  {
    bank == Gpr && i < 31 && i + 1 in regs
    && s.gs[i].dirty && s.gs[i + 1].dirty && s.gs[i].kind == Reg && s.gs[i + 1].kind == Reg
  }

  /** The paired store: R(i) and R(i + 1) name the two host registers (ageing every
      entry, as any R does), one STP writes gpr[i] and gpr[i + 1], and without
      maintain_state both registers are unlocked and both entries flushed. */
  function PairEffect(s: CacheState, i: nat, maintain: bool): (e: Effect)
    requires |s.gs| == GUEST_COUNT && i < 31
    ensures |e.s.gs| == GUEST_COUNT
  {
    var r1 := GprReadEffect(s, i);
    var r2 := GprReadEffect(r1.0.s, i + 1);
    var rx1, rx2, s2 := r1.1, r2.1, r2.0.s;
    var s3 := if maintain then s2
              else Forget(Forget(UnlockHost(UnlockHost(s2, rx1), rx2), i), i + 1);
    Effect(s3, r1.0.code + r2.0.code + [StpState(32, rx1, rx2, GprField(i))])
  }

  /** FlushRegisters(regs, maintain) from guest register i on. */
  function FlushFrom(bank: Bank, s: CacheState, regs: set<nat>, maintain: bool, i: nat): (e: Effect)
    requires |s.gs| == GUEST_COUNT && i <= GUEST_COUNT
    ensures |e.s.gs| == GUEST_COUNT
    decreases GUEST_COUNT - i
  {
    if i == GUEST_COUNT then Effect(s, [])
    else if i !in regs then FlushFrom(bank, s, regs, maintain, i + 1)
    else if PairStore(bank, s, regs, i) then
      var pe := PairEffect(s, i, maintain);
      var rest := FlushFrom(bank, pe.s, regs, maintain, i + 2);
      Effect(rest.s, pe.code + rest.code)
    else
      var f := FlushEffect(bank, s, i, maintain);
      var rest := FlushFrom(bank, f.s, regs, maintain, i + 1);
      Effect(rest.s, f.code + rest.code)
  }

  /** One iteration of FlushRegisters at entry i: what it does and the entry the loop
      goes on with. */
  function FlushStep(bank: Bank, s: CacheState, regs: set<nat>, maintain: bool, i: nat): (r: (Effect, nat))
    requires |s.gs| == GUEST_COUNT && i < GUEST_COUNT
    ensures i < r.1 <= GUEST_COUNT && |r.0.s.gs| == GUEST_COUNT
  {
    if i !in regs then (Effect(s, []), i + 1)
    else if PairStore(bank, s, regs, i) then (PairEffect(s, i, maintain), i + 2)
    else (FlushEffect(bank, s, i, maintain), i + 1)
  }

  lemma FlushFromUnfold(bank: Bank, s: CacheState, regs: set<nat>, maintain: bool, i: nat)
    requires |s.gs| == GUEST_COUNT && i < GUEST_COUNT
    ensures var st := FlushStep(bank, s, regs, maintain, i);
      var rest := FlushFrom(bank, st.0.s, regs, maintain, st.1);
      FlushFrom(bank, s, regs, maintain, i) == Effect(rest.s, st.0.code + rest.code)
  {
    if i !in regs {
      assert [] + FlushFrom(bank, s, regs, maintain, i + 1).code == FlushFrom(bank, s, regs, maintain, i + 1).code;
    }
  }

  /** The paired store keeps the invariant and the scratch registers, writes both
      homes, and leaves both entries unloaded (or, with maintain_state, bound as they
      were); every other entry keeps its binding. */
  lemma PairSpec(s: CacheState, regs: set<nat>, i: nat, maintain: bool)
    requires Inv(Gpr, s) && i < GUEST_COUNT && PairStore(Gpr, s, regs, i)
    ensures var e := PairEffect(s, i, maintain);
      && Inv(Gpr, e.s)
      && (forall h :: Reserved(e.s, h) <==> Reserved(s, h))
      && GprField(i) in StateStores(e.code) && GprField(i + 1) in StateStores(e.code)
      && e.code == [StpState(32, s.gs[i].reg, s.gs[i + 1].reg, GprField(i))]
      && (maintain ==> forall q | 0 <= q < GUEST_COUNT :: SameBinding(s.gs[q], e.s.gs[q]))
      && (!maintain ==> e.s.gs[i].kind == NotLoaded && e.s.gs[i + 1].kind == NotLoaded)
      && (forall q | 0 <= q < GUEST_COUNT && q != i && q != i + 1 :: SameBinding(s.gs[q], e.s.gs[q]))
  {
    PairReads(s, i);
    var r1 := GprReadEffect(s, i);
    var r2 := GprReadEffect(r1.0.s, i + 1);
    var s2 := r2.0.s;
    var e := PairEffect(s, i, maintain);
    assert e.code[1..] == [];
    if !maintain {
      SpillKeepsInv(Gpr, s2, i);
      var s3 := Spill(s2, i);
      SpillKeepsInv(Gpr, s3, i + 1);
      assert e.s == Spill(s3, i + 1);
    }
  }

  /** The two reads of the paired store emit nothing and move nothing. */
  lemma PairReads(s: CacheState, i: nat)
    requires Inv(Gpr, s) && i < 31 && s.gs[i].kind == Reg && s.gs[i + 1].kind == Reg
    ensures var r1 := GprReadEffect(s, i);
      var r2 := GprReadEffect(r1.0.s, i + 1);
      && Inv(Gpr, r2.0.s)
      && (forall h :: Reserved(r2.0.s, h) <==> Reserved(s, h))
      && r1.0.code == [] && r2.0.code == []
      && r1.1 == s.gs[i].reg && r2.1 == s.gs[i + 1].reg
      && (forall q | 0 <= q < GUEST_COUNT :: SameBinding(s.gs[q], r2.0.s.gs[q]))
  {
    var r1 := GprReadEffect(s, i);
    GprReadSpec(s, i);
    var s1 := r1.0.s;
    GprReadSpec(s1, i + 1);
    assert s1.gs[i + 1].kind == Reg && s1.gs[i + 1].reg == s.gs[i + 1].reg;
  }

  /** FlushRegisters(regs, maintain) from entry i on keeps the invariant and the
      scratch registers.  Every listed entry whose value must go home (a dirty host
      binding, or an immediate) has it stored; without maintain_state every listed
      entry ends unloaded.  Every other entry, and with maintain_state every entry,
      only evolves: it keeps its binding, or is evicted (its value stored first) by
      the allocation a nonzero immediate needs. */
  lemma {:induction false} FlushFromSpec(bank: Bank, s: CacheState, regs: set<nat>, maintain: bool, i: nat)
    requires Inv(bank, s) && i <= GUEST_COUNT
    decreases GUEST_COUNT - i, 1
    ensures var e := FlushFrom(bank, s, regs, maintain, i);
      var st := StateStores(e.code);
      && Inv(bank, e.s)
      && (forall h :: Reserved(e.s, h) <==> Reserved(s, h))
      && (forall q | i <= q < GUEST_COUNT && q in regs :: MustStore(s.gs[q]) ==> Home(bank, q) in st)
      && (!maintain ==> forall q | i <= q < GUEST_COUNT && q in regs :: e.s.gs[q].kind == NotLoaded)
      && (forall q | 0 <= q < GUEST_COUNT && (maintain || q < i || q !in regs) ::
            Evolved(bank, q, s.gs[q], e.s.gs[q], st))
  {
    if i < GUEST_COUNT {
      if i !in regs {
        FlushFromSpec(bank, s, regs, maintain, i + 1);
      } else if PairStore(bank, s, regs, i) {
        FlushFromPair(bank, s, regs, maintain, i);
      } else {
        FlushFromSingle(bank, s, regs, maintain, i);
      }
    }
  }

  lemma {:induction false} FlushFromPair(bank: Bank, s: CacheState, regs: set<nat>, maintain: bool, i: nat)
    requires Inv(bank, s) && i < GUEST_COUNT && i in regs && PairStore(bank, s, regs, i)
    decreases GUEST_COUNT - i, 0
    ensures var e := FlushFrom(bank, s, regs, maintain, i);
      var st := StateStores(e.code);
      && Inv(bank, e.s)
      && (forall h :: Reserved(e.s, h) <==> Reserved(s, h))
      && (forall q | i <= q < GUEST_COUNT && q in regs :: MustStore(s.gs[q]) ==> Home(bank, q) in st)
      && (!maintain ==> forall q | i <= q < GUEST_COUNT && q in regs :: e.s.gs[q].kind == NotLoaded)
      && (forall q | 0 <= q < GUEST_COUNT && (maintain || q < i || q !in regs) ::
            Evolved(bank, q, s.gs[q], e.s.gs[q], st))
  {
    var e := FlushFrom(bank, s, regs, maintain, i);
    var pe := PairEffect(s, i, maintain);
    PairSpec(s, regs, i, maintain);
    FlushFromSpec(bank, pe.s, regs, maintain, i + 2);
    var rest := FlushFrom(bank, pe.s, regs, maintain, i + 2);
    assert e == Effect(rest.s, pe.code + rest.code);
    StateStoresAppend(pe.code, rest.code);
    FlushFromCompose(bank, s, pe.s, e.s, regs, maintain, i, i + 2, StateStores(pe.code), StateStores(rest.code));
  }

  lemma {:induction false} FlushFromSingle(bank: Bank, s: CacheState, regs: set<nat>, maintain: bool, i: nat)
    requires Inv(bank, s) && i < GUEST_COUNT && i in regs && !PairStore(bank, s, regs, i)
    decreases GUEST_COUNT - i, 0
    ensures var e := FlushFrom(bank, s, regs, maintain, i);
      var st := StateStores(e.code);
      && Inv(bank, e.s)
      && (forall h :: Reserved(e.s, h) <==> Reserved(s, h))
      && (forall q | i <= q < GUEST_COUNT && q in regs :: MustStore(s.gs[q]) ==> Home(bank, q) in st)
      && (!maintain ==> forall q | i <= q < GUEST_COUNT && q in regs :: e.s.gs[q].kind == NotLoaded)
      && (forall q | 0 <= q < GUEST_COUNT && (maintain || q < i || q !in regs) ::
            Evolved(bank, q, s.gs[q], e.s.gs[q], st))
  {
    var e := FlushFrom(bank, s, regs, maintain, i);
    var f := FlushEffect(bank, s, i, maintain);
    FlushSpec(bank, s, i, maintain);
    FlushFromSpec(bank, f.s, regs, maintain, i + 1);
    var rest := FlushFrom(bank, f.s, regs, maintain, i + 1);
    assert e == Effect(rest.s, f.code + rest.code);
    StateStoresAppend(f.code, rest.code);
    FlushFromCompose(bank, s, f.s, e.s, regs, maintain, i, i + 1, StateStores(f.code), StateStores(rest.code));
  }

  /** Putting together the first step of FlushFrom (flushing entries i..j-1 of the
      listed ones, m the state after it) with the rest (from j on). */
  lemma FlushFromCompose(bank: Bank, s: CacheState, m: CacheState, e: CacheState, regs: set<nat>, maintain: bool,
                         i: nat, j: nat, st1: set<StateField>, st2: set<StateField>)
    requires |s.gs| == GUEST_COUNT && |m.gs| == GUEST_COUNT && |e.gs| == GUEST_COUNT
    requires i < j <= GUEST_COUNT && forall q | i <= q < j :: q in regs
    // the first step
    requires forall q | i <= q < j :: MustStore(s.gs[q]) ==> Home(bank, q) in st1
    requires forall q | i <= q < j :: if maintain then SameBinding(s.gs[q], m.gs[q]) else m.gs[q].kind == NotLoaded
    requires forall q | 0 <= q < GUEST_COUNT && !(i <= q < j) :: Evolved(bank, q, s.gs[q], m.gs[q], st1)
    // the rest
    requires forall q | j <= q < GUEST_COUNT && q in regs :: MustStore(m.gs[q]) ==> Home(bank, q) in st2
    requires !maintain ==> forall q | j <= q < GUEST_COUNT && q in regs :: e.gs[q].kind == NotLoaded
    requires forall q | 0 <= q < GUEST_COUNT && (maintain || q < j || q !in regs) :: Evolved(bank, q, m.gs[q], e.gs[q], st2)
    ensures forall q | i <= q < GUEST_COUNT && q in regs :: MustStore(s.gs[q]) ==> Home(bank, q) in st1 + st2
    ensures !maintain ==> forall q | i <= q < GUEST_COUNT && q in regs :: e.gs[q].kind == NotLoaded
    ensures forall q | 0 <= q < GUEST_COUNT && (maintain || q < i || q !in regs) ::
      Evolved(bank, q, s.gs[q], e.gs[q], st1 + st2)
  {
    forall q | 0 <= q < GUEST_COUNT && (maintain || q < i || q !in regs)
      ensures Evolved(bank, q, s.gs[q], e.gs[q], st1 + st2)
    {
      assert Evolved(bank, q, s.gs[q], m.gs[q], st1);
      EvolvedTrans(bank, q, s.gs[q], m.gs[q], e.gs[q], st1, st2);
    }
  }

  /** The registers Arm64GPRCache::Flush hands to FlushRegisters: every guest
      register except, in FLUSH_INTERPRETER mode, those the instruction neither reads
      nor writes (`used`) unless they sit in a caller-saved host register. */
  function GprFlushSet(gs: seq<OpArg>, mode: FlushMode, used: set<nat>): set<nat>
  {
    set i | 0 <= i < |gs| && (mode != FlushInterpreter || i in used || (gs[i].kind == Reg && !IsCalleeSaved(Gpr, gs[i].reg)))
  }

  /** The loop of Arm64FPRCache::Flush from entry i on: each host-held entry is
      flushed, the others are passed over. */
  function FprFlushFrom(s: CacheState, maintain: bool, i: nat): (e: Effect)
    requires |s.gs| == GUEST_COUNT && i <= GUEST_COUNT
    ensures |e.s.gs| == GUEST_COUNT
    decreases GUEST_COUNT - i
  {
    if i == GUEST_COUNT then Effect(s, [])
    else if !s.gs[i].InHost() then FprFlushFrom(s, maintain, i + 1)
    else
      var f := FlushEffect(Fpr, s, i, maintain);
      var rest := FprFlushFrom(f.s, maintain, i + 1);
      Effect(rest.s, f.code + rest.code)
  }

  /** Passing over the entries that are not host-held changes nothing: the floating
      Flush is FlushRegisters on any set that lists every entry. */
  lemma {:induction false} FprFlushIsFlushRegisters(s: CacheState, regs: set<nat>, maintain: bool, i: nat)
    requires |s.gs| == GUEST_COUNT && i <= GUEST_COUNT
    requires forall j | i <= j < GUEST_COUNT :: j in regs
    ensures FprFlushFrom(s, maintain, i) == FlushFrom(Fpr, s, regs, maintain, i)
    decreases GUEST_COUNT - i
  {
    if i < GUEST_COUNT {
      var f := FlushEffect(Fpr, s, i, maintain);
      FprFlushIsFlushRegisters(f.s, regs, maintain, i + 1);
    }
  }

  /** What each cache's Flush(mode) amounts to: FlushRegisters on GprFlushSet for the
      general cache, and the flush of every host-held entry for the floating cache. */
  function FlushModeEffect(bank: Bank, s: CacheState, mode: FlushMode, used: set<nat>): Effect
    requires |s.gs| == GUEST_COUNT
  {
    if bank == Gpr then FlushFrom(Gpr, s, GprFlushSet(s.gs, mode, used), mode == FlushMaintainState, 0)
    else FprFlushFrom(s, mode == FlushMaintainState, 0)
  }

  /** Flush(FLUSH_ALL), as at a block exit, leaves no guest value cached: every entry
      is unloaded, every value that had to go home did, and the only locked host
      registers are the scratch registers there were before. */
  lemma FlushAllEmpties(bank: Bank, s: CacheState, used: set<nat>)
    requires Inv(bank, s)
    ensures var e := FlushModeEffect(bank, s, FlushAll, used);
      && Inv(bank, e.s)
      && (forall q | 0 <= q < GUEST_COUNT :: e.s.gs[q].kind == NotLoaded)
      && (forall q | 0 <= q < GUEST_COUNT :: MustStore(s.gs[q]) ==> Home(bank, q) in StateStores(e.code))
      && (forall h :: h in Locked(e.s.hs) <==> Reserved(s, h))
  {
    var regs := GprFlushSet(s.gs, FlushAll, used);
    assert forall q | 0 <= q < GUEST_COUNT :: q in regs;
    if bank == Fpr {
      FprFlushIsFlushRegisters(s, regs, false, 0);
    }
    FlushEverything(bank, s, regs);
  }

  /** FlushRegisters on every entry without maintain_state. */
  lemma FlushEverything(bank: Bank, s: CacheState, regs: set<nat>)
    requires Inv(bank, s) && forall q | 0 <= q < GUEST_COUNT :: q in regs
    ensures var e := FlushFrom(bank, s, regs, false, 0);
      && Inv(bank, e.s)
      && (forall q | 0 <= q < GUEST_COUNT :: e.s.gs[q].kind == NotLoaded)
      && (forall q | 0 <= q < GUEST_COUNT :: MustStore(s.gs[q]) ==> Home(bank, q) in StateStores(e.code))
      && (forall h :: h in Locked(e.s.hs) <==> Reserved(s, h))
  {
    FlushFromSpec(bank, s, regs, false, 0);
    var e := FlushFrom(bank, s, regs, false, 0);
    NothingBound(e.s.gs);
    forall h ensures h in Locked(e.s.hs) <==> Reserved(s, h) {
      assert Reserved(e.s, h) <==> Reserved(s, h);
    }
  }

  /** With every entry unloaded, no host register is bound. */
  lemma NothingBound(gs: seq<OpArg>)
    requires forall q | 0 <= q < |gs| :: gs[q].kind == NotLoaded
    ensures Bound(gs) == {}
  {
    assert forall q | 0 <= q < |gs| :: !gs[q].InHost();
  }

  /** The state Init leaves: every entry unloaded, every host register unlocked. */
  lemma InitialInv(bank: Bank, gs: seq<OpArg>, hs: seq<HostReg>)
    requires |gs| == GUEST_COUNT && (forall p | 0 <= p < |gs| :: gs[p] == Unloaded)
    requires hs == Unlocked(AllocationOrder(bank))
    ensures Inv(bank, CacheState(gs, hs))
  {
  }

  /** Setting the lock of the register at position k is setting it at k alone, host
      registers being distinct. */
  lemma SetLockAt(bank: Bank, hs: seq<HostReg>, k: nat, locked: bool)
    requires HostsInOrder(bank, hs) && k < |hs|
    ensures SetLock(hs, hs[k].reg, locked) == hs[k := hs[k].(locked := locked)]
  {
    HostsOfOrder(bank, hs);
  }

  // ---------------------------------------------------------------------------
  // Registers a call would clobber
  // ---------------------------------------------------------------------------

  /** GetCallerSavedUsed: bit n is set for each locked host register numbered n that
      a call may clobber: for the general cache a caller-saved one, for the floating
      cache any locked one (its version applies no filter). */
  function CallerSavedUsed(bank: Bank, hs: seq<HostReg>): set<nat>
  {
    set k | 0 <= k < |hs| && hs[k].locked && (bank == Fpr || !IsCalleeSaved(Gpr, hs[k].reg)) :: BitIndex(hs[k].reg)
  }

  lemma CallerSavedUsedSnoc(bank: Bank, hs: seq<HostReg>, h: HostReg)
    ensures CallerSavedUsed(bank, hs + [h]) ==
      CallerSavedUsed(bank, hs) + (if h.locked && (bank == Fpr || !IsCalleeSaved(Gpr, h.reg)) then {BitIndex(h.reg)} else {})
  {
    var hs' := hs + [h];
    forall n | n in CallerSavedUsed(bank, hs) ensures n in CallerSavedUsed(bank, hs') {
      var k :| 0 <= k < |hs| && hs[k].locked && (bank == Fpr || !IsCalleeSaved(Gpr, hs[k].reg)) && BitIndex(hs[k].reg) == n;
      assert hs'[k] == hs[k];
    }
    if h.locked && (bank == Fpr || !IsCalleeSaved(Gpr, h.reg)) {
      assert hs'[|hs|] == h;
    }
  }

  /** The mask has only register numbers below 32, never a callee-saved general
      register, and the number of every host register that holds a guest value a
      call would clobber: a call site that saves the mask saves every such value. */
  lemma CallerSavedUsedSpec(bank: Bank, s: CacheState)
    requires Inv(bank, s)
    ensures forall n | n in CallerSavedUsed(bank, s.hs) :: n < 32 && (bank == Gpr ==> !(19 <= n <= 28))
    ensures forall p | 0 <= p < |s.gs| && s.gs[p].InHost() && s.gs[p].reg != InvalidReg
                       && (bank == Fpr || !IsCalleeSaved(Gpr, s.gs[p].reg)) ::
      BitIndex(s.gs[p].reg) in CallerSavedUsed(bank, s.hs)
  {
    AllocationOrderShape(bank);
    AllocationOrderDistinct(bank);
    forall p | 0 <= p < |s.gs| && s.gs[p].InHost() && s.gs[p].reg != InvalidReg
               && (bank == Fpr || !IsCalleeSaved(Gpr, s.gs[p].reg))
      ensures BitIndex(s.gs[p].reg) in CallerSavedUsed(bank, s.hs)
    {
      assert s.gs[p].reg in Locked(s.hs);
      var k :| 0 <= k < |s.hs| && s.hs[k].locked && s.hs[k].reg == s.gs[p].reg;
    }
  }
}
