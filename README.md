# Dolphin's AArch64 JIT: register caches and floating-point loads and stores

This project models the part of Dolphin's AArch64 JIT that turns the Gekko
(PowerPC) floating-point load and store instructions into host code, together with
the two register caches those generators allocate from, and proves what each
operation does to the caches and to the emitted code.

**Register caches** (`JitArm64_RegCache.cpp`).
- Every guest register is in one of four states: not loaded, a known immediate, held
  in a host register, or held in the low half of a host vector register.
  Each guest register also has a dirty bit and a last-used age.
- The host registers of a bank form a list in a fixed allocation order, each with a
  lock flag.
- The class `RegCache.RegCache` is the mutable cache: the guest entries in an array,
  the host list in a field, and a code block it appends records to.
  The constant `bank` says which of the two subclasses (general or floating) an
  object is.
- Each method is proved to perform a transition of the pure model in
  `RegCacheState` (a state and the records emitted).
  The properties are proved there:
  - the cache invariant (a host register that holds a guest value is locked; no two
    guest entries share a host register);
  - which registers are scratch ("reserved": locked, but holding no guest value);
  - which guest values reach the guest state block.
- The callee-saved sets follow the AAPCS64 procedure call standard: X19–X28
  (section 6.1.1) and V8–V15 (section 6.1.2).

**Generators** (`JitArm64_LoadStoreFloating.cpp`).
- The opcode decode and the folding of the effective address are pure functions.
- Each address encoding is proved to compute RA + offset (or RA + RB) modulo 2^32 on
  a small machine semantics.
- `Jit.JitArm64.LfXX` and `Jit.JitArm64.StfXX` are methods on the JIT object.
  They call the cache methods in the order the generators do.
- They are proved to perform the transitions `LoadEffect` and `StoreEffect`.
  Lemmas about those transitions give:
  - the choice between the fast-RAM, fastmem/slowmem and gather-pipe paths;
  - the write-back of the address to RA;
  - balanced scratch locks;
  - spill sets that cover every live guest value;
  - the byte count added to the gather pipe.

**The JIT class** (`Jit.h`).
- The order on slow-memory handler keys is a strict total order, and it is lexicographic.
- The switch between near and far code regions is modelled.
- The layout limits asserted on the guest state block are shown to give the reach
  the load and store encodings need.

## Model

Paths are relative to the repository root. Members named below are declared in
`regcache_state.dfy` (RegCacheState), `regcache.dfy` (RegCache), `loadstore_floating.dfy`
(LoadStoreFloating), `loadstore_steps.dfy` (LoadStoreSteps), `jit.dfy` (Jit) and
`arm64.dfy` (Arm64).

| member | source | states |
|---|---|---|
| RegCacheState.AllocationOrderShape | Source/Core/Core/PowerPC/JitArm64/JitArm64_RegCache.cpp:254-271 | The general order has 29 W registers, the first nine callee-saved; the vector order has 32 Q registers, the first eight callee-saved; no register number repeats. |
| RegCacheState.AllocationOrderDistinct | Source/Core/Core/PowerPC/JitArm64/JitArm64_RegCache.cpp:434-449 | No host register appears twice in either order, none is INVALID_REG, W28 or W29, and every mask bit is below 32. |
| RegCacheState.SetLock | Source/Core/Core/PowerPC/JitArm64/JitArm64_RegCache.cpp:46-58 | Locking or unlocking a host register changes that register's flag only and keeps the list's registers and length. |
| RegCacheState.SetLockLocked | Source/Core/Core/PowerPC/JitArm64/JitArm64_RegCache.cpp:46-58 | Unlock removes exactly `r` from the locked set, Lock adds exactly `r` when it is in the cache, and a register outside the cache leaves the list unchanged. |
| RegCacheState.LockUnlockRestores | Source/Core/Core/PowerPC/JitArm64/JitArm64_RegCache.cpp:46-58 | Locking an unlocked host register and unlocking it again gives back the same list. |
| RegCacheState.Unlocked | Source/Core/Core/PowerPC/JitArm64/JitArm64_RegCache.cpp:269-270 | The host list built from an order holds each register of the order, in order, unlocked. |
| RegCacheState.SpillKeepsInv | Source/Core/Core/PowerPC/JitArm64/JitArm64_RegCache.cpp:102-106 | Unlocking a bound host register and unloading its entry keeps the invariant, unlocks exactly that register and keeps the scratch set. |
| RegCacheState.BindKeepsInv | Source/Core/Core/PowerPC/JitArm64/JitArm64_RegCache.cpp:245-251 | Binding an entry to a freshly allocated scratch register (or its own) keeps the invariant; that register stops being scratch and no other scratch register changes. |
| RegCacheState.StaleScanChoice | Source/Core/Core/PowerPC/JitArm64/JitArm64_RegCache.cpp:62-74 | The scan over the first i entries picks a host-held entry with the greatest age, the lowest index among ties, or (0, 0) when no host-held entry has a positive age. |
| RegCacheState.StaleVictimSpec | Source/Core/Core/PowerPC/JitArm64/JitArm64_RegCache.cpp:62-74 | The most stale victim is host-held with the strictly greatest positive age and the lowest index among ties; there is none exactly when every host-held entry has age 0. |
| RegCacheState.CountUnlockedZero | Source/Core/Core/PowerPC/JitArm64/JitArm64_RegCache.cpp:37-44 | The unlocked count is zero exactly when every host register is locked, and it never exceeds the list's length. |
| RegCacheState.FirstUnlocked | Source/Core/Core/PowerPC/JitArm64/JitArm64_RegCache.cpp:23-30 | The first unlocked host register from a position, with every register before it locked; none exactly when all from there are locked. |
| RegCacheState.EvictSpec | Source/Core/Core/PowerPC/JitArm64/JitArm64_RegCache.cpp:60-76 | GetReg evicts only when every host register is locked. It then spills the most stale host-held entry, one whose age is positive, and emits its store. When no host-held entry has aged, it stores WZR to gpr[0] and unloads guest 0 if that is the immediate 0, and otherwise does nothing. It keeps the invariant and the scratch set. |
| RegCacheState.LockFirstFreeSpec | Source/Core/Core/PowerPC/JitArm64/JitArm64_RegCache.cpp:23-29 | Locking the first unlocked register makes exactly that register scratch and keeps the invariant. |
| RegCacheState.GetRegSpec | Source/Core/Core/PowerPC/JitArm64/JitArm64_RegCache.cpp:17-35 | GetReg returns the first unlocked register in allocation order after any eviction, and that register becomes scratch; with a register already free nothing is evicted; INVALID_REG comes back only when every register is still locked. |
| RegCacheState.GetRegThenUnlock | Source/Core/Core/PowerPC/JitArm64/JitArm64_RegCache.cpp:326-329 | A temporary taken with GetReg and released with UnlockRegister leaves the cache exactly as the eviction left it. |
| RegCacheState.AsWrittenLoops | Source/Core/Core/PowerPC/JitArm64/JitArm64_RegCache.cpp:60-76 | With every host register locked, the as-written scan falling back to guest 0, and guest 0 a nonzero immediate, GetReg as written never returns, whatever the fuel. |
| RegCacheState.AsWrittenEvictionDiverges | Source/Core/Core/PowerPC/JitArm64/JitArm64_RegCache.cpp:60-76 | A concrete general cache in which GetReg as written never returns. |
| RegCacheState.CorrectedEvictionStops | Source/Core/Core/PowerPC/JitArm64/JitArm64_RegCache.cpp:17-35 | With every host register locked and no host-held entry aged, GetReg frees no register and returns INVALID_REG. It stores and unloads guest 0 when that is the immediate 0. Otherwise the state is unchanged, including the nonzero immediate on which the source recurses. |
| RegCacheState.UpgradeAsWrittenSelfEvicts | Source/Core/Core/PowerPC/JitArm64/JitArm64_RegCache.cpp:321-335 | With every vector register locked and guest 0 the only held value, a lower pair, R(0, false) over the eviction as written takes guest 0's own register as its temporary. Guest 0 ends bound to a register that is no longer locked, so the invariant fails. |
| RegCacheState.LonePairUpgradeAsWritten | Source/Core/Core/PowerPC/JitArm64/JitArm64_RegCache.cpp:321-335 | A concrete floating cache on which that happens. |
| RegCacheState.UpgradeCorrectedKeepsPair | Source/Core/Core/PowerPC/JitArm64/JitArm64_RegCache.cpp:321-335 | On such a cache, with the fallback skipped, the temporary is INVALID_REG. Guest 0 becomes a full register in its own host register, and the invariant holds. |
| RegCacheState.EvictEvolves | Source/Core/Core/PowerPC/JitArm64/JitArm64_RegCache.cpp:60-76 | An eviction keeps every entry, or unloads one after storing what must go home. Ages are untouched. An entry without a host register is untouched, except the immediate 0 at guest 0. |
| RegCacheState.GprFlushSpec | Source/Core/Core/PowerPC/JitArm64/JitArm64_RegCache.cpp:93-127 | General FlushRegister stores a dirty or immediate value home, emits nothing for a clean host binding, and stores WZR for the immediate 0 without allocating. With maintain_state the binding is kept. Without it the entry is unloaded and its host register unlocked. The invariant and scratch set are kept. |
| RegCacheState.GprFlushImmSpec | Source/Core/Core/PowerPC/JitArm64/JitArm64_RegCache.cpp:108-126 | Flushing a nonzero immediate stores it home, keeps the binding under maintain_state and unloads it otherwise; the temporary is released. |
| RegCacheState.FprFlushSpec | Source/Core/Core/PowerPC/JitArm64/JitArm64_RegCache.cpp:474-496 | Floating FlushRegister stores a dirty value to ps[preg][0], emits nothing for a clean one, changes nothing under maintain_state, and otherwise unloads the entry and unlocks its register. |
| RegCacheState.GprReadSpec | Source/Core/Core/PowerPC/JitArm64/JitArm64_RegCache.cpp:191-228 | General R ages every other entry and resets this one. A host binding returns its register and emits nothing. An immediate is materialised with MOVI2R into a new register and marked dirty. An unloaded entry is loaded from gpr[preg] and marked clean. |
| RegCacheState.FprReadSpec | Source/Core/Core/PowerPC/JitArm64/JitArm64_RegCache.cpp:310-362 | Floating R ages every other entry and resets this one. A full or sufficient binding returns its register and emits nothing. A lower pair read in full is upgraded in place. An unloaded entry gets a 64- or 128-bit load into a new register. |
| RegCacheState.FprReadUpgrade | Source/Core/Core/PowerPC/JitArm64/JitArm64_RegCache.cpp:321-335 | Reading a lower pair in full loads ps[preg][1] through a temporary, inserts it, keeps the same host register, makes it a full binding and releases the temporary. |
| RegCacheState.FprReadLoad | Source/Core/Core/PowerPC/JitArm64/JitArm64_RegCache.cpp:337-354 | Reading an unloaded floating entry binds a new register (lower pair if only_lower), marks it clean and loads 64 or 128 bits of ps[preg][0]. |
| RegCacheState.MarkWrittenSpec | Source/Core/Core/PowerPC/JitArm64/JitArm64_RegCache.cpp:242-244 | Resetting the age and setting dirty keeps the invariant, the host list and the scratch set. |
| RegCacheState.GprBindSpec | Source/Core/Core/PowerPC/JitArm64/JitArm64_RegCache.cpp:238-252 | General BindToRegister marks the entry dirty and fresh; an unloaded entry gets a new register and a load only if do_load; any other entry emits nothing. |
| RegCacheState.FprBindSpec | Source/Core/Core/PowerPC/JitArm64/JitArm64_RegCache.cpp:364-432 | Floating BindToRegister: an unloaded entry gets a new register, loaded only if do_load. A lower pair wanted in full is upgraded in the same register. A full binding wanted lower stores 128 bits if it was dirty and drops to a lower pair in the same register. The invariant is kept. |
| RegCacheState.SetImmediateSpec | Source/Core/Core/PowerPC/JitArm64/JitArm64_RegCache.cpp:230-236 | SetImmediate makes the entry the given immediate, unlocks a host register it held, and leaves every other entry unchanged. |
| RegCacheState.EvictSparesFresh | Source/Core/Core/PowerPC/JitArm64/JitArm64_RegCache.cpp:64-74 | An entry whose age is 0 never loses its host register to the eviction. It changes only when it is the immediate 0 at guest 0, which is stored and unloaded. |
| RegCacheState.FlushSpec | Source/Core/Core/PowerPC/JitArm64/JitArm64_RegCache.cpp:93-127 | FlushRegister of either bank keeps the invariant and scratch set, stores a value that must go home, keeps or unloads the entry as maintain_state says, and only evicts elsewhere. |
| RegCacheState.MostStaleSpec | Source/Core/Core/PowerPC/JitArm64/JitArm64_RegCache.cpp:60-76 | FlushMostStaleRegister is FlushRegister(p, false) of the scan's choice p, except where the fallback to guest 0 is skipped (guest 0 host-held, or a nonzero immediate). It spills the most stale aged host-held entry with its store; otherwise it at most stores and unloads the immediate 0 at guest 0. It keeps the invariant, and with every host register locked it is GetReg's eviction. |
| RegCacheState.FirstHolder | Source/Core/Core/PowerPC/JitArm64/JitArm64_RegCache.cpp:284-292 | The first guest entry, from a position, whose host binding is the given register; none exactly when no later entry holds it. |
| RegCacheState.FlushByHostSpec | Source/Core/Core/PowerPC/JitArm64/JitArm64_RegCache.cpp:282-293 | FlushByHost leaves the given register holding no guest value, unlocks it if it held one, stores that entry if dirty, and changes no other entry, lock or binding. |
| RegCacheState.FlushByHostLocks | Source/Core/Core/PowerPC/JitArm64/JitArm64_RegCache.cpp:287-290 | Flushing the holder of a host register emits its store, unloads it and unlocks exactly that register. |
| RegCacheState.SetLockKeepsInv | Source/Core/Core/PowerPC/JitArm64/JitArm64_RegCache.cpp:46-58 | Locking any register, or unlocking one that holds no guest value, keeps the invariant and changes only that register's flag. |
| RegCacheState.LockStep | Source/Core/Core/PowerPC/JitArm64/JitArm64_LoadStoreFloating.cpp:87-88 | Locking one scratch register flushes its holder first; after it the register is scratch, or with Unlock free and unbound, and nothing else changes. |
| RegCacheState.LockSpec | Source/Core/Core/PowerPC/JitArm64/JitArm64_LoadStoreFloating.cpp:87-88 | Lock(...) makes each listed register in the cache scratch; Unlock(...) leaves each listed register unlocked and unbound; other registers and entries are kept, except holders of the listed ones, which are stored and unloaded. |
| RegCacheState.PairSpec | Source/Core/Core/PowerPC/JitArm64/JitArm64_RegCache.cpp:135-156 | Two adjacent dirty host-held entries are stored by one STP at gpr[i]; both are unloaded without maintain_state and kept with it; no other entry changes. |
| RegCacheState.PairReads | Source/Core/Core/PowerPC/JitArm64/JitArm64_RegCache.cpp:143-144 | The two R calls of the paired store return the bound registers and emit nothing. |
| RegCacheState.FlushFromSpec | Source/Core/Core/PowerPC/JitArm64/JitArm64_RegCache.cpp:129-162 | FlushRegisters stores every listed entry that must go home, unloads every listed entry without maintain_state, and leaves entries outside the set as they were, except for evictions. |
| RegCacheState.FlushFromPair | Source/Core/Core/PowerPC/JitArm64/JitArm64_RegCache.cpp:135-156 | The FlushRegisters property from a position where the paired store applies. |
| RegCacheState.FlushFromSingle | Source/Core/Core/PowerPC/JitArm64/JitArm64_RegCache.cpp:159 | The FlushRegisters property from a position flushed on its own. |
| RegCacheState.FprFlushIsFlushRegisters | Source/Core/Core/PowerPC/JitArm64/JitArm64_RegCache.cpp:498-502 | Floating Flush's loop is floating FlushRegisters over all 32 entries. |
| RegCacheState.FlushAllEmpties | Source/Core/Core/PowerPC/JitArm64/JitArm64_RegCache.cpp:164-189 | Flush(FLUSH_ALL) unloads every entry of either bank, stores every value that must go home, and leaves exactly the scratch registers locked. |
| RegCacheState.FlushEverything | Source/Core/Core/PowerPC/JitArm64/JitArm64_RegCache.cpp:129-162 | FlushRegisters of all 32 entries without maintain_state empties the cache and leaves exactly the scratch registers locked. |
| RegCacheState.InitialInv | Source/Core/Core/PowerPC/JitArm64/JitArm64_RegCache.cpp:10-15 | A cache with all entries unloaded and the allocation order all unlocked satisfies the invariant. |
| RegCacheState.CallerSavedUsedSpec | Source/Core/Core/PowerPC/JitArm64/JitArm64_RegCache.cpp:273-280 | GetCallerSavedUsed has only bits below 32, none of W19–W28 in the general bank, and a bit for every guest value held in a caller-saved register. |
| RegCache.RegCache.constructor | Source/Core/Core/PowerPC/JitArm64/JitArm64_RegCache.cpp:10-15 | Init: every guest entry unloaded, the host list the bank's allocation order, all unlocked. |
| RegCache.RegCache.GetAllocationOrder | Source/Core/Core/PowerPC/JitArm64/JitArm64_RegCache.cpp:254-271 | Appends the bank's allocation order, unlocked, to the host list. |
| RegCache.RegCache.IncrementAllUsed | Source/Core/Core/PowerPC/JitArm64/JitArm64_RegCache.cpp:194 | Ages every guest entry by one. |
| RegCache.RegCache.GetUnlockedRegisterCount | Source/Core/Core/PowerPC/JitArm64/JitArm64_RegCache.cpp:37-44 | Returns the number of unlocked host registers and changes nothing. |
| RegCache.RegCache.FindHost | Source/Core/Core/PowerPC/JitArm64/JitArm64_RegCache.cpp:48 | Returns the position of the first list entry for the register, or the length when it is absent. |
| RegCache.RegCache.LockRegister | Source/Core/Core/PowerPC/JitArm64/JitArm64_RegCache.cpp:46-51 | Locks exactly that host register. |
| RegCache.RegCache.UnlockRegister | Source/Core/Core/PowerPC/JitArm64/JitArm64_RegCache.cpp:53-58 | Unlocks exactly that host register. |
| RegCache.RegCache.GetReg | Source/Core/Core/PowerPC/JitArm64/JitArm64_RegCache.cpp:17-35 | Performs GetReg's transition (eviction when full, then the first unlocked register, locked) and emits the eviction's store. |
| RegCache.RegCache.FirstFree | Source/Core/Core/PowerPC/JitArm64/JitArm64_RegCache.cpp:23-30 | Returns the position of the first unlocked host register, or the length when all are locked. |
| RegCache.RegCache.FlushMostStaleRegister | Source/Core/Core/PowerPC/JitArm64/JitArm64_RegCache.cpp:60-76 | Runs the source's scan loop and flushes its choice, except where the fallback to guest 0 is skipped. It performs MostStaleEffect and emits its code. |
| RegCache.RegCache.FlushRegister | Source/Core/Core/PowerPC/JitArm64/JitArm64_RegCache.cpp:93-127 | Performs FlushRegister's transition for the object's bank. |
| RegCache.RegCache.GprFlushRegister | Source/Core/Core/PowerPC/JitArm64/JitArm64_RegCache.cpp:93-127 | Performs general FlushRegister's transition. |
| RegCache.RegCache.FlushImmediate | Source/Core/Core/PowerPC/JitArm64/JitArm64_RegCache.cpp:108-126 | Flushes an immediate entry: WZR store for 0, temporary otherwise, unloading unless maintain_state. |
| RegCache.RegCache.StoreImmediate | Source/Core/Core/PowerPC/JitArm64/JitArm64_RegCache.cpp:114-122 | Takes a temporary, emits MOVI2R of the immediate and its store to gpr[preg], and releases the temporary. |
| RegCache.RegCache.FprFlushRegister | Source/Core/Core/PowerPC/JitArm64/JitArm64_RegCache.cpp:474-496 | Performs floating FlushRegister's transition. |
| RegCache.RegCache.FlushRegisters | Source/Core/Core/PowerPC/JitArm64/JitArm64_RegCache.cpp:129-162 | The loop over the 32 entries performs FlushRegisters' transition. |
| RegCache.RegCache.FlushOne | Source/Core/Core/PowerPC/JitArm64/JitArm64_RegCache.cpp:133-160 | One iteration: skip, paired store (advancing by two) or single flush. |
| RegCache.RegCache.StorePair | Source/Core/Core/PowerPC/JitArm64/JitArm64_RegCache.cpp:135-156 | Performs the paired store's transition. |
| RegCache.RegCache.GprFlushSetOf | Source/Core/Core/PowerPC/JitArm64/JitArm64_RegCache.cpp:164-187 | The loop computes the set general Flush hands to FlushRegisters. |
| RegCache.RegCache.Flush | Source/Core/Core/PowerPC/JitArm64/JitArm64_RegCache.cpp:164-189 | Performs Flush(mode)'s transition for the object's bank. |
| RegCache.RegCache.FprFlush | Source/Core/Core/PowerPC/JitArm64/JitArm64_RegCache.cpp:296-308 | The loop performs floating Flush's transition. |
| RegCache.RegCache.FlushIfHeld | Source/Core/Core/PowerPC/JitArm64/JitArm64_RegCache.cpp:300-306 | Flushes an entry exactly when it is host-held. |
| RegCache.RegCache.GprR | Source/Core/Core/PowerPC/JitArm64/JitArm64_RegCache.cpp:191-228 | Returns the register and performs general R's transition. |
| RegCache.RegCache.FprR | Source/Core/Core/PowerPC/JitArm64/JitArm64_RegCache.cpp:310-362 | Returns the register and performs floating R's transition. |
| RegCache.RegCache.FillUpperHalf | Source/Core/Core/PowerPC/JitArm64/JitArm64_RegCache.cpp:323-330 | Loads ps[preg][1] into a temporary, inserts it into the upper half, releases the temporary and keeps the entry. |
| RegCache.RegCache.GprBindToRegister | Source/Core/Core/PowerPC/JitArm64/JitArm64_RegCache.cpp:238-252 | Performs general BindToRegister's transition. |
| RegCache.RegCache.FprBindToRegister | Source/Core/Core/PowerPC/JitArm64/JitArm64_RegCache.cpp:364-432 | Performs floating BindToRegister's transition. |
| RegCache.RegCache.SetImmediate | Source/Core/Core/PowerPC/JitArm64/JitArm64_RegCache.cpp:230-236 | Performs SetImmediate's transition. |
| RegCache.RegCache.GetCallerSavedUsed | Source/Core/Core/PowerPC/JitArm64/JitArm64_RegCache.cpp:504-511 | Returns the mask of the bank's locked caller-saved registers and changes nothing. |
| RegCache.RegCache.FlushByHost | Source/Core/Core/PowerPC/JitArm64/JitArm64_RegCache.cpp:282-293 | Performs FlushByHost's transition. |
| RegCache.RegCache.Lock | Source/Core/Core/PowerPC/JitArm64/JitArm64_LoadStoreFloating.cpp:87-88 | Performs Lock(...) on the listed registers in order. |
| RegCache.RegCache.LockOrUnlock | Source/Core/Core/PowerPC/JitArm64/JitArm64_LoadStoreFloating.cpp:87-88 | Flushes the holder of each listed register and sets its lock flag, register by register in order. |
| RegCache.RegCache.Unlock | Source/Core/Core/PowerPC/JitArm64/JitArm64_LoadStoreFloating.cpp:209-210 | Performs Unlock(...) on the listed registers in order. |
| RegCache.RegCache.LockOne | Source/Core/Core/PowerPC/JitArm64/JitArm64_LoadStoreFloating.cpp:276-277 | Flushes the register's holder, then sets its lock flag. |
| RegCache.GetRegKeepsInv | Source/Core/Core/PowerPC/JitArm64/JitArm64_RegCache.cpp:17-35 | GetReg keeps the invariant and evicts nothing while a register is free. |
| RegCache.MostStaleIsEviction | Source/Core/Core/PowerPC/JitArm64/JitArm64_RegCache.cpp:19-21 | With every host register locked, FlushMostStaleRegister is GetReg's eviction. |
| RegCache.TemporaryReleased | Source/Core/Core/PowerPC/JitArm64/JitArm64_RegCache.cpp:114-121 | A temporary taken to store a nonzero immediate and released again leaves the eviction's state behind, with that entry untouched. |
| RegCache.ImmediateFlushEffect | Source/Core/Core/PowerPC/JitArm64/JitArm64_RegCache.cpp:108-126 | Flushing an immediate emits the WZR store for 0 and otherwise the eviction, MOVI2R and the store, and keeps or unloads the entry as maintain_state says. |
| LoadStoreFloating.DecodeLoad | Source/Core/Core/PowerPC/JitArm64/JitArm64_LoadStoreFloating.cpp:30-69 | The lfXX table: F64 exactly for 50, 51, 599 and 631; update exactly for 49, 51, 567 and 631; indexed exactly for the listed opcode-31 forms; an opcode outside the table decodes to no form. |
| LoadStoreFloating.DecodeStore | Source/Core/Core/PowerPC/JitArm64/JitArm64_LoadStoreFloating.cpp:225-268 | The stfXX table: F32I exactly for 983; F64 exactly for 54, 55, 727 and 759; update exactly for 53, 55, 695 and 759; indexed exactly for the listed opcode-31 forms. |
| LoadStoreFloating.LoadDecodeRoundTrip | Source/Core/Core/PowerPC/JitArm64/JitArm64_LoadStoreFloating.cpp:30-69 | Decoding is inverse to the opcode each load form is listed under, in both directions. |
| LoadStoreFloating.StoreDecodeRoundTrip | Source/Core/Core/PowerPC/JitArm64/JitArm64_LoadStoreFloating.cpp:225-268 | Decoding is inverse to the opcode each store form is listed under, in both directions. |
| LoadStoreFloating.OffsetPlan | Source/Core/Core/PowerPC/JitArm64/JitArm64_LoadStoreFloating.cpp:137-149 | ADD for an offset in [0, 4096), SUB of its magnitude in (-4096, 0), MOVI2R+ADD otherwise (±4096 included). |
| LoadStoreFloating.PlanFolds | Source/Core/Core/PowerPC/JitArm64/JitArm64_LoadStoreFloating.cpp:90-177 | The address folds exactly when every contributing register is a known immediate (RA always under update, never when RA = 0 otherwise), and the folded value is the effective address; MOV from RB exactly for a non-update RA = 0 indexed form. |
| LoadStoreFloating.PlanValueIsEffective | Source/Core/Core/PowerPC/JitArm64/JitArm64_LoadStoreFloating.cpp:90-177 | Every plan, folded or not, denotes RA + offset (or RA + RB, or the RA = 0 variants) modulo 2^32. |
| LoadStoreFloating.AddressCodeRuns | Source/Core/Core/PowerPC/JitArm64/JitArm64_LoadStoreFloating.cpp:105-123 | Running the emitted ADD/SUB/MOVI2R+ADD/MOV leaves the plan's value in the address register. |
| LoadStoreFloating.MoviAddRuns | Source/Core/Core/PowerPC/JitArm64/JitArm64_LoadStoreFloating.cpp:145-148 | MOVI2R of the offset then ADD of RA leaves RA + offset modulo 2^32. |
| LoadStoreFloating.AddressCodeComputes | Source/Core/Core/PowerPC/JitArm64/JitArm64_LoadStoreFloating.cpp:90-182 | For every form and cache situation, the address register ends holding the effective address. |
| LoadStoreFloating.GatherSetupRuns | Source/Core/Core/PowerPC/JitArm64/JitArm64_LoadStoreFloating.cpp:403-412 | The set-up leaves the base of the gather-pipe fields in X30, the pipe's address in the register that addresses it, and the pipe count read from memory in W0, and writes no memory. |
| LoadStoreFloating.GatherDataRuns | Source/Core/Core/PowerPC/JitArm64/JitArm64_LoadStoreFloating.cpp:413-430 | The data store writes at pipe + count and nowhere else, leaving the general registers alone. |
| LoadStoreFloating.GatherCountRuns | Source/Core/Core/PowerPC/JitArm64/JitArm64_LoadStoreFloating.cpp:431-432 | The count update writes count + accessSize/8 (modulo 2^32) back to the pipe count. |
| LoadStoreFloating.GatherCodeCounts | Source/Core/Core/PowerPC/JitArm64/JitArm64_LoadStoreFloating.cpp:393-433 | The whole inline store writes the value at the old end of the pipe, advances the count by accessSize/8, and changes no other memory. |
| LoadStoreFloating.ScratchInHosts | Source/Core/Core/PowerPC/JitArm64/JitArm64_LoadStoreFloating.cpp:87-88 | W0, W1 and W30 are in the general cache and Q0 in the floating cache, so the scratch locks apply to them. |
| LoadStoreFloating.LoadTarget | Source/Core/Core/PowerPC/JitArm64/JitArm64_LoadStoreFloating.cpp:74-88 | lfXX's floating set-up with Q0 locked before FD is bound. |
| LoadStoreFloating.LoadTargetSpec | Source/Core/Core/PowerPC/JitArm64/JitArm64_LoadStoreFloating.cpp:74-88 | After it, Q0 is scratch, FD is bound, dirty, in VD (a lower pair for the F64 forms), VD is not Q0, and no other scratch register changed. |
| LoadStoreFloating.BindThenRead | Source/Core/Core/PowerPC/JitArm64/JitArm64_LoadStoreFloating.cpp:76-78 | BindToRegister(FD) then R(FD) leaves FD bound, dirty, in the register R returns. |
| LoadStoreFloating.LockScratchFpr | Source/Core/Core/PowerPC/JitArm64/JitArm64_LoadStoreFloating.cpp:88 | Lock(Q0) makes Q0 scratch and no other scratch register changes. |
| LoadStoreFloating.LoadTargetAsWrittenLoses | Source/Core/Core/PowerPC/JitArm64/JitArm64_LoadStoreFloating.cpp:76-88 | In the order as written, when the binding hands out Q0, Lock(Q0) leaves FD unbound and Q0 scratch. |
| LoadStoreFloating.LoadTargetAsWrittenLosesOnFullCache | Source/Core/Core/PowerPC/JitArm64/JitArm64_LoadStoreFloating.cpp:76-88 | A concrete floating cache (all other vector registers held) where the order as written hands out Q0 and loses FD. |
| LoadStoreFloating.FullFprAllocatesQ0 | Source/Core/Core/PowerPC/JitArm64/JitArm64_RegCache.cpp:434-449 | Q0 is last in the vector order, so with every other register held the binding gets Q0. |
| LoadStoreSteps.AddressEffectSpec | Source/Core/Core/PowerPC/JitArm64/JitArm64_LoadStoreFloating.cpp:90-177 | Forming the address chooses the folding plan, reads RA/RB only where the plan needs them, keeps the invariant and scratch set, and emits code that computes the effective address. |
| LoadStoreSteps.WriteBackSpec | Source/Core/Core/PowerPC/JitArm64/JitArm64_LoadStoreFloating.cpp:184-188 | BindToRegister(RA) then MOV (or MOVI2R) leaves RA bound, dirty, in a non-scratch register, with the last record the move of the address into it. |
| LoadStoreSteps.UnlockScratch | Source/Core/Core/PowerPC/JitArm64/JitArm64_LoadStoreFloating.cpp:209-210 | Unlocking the scratch registers frees exactly them and changes no guest entry. |
| LoadStoreSteps.LockScratch | Source/Core/Core/PowerPC/JitArm64/JitArm64_LoadStoreFloating.cpp:87-88 | Locking the scratch registers makes each scratch, changes no other scratch register and keeps every known immediate. |
| LoadStoreSteps.GprStepsCache | Source/Core/Core/PowerPC/JitArm64/JitArm64_LoadStoreFloating.cpp:87-188 | Through the address and write-back, the scratch registers stay scratch, no other register changes role, and under update RA ends bound and dirty. |
| LoadStoreSteps.GprWriteBackRecord | Source/Core/Core/PowerPC/JitArm64/JitArm64_LoadStoreFloating.cpp:371-385 | Under update the last write-back record is MOVI2R of the folded address on the gather-pipe path and MOV from the address register otherwise; without update there is no write-back. |
| LoadStoreSteps.GprPlan | Source/Core/Core/PowerPC/JitArm64/JitArm64_LoadStoreFloating.cpp:90-177 | The plan is the folding decision on RA's and RB's known immediates at entry. |
| LoadStoreSteps.MasksSaveLive | Source/Core/Core/PowerPC/JitArm64/JitArm64_LoadStoreFloating.cpp:190-194 | The caller-saved masks minus the scratch bits still cover every live guest value. |
| LoadStoreSteps.LoadRecordsSpec | Source/Core/Core/PowerPC/JitArm64/JitArm64_LoadStoreFloating.cpp:184-206 | lfXX emits one backpatch call loading VD from X0, the MOV write-back exactly for update forms, and adds nothing to the gather pipe. |
| LoadStoreSteps.LoadMasksSpec | Source/Core/Core/PowerPC/JitArm64/JitArm64_LoadStoreFloating.cpp:190-206 | The spill sets of a slow call exclude W0, Q0 and VD and cover every other live guest value. |
| LoadStoreSteps.LoadMasksSaveLive | Source/Core/Core/PowerPC/JitArm64/JitArm64_LoadStoreFloating.cpp:190-194 | The masks minus W0, Q0 and FD's register cover every other live guest value. |
| LoadStoreSteps.LoadEffectCaches | Source/Core/Core/PowerPC/JitArm64/JitArm64_LoadStoreFloating.cpp:87-210 | After lfXX both invariants hold, W0, W30 and Q0 are unlocked, and no other register changed role. |
| LoadStoreSteps.LoadEffectTarget | Source/Core/Core/PowerPC/JitArm64/JitArm64_LoadStoreFloating.cpp:74-85 | The call's flags are load, the form's size, and only-lower exactly for the F64 forms; FD ends bound, dirty, in the call's register, which is not Q0, as a lower pair exactly for the F64 forms. |
| LoadStoreSteps.TargetReleased | Source/Core/Core/PowerPC/JitArm64/JitArm64_LoadStoreFloating.cpp:210 | Unlocking Q0 at the end keeps FD's binding and frees Q0. |
| LoadStoreSteps.GprReleased | Source/Core/Core/PowerPC/JitArm64/JitArm64_LoadStoreFloating.cpp:209 | Unlocking W0 and W30 at the end keeps RA's write-back binding and frees them. |
| LoadStoreSteps.LoadEffectWriteBack | Source/Core/Core/PowerPC/JitArm64/JitArm64_LoadStoreFloating.cpp:184-188 | An update form ends with RA bound, dirty, its register set by MOV from W0; no other form writes back. |
| LoadStoreSteps.LoadEffectRecords | Source/Core/Core/PowerPC/JitArm64/JitArm64_LoadStoreFloating.cpp:179-206 | lfXX's records contain its backpatch call, which takes the address from X0, and any write-back record; nothing is added to the gather pipe. |
| LoadStoreSteps.LoadEffectRoute | Source/Core/Core/PowerPC/JitArm64/JitArm64_LoadStoreFloating.cpp:196-207 | A folded address is materialised into X0; in fast RAM the call is fastmem without far code and with empty spill sets, otherwise both flags follow jo.fastmem. |
| LoadStoreSteps.LoadRouteSpec | Source/Core/Core/PowerPC/JitArm64/JitArm64_LoadStoreFloating.cpp:196-207 | The same path choice stated on the end of lfXX for any caches. |
| LoadStoreSteps.LoadEffectMasks | Source/Core/Core/PowerPC/JitArm64/JitArm64_LoadStoreFloating.cpp:190-206 | Whenever lfXX's call can spill, its sets exclude W0, Q0 and VD and cover every other live guest value. |
| LoadStoreSteps.StorePipeRecords | Source/Core/Core/PowerPC/JitArm64/JitArm64_LoadStoreFloating.cpp:393-433 | On the gather-pipe path there is no call, the inline gather code is emitted, and accessSize/8 bytes are counted. |
| LoadStoreSteps.StorePipeWriteBack | Source/Core/Core/PowerPC/JitArm64/JitArm64_LoadStoreFloating.cpp:435-440 | On the gather-pipe path an update form's write-back is MOVI2R of imm_addr into RA's register. |
| LoadStoreSteps.StoreCallRecords | Source/Core/Core/PowerPC/JitArm64/JitArm64_LoadStoreFloating.cpp:369-458 | Off the gather pipe, stfXX emits one backpatch call storing V0 through X1 with the store flags, the MOV write-back exactly for update forms, and counts nothing. |
| LoadStoreSteps.StoreRouteSpec | Source/Core/Core/PowerPC/JitArm64/JitArm64_LoadStoreFloating.cpp:442-458 | A folded address goes to fastmem with empty spill sets in fast RAM and to slowmem otherwise; a computed one follows jo.fastmem. |
| LoadStoreSteps.StoreMasksSpec | Source/Core/Core/PowerPC/JitArm64/JitArm64_LoadStoreFloating.cpp:387-391 | The spill sets of a slow store exclude W0, W1 and Q0 and cover every live guest value. |
| LoadStoreSteps.StoreMasksSaveLive | Source/Core/Core/PowerPC/JitArm64/JitArm64_LoadStoreFloating.cpp:387-391 | The masks minus W0, W1 and Q0 cover every live guest value. |
| LoadStoreSteps.SourceReleased | Source/Core/Core/PowerPC/JitArm64/JitArm64_LoadStoreFloating.cpp:460 | Unlocking Q0 at the end of stfXX frees it and restores the entry scratch set. |
| LoadStoreSteps.SourceLocked | Source/Core/Core/PowerPC/JitArm64/JitArm64_LoadStoreFloating.cpp:273-277 | After R(FS) and Lock(Q0), FS stays in V0 unless V0 is Q0, in which case FS has been flushed and unloaded. |
| LoadStoreSteps.ReadHolds | Source/Core/Core/PowerPC/JitArm64/JitArm64_LoadStoreFloating.cpp:273 | R(FS) leaves FS fully bound to the register it returns. |
| LoadStoreSteps.StoreEffectCaches | Source/Core/Core/PowerPC/JitArm64/JitArm64_LoadStoreFloating.cpp:273-460 | After stfXX both invariants hold, W0, W1, W30 and Q0 are unlocked, and no other register changed role. |
| LoadStoreSteps.StoreFinishCaches | Source/Core/Core/PowerPC/JitArm64/JitArm64_LoadStoreFloating.cpp:273-460 | The caches after stfXX are those after the write-back and the Q0 lock, with the scratch registers unlocked. |
| LoadStoreSteps.StoreEffectSource | Source/Core/Core/PowerPC/JitArm64/JitArm64_LoadStoreFloating.cpp:273-277 | FS ends fully bound to V0, or unloaded when V0 is Q0. |
| LoadStoreSteps.StoreEffectWriteBack | Source/Core/Core/PowerPC/JitArm64/JitArm64_LoadStoreFloating.cpp:371-440 | An update form ends with RA bound and dirty, set by MOVI2R of imm_addr on the gather-pipe path and by MOV from W1 otherwise; no other form writes back. |
| LoadStoreSteps.StoreEffectPipe | Source/Core/Core/PowerPC/JitArm64/JitArm64_LoadStoreFloating.cpp:393-440 | On the gather-pipe path: no call, the gather code in the records, accessSize/8 bytes counted. |
| LoadStoreSteps.StoreEffectCall | Source/Core/Core/PowerPC/JitArm64/JitArm64_LoadStoreFloating.cpp:442-458 | Off the gather pipe: one store call of V0 through X1 with the form's size, and nothing counted. |
| LoadStoreSteps.StoreEffectRoute | Source/Core/Core/PowerPC/JitArm64/JitArm64_LoadStoreFloating.cpp:442-458 | Off the gather pipe, a folded address is materialised into X1; in fast RAM the call is fastmem without far code or spill sets, outside it slowmem without far code; a computed address follows jo.fastmem. |
| LoadStoreSteps.StoreEffectMasks | Source/Core/Core/PowerPC/JitArm64/JitArm64_LoadStoreFloating.cpp:387-458 | Whenever stfXX's call can spill, its sets exclude W0, W1 and Q0 and cover every live guest value. |
| Jit.JitArm64.LfXX | Source/Core/Core/PowerPC/JitArm64/JitArm64_LoadStoreFloating.cpp:18-211 | lfXX (with Q0 locked first) leaves both caches, the records and js.fifoBytesThisBlock exactly as LoadEffect says. The saved near cursor and the two handler maps are unchanged. |
| Jit.JitArm64.StfXX | Source/Core/Core/PowerPC/JitArm64/JitArm64_LoadStoreFloating.cpp:213-461 | stfXX leaves both caches, the records and js.fifoBytesThisBlock exactly as StoreEffect says. The saved near cursor and the two handler maps are unchanged. |
| Jit.EmitAddress | Source/Core/Core/PowerPC/JitArm64/JitArm64_LoadStoreFloating.cpp:90-177 | The address code performs the address transition and returns its plan. |
| Jit.EmitOffsetAddress | Source/Core/Core/PowerPC/JitArm64/JitArm64_LoadStoreFloating.cpp:126-155 | The folded, ADD, SUB and MOVI2R+ADD cases perform the address transition. |
| Jit.EmitIndexAddress | Source/Core/Core/PowerPC/JitArm64/JitArm64_LoadStoreFloating.cpp:156-176 | The indexed ADD and the MOV from RB perform the address transition. |
| Jit.ReadThen | Source/Core/Core/PowerPC/JitArm64/JitArm64_LoadStoreFloating.cpp:137-143 | R of one register, then the single address record that uses it. |
| Jit.MoviThenRead | Source/Core/Core/PowerPC/JitArm64/JitArm64_LoadStoreFloating.cpp:145-148 | MOVI2R of the offset, R(RA), then the ADD. |
| Jit.ReadTwiceThen | Source/Core/Core/PowerPC/JitArm64/JitArm64_LoadStoreFloating.cpp:120-123 | R of two registers in order, then the ADD of both. |
| Jit.EmitLoadTarget | Source/Core/Core/PowerPC/JitArm64/JitArm64_LoadStoreFloating.cpp:74-88 | Performs LoadTarget and returns VD. |
| Jit.EmitWriteBack | Source/Core/Core/PowerPC/JitArm64/JitArm64_LoadStoreFloating.cpp:184-188 | Without update nothing happens; with it, BindToRegister(RA) and the move perform the write-back transition. |
| Jit.EmitGather | Source/Core/Core/PowerPC/JitArm64/JitArm64_LoadStoreFloating.cpp:393-433 | Emits exactly the gather-pipe code. |
| Jit.EmitGatherSetup | Source/Core/Core/PowerPC/JitArm64/JitArm64_LoadStoreFloating.cpp:403-412 | Emits the base MOVI2R, the ADD of pipe_off when it is nonzero, and the count load. |
| Jit.EmitGatherData | Source/Core/Core/PowerPC/JitArm64/JitArm64_LoadStoreFloating.cpp:413-430 | Emits the byte-swapped 64-bit store, or the convert, swap and 32-bit store. |
| Jit.EmitGprPhase | Source/Core/Core/PowerPC/JitArm64/JitArm64_LoadStoreFloating.cpp:87-188 | Scratch locks, address, MOVI2R of a folded address and the write-back, in that order. |
| Jit.EmitUnlocks | Source/Core/Core/PowerPC/JitArm64/JitArm64_LoadStoreFloating.cpp:209-210 | Unlocks the general scratch registers, then Q0. |
| Jit.EmitLoad | Source/Core/Core/PowerPC/JitArm64/JitArm64_LoadStoreFloating.cpp:74-210 | The body of lfXX after decoding performs LoadFinish. |
| Jit.EmitLoadCall | Source/Core/Core/PowerPC/JitArm64/JitArm64_LoadStoreFloating.cpp:190-210 | Masks, the backpatch call and the unlocks end lfXX as LoadFinish says. |
| Jit.EmitStore | Source/Core/Core/PowerPC/JitArm64/JitArm64_LoadStoreFloating.cpp:273-460 | The body of stfXX after decoding performs StoreFinish and returns the bytes counted. |
| Jit.EmitStoreHead | Source/Core/Core/PowerPC/JitArm64/JitArm64_LoadStoreFloating.cpp:273-367 | R(FS), the scratch locks and the address, in that order. |
| Jit.EmitStoreTail | Source/Core/Core/PowerPC/JitArm64/JitArm64_LoadStoreFloating.cpp:369-460 | Gather-pipe store or backpatch call, then the unlocks, as StoreFinish says. |
| Jit.EmitStorePipe | Source/Core/Core/PowerPC/JitArm64/JitArm64_LoadStoreFloating.cpp:393-440 | The gather code, then the write-back of imm_addr. |
| Jit.EmitStoreCall | Source/Core/Core/PowerPC/JitArm64/JitArm64_LoadStoreFloating.cpp:369-458 | MOVI2R of a folded address, the write-back, and the store call with W0, W1 and Q0 removed from the spill sets. |
| Jit.LessIsLexicographic | Source/Core/Core/PowerPC/JitArm64/Jit.h:202-216 | operator< is the lexicographic order on (dest_reg, addr_reg, gprs, fprs, flags). |
| Jit.LessStrict | Source/Core/Core/PowerPC/JitArm64/Jit.h:202-216 | operator< is irreflexive, transitive and asymmetric. |
| Jit.EquivalentIsEqual | Source/Core/Core/PowerPC/JitArm64/Jit.h:195-217 | Neither a < b nor b < a exactly when the keys are equal, so m_handler_to_loc merges exactly the identical keys. |
| Arm64.CodeBlock.SetCodePtrUnsafe | Source/Core/Core/PowerPC/JitArm64/Jit.h:250 | Moves the write cursor and keeps every record written so far. |
| Jit.JitArm64.SwitchToFarCode | Source/Core/Core/PowerPC/JitArm64/Jit.h:247-251 | Saves the near cursor in nearcode and continues at the far cursor; nothing else changes. |
| Jit.JitArm64.SwitchToNearCode | Source/Core/Core/PowerPC/JitArm64/Jit.h:253-257 | Saves the current cursor as the far cursor and resumes at nearcode. |
| Jit.JitArm64.EmitFar | Source/Core/Core/PowerPC/JitArm64/Jit.h:247-257 | A switch to far code, one record and a switch back restore the near cursor and advance the far cursor past the record. The far log, js.fifoBytesThisBlock and the handler maps are unchanged. |
| Jit.LayoutReach | Source/Core/Core/PowerPC/JitArm64/Jit.h:22-25 | With the asserts, a 32-bit LDR reaches every SPR, every paired single is 8-byte aligned, and STRB reaches xer_ca and xer_so_ov; the last SPR is in reach exactly when its offset is at most 16380. |
| Arm64.EncodeRegTo64 | Source/Core/Core/PowerPC/JitArm64/JitArm64_LoadStoreFloating.cpp:179 | A W register becomes the X register with the same number; other registers are unchanged. |

## Left out

- The AArch64 encoder: emitted code is a log of instruction records. Only the integer
  address arithmetic, the gather-pipe stores and the pipe count have a semantics.
- FCVT, REV32 and REV64 on vector lanes: these are floating-point and byte-lane work.
  The machine treats them as leaving the state unchanged.
  The gather data store writes the abstract content of the source register.
- The stfiwx gather path converts an integer word with FCVT as if it were a double.
  The records are reproduced as written, but the conversion itself is not analysed.
- `EmitBackpatchRoutine`, `HandleFault` and the other members of Jit.h whose bodies are
  not in these files: the backpatch call is a record carrying its flags, its
  registers and its spill sets. As a result nothing writes `m_fault_to_handler` or
  `m_handler_to_loc`. They are fields of map type, keyed as the source keys them.
- `PowerPC::IsOptimizableRAMAddress`, `PowerPC::IsOptimizableGatherPipeWrite` and the
  GPFifo addresses are parameters: `ramOk`, `gatherOk` and `gp`. `jo.fastmem` and
  `jo.optimizeGatherPipe` are fields of `JitOptions`.
- JitArm64_RegCache.h is not part of this model. Its pieces are modelled from their uses:
  - `OpArg` and `HostReg` are values with a type, a host register, an immediate, a dirty
    bit, an age and a lock flag;
  - the variadic `Lock(...)`/`Unlock(...)` are, per register, FlushByHost followed by
    LockRegister, or UnlockRegister.
- LockRegister and UnlockRegister on a register missing from the list (an assertion
  failure in the source) leave the list unchanged.
- `Arm64GPRCache::Start` has an empty body.
- `Init`'s float-emitter set-up is a detail of the encoder.
- FLUSH_INTERPRETER's `op` is given as the set of guest registers the instruction
  reads or writes.
- Argument evaluation order: C++ leaves the order of the two R calls in an indexed
  ADD unspecified. The update forms call `ADD(addr_reg, gpr.R(offset_reg), gpr.R(a))`
  (lines 122 and 312), and the model reads RB before RA. The non-update forms call
  `ADD(addr_reg, gpr.R(a), gpr.R(offset_reg))` (lines 170 and 360), and the model
  reads RA before RB.
- On the gather-pipe path stfXX also computes the spill masks but never uses them.
  The model omits that computation, which changes no state.
- RegCacheState.GprGetRegAsWritten: bounded by a fuel count. `None` means that the
  recursion of the allocation as written did not finish within the fuel.
  The first finding below shows a state where it never finishes.
- Jit.JitArm64.LfXX: proved for lfXX with `fpr.Lock(Q0)` moved before
  `BindToRegister(FD)`, the corrected order of the second finding. The order as
  written is `LoadTargetAsWritten`.
- RegCache.RegCache.FlushMostStaleRegister: skips the fallback flush of guest 0 when
  guest 0 is held in a host register or is a nonzero immediate (the first and third
  findings). In the host-held case the source spills guest 0 and GetReg hands out its
  register. The model keeps guest 0 bound, frees nothing, and GetReg returns
  INVALID_REG. This is the only change for the floating cache.
- RegCache.RegCache.GetReg and RegCacheState.EvictSpec: use that eviction, as do
  every method and lemma that allocates.

## Findings

| source | as written | input that shows it | evidently intended | confidence | as-written member | corrected member |
|---|---|---|---|---|---|---|
| Source/Core/Core/PowerPC/JitArm64/JitArm64_RegCache.cpp:60-76 | When no host-held entry has a positive age, `most_stale_preg` stays 0 and guest 0 is flushed whatever it holds. If guest 0 is a nonzero immediate and every host register is locked, FlushRegister(0) calls GetReg, GetReg calls FlushMostStaleRegister on the same state, and the recursion never ends. | General cache with all 29 host registers locked, guests 1–29 bound with age 0 (as BindToRegister leaves them), and guest 0 a nonzero immediate; any GetReg. | Skip the fallback flush of guest 0 when it is a nonzero immediate, so the recursion cannot start. GetReg then returns INVALID_REG, which its comment at line 31 anticipates for a cache that stays full. | not executed | RegCacheState.AsWrittenEvictionDiverges | RegCacheState.CorrectedEvictionStops |
| Source/Core/Core/PowerPC/JitArm64/JitArm64_LoadStoreFloating.cpp:76-88 | lfXX binds FD and reads VD before `fpr.Lock(Q0)`. Q0 is last in the vector allocation order, so when every other vector register is held, FD is bound to Q0. Lock(Q0) then flushes FD's entry (storing the unloaded register as FD's value), and the load goes into a scratch register that is released at the end, so the loaded value never reaches FD. The reading of Lock as FlushByHost plus LockRegister comes from JitArm64_RegCache.h, which is not part of this model. | Floating cache with guests 1–31 bound to every vector register but Q0, guest 0 not loaded; `lfs f0, 0(r0)`. | Lock Q0 before FD is bound, so FD never receives the scratch register. | not executed | LoadStoreFloating.LoadTargetAsWrittenLosesOnFullCache | LoadStoreFloating.LoadTargetSpec |
| Source/Core/Core/PowerPC/JitArm64/JitArm64_RegCache.cpp:321-335 | The fallback to guest 0 also flushes a host-held guest 0 whose age is 0, which is the entry the last R returned. In `Arm64FPRCache::R(0, false)` on a lower pair, the GetReg for the temporary then spills guest 0 itself and hands out its register. The LDR of ps[0][1] overwrites the low half it is meant to keep, and guest 0 is rebound to the register that UnlockRegister has just released. If `OpArg::Flush` in JitArm64_RegCache.h (not part of this model) also cleared the register, guest 0 would be rebound to INVALID_REG instead. The temporary is guest 0's register either way. | Floating cache with every vector register locked, guest 0 a dirty lower pair and no other guest held; R(0, false). | Skip the fallback flush of a host-held guest 0, so that GetReg on a cache whose registers are all locked returns INVALID_REG, as its comment at line 31 anticipates. Guest 0 then keeps its register. | not executed | RegCacheState.LonePairUpgradeAsWritten | RegCacheState.UpgradeCorrectedKeepsPair |
