/**
 The cross-CPU TLB shootdown protocol, as interleaved atomic steps.

 A step is one shared-memory access, one interrupt delivery, one hardware TLB action, one page table
 write or one call of Invlpgs, which reads no shared memory.  Map operations belong to the lock of
 their map rather than to a CPU: between two of its steps an operation may be preempted and go on, on
 any CPU whose CR3 is that map.  Only the part of DistributeInvlpg that runs with interrupts off is
 bound to one CPU.
*/
module Shootdown {

  import opened Words
  import opened Addresses
  import opened Invlpg

  /** 0 is the global map (a NULL `currentMap`); every other id is a user map. */
  type MapId = nat

  datatype Translation = Translation(page: nat, entry: nat)

  /** HandleNotification: entered, address read, size read, caches invalidated, counter decremented. */
  datatype HandlerPoint = Taken | Addressed(start: nat) | Sized(start: nat, size: nat) | Flushed | Counted

  datatype Mode =
    | Running                     // interrupts enabled
    | Critical                    // some critical section
    | Switching(to: MapId)        // `currentMap` written, CR3 not loaded yet
    | Handling(at: HandlerPoint)  // inside HandleNotification
    | Initiating                  // inside DistributeInvlpg, interrupts off

  datatype Cpu = Cpu(cr3: MapId, current: MapId, tlb: set<Translation>, mode: Mode, pending: bool)

  datatype Kind = Mapping | MappingAt | Unmapping

  /** `flushed`: the operation's own DistributeInvlpg has returned. */
  datatype Op =
    | NoOp
    | Busy(kind: Kind, start: nat, size: nat, overwrote: bool, flushed: bool)

  /** The present leaf entries of one address space, and the operation that holds its lock. */
  datatype Space = Space(table: map<nat, nat>, op: Op)

  /** What DistributeInvlpg was asked; `final` is false for the calls made by PageTable::Unset. */
  datatype Request = Request(space: MapId, start: nat, size: nat, final: bool)

  datatype Stage = Entered | LocalDone | AddressStored | SizeStored | Sending

  /**
   The holder of Tlb::lock.  In `Active`, `next` is the CPU the send loop looks at; `chosen` says that
   its `currentMap` has been read and matched, `posted` that its IPI is sent but not counted yet.
   `sent` and `handled` are history: the CPUs that were sent this request's IPI, and those whose handler
   has decremented the counter for it.
  */
  datatype Shoot =
    | NoShoot
    | Locked(req: Request)
    | Active(req: Request, cpu: nat, stage: Stage, next: nat, chosen: bool, posted: bool, sent: set<nat>, handled: set<nat>)
    | Leaving(req: Request)

  datatype State = State(
    cpus: seq<Cpu>,
    spaces: map<MapId, Space>,
    shoot: Shoot,
    invlAddress: nat,
    invlSize: nat,
    ipiCount: int)

  datatype Step =
    // UserMap and GlobalMap operations, under the lock of map m
    | BeginOp(c: nat, m: MapId, kind: Kind, start: nat, size: nat)
    | Install(c: nat, m: MapId, page: nat, entry: nat)
    | Replace(c: nat, m: MapId, page: nat, entry: nat)
    | Remove(c: nat, m: MapId, page: nat)
    | EndOp(c: nat, m: MapId)
    // DistributeInvlpg
    | LockTlb(c: nat, req: Request)
    | EnterCritical(c: nat)
    | FlushLocally
    | StoreAddress
    | StoreSize
    | ResetCount
    | SkipCpu
    | ChooseCpu
    | SendIpi
    | CountIpi
    | FinishWait
    | UnlockTlb
    // HandleNotification on CPU j
    | TakeIpi(j: nat)
    | HandlerAddress(j: nat)
    | HandlerSize(j: nat)
    | HandlerFlush(j: nat)
    | HandlerCount(j: nat)
    | HandlerReturn(j: nat)
    // critical sections and address-space switches on CPU j
    | BeginCritical(j: nat)
    | EndCritical(j: nat)
    | WillSwitch(j: nat, to: MapId)
    | LoadCr3(j: nat)
    // the hardware may cache any present entry, or drop any cached one, at any time
    | Fill(j: nat, page: nat)
    | Evict(j: nat, gone: Translation)

  // ----- vocabulary -----

  predicate InRange(page: nat, start: nat, size: nat) {
    start <= page < start + size
  }

  /** A call that flushes its whole range; a map operation that need not flush may use any range. */
  predicate Flushes(kind: Kind, start: nat, size: nat) {
    kind.Mapping? || IsCovered(start, size)
  }

  /** The ranges of user memory are all flushed as a whole. */
  lemma UserRangesFlush(start: nat, size: nat)
    requires KERNEL_END <= start && start + size <= USER_END
    ensures IsCovered(start, size)
  {
  }

  /** The space that translates `page` on a CPU with this CR3: kernel pages are shared by all maps. */
  function SpaceOf(page: nat, cr3: MapId): MapId {
    if page < KERNEL_END then 0 else cr3
  }

  predicate Holds(s: State, m: MapId, t: Translation) {
    m in s.spaces && t.page in s.spaces[m].table && s.spaces[m].table[t.page] == t.entry
  }

  /** What Invlpgs leaves of a TLB, where kernel pages are the global ones (see the module Invlpg). */
  function Purge(tlb: set<Translation>, start: nat, size: nat): set<Translation> {
    var end := (start + size) % WORD;
    if size > FLUSH_LIMIT then
      if end < KERNEL_END then {} else set t | t in tlb && t.page < KERNEL_END
    else if end <= start then tlb
    else set t | t in tlb && !InRange(t.page, start, end - start)
  }

  lemma PurgeIs(tlb: set<Translation>, start: nat, size: nat)
    ensures Purge(tlb, start, size) <= tlb
    ensures IsCovered(start, size) ==> forall t | t in Purge(tlb, start, size) :: !InRange(t.page, start, size)
  {
  }

  /** The translation as the module Invlpg sees it, for pages of one size. */
  function CachedOf(t: Translation, pageSize: nat): Cached {
    Cached(t.page, pageSize, t.page < KERNEL_END)
  }

  /** On whole pages Purge keeps what the call of Invlpgs keeps. */
  lemma PurgeIsKept(tlb: set<Translation>, pageSize: nat, start: nat, size: nat)
    requires pageSize == 0x1000 || pageSize == 0x200000
    requires start < WORD && size < WORD && start % pageSize == 0 && size % pageSize == 0
    requires forall t | t in tlb :: t.page % pageSize == 0
    ensures Kept(set t | t in tlb :: CachedOf(t, pageSize), start, size)
      == set t | t in Purge(tlb, start, size) :: CachedOf(t, pageSize)
  {
    forall t | t in tlb ensures CachedOf(t, pageSize).Meets(start, size) <==> InRange(t.page, start, size) {
      WholePageMeets(t.page, pageSize, start, size);
    }
    PurgedAre(tlb, pageSize, start, size);
  }

  lemma PurgedAre(tlb: set<Translation>, pageSize: nat, start: nat, size: nat)
    requires start < WORD && size < WORD
    requires forall t | t in tlb :: CachedOf(t, pageSize).Meets(start, size) <==> InRange(t.page, start, size)
    ensures Kept(set t | t in tlb :: CachedOf(t, pageSize), start, size)
      == set t | t in Purge(tlb, start, size) :: CachedOf(t, pageSize)
  {
    var all := set t | t in tlb :: CachedOf(t, pageSize);
    forall t | t in tlb ensures CachedOf(t, pageSize) in Kept(all, start, size) <==> t in Purge(tlb, start, size) {
      assert CachedOf(t, pageSize) in all;
    }
    forall c | c in Kept(all, start, size) ensures c in set t | t in Purge(tlb, start, size) :: CachedOf(t, pageSize) {
      var t :| t in tlb && c == CachedOf(t, pageSize);
      assert t in Purge(tlb, start, size);
    }
  }

  lemma WholePageMeets(page: nat, pageSize: nat, start: nat, size: nat)
    requires 0 < pageSize && page % pageSize == 0 && start % pageSize == 0 && size % pageSize == 0
    ensures Cached(page, pageSize, page < KERNEL_END).Meets(start, size) <==> InRange(page, start, size)
  {
    if page < start { AlignedBelow(page, start, pageSize); }
  }

  function WithCpu(s: State, j: nat, c: Cpu): State
    requires j < |s.cpus|
  {
    s.(cpus := s.cpus[j := c])
  }

  function WithMode(s: State, j: nat, mode: Mode): State
    requires j < |s.cpus|
  {
    WithCpu(s, j, s.cpus[j].(mode := mode))
  }

  function WithSpace(s: State, m: MapId, sp: Space): State {
    s.(spaces := s.spaces[m := sp])
  }

  /** CPU c may run the next step of an operation on map m: interrupts are on and CR3 is m. */
  predicate Runs(s: State, c: nat, m: MapId) {
    c < |s.cpus| && s.cpus[c].mode == Running && s.cpus[c].cr3 == m
  }

  predicate InShoot(s: State, m: MapId) {
    !s.shoot.NoShoot? && s.shoot.req.space == m
  }

  /** The operation on m may write the page table at `page`. */
  predicate Writes(s: State, c: nat, m: MapId, page: nat) {
    && Runs(s, c, m)
    && m in s.spaces && s.spaces[m].op.Busy? && !s.spaces[m].op.flushed
    && !InShoot(s, m)
    && InRange(page, s.spaces[m].op.start, s.spaces[m].op.size)
    && (page < KERNEL_END <==> m == 0)
  }

  /** DistributeInvlpg chooses DistributeKernel or DistributeUser by the start address. */
  predicate IsTarget(s: State, j: nat)
    requires s.shoot.Active? && s.shoot.cpu < |s.cpus| && j < |s.cpus|
  {
    && j != s.shoot.cpu
    && (s.shoot.req.start < KERNEL_END || s.cpus[j].current == s.cpus[s.shoot.cpu].current)
  }

  predicate AtStage(s: State, stage: Stage) {
    s.shoot.Active? && s.shoot.stage == stage && s.shoot.cpu < |s.cpus|
  }

  predicate Scanning(s: State) {
    AtStage(s, Sending) && s.shoot.next < |s.cpus|
  }

  // ----- the steps -----

  predicate Enabled(s: State, t: Step) {
    match t
    case BeginOp(c, m, _, start, _) =>
      Runs(s, c, m) && m in s.spaces && s.spaces[m].op.NoOp? && (start < KERNEL_END <==> m == 0)
    case Install(c, m, page, _) =>
      Writes(s, c, m, page) && !s.spaces[m].op.kind.Unmapping? && page !in s.spaces[m].table
    case Replace(c, m, page, _) =>
      Writes(s, c, m, page) && s.spaces[m].op.kind.MappingAt? && page in s.spaces[m].table
    case Remove(c, m, page) =>
      Writes(s, c, m, page) && s.spaces[m].op.kind.Unmapping? && page in s.spaces[m].table
    case EndOp(c, m) =>
      && Runs(s, c, m) && m in s.spaces && s.spaces[m].op.Busy? && !InShoot(s, m)
      && (s.spaces[m].op.kind.Unmapping? ==> s.spaces[m].op.flushed)
      && (s.spaces[m].op.kind.MappingAt? && s.spaces[m].op.overwrote ==> s.spaces[m].op.flushed)
    case LockTlb(c, req) =>
      && Runs(s, c, req.space) && req.space in s.spaces
      && s.spaces[req.space].op.Busy? && !s.spaces[req.space].op.flushed
      && s.shoot.NoShoot?
      && (if req.final
          then req.start == s.spaces[req.space].op.start && req.size == s.spaces[req.space].op.size
               && !s.spaces[req.space].op.kind.Mapping?
          else req.start >= USER_END)
    case EnterCritical(c) => s.shoot.Locked? && Runs(s, c, s.shoot.req.space)
    case FlushLocally => AtStage(s, Entered)
    case StoreAddress => AtStage(s, LocalDone)
    case StoreSize => AtStage(s, AddressStored)
    case ResetCount => AtStage(s, SizeStored)
    case SkipCpu => Scanning(s) && !s.shoot.chosen && !s.shoot.posted && !IsTarget(s, s.shoot.next)
    case ChooseCpu => Scanning(s) && !s.shoot.chosen && !s.shoot.posted && IsTarget(s, s.shoot.next)
    case SendIpi => Scanning(s) && s.shoot.chosen
    case CountIpi => Scanning(s) && s.shoot.posted
    case FinishWait => AtStage(s, Sending) && s.shoot.next >= |s.cpus| && s.ipiCount == 0
    case UnlockTlb => s.shoot.Leaving?
    case TakeIpi(j) => j < |s.cpus| && s.cpus[j].mode == Running && s.cpus[j].pending
    case HandlerAddress(j) => j < |s.cpus| && s.cpus[j].mode == Handling(Taken)
    case HandlerSize(j) => j < |s.cpus| && s.cpus[j].mode.Handling? && s.cpus[j].mode.at.Addressed?
    case HandlerFlush(j) => j < |s.cpus| && s.cpus[j].mode.Handling? && s.cpus[j].mode.at.Sized?
    case HandlerCount(j) => j < |s.cpus| && s.cpus[j].mode == Handling(Flushed)
    case HandlerReturn(j) => j < |s.cpus| && s.cpus[j].mode == Handling(Counted)
    case BeginCritical(j) => j < |s.cpus| && s.cpus[j].mode == Running
    case EndCritical(j) => j < |s.cpus| && s.cpus[j].mode == Critical
    case WillSwitch(j, to) => j < |s.cpus| && s.cpus[j].mode == Critical && to in s.spaces
    case LoadCr3(j) => j < |s.cpus| && s.cpus[j].mode.Switching?
    case Fill(j, page) =>
      && j < |s.cpus| && SpaceOf(page, s.cpus[j].cr3) in s.spaces
      && page in s.spaces[SpaceOf(page, s.cpus[j].cr3)].table
    case Evict(j, _) => j < |s.cpus|
  }

  function Apply(s: State, t: Step): State
    requires Enabled(s, t)
  {
    match t
    case BeginOp(c, m, kind, start, size) =>
      WithSpace(s, m, s.spaces[m].(op := Busy(kind, start, size, false, false)))
    case Install(c, m, page, entry) =>
      WithSpace(s, m, s.spaces[m].(table := s.spaces[m].table[page := entry]))
    case Replace(c, m, page, entry) =>
      WithSpace(s, m, Space(s.spaces[m].table[page := entry], s.spaces[m].op.(overwrote := true)))
    case Remove(c, m, page) =>
      WithSpace(s, m, s.spaces[m].(table := s.spaces[m].table - {page}))
    case EndOp(c, m) => WithSpace(s, m, s.spaces[m].(op := NoOp))
    case LockTlb(c, req) => s.(shoot := Locked(req))
    case EnterCritical(c) =>
      WithMode(s, c, Initiating).(shoot := Active(s.shoot.req, c, Entered, 0, false, false, {}, {}))
    case FlushLocally =>
      var c := s.cpus[s.shoot.cpu];
      WithCpu(s, s.shoot.cpu, c.(tlb := Purge(c.tlb, s.shoot.req.start, s.shoot.req.size)))
        .(shoot := s.shoot.(stage := LocalDone))
    case StoreAddress => s.(invlAddress := s.shoot.req.start, shoot := s.shoot.(stage := AddressStored))
    case StoreSize => s.(invlSize := s.shoot.req.size, shoot := s.shoot.(stage := SizeStored))
    case ResetCount => s.(ipiCount := 0, shoot := s.shoot.(stage := Sending))
    case SkipCpu => s.(shoot := s.shoot.(next := s.shoot.next + 1))
    case ChooseCpu => s.(shoot := s.shoot.(chosen := true))
    case SendIpi =>
      WithCpu(s, s.shoot.next, s.cpus[s.shoot.next].(pending := true))
        .(shoot := s.shoot.(chosen := false, posted := true, sent := s.shoot.sent + {s.shoot.next}))
    case CountIpi =>
      s.(ipiCount := s.ipiCount + 1, shoot := s.shoot.(posted := false, next := s.shoot.next + 1))
    case FinishWait =>
      var s1 := WithMode(s, s.shoot.cpu, Running).(shoot := Leaving(s.shoot.req));
      var m := s.shoot.req.space;
      if s.shoot.req.final && m in s.spaces && s.spaces[m].op.Busy?
      then WithSpace(s1, m, s.spaces[m].(op := s.spaces[m].op.(flushed := true)))
      else s1
    case UnlockTlb => s.(shoot := NoShoot)
    case TakeIpi(j) => WithCpu(s, j, s.cpus[j].(pending := false, mode := Handling(Taken)))
    case HandlerAddress(j) => WithMode(s, j, Handling(Addressed(s.invlAddress)))
    case HandlerSize(j) => WithMode(s, j, Handling(Sized(s.cpus[j].mode.at.start, s.invlSize)))
    case HandlerFlush(j) =>
      var at := s.cpus[j].mode.at;
      WithCpu(s, j, s.cpus[j].(tlb := Purge(s.cpus[j].tlb, at.start, at.size), mode := Handling(Flushed)))
    case HandlerCount(j) =>
      WithMode(s, j, Handling(Counted))
        .(ipiCount := s.ipiCount - 1,
          shoot := if s.shoot.Active? then s.shoot.(handled := s.shoot.handled + {j}) else s.shoot)
    case HandlerReturn(j) => WithMode(s, j, Running)
    case BeginCritical(j) => WithMode(s, j, Critical)
    case EndCritical(j) => WithMode(s, j, Running)
    case WillSwitch(j, to) => WithCpu(s, j, s.cpus[j].(current := to, mode := Switching(to)))
    case LoadCr3(j) =>
      // global kernel entries survive the load, user entries do not
      WithCpu(s, j, s.cpus[j].(cr3 := s.cpus[j].mode.to, mode := Critical,
                               tlb := set t | t in s.cpus[j].tlb && t.page < KERNEL_END))
    case Fill(j, page) =>
      var entry := s.spaces[SpaceOf(page, s.cpus[j].cr3)].table[page];
      WithCpu(s, j, s.cpus[j].(tlb := s.cpus[j].tlb + {Translation(page, entry)}))
    case Evict(j, gone) => WithCpu(s, j, s.cpus[j].(tlb := s.cpus[j].tlb - {gone}))
  }

  // ----- runs -----

  /** All locks free, no IPI in flight, nothing cached, every `currentMap` in step with CR3. */
  ghost predicate Init(s: State) {
    && s.shoot.NoShoot?
    && (forall m | m in s.spaces ::
      s.spaces[m].op.NoOp? && forall p | p in s.spaces[m].table :: p < KERNEL_END <==> m == 0)
    && (forall j | 0 <= j < |s.cpus| ::
      && s.cpus[j].cr3 in s.spaces && s.cpus[j].current == s.cpus[j].cr3
      && s.cpus[j].tlb == {} && s.cpus[j].mode == Running && !s.cpus[j].pending)
  }

  ghost predicate IsRun(s: State, steps: seq<Step>)
    decreases |steps|
  {
    steps == [] || (Enabled(s, steps[0]) && IsRun(Apply(s, steps[0]), steps[1..]))
  }

  ghost function After(s: State, steps: seq<Step>): State
    requires IsRun(s, steps)
    decreases |steps|
  {
    if steps == [] then s else After(Apply(s, steps[0]), steps[1..])
  }

  // ----- the invariant -----

  ghost predicate CpusOk(s: State) {
    forall j | 0 <= j < |s.cpus| ::
      && s.cpus[j].cr3 in s.spaces && s.cpus[j].current in s.spaces
      && (s.cpus[j].mode.Switching? ==> s.cpus[j].mode.to == s.cpus[j].current)
      && (!s.cpus[j].mode.Switching? ==> s.cpus[j].current == s.cpus[j].cr3)
      && (s.cpus[j].mode.Initiating? <==> s.shoot.Active? && s.shoot.cpu == j)
  }

  ghost predicate SpacesOk(s: State) {
    forall m | m in s.spaces ::
      && (forall p | p in s.spaces[m].table :: p < KERNEL_END <==> m == 0)
      && (s.spaces[m].op.Busy? ==> (s.spaces[m].op.start < KERNEL_END <==> m == 0))
  }

  ghost predicate ShootOk(s: State) {
    && (!s.shoot.NoShoot? ==> s.shoot.req.space in s.spaces && s.spaces[s.shoot.req.space].op.Busy?)
    && (s.shoot.Locked? || s.shoot.Active? ==>
      var op := s.spaces[s.shoot.req.space].op;
      && !op.flushed
      && (if s.shoot.req.final then s.shoot.req.start == op.start && s.shoot.req.size == op.size && !op.kind.Mapping?
          else s.shoot.req.start >= USER_END))
    && (s.shoot.Active? ==>
      && s.shoot.cpu < |s.cpus| && s.cpus[s.shoot.cpu].cr3 == s.shoot.req.space
      && (s.shoot.stage != Sending ==>
        s.shoot.sent == {} && s.shoot.handled == {} && s.shoot.next == 0 && !s.shoot.chosen && !s.shoot.posted))
  }

  /** An IPI is on its way to the CPU, or its handler has not decremented the counter yet. */
  predicate Outstanding(c: Cpu) {
    c.pending || Owes(c.mode)
  }

  predicate Owes(mode: Mode) {
    mode.Handling? && !mode.at.Counted?
  }

  /** What the handler has read is what the initiator stored. */
  predicate HasRead(s: State, mode: Mode) {
    mode.Handling? ==>
      && (mode.at.Addressed? ==> mode.at.start == s.invlAddress)
      && (mode.at.Sized? ==> mode.at.start == s.invlAddress && mode.at.size == s.invlSize)
  }

  ghost predicate IpisOk(s: State) {
    && (forall j | 0 <= j < |s.cpus| :: HasRead(s, s.cpus[j].mode) && (s.cpus[j].pending ==> !Owes(s.cpus[j].mode)))
    && (forall j | 0 <= j < |s.cpus| ::
      Outstanding(s.cpus[j]) <==> s.shoot.Active? && j in s.shoot.sent && j !in s.shoot.handled)
    && (s.shoot.Active? ==>
      && s.shoot.handled <= s.shoot.sent
      && (forall j | j in s.shoot.sent ::
        && j != s.shoot.cpu && j < |s.cpus|
        && (j < s.shoot.next || (s.shoot.posted && j == s.shoot.next)))
      && (s.shoot.req.start < KERNEL_END ==> forall j | 0 <= j < s.shoot.next :: j == s.shoot.cpu || j in s.shoot.sent)
      && (s.shoot.posted ==> s.shoot.next in s.shoot.sent && !s.shoot.chosen)
      && (s.shoot.chosen ==> s.shoot.next != s.shoot.cpu && s.shoot.next < |s.cpus| && s.shoot.next !in s.shoot.sent)
      && s.shoot.next <= |s.cpus|)
    && (AtStage(s, AddressStored) || AtStage(s, SizeStored) || AtStage(s, Sending) ==>
      s.invlAddress == s.shoot.req.start)
    && (AtStage(s, SizeStored) || AtStage(s, Sending) ==> s.invlSize == s.shoot.req.size)
    && (AtStage(s, Sending) ==>
      s.ipiCount == |s.shoot.sent| - |s.shoot.handled| - (if s.shoot.posted then 1 else 0))
  }

  /** CPU j caches nothing stale in the requested range, unless it is about to drop it. */
  ghost predicate Clean(s: State, j: nat)
    requires j < |s.cpus| && s.shoot.Active?
  {
    forall t | t in s.cpus[j].tlb ::
      InRange(t.page, s.shoot.req.start, s.shoot.req.size)
      && SpaceOf(t.page, s.cpus[j].cr3) == s.shoot.req.space
      ==> Holds(s, s.shoot.req.space, t) || (t.page >= KERNEL_END && s.cpus[j].mode.Switching?)
  }

  ghost predicate ScannedClean(s: State) {
    s.shoot.Active? && IsCovered(s.shoot.req.start, s.shoot.req.size) ==>
      && (s.shoot.cpu < |s.cpus| && s.shoot.stage != Entered ==> Clean(s, s.shoot.cpu))
      && (forall j | 0 <= j < |s.cpus| && j < s.shoot.next ::
        (j !in s.shoot.sent || j in s.shoot.handled || s.cpus[j].mode == Handling(Flushed)) ==> Clean(s, j))
      && (s.shoot.posted && s.shoot.next < |s.cpus| ==>
        (s.shoot.next in s.shoot.handled || s.cpus[s.shoot.next].mode == Handling(Flushed)) ==> Clean(s, s.shoot.next))
  }

  /** The running operation on m may have invalidated cached copies of `page` and still has to flush it. */
  predicate Dirty(s: State, m: MapId, page: nat) {
    && m in s.spaces && s.spaces[m].op.Busy? && !s.spaces[m].op.flushed
    && InRange(page, s.spaces[m].op.start, s.spaces[m].op.size) && (page < KERNEL_END <==> m == 0)
    && (s.spaces[m].op.kind.Unmapping? || (s.spaces[m].op.kind.MappingAt? && s.spaces[m].op.overwrote))
  }

  /** Whatever a CPU caches of kernel memory, or of user memory, is held by the page table or about to be dropped. */
  ghost predicate StaleOk(s: State, kernel: bool) {
    forall j, t | 0 <= j < |s.cpus| && t in s.cpus[j].tlb && (t.page < KERNEL_END <==> kernel) ::
      var m := SpaceOf(t.page, s.cpus[j].cr3);
      Holds(s, m, t) || (t.page >= KERNEL_END && s.cpus[j].mode.Switching?) || Dirty(s, m, t.page)
  }

  ghost predicate Shape(s: State) {
    CpusOk(s) && SpacesOk(s) && ShootOk(s)
  }

  /** What holds in every run. */
  ghost predicate Inv(s: State) {
    Shape(s) && IpisOk(s) && ScannedClean(s)
  }

  /** The operations running in kernel memory, or in user memory, are ones whose flush drops their whole range. */
  ghost predicate OpsCovered(s: State, kernel: bool) {
    forall m | m in s.spaces && s.spaces[m].op.Busy? && (m == 0 <==> kernel) ::
      Flushes(s.spaces[m].op.kind, s.spaces[m].op.start, s.spaces[m].op.size)
  }

  /** What holds of kernel memory, or of user memory, in runs whose operations there are covered. */
  ghost predicate IsCoherent(s: State, kernel: bool) {
    OpsCovered(s, kernel) && StaleOk(s, kernel)
  }

  lemma InitInv(s: State)
    requires Init(s)
    ensures Inv(s) && IsCoherent(s, true) && IsCoherent(s, false)
  {
  }

  // ----- preservation: steps that change only what one CPU does or caches -----

  /** CPU j becomes c, with the same duties to the shootdown and no new stale cache entry. */
  ghost predicate LocalChange(s: State, j: nat, c: Cpu)
    requires j < |s.cpus|
  {
    var b := s.cpus[j];
    && c.cr3 in s.spaces && c.current in s.spaces
    && (c.mode.Switching? ==> c.mode.to == c.current)
    && (!c.mode.Switching? ==> c.current == c.cr3)
    && (if c.mode.Initiating? then b.mode.Initiating? && c.cr3 == b.cr3 else !b.mode.Initiating?)
    && (Outstanding(c) <==> Outstanding(b))
    && (c.mode == Handling(Flushed) <==> b.mode == Handling(Flushed))
    && HasRead(s, c.mode) && (c.pending ==> !Owes(c.mode))
    && (forall t | t in c.tlb ::
      var m := SpaceOf(t.page, c.cr3);
      || Holds(s, m, t)
      || (t.page >= KERNEL_END && c.mode.Switching?)
      || (t in b.tlb && m == SpaceOf(t.page, b.cr3) && !(t.page >= KERNEL_END && b.mode.Switching?)))
  }

  predicate IsLocal(t: Step) {
    || t.TakeIpi? || t.HandlerAddress? || t.HandlerSize? || t.HandlerReturn? || t.BeginCritical? || t.EndCritical?
    || t.WillSwitch? || t.LoadCr3? || t.Fill? || t.Evict?
  }

  lemma CacheSteps(s: State, t: Step)
    requires Shape(s) && IpisOk(s) && Enabled(s, t) && (t.LoadCr3? || t.Fill? || t.Evict?)
    ensures t.j < |s.cpus| && t.j < |Apply(s, t).cpus|
    ensures LocalChange(s, t.j, Apply(s, t).cpus[t.j]) && Apply(s, t) == WithCpu(s, t.j, Apply(s, t).cpus[t.j])
  {
    hide SpacesOk, Purge, IsTarget, Flushes;
  }

  lemma HandlerSteps(s: State, t: Step)
    requires Shape(s) && IpisOk(s) && Enabled(s, t)
    requires t.TakeIpi? || t.HandlerAddress? || t.HandlerSize? || t.HandlerReturn?
    ensures t.j < |s.cpus| && t.j < |Apply(s, t).cpus|
    ensures LocalChange(s, t.j, Apply(s, t).cpus[t.j]) && Apply(s, t) == WithCpu(s, t.j, Apply(s, t).cpus[t.j])
  {
    hide SpacesOk, Purge, IsTarget, Flushes, Holds;
  }

  lemma ModeSteps(s: State, t: Step)
    requires Shape(s) && IpisOk(s) && Enabled(s, t) && (t.BeginCritical? || t.EndCritical? || t.WillSwitch?)
    ensures t.j < |s.cpus| && t.j < |Apply(s, t).cpus|
    ensures LocalChange(s, t.j, Apply(s, t).cpus[t.j]) && Apply(s, t) == WithCpu(s, t.j, Apply(s, t).cpus[t.j])
  {
    hide SpacesOk, Purge, IsTarget, Flushes;
  }

  lemma LocalKeepsShape(s: State, j: nat, c: Cpu)
    requires Shape(s) && IpisOk(s) && j < |s.cpus| && LocalChange(s, j, c)
    ensures Shape(WithCpu(s, j, c)) && IpisOk(WithCpu(s, j, c))
  {
  }

  lemma LocalKeepsClean(s: State, j: nat, c: Cpu)
    requires Shape(s) && IpisOk(s) && ScannedClean(s) && j < |s.cpus| && LocalChange(s, j, c)
    ensures ScannedClean(WithCpu(s, j, c))
  {
  }

  lemma LocalKeepsStale(s: State, j: nat, c: Cpu, kernel: bool)
    requires Shape(s) && StaleOk(s, kernel) && j < |s.cpus| && LocalChange(s, j, c)
    ensures StaleOk(WithCpu(s, j, c), kernel)
  {
  }

  lemma LocalIs(s: State, t: Step)
    requires Shape(s) && IpisOk(s) && Enabled(s, t) && IsLocal(t)
    ensures t.j < |s.cpus| && t.j < |Apply(s, t).cpus|
    ensures LocalChange(s, t.j, Apply(s, t).cpus[t.j]) && Apply(s, t) == WithCpu(s, t.j, Apply(s, t).cpus[t.j])
  {
    hide LocalChange, Shape, IpisOk, Enabled, Apply;
    if t.LoadCr3? || t.Fill? || t.Evict? {
      CacheSteps(s, t);
    } else if t.TakeIpi? || t.HandlerAddress? || t.HandlerSize? || t.HandlerReturn? {
      HandlerSteps(s, t);
    } else {
      ModeSteps(s, t);
    }
  }

  lemma LocalKeepsInv(s: State, t: Step)
    requires Inv(s) && Enabled(s, t) && IsLocal(t)
    ensures Inv(Apply(s, t))
  {
    hide LocalChange, Shape, IpisOk, ScannedClean, Enabled, Apply;
    LocalIs(s, t);
    LocalKeepsShape(s, t.j, Apply(s, t).cpus[t.j]);
    LocalKeepsClean(s, t.j, Apply(s, t).cpus[t.j]);
  }

  // ----- preservation: operations and their page table writes -----

  lemma OpsKeepShape(s: State, t: Step)
    requires Shape(s) && IpisOk(s)
    requires Enabled(s, t) && (t.BeginOp? || t.EndOp? || t.LockTlb? || t.UnlockTlb?)
    ensures Shape(Apply(s, t))
  {
    hide Purge, IsTarget, IpisOk;
  }

  lemma IpisStay(s: State, s': State)
    requires IpisOk(s) && s' == s.(spaces := s'.spaces)
    ensures IpisOk(s')
  {
  }

  lemma SpacesKeepIpis(s: State, t: Step)
    requires IpisOk(s) && Enabled(s, t) && (t.BeginOp? || t.EndOp? || t.Install? || t.Replace? || t.Remove?)
    ensures IpisOk(Apply(s, t))
  {
    hide IpisOk, Purge, IsTarget;
    IpisStay(s, Apply(s, t));
  }

  lemma LocksKeepIpis(s: State, t: Step)
    requires Shape(s) && IpisOk(s) && Enabled(s, t) && (t.LockTlb? || t.UnlockTlb?)
    ensures IpisOk(Apply(s, t))
  {
    hide SpacesOk, Purge, IsTarget;
  }

  lemma OpsKeepStale(s: State, t: Step, kernel: bool)
    requires Shape(s) && IpisOk(s) && ScannedClean(s) && StaleOk(s, kernel)
    requires Enabled(s, t) && (t.BeginOp? || t.EndOp? || t.LockTlb? || t.UnlockTlb?)
    ensures StaleOk(Apply(s, t), kernel)
  {
  }

  /** What a shootdown has cleaned depends on the CPUs and on the table that it flushes for. */
  lemma CleanStays(s: State, s': State)
    requires ScannedClean(s) && s'.cpus == s.cpus && s'.shoot == s.shoot
    requires s.shoot.Active? ==> forall t | Holds(s, s.shoot.req.space, t) :: Holds(s', s.shoot.req.space, t)
    ensures ScannedClean(s')
  {
    hide IsCovered, Holds;
    forall j | 0 <= j < |s.cpus| && s.shoot.Active? && Clean(s, j) ensures Clean(s', j) { }
  }

  lemma BeginAndEndKeepClean(s: State, t: Step)
    requires Shape(s) && IpisOk(s) && ScannedClean(s)
    requires Enabled(s, t) && (t.BeginOp? || t.EndOp?)
    ensures ScannedClean(Apply(s, t))
  {
    hide ScannedClean, Shape, IpisOk, Purge, IsTarget;
    CleanStays(s, Apply(s, t));
  }

  lemma LockStepsKeepClean(s: State, t: Step)
    requires Shape(s) && IpisOk(s) && ScannedClean(s)
    requires Enabled(s, t) && (t.LockTlb? || t.UnlockTlb?)
    ensures ScannedClean(Apply(s, t))
  {
  }

  lemma TableStepsKeepShape(s: State, t: Step)
    requires Shape(s) && IpisOk(s)
    requires Enabled(s, t) && (t.Install? || t.Replace? || t.Remove?)
    ensures Shape(Apply(s, t))
  {
    hide Purge, IsTarget, IpisOk;
  }

  lemma TableStepsKeepStale(s: State, t: Step, kernel: bool)
    requires Shape(s) && IpisOk(s) && ScannedClean(s) && StaleOk(s, kernel)
    requires Enabled(s, t) && (t.Install? || t.Replace? || t.Remove?)
    ensures StaleOk(Apply(s, t), kernel)
  {
  }

  lemma EntryWritesKeepClean(s: State, t: Step)
    requires Shape(s) && IpisOk(s) && ScannedClean(s)
    requires Enabled(s, t) && (t.Install? || t.Replace?)
    ensures ScannedClean(Apply(s, t))
  {
    hide ScannedClean, Shape, IpisOk, Purge, IsTarget;
    CleanStays(s, Apply(s, t));
  }

  lemma RemoveKeepsClean(s: State, t: Step)
    requires Shape(s) && IpisOk(s) && ScannedClean(s)
    requires Enabled(s, t) && t.Remove?
    ensures ScannedClean(Apply(s, t))
  {
    hide ScannedClean, Shape, IpisOk, Purge, IsTarget;
    CleanStays(s, Apply(s, t));
  }

  // ----- preservation: the initiator -----

  lemma PreparationsKeepShape(s: State, t: Step)
    requires Shape(s) && IpisOk(s)
    requires Enabled(s, t) && (t.EnterCritical? || t.FlushLocally? || t.StoreAddress? || t.StoreSize? || t.ResetCount?)
    ensures Shape(Apply(s, t))
  {
    hide Purge, IsTarget, Holds;
  }

  lemma PreparationsKeepIpis(s: State, t: Step)
    requires Shape(s) && IpisOk(s)
    requires Enabled(s, t) && (t.EnterCritical? || t.FlushLocally? || t.StoreAddress? || t.StoreSize? || t.ResetCount?)
    ensures IpisOk(Apply(s, t))
  {
    hide SpacesOk, Purge, IsTarget, Holds;
  }

  lemma PreparationsKeepClean(s: State, t: Step)
    requires Shape(s) && IpisOk(s) && ScannedClean(s)
    requires Enabled(s, t) && (t.EnterCritical? || t.FlushLocally? || t.StoreAddress? || t.StoreSize? || t.ResetCount?)
    ensures ScannedClean(Apply(s, t))
  {
    if t.FlushLocally? { PurgeIs(s.cpus[s.shoot.cpu].tlb, s.shoot.req.start, s.shoot.req.size); }
  }

  lemma SpacesStay(s: State, s': State)
    requires SpacesOk(s) && s'.spaces == s.spaces
    ensures SpacesOk(s')
  {
  }

  lemma StaleStays(s: State, s': State, kernel: bool)
    requires StaleOk(s, kernel) && s'.cpus == s.cpus && s'.spaces == s.spaces
    ensures StaleOk(s', kernel)
  {
  }

  lemma PreparationsKeepStale(s: State, t: Step, kernel: bool)
    requires Shape(s) && IpisOk(s) && ScannedClean(s) && StaleOk(s, kernel)
    requires Enabled(s, t) && (t.EnterCritical? || t.FlushLocally? || t.StoreAddress? || t.StoreSize? || t.ResetCount?)
    ensures StaleOk(Apply(s, t), kernel)
  {
    hide Shape, IpisOk, ScannedClean, StaleOk, IsTarget, Purge;
    if t.EnterCritical? || t.FlushLocally? {
      StartKeepsStale(s, t, kernel);
    } else {
      StaleStays(s, Apply(s, t), kernel);
    }
  }

  lemma StartKeepsStale(s: State, t: Step, kernel: bool)
    requires StaleOk(s, kernel) && Enabled(s, t) && (t.EnterCritical? || t.FlushLocally?)
    ensures StaleOk(Apply(s, t), kernel)
  {
    hide IsTarget, IsCovered, Purge;
    if t.FlushLocally? { PurgeIs(s.cpus[s.shoot.cpu].tlb, s.shoot.req.start, s.shoot.req.size); }
  }

  lemma LoopStepsKeepShape(s: State, t: Step)
    requires Shape(s) && IpisOk(s)
    requires Enabled(s, t) && (t.SkipCpu? || t.ChooseCpu? || t.CountIpi?)
    ensures Shape(Apply(s, t))
  {
    hide SpacesOk, Purge, IpisOk;
    SpacesStay(s, Apply(s, t));
  }

  lemma LoopStepsKeepIpis(s: State, t: Step)
    requires Shape(s) && IpisOk(s)
    requires Enabled(s, t) && (t.SkipCpu? || t.ChooseCpu? || t.CountIpi?)
    ensures IpisOk(Apply(s, t))
  {
    hide SpacesOk, CpusOk, Purge, Holds;
  }

  lemma CleanSame(s: State, s': State, j: nat)
    requires s.shoot.Active? && s'.shoot.Active? && s'.shoot.req == s.shoot.req && s'.spaces == s.spaces
    requires j < |s.cpus| && j < |s'.cpus| && s'.cpus[j].tlb == s.cpus[j].tlb && s'.cpus[j].cr3 == s.cpus[j].cr3
    requires s'.cpus[j].mode.Switching? <==> s.cpus[j].mode.Switching?
    ensures Clean(s', j) <==> Clean(s, j)
  {
  }

  /** A CPU that the send loop skips is the initiator, on another map, or about to load CR3. */
  lemma SkippedIsClean(s: State)
    requires Shape(s) && ScannedClean(s) && Enabled(s, SkipCpu) && IsCovered(s.shoot.req.start, s.shoot.req.size)
    ensures Clean(s, s.shoot.next)
  {
    hide SpacesOk, Purge, IsCovered, Holds;
  }

  lemma LoopStepsKeepClean(s: State, t: Step)
    requires Shape(s) && IpisOk(s) && ScannedClean(s)
    requires Enabled(s, t) && (t.SkipCpu? || t.ChooseCpu? || t.CountIpi?)
    ensures ScannedClean(Apply(s, t))
  {
    hide Shape, Purge, IsCovered, Clean, HasRead;
    forall j: nat | j < |s.cpus| ensures Clean(Apply(s, t), j) <==> Clean(s, j) { CleanSame(s, Apply(s, t), j); }
    if t.SkipCpu? && IsCovered(s.shoot.req.start, s.shoot.req.size) { SkippedIsClean(s); }
  }

  lemma LoopStepsKeepStale(s: State, t: Step, kernel: bool)
    requires Shape(s) && IpisOk(s) && ScannedClean(s) && StaleOk(s, kernel)
    requires Enabled(s, t) && (t.SkipCpu? || t.ChooseCpu? || t.CountIpi?)
    ensures StaleOk(Apply(s, t), kernel)
  {
    hide Shape, IpisOk, ScannedClean, StaleOk, Purge, IsTarget;
    StaleStays(s, Apply(s, t), kernel);
  }

  lemma SendKeepsShape(s: State, t: Step)
    requires Shape(s) && IpisOk(s)
    requires Enabled(s, t) && t.SendIpi?
    ensures Shape(Apply(s, t))
  {
  }

  lemma SendKeepsIpis(s: State, t: Step)
    requires Shape(s) && IpisOk(s)
    requires Enabled(s, t) && t.SendIpi?
    ensures IpisOk(Apply(s, t))
  {
    hide SpacesOk, Purge, IsCovered, Flushes;
  }

  lemma SendKeepsClean(s: State, t: Step)
    requires Shape(s) && IpisOk(s) && ScannedClean(s)
    requires Enabled(s, t) && t.SendIpi?
    ensures ScannedClean(Apply(s, t))
  {
  }

  lemma SendKeepsStale(s: State, t: Step, kernel: bool)
    requires Shape(s) && IpisOk(s) && ScannedClean(s) && StaleOk(s, kernel)
    requires Enabled(s, t) && t.SendIpi?
    ensures StaleOk(Apply(s, t), kernel)
  {
    hide SpacesOk, ShootOk, IpisOk, ScannedClean, Purge;
  }

  lemma SubsetOfSameSize(a: set<nat>, b: set<nat>)
    requires a <= b && |a| == |b|
    ensures a == b
  {
    if a != b {
      var x :| x in b && x !in a;
      SubsetSize(a, b - {x});
    }
  }

  lemma SubsetSize(a: set<nat>, b: set<nat>)
    requires a <= b
    ensures |a| <= |b|
  {
    if a != {} {
      var x :| x in a;
      SubsetSize(a - {x}, b - {x});
    }
  }

  /** The counter reads 0 after the send loop only when every IPI of this request is handled. */
  lemma WaitIsOver(s: State)
    requires Shape(s) && IpisOk(s) && Enabled(s, FinishWait)
    ensures s.shoot.sent == s.shoot.handled
  {
    SubsetOfSameSize(s.shoot.handled, s.shoot.sent);
  }

  lemma FinishKeepsShape(s: State, t: Step)
    requires Shape(s) && IpisOk(s)
    requires Enabled(s, t) && t.FinishWait?
    ensures Shape(Apply(s, t))
  {
  }

  lemma FinishKeepsIpis(s: State, t: Step)
    requires Shape(s) && IpisOk(s)
    requires Enabled(s, t) && t.FinishWait?
    ensures IpisOk(Apply(s, t))
  {
    WaitIsOver(s);
  }

  lemma FinishKeepsClean(s: State, t: Step)
    requires Shape(s) && IpisOk(s) && ScannedClean(s)
    requires Enabled(s, t) && t.FinishWait?
    ensures ScannedClean(Apply(s, t))
  {
  }

  lemma FinishKeepsStale(s: State, t: Step, kernel: bool)
    requires Shape(s) && IpisOk(s) && ScannedClean(s) && OpsCovered(s, kernel) && StaleOk(s, kernel)
    requires Enabled(s, t) && t.FinishWait?
    ensures StaleOk(Apply(s, t), kernel)
  {
    WaitIsOver(s);
  }

  // ----- preservation: the interrupt handler -----

  lemma HandlerFlushKeepsShape(s: State, t: Step)
    requires Shape(s) && IpisOk(s)
    requires Enabled(s, t) && t.HandlerFlush?
    ensures Shape(Apply(s, t))
  {
  }

  lemma HandlerFlushKeepsIpis(s: State, t: Step)
    requires Shape(s) && IpisOk(s)
    requires Enabled(s, t) && t.HandlerFlush?
    ensures IpisOk(Apply(s, t))
  {
  }

  lemma HandlerFlushKeepsClean(s: State, t: Step)
    requires Shape(s) && IpisOk(s) && ScannedClean(s)
    requires Enabled(s, t) && t.HandlerFlush?
    ensures ScannedClean(Apply(s, t))
  {
    PurgeIs(s.cpus[t.j].tlb, s.cpus[t.j].mode.at.start, s.cpus[t.j].mode.at.size);
  }

  lemma HandlerFlushKeepsStale(s: State, t: Step, kernel: bool)
    requires Shape(s) && IpisOk(s) && ScannedClean(s) && StaleOk(s, kernel)
    requires Enabled(s, t) && t.HandlerFlush?
    ensures StaleOk(Apply(s, t), kernel)
  {
    PurgeIs(s.cpus[t.j].tlb, s.cpus[t.j].mode.at.start, s.cpus[t.j].mode.at.size);
  }

  lemma HandlerIsActive(s: State, j: nat)
    requires IpisOk(s) && j < |s.cpus| && Owes(s.cpus[j].mode)
    ensures s.shoot.Active? && j in s.shoot.sent && j !in s.shoot.handled
  {
    assert Outstanding(s.cpus[j]);
  }

  lemma HandlerCountKeepsShape(s: State, t: Step)
    requires Shape(s) && IpisOk(s)
    requires Enabled(s, t) && t.HandlerCount?
    ensures Shape(Apply(s, t))
  {
    hide SpacesOk, IpisOk, Purge, IsTarget;
    SpacesStay(s, Apply(s, t));
    HandlerIsActive(s, t.j);
  }

  lemma HandlerCountKeepsIpis(s: State, t: Step)
    requires Shape(s) && IpisOk(s)
    requires Enabled(s, t) && t.HandlerCount?
    ensures IpisOk(Apply(s, t))
  {
    hide SpacesOk, Purge;
    HandlerIsActive(s, t.j);
  }

  lemma HandlerCountKeepsClean(s: State, t: Step)
    requires Shape(s) && IpisOk(s) && ScannedClean(s)
    requires Enabled(s, t) && t.HandlerCount?
    ensures ScannedClean(Apply(s, t))
  {
    hide Shape, Purge, IsCovered, Clean, HasRead, IsTarget;
    HandlerIsActive(s, t.j);
    forall j: nat | j < |s.cpus| ensures Clean(Apply(s, t), j) <==> Clean(s, j) { CleanSame(s, Apply(s, t), j); }
  }

  lemma HandlerCountKeepsStale(s: State, t: Step, kernel: bool)
    requires Shape(s) && IpisOk(s) && ScannedClean(s) && StaleOk(s, kernel)
    requires Enabled(s, t) && t.HandlerCount?
    ensures StaleOk(Apply(s, t), kernel)
  {
    hide SpacesOk, ShootOk, ScannedClean, IpisOk, Purge;
    HandlerIsActive(s, t.j);
  }

  lemma OperationKeepsInv(s: State, t: Step)
    requires Inv(s) && Enabled(s, t)
    requires t.BeginOp? || t.EndOp? || t.LockTlb? || t.UnlockTlb? || t.Install? || t.Replace? || t.Remove?
    ensures Inv(Apply(s, t))
  {
    hide Shape, IpisOk, ScannedClean, Enabled, Apply;
    if t.Install? || t.Replace? || t.Remove? {
      TableStepsKeepShape(s, t);
      SpacesKeepIpis(s, t);
      if t.Remove? { RemoveKeepsClean(s, t); } else { EntryWritesKeepClean(s, t); }
    } else {
      OpsKeepShape(s, t);
      if t.BeginOp? || t.EndOp? {
        SpacesKeepIpis(s, t);
        BeginAndEndKeepClean(s, t);
      } else {
        LocksKeepIpis(s, t);
        LockStepsKeepClean(s, t);
      }
    }
  }

  lemma InitiatorKeepsInv(s: State, t: Step)
    requires Inv(s) && Enabled(s, t)
    requires t.EnterCritical? || t.FlushLocally? || t.StoreAddress? || t.StoreSize? || t.ResetCount?
      || t.SkipCpu? || t.ChooseCpu? || t.CountIpi? || t.SendIpi? || t.FinishWait?
    ensures Inv(Apply(s, t))
  {
    hide Shape, IpisOk, ScannedClean, Enabled, Apply;
    if t.SkipCpu? || t.ChooseCpu? || t.CountIpi? {
      LoopStepsKeepShape(s, t); LoopStepsKeepIpis(s, t); LoopStepsKeepClean(s, t);
    } else if t.SendIpi? {
      SendKeepsShape(s, t); SendKeepsIpis(s, t); SendKeepsClean(s, t);
    } else if t.FinishWait? {
      FinishKeepsShape(s, t); FinishKeepsIpis(s, t); FinishKeepsClean(s, t);
    } else {
      PreparationsKeepShape(s, t); PreparationsKeepIpis(s, t); PreparationsKeepClean(s, t);
    }
  }

  lemma HandlerKeepsInv(s: State, t: Step)
    requires Inv(s) && Enabled(s, t) && (t.HandlerFlush? || t.HandlerCount?)
    ensures Inv(Apply(s, t))
  {
    hide Shape, IpisOk, ScannedClean, Enabled, Apply;
    if t.HandlerFlush? {
      HandlerFlushKeepsShape(s, t); HandlerFlushKeepsIpis(s, t); HandlerFlushKeepsClean(s, t);
    } else {
      HandlerCountKeepsShape(s, t); HandlerCountKeepsIpis(s, t); HandlerCountKeepsClean(s, t);
    }
  }

  /** Every step of every agent keeps the invariant. */
  lemma StepKeepsInv(s: State, t: Step)
    requires Inv(s) && Enabled(s, t)
    ensures Inv(Apply(s, t))
  {
    hide Shape, IpisOk, ScannedClean, Enabled, Apply;
    if IsLocal(t) {
      LocalKeepsInv(s, t);
    } else if t.HandlerFlush? || t.HandlerCount? {
      HandlerKeepsInv(s, t);
    } else if t.BeginOp? || t.EndOp? || t.LockTlb? || t.UnlockTlb? || t.Install? || t.Replace? || t.Remove? {
      OperationKeepsInv(s, t);
    } else {
      InitiatorKeepsInv(s, t);
    }
  }

  lemma {:induction false} RunKeepsInv(s: State, steps: seq<Step>)
    requires Inv(s) && IsRun(s, steps)
    ensures Inv(After(s, steps))
    decreases |steps|
  {
    hide Inv, Enabled, Apply;
    if steps != [] {
      StepKeepsInv(s, steps[0]);
      RunKeepsInv(Apply(s, steps[0]), steps[1..]);
    }
  }

  // ----- runs whose operations are covered -----

  /** The operation begun, if it is one in kernel memory, or in user memory, flushes its whole range, if it flushes. */
  predicate IsCoveredStep(t: Step, kernel: bool) {
    t.BeginOp? && (t.m == 0 <==> kernel) ==> Flushes(t.kind, t.start, t.size)
  }

  ghost predicate AreCovered(steps: seq<Step>, kernel: bool) {
    forall t | t in steps :: IsCoveredStep(t, kernel)
  }

  lemma StepKeepsCovered(s: State, t: Step, kernel: bool)
    requires OpsCovered(s, kernel) && Enabled(s, t) && IsCoveredStep(t, kernel)
    ensures OpsCovered(Apply(s, t), kernel)
  {
    hide Flushes, IsTarget, Purge;
  }

  lemma InitiatorKeepsStale(s: State, t: Step, kernel: bool)
    requires Inv(s) && IsCoherent(s, kernel) && Enabled(s, t)
    requires t.EnterCritical? || t.FlushLocally? || t.StoreAddress? || t.StoreSize? || t.ResetCount?
      || t.SkipCpu? || t.ChooseCpu? || t.CountIpi? || t.SendIpi? || t.FinishWait?
    ensures StaleOk(Apply(s, t), kernel)
  {
    hide Shape, IpisOk, ScannedClean, StaleOk, OpsCovered, Enabled, Apply;
    if t.SkipCpu? || t.ChooseCpu? || t.CountIpi? {
      LoopStepsKeepStale(s, t, kernel);
    } else if t.SendIpi? {
      SendKeepsStale(s, t, kernel);
    } else if t.FinishWait? {
      FinishKeepsStale(s, t, kernel);
    } else {
      PreparationsKeepStale(s, t, kernel);
    }
  }

  /** Every step keeps kernel memory, or user memory, coherent, as long as operations there begin with covered ranges. */
  lemma StepKeepsCoherent(s: State, t: Step, kernel: bool)
    requires Inv(s) && IsCoherent(s, kernel) && Enabled(s, t) && IsCoveredStep(t, kernel)
    ensures IsCoherent(Apply(s, t), kernel)
  {
    hide Shape, IpisOk, ScannedClean, StaleOk, OpsCovered, Enabled, Apply, IsCoveredStep, LocalChange;
    StepKeepsCovered(s, t, kernel);
    if IsLocal(t) {
      LocalIs(s, t);
      LocalKeepsStale(s, t.j, Apply(s, t).cpus[t.j], kernel);
    } else if t.HandlerFlush? {
      HandlerFlushKeepsStale(s, t, kernel);
    } else if t.HandlerCount? {
      HandlerCountKeepsStale(s, t, kernel);
    } else if t.Install? || t.Replace? || t.Remove? {
      TableStepsKeepStale(s, t, kernel);
    } else if t.BeginOp? || t.EndOp? || t.LockTlb? || t.UnlockTlb? {
      OpsKeepStale(s, t, kernel);
    } else {
      InitiatorKeepsStale(s, t, kernel);
    }
  }

  /** So in every run whose operations in kernel memory, or in user memory, are covered that memory stays coherent. */
  lemma {:induction false} RunKeepsCoherent(s: State, steps: seq<Step>, kernel: bool)
    requires Inv(s) && IsCoherent(s, kernel) && IsRun(s, steps) && AreCovered(steps, kernel)
    ensures IsCoherent(After(s, steps), kernel)
    decreases |steps|
  {
    hide Inv, IsCoherent, Enabled, Apply, IsCoveredStep;
    if steps != [] {
      StepKeepsInv(s, steps[0]);
      StepKeepsCoherent(s, steps[0], kernel);
      RunKeepsCoherent(Apply(s, steps[0]), steps[1..], kernel);
    }
  }

  // ----- coherence over every run -----

  /**
   When the lock of map m is free, a CPU whose CR3 is m and which is not between
   WillSetAddressSpace and its CR3 load caches only user translations the page table still holds.
   What operations do in kernel memory does not matter.
  */
  lemma UserCoherence(s0: State, steps: seq<Step>, m: MapId, j: nat)
    requires Init(s0) && IsRun(s0, steps) && AreCovered(steps, false)
    requires var s := After(s0, steps); m in s.spaces && s.spaces[m].op.NoOp? && j < |s.cpus|
    requires var s := After(s0, steps); s.cpus[j].cr3 == m && !s.cpus[j].mode.Switching?
    ensures var s := After(s0, steps);
      forall t | t in s.cpus[j].tlb && t.page >= KERNEL_END :: Holds(s, m, t)
  {
    InitInv(s0);
    RunKeepsCoherent(s0, steps, false);
  }

  /** Kernel translations have no such window: with the global map's lock free, no CPU is stale. */
  lemma KernelCoherence(s0: State, steps: seq<Step>, j: nat)
    requires Init(s0) && IsRun(s0, steps) && AreCovered(steps, true)
    requires var s := After(s0, steps); 0 in s.spaces && s.spaces[0].op.NoOp? && j < |s.cpus|
    ensures var s := After(s0, steps);
      forall t | t in s.cpus[j].tlb && t.page < KERNEL_END :: Holds(s, 0, t)
  {
    InitInv(s0);
    RunKeepsCoherent(s0, steps, true);
  }

  /** Map writes a fresh page without flushing: no CPU that may use it caches that page. */
  lemma MapNeedsNoFlush(s0: State, steps: seq<Step>, c: nat, m: MapId, page: nat, entry: nat, j: nat)
    requires Init(s0) && IsRun(s0, steps) && AreCovered(steps, page < KERNEL_END)
    requires Enabled(After(s0, steps), Install(c, m, page, entry))
    requires After(s0, steps).spaces[m].op.kind.Mapping?
    requires j < |After(s0, steps).cpus| && SpaceOf(page, After(s0, steps).cpus[j].cr3) == m
    ensures var s := After(s0, steps);
      (exists t :: t in s.cpus[j].tlb && t.page == page) ==> page >= KERNEL_END && s.cpus[j].mode.Switching?
  {
    InitInv(s0);
    RunKeepsCoherent(s0, steps, page < KERNEL_END);
  }

  /**
   In every run, when the wait loop of a shootdown exits, a kernel request has been handled by every other
   CPU; and every CPU has dropped the stale translations of the requested range, if one call of Invlpgs
   flushes that, except a CPU inside its address-space switch.
  */
  lemma ShootdownIsComplete(s0: State, steps: seq<Step>)
    requires Init(s0) && IsRun(s0, steps) && Enabled(After(s0, steps), FinishWait)
    ensures var s := After(s0, steps);
      IsCovered(s.shoot.req.start, s.shoot.req.size) ==> forall j | 0 <= j < |s.cpus| :: Clean(s, j)
    ensures var s := After(s0, steps);
      s.shoot.req.start < KERNEL_END ==> forall j | 0 <= j < |s.cpus| :: j in s.shoot.handled <==> j != s.shoot.cpu
  {
    InitInv(s0);
    RunKeepsInv(s0, steps);
    WaitIsOver(After(s0, steps));
  }

  /** The flush at the end of an operation is covered if the operations of the run are. */
  lemma FinalIsCovered(s0: State, steps: seq<Step>)
    requires Init(s0) && IsRun(s0, steps) && Enabled(After(s0, steps), FinishWait) && After(s0, steps).shoot.req.final
    requires AreCovered(steps, After(s0, steps).shoot.req.space == 0)
    ensures var s := After(s0, steps); IsCovered(s.shoot.req.start, s.shoot.req.size) && forall j | 0 <= j < |s.cpus| :: Clean(s, j)
  {
    InitInv(s0);
    RunKeepsInv(s0, steps);
    RunKeepsCoherent(s0, steps, After(s0, steps).shoot.req.space == 0);
    ShootdownIsComplete(s0, steps);
  }

  /** A CPU that was inside its switch drops everything stale of its old map at the CR3 load. */
  lemma SwitchDropsStaleEntries(s0: State, steps: seq<Step>, j: nat)
    requires Init(s0) && IsRun(s0, steps) && AreCovered(steps, true) && Enabled(After(s0, steps), LoadCr3(j))
    ensures var s := Apply(After(s0, steps), LoadCr3(j));
      forall t | t in s.cpus[j].tlb :: Holds(s, 0, t) || Dirty(s, 0, t.page)
  {
    InitInv(s0);
    RunKeepsInv(s0, steps);
    RunKeepsCoherent(s0, steps, true);
    StepKeepsCoherent(After(s0, steps), LoadCr3(j), true);
  }

  // ----- what a step does to the caches, and when operations may end -----

  /**
   A TLB changes only by the hardware, by a CR3 load, and by the flush of the current request, on its
   initiator and in its handlers; that drops what Invlpgs drops for the range requested and no more.
  */
  lemma TlbChangesIs(s: State, t: Step, k: nat)
    requires Inv(s) && Enabled(s, t) && k < |s.cpus|
    ensures |Apply(s, t).cpus| == |s.cpus|
    ensures var before, after := s.cpus[k].tlb, Apply(s, t).cpus[k].tlb;
      if (t.FlushLocally? && k == s.shoot.cpu) || (t.HandlerFlush? && k == t.j) then
        s.shoot.Active? && after == Purge(before, s.shoot.req.start, s.shoot.req.size)
      else if t.LoadCr3? && k == t.j then after == set x: Translation | x in before && x.page < KERNEL_END
      else if t.Fill? && k == t.j then
        exists x: Translation :: x.page == t.page && Holds(s, SpaceOf(t.page, s.cpus[k].cr3), x) && after == before + {x}
      else if t.Evict? && k == t.j then after == before - {t.gone}
      else after == before
  {
    if t.HandlerFlush? {
      HandlerFlushIs(s, t.j);
    } else {
      OtherTlbIs(s, t, k);
    }
  }

  lemma HandlerFlushIs(s: State, j: nat)
    requires Inv(s) && Enabled(s, HandlerFlush(j))
    ensures s.shoot.Active?
    ensures Apply(s, HandlerFlush(j)).cpus
      == s.cpus[j := s.cpus[j].(tlb := Purge(s.cpus[j].tlb, s.shoot.req.start, s.shoot.req.size), mode := Handling(Flushed))]
  {
    hide SpacesOk, ScannedClean, Purge, CpusOk;
    assert Outstanding(s.cpus[j]);
    OutstandingIsSent(s, j);
  }

  lemma OtherTlbIs(s: State, t: Step, k: nat)
    requires Enabled(s, t) && k < |s.cpus| && !t.HandlerFlush?
    ensures |Apply(s, t).cpus| == |s.cpus|
    ensures var before, after := s.cpus[k].tlb, Apply(s, t).cpus[k].tlb;
      if t.FlushLocally? && k == s.shoot.cpu then
        s.shoot.Active? && after == Purge(before, s.shoot.req.start, s.shoot.req.size)
      else if t.LoadCr3? && k == t.j then after == set x: Translation | x in before && x.page < KERNEL_END
      else if t.Fill? && k == t.j then
        exists x: Translation :: x.page == t.page && Holds(s, SpaceOf(t.page, s.cpus[k].cr3), x) && after == before + {x}
      else if t.Evict? && k == t.j then after == before - {t.gone}
      else after == before
  {
    hide Purge, IsTarget;
    if t.Fill? && k == t.j {
      var x := Translation(t.page, s.spaces[SpaceOf(t.page, s.cpus[k].cr3)].table[t.page]);
      assert Holds(s, SpaceOf(t.page, s.cpus[k].cr3), x);
    }
  }

  /** An operation may end unflushed if it is a Map, or a MapAt that has replaced nothing. */
  lemma EndsIff(s: State, c: nat, m: MapId)
    requires c < |s.cpus| && s.cpus[c].mode == Running && s.cpus[c].cr3 == m && m in s.spaces && s.spaces[m].op.Busy?
    requires s.shoot.NoShoot? || s.shoot.req.space != m
    ensures var op := s.spaces[m].op;
      Enabled(s, EndOp(c, m)) <==> op.flushed || op.kind.Mapping? || (op.kind.MappingAt? && !op.overwrote)
  {
  }

  // ----- whom a request interrupts -----

  /**
   While the send loop looks at a CPU, exactly one of passing on and choosing is possible: the CPU is
   passed over if it is the initiator, or, for a user request, if it is on another map.
  */
  lemma ChoiceIs(s: State)
    requires Inv(s) && Scanning(s) && !s.shoot.chosen && !s.shoot.posted
    ensures var c, i := s.cpus[s.shoot.next], s.cpus[s.shoot.cpu]; var user := KERNEL_END <= s.shoot.req.start;
      && (Enabled(s, SkipCpu) <==> s.shoot.next == s.shoot.cpu || (user && c.current != i.current))
      && (Enabled(s, ChooseCpu) <==> s.shoot.next != s.shoot.cpu && (user ==> c.current == i.current))
  {
  }

  /** The CPUs that were on the initiator's map, or are asked about kernel memory, when the send loop looked at them. */
  ghost function Concerned(s: State, t: Step, before: set<nat>): set<nat>
    requires Inv(s) && Enabled(s, t)
  {
    if t.EnterCritical? then {} else
    if (t.SkipCpu? || t.ChooseCpu?) && s.shoot.next != s.shoot.cpu
      && (s.shoot.req.start < KERNEL_END || s.cpus[s.shoot.next].current == s.cpus[s.shoot.cpu].current)
    then before + {s.shoot.next} else before
  }

  ghost function ConcernedIn(s: State, steps: seq<Step>, before: set<nat>): set<nat>
    requires Inv(s) && IsRun(s, steps)
    decreases |steps|
  {
    if steps == [] then before else
    StepKeepsInv(s, steps[0]);
    ConcernedIn(Apply(s, steps[0]), steps[1..], Concerned(s, steps[0], before))
  }

  /** The CPUs that have been sent this request's IPI, and the one that is about to be. */
  ghost function Interrupted(s: State): set<nat>
    requires s.shoot.Active?
  {
    s.shoot.sent + if s.shoot.chosen then {s.shoot.next} else {}
  }

  lemma StepKeepsConcerned(s: State, t: Step, before: set<nat>)
    requires Inv(s) && Enabled(s, t) && (s.shoot.Active? ==> Interrupted(s) == before)
    ensures Apply(s, t).shoot.Active? ==> Interrupted(Apply(s, t)) == Concerned(s, t, before)
  {
    hide SpacesOk, ScannedClean, Purge, Holds;
    if t.SkipCpu? || t.ChooseCpu? { ChoiceIs(s); }
  }

  /** In every run the IPIs of a request go to exactly those CPUs. */
  lemma {:induction false} RunKeepsConcerned(s: State, steps: seq<Step>, before: set<nat>)
    requires Inv(s) && IsRun(s, steps) && (s.shoot.Active? ==> Interrupted(s) == before)
    ensures After(s, steps).shoot.Active? ==> Interrupted(After(s, steps)) == ConcernedIn(s, steps, before)
    decreases |steps|
  {
    hide Inv, Enabled, Apply, Concerned, Interrupted;
    if steps != [] {
      StepKeepsInv(s, steps[0]);
      StepKeepsConcerned(s, steps[0], before);
      RunKeepsConcerned(Apply(s, steps[0]), steps[1..], Concerned(s, steps[0], before));
    }
  }

  lemma SentAreConcerned(s0: State, steps: seq<Step>)
    requires Init(s0) && IsRun(s0, steps) && After(s0, steps).shoot.Active?
    ensures Inv(s0) && Interrupted(After(s0, steps)) == ConcernedIn(s0, steps, {})
  {
    InitInv(s0);
    RunKeepsConcerned(s0, steps, {});
  }

  /** All through the run, whenever a user request is active, CPU j is on another map than its initiator. */
  ghost predicate IsElsewhere(s: State, steps: seq<Step>, j: nat)
    requires IsRun(s, steps)
    decreases |steps|
  {
    && (s.shoot.Active? && s.shoot.cpu < |s.cpus| && j < |s.cpus| ==>
      KERNEL_END <= s.shoot.req.start && s.cpus[j].current != s.cpus[s.shoot.cpu].current)
    && (steps != [] ==> IsElsewhere(Apply(s, steps[0]), steps[1..], j))
  }

  lemma {:induction false} ElsewhereIsNotConcerned(s: State, steps: seq<Step>, j: nat, before: set<nat>)
    requires Inv(s) && IsRun(s, steps) && j !in before && IsElsewhere(s, steps, j)
    ensures j !in ConcernedIn(s, steps, before)
    decreases |steps|
  {
    hide Inv, Enabled, Apply, Concerned;
    if steps != [] {
      StepKeepsInv(s, steps[0]);
      OneElsewhere(s, steps[0], j, before);
      ElsewhereIsNotConcerned(Apply(s, steps[0]), steps[1..], j, Concerned(s, steps[0], before));
    }
  }

  lemma OneElsewhere(s: State, t: Step, j: nat, before: set<nat>)
    requires Inv(s) && Enabled(s, t) && j !in before
    requires s.shoot.Active? && s.shoot.cpu < |s.cpus| && j < |s.cpus| ==>
      KERNEL_END <= s.shoot.req.start && s.cpus[j].current != s.cpus[s.shoot.cpu].current
    ensures j !in Concerned(s, t, before)
  {
    hide Inv, IsTarget;
  }

  /**
   A user request that begins in a run interrupts no CPU that is on other maps all through it: neither an
   IPI nor the handler's flush ever reaches it.
  */
  lemma OtherMapsAreLeftAlone(s0: State, earlier: seq<Step>, steps: seq<Step>, j: nat)
    requires Init(s0) && IsRun(s0, earlier) && !After(s0, earlier).shoot.Active?
    requires IsRun(After(s0, earlier), steps) && IsElsewhere(After(s0, earlier), steps, j)
    ensures var s := After(After(s0, earlier), steps);
      && (s.shoot.Active? ==> j !in s.shoot.sent)
      && (j < |s.cpus| ==> !Outstanding(s.cpus[j]))
  {
    InitInv(s0);
    RunKeepsInv(s0, earlier);
    var s1 := After(s0, earlier);
    RunKeepsInv(s1, steps);
    RunKeepsConcerned(s1, steps, {});
    ElsewhereIsNotConcerned(s1, steps, j, {});
  }

  // ----- ranges that one call does not flush -----

  /** A machine with one CPU, on the global map. */
  function Lone(tlb: set<Translation>, mode: Mode, sp: Space, shoot: Shoot, a: nat, n: nat): State {
    State([Cpu(0, 0, tlb, mode, false)], map[0 := sp], shoot, a, n, 0)
  }

  function ActiveAt(req: Request, stage: Stage, next: nat): Shoot {
    Active(req, 0, stage, next, false, false, {}, {})
  }

  /** That CPU caches a page and unmaps it: the k-th state. */
  function InVain(k: nat, start: nat, size: nat): State {
    var req, op := Request(0, start, size, true), Busy(Unmapping, start, size, false, false);
    var t, table := {Translation(start, 1)}, map[start := 1];
    if k == 0 then Lone({}, Running, Space(table, NoOp), NoShoot, 0, 0)
    else if k == 1 then Lone(t, Running, Space(table, NoOp), NoShoot, 0, 0)
    else if k == 2 then Lone(t, Running, Space(table, op), NoShoot, 0, 0)
    else if k == 3 then Lone(t, Running, Space(map[], op), NoShoot, 0, 0)
    else if k == 4 then Lone(t, Running, Space(map[], op), Locked(req), 0, 0)
    else if k == 5 then Lone(t, Initiating, Space(map[], op), ActiveAt(req, Entered, 0), 0, 0)
    else if k == 6 then Lone(t, Initiating, Space(map[], op), ActiveAt(req, LocalDone, 0), 0, 0)
    else if k == 7 then Lone(t, Initiating, Space(map[], op), ActiveAt(req, AddressStored, 0), start, 0)
    else if k == 8 then Lone(t, Initiating, Space(map[], op), ActiveAt(req, SizeStored, 0), start, size)
    else if k == 9 then Lone(t, Initiating, Space(map[], op), ActiveAt(req, Sending, 0), start, size)
    else if k == 10 then Lone(t, Initiating, Space(map[], op), ActiveAt(req, Sending, 1), start, size)
    else if k == 11 then Lone(t, Running, Space(map[], op.(flushed := true)), Leaving(req), start, size)
    else if k == 12 then Lone(t, Running, Space(map[], op.(flushed := true)), NoShoot, start, size)
    else Lone(t, Running, Space(map[], NoOp), NoShoot, start, size)
  }

  function InVainStep(k: nat, start: nat, size: nat): Step {
    if k == 0 then Fill(0, start)
    else if k == 1 then BeginOp(0, 0, Unmapping, start, size)
    else if k == 2 then Remove(0, 0, start)
    else if k == 3 then LockTlb(0, Request(0, start, size, true))
    else if k == 4 then EnterCritical(0)
    else if k == 5 then FlushLocally
    else if k == 6 then StoreAddress
    else if k == 7 then StoreSize
    else if k == 8 then ResetCount
    else if k == 9 then SkipCpu
    else if k == 10 then FinishWait
    else if k == 11 then UnlockTlb
    else EndOp(0, 0)
  }

  predicate Leads(s: State, t: Step, s': State) {
    Enabled(s, t) && Apply(s, t) == s'
  }

  lemma InVainBegins(k: nat, start: nat, size: nat)
    requires k < 5 && start < KERNEL_END && 0 < size
    ensures Leads(InVain(k, start, size), InVainStep(k, start, size), InVain(k + 1, start, size))
  {
    var none: set<Translation> := {};
    assert none + {Translation(start, 1)} == {Translation(start, 1)};
    assert map[start := 1] - {start} == map[];
    assert map[0 := Space(map[start := 1], NoOp)][0 := InVain(2, start, size).spaces[0]] == InVain(2, start, size).spaces;
    assert InVain(2, start, size).spaces[0 := InVain(3, start, size).spaces[0]] == InVain(3, start, size).spaces;
  }

  lemma InVainFlushes(start: nat, size: nat)
    requires start < KERNEL_END && !IsCovered(start, size)
    ensures Leads(InVain(5, start, size), FlushLocally, InVain(6, start, size))
  {
    assert Purge({Translation(start, 1)}, start, size) == {Translation(start, 1)};
  }

  lemma InVainStores(k: nat, start: nat, size: nat)
    requires 6 <= k < 10 && start < KERNEL_END
    ensures Leads(InVain(k, start, size), InVainStep(k, start, size), InVain(k + 1, start, size))
  {
  }

  lemma InVainEnds(k: nat, start: nat, size: nat)
    requires 10 <= k < 13 && start < KERNEL_END
    ensures Leads(InVain(k, start, size), InVainStep(k, start, size), InVain(k + 1, start, size))
  {
  }

  /** The only operation of the run. */
  ghost predicate OnlyUnmaps(steps: seq<Step>, start: nat, size: nat) {
    forall t | t in steps && t.BeginOp? :: t == BeginOp(0, 0, Unmapping, start, size)
  }

  lemma {:induction false} InVainRun(k: nat, start: nat, size: nat) returns (steps: seq<Step>)
    requires k <= 13 && start < KERNEL_END && 0 < size && !IsCovered(start, size)
    ensures IsRun(InVain(k, start, size), steps) && After(InVain(k, start, size), steps) == InVain(13, start, size)
    ensures OnlyUnmaps(steps, start, size)
    decreases 13 - k
  {
    hide Enabled, Apply, InVain, IsCovered;
    steps := [];
    if k < 13 {
      if k < 5 {
        InVainBegins(k, start, size);
      } else if k == 5 {
        InVainFlushes(start, size);
      } else if k < 10 {
        InVainStores(k, start, size);
      } else {
        InVainEnds(k, start, size);
      }
      var rest := InVainRun(k + 1, start, size);
      steps := [InVainStep(k, start, size)] + rest;
      assert steps[1..] == rest;
    }
  }

  /**
   For every other kernel range there is a run, of one CPU and one Unmap of that range, after which the
   lock of the global map is free and a translation stays cached that the page table does not hold.
  */
  lemma UncoveredStaysStale(start: nat, size: nat) returns (s0: State, steps: seq<Step>)
    requires start < KERNEL_END && !IsCovered(start, size)
    ensures Init(s0) && IsRun(s0, steps) && OnlyUnmaps(steps, start, size)
    ensures var s := After(s0, steps);
      && 0 in s.spaces && s.spaces[0].op.NoOp? && |s.cpus| == 1
      && exists t :: t in s.cpus[0].tlb && t.page < KERNEL_END && !Holds(s, 0, t)
  {
    s0 := InVain(0, start, size);
    steps := InVainRun(0, start, size);
    assert Translation(start, 1) in InVain(13, start, size).cpus[0].tlb;
  }

  // ----- the counter and the mailbox of the protocol -----

  /** What `ipiCount` reads: increments done minus IPIs handled, where an IPI is sent before it is counted. */
  lemma CounterIsExact(s0: State, steps: seq<Step>)
    requires Init(s0) && IsRun(s0, steps) && AtStage(After(s0, steps), Sending)
    ensures var s := After(s0, steps);
      var counted := if s.shoot.posted then s.shoot.sent - {s.shoot.next} else s.shoot.sent;
      s.ipiCount == |counted| - |s.shoot.handled| && s.shoot.handled <= s.shoot.sent
    ensures var s := After(s0, steps);
      forall j | 0 <= j < |s.cpus| :: Outstanding(s.cpus[j]) <==> j in s.shoot.sent - s.shoot.handled
  {
    InitInv(s0);
    RunKeepsInv(s0, steps);
  }

  /**
   While any CPU still owes a flush, no step changes the stored address or size, and no CPU is sent
   an IPI while its previous one is outstanding, so no IPI is ever merged with another.
  */
  lemma RequestIsStable(s0: State, steps: seq<Step>, t: Step, j: nat)
    requires Init(s0) && IsRun(s0, steps) && Enabled(After(s0, steps), t)
    requires j < |After(s0, steps).cpus| && Outstanding(After(s0, steps).cpus[j])
    ensures var s := After(s0, steps);
      && s.shoot.Active? && Apply(s, t).invlAddress == s.invlAddress == s.shoot.req.start
      && Apply(s, t).invlSize == s.invlSize == s.shoot.req.size
    ensures t.SendIpi? ==> After(s0, steps).shoot.next != j
  {
    hide IsRun, After, Enabled, Apply, Shape, IpisOk, ScannedClean;
    InitInv(s0);
    RunKeepsInv(s0, steps);
    InvIs(After(s0, steps));
    StepKeepsRequest(After(s0, steps), t, j);
  }

  lemma InvIs(s: State)
    requires Inv(s)
    ensures Shape(s) && IpisOk(s)
  {
  }

  lemma StepKeepsRequest(s: State, t: Step, j: nat)
    requires Shape(s) && IpisOk(s) && Enabled(s, t) && j < |s.cpus| && Outstanding(s.cpus[j])
    ensures s.shoot.Active? && Apply(s, t).invlAddress == s.invlAddress == s.shoot.req.start
    ensures Apply(s, t).invlSize == s.invlSize == s.shoot.req.size && (t.SendIpi? ==> s.shoot.next != j)
  {
    hide Shape, IpisOk, Enabled, Apply, Outstanding;
    OutstandingIsSent(s, j);
    NoStoreWhileSending(s, t);
    if t.SendIpi? { SendIsNew(s); }
  }

  lemma OutstandingIsSent(s: State, j: nat)
    requires Shape(s) && IpisOk(s) && j < |s.cpus| && Outstanding(s.cpus[j])
    ensures AtStage(s, Sending) && j in s.shoot.sent
    ensures s.invlAddress == s.shoot.req.start && s.invlSize == s.shoot.req.size
  {
    hide SpacesOk, CpusOk;
  }

  lemma NoStoreWhileSending(s: State, t: Step)
    requires Enabled(s, t) && AtStage(s, Sending)
    ensures Apply(s, t).invlAddress == s.invlAddress && Apply(s, t).invlSize == s.invlSize
  {
    hide Purge, IsTarget;
  }

  lemma SendIsNew(s: State)
    requires IpisOk(s) && Enabled(s, SendIpi)
    ensures s.shoot.next !in s.shoot.sent
  {
  }

  // ----- no deadlock -----

  function StageLeft(stage: Stage): nat {
    match stage
    case Entered => 5
    case LocalDone => 4
    case AddressStored => 3
    case SizeStored => 2
    case Sending => 1
  }

  /** Statements the initiator still has to run before it waits: three for a CPU that it interrupts. */
  ghost function InitiatorLeft(s: State): nat
    requires Measured(s)
  {
    StageLeft(s.shoot.stage) + 3 * (|s.cpus| - s.shoot.next) - (if s.shoot.posted then 2 else if s.shoot.chosen then 1 else 0)
  }

  ghost function Unhandled(s: State): set<nat>
    requires s.shoot.Active?
  {
    s.shoot.sent - s.shoot.handled
  }

  /** Steps until this CPU decrements the counter, if nobody opens another critical section on it. */
  function HandlerLeft(c: Cpu): nat {
    match c.mode
    case Handling(Flushed) => 1
    case Handling(Sized(_, _)) => 2
    case Handling(Addressed(_)) => 3
    case Handling(Taken) => 4
    case Running => 5
    case Switching(_) => 7
    case _ => 6
  }

  ghost predicate Measured(s: State) {
    s.shoot.Active? && s.shoot.next <= |s.cpus| && (s.shoot.posted || s.shoot.chosen ==> s.shoot.next < |s.cpus|)
  }

  lemma InvMeasured(s: State)
    requires Shape(s) && IpisOk(s) && s.shoot.Active?
    ensures Measured(s)
  {
  }

  /**
   Whatever anybody does, with any number of other CPUs contending for the lock, the pair
   (initiator statements left, unhandled IPIs) never goes up while a shootdown is active; the
   initiator's own steps and each handler decrement bring it down.
  */
  lemma ProgressIsNeverLost(s: State, t: Step)
    requires Inv(s) && Enabled(s, t) && s.shoot.Active? && !t.FinishWait?
    ensures Measured(s) && Measured(Apply(s, t))
    ensures var s' := Apply(s, t);
      || InitiatorLeft(s') < InitiatorLeft(s)
      || (InitiatorLeft(s') == InitiatorLeft(s) && |Unhandled(s')| <= |Unhandled(s)|)
    ensures t.HandlerCount? ==> |Unhandled(Apply(s, t))| < |Unhandled(s)|
    ensures IsInitiators(t) ==> InitiatorLeft(Apply(s, t)) < InitiatorLeft(s)
  {
    InvMeasured(s);
    if t.HandlerCount? {
      CountIsProgress(s, t.j);
    } else if IsInitiators(t) {
      InitiatorIsProgress(s, t);
    } else {
      OthersAreNeutral(s, t);
    }
  }

  predicate IsInitiators(t: Step) {
    t.FlushLocally? || t.StoreAddress? || t.StoreSize? || t.ResetCount? || t.SkipCpu? || t.ChooseCpu? || t.SendIpi? || t.CountIpi?
  }

  lemma InitiatorIsProgress(s: State, t: Step)
    requires Inv(s) && Enabled(s, t) && Measured(s) && IsInitiators(t)
    ensures Measured(Apply(s, t)) && InitiatorLeft(Apply(s, t)) < InitiatorLeft(s)
  {
    hide ScannedClean, SpacesOk, Purge, CpusOk;
  }

  lemma OthersAreNeutral(s: State, t: Step)
    requires Inv(s) && Enabled(s, t) && Measured(s) && !IsInitiators(t) && !t.HandlerCount? && !t.FinishWait?
    ensures Apply(s, t).shoot == s.shoot && |Apply(s, t).cpus| == |s.cpus|
  {
    hide ScannedClean, SpacesOk, Purge, CpusOk;
  }

  lemma CountIsProgress(s: State, j: nat)
    requires Inv(s) && Enabled(s, HandlerCount(j)) && Measured(s)
    ensures var s' := Apply(s, HandlerCount(j));
      Measured(s') && InitiatorLeft(s') == InitiatorLeft(s) && |Unhandled(s')| < |Unhandled(s)|
  {
    hide ScannedClean, SpacesOk, ShootOk, CpusOk, Purge, IsTarget;
    assert Outstanding(s.cpus[j]);
    assert Unhandled(Apply(s, HandlerCount(j))) == Unhandled(s) - {j};
  }

  /** The steps a shootdown waits for: its initiator, its handlers, and the end of other critical sections. */
  predicate IsHelpful(t: Step) {
    || IsInitiators(t) || t.FinishWait? || t.TakeIpi? || t.HandlerAddress? || t.HandlerSize? || t.HandlerFlush?
    || t.HandlerCount? || t.HandlerReturn? || t.EndCritical? || t.LoadCr3?
  }

  ghost function SomeOf(a: set<nat>): (j: nat)
    requires a != {}
    ensures j in a
  {
    var j :| j in a;
    j
  }

  /** The step that brings CPU j closer to decrementing the counter. */
  function NextOf(c: Cpu, j: nat): Step {
    match c.mode
    case Handling(Taken) => HandlerAddress(j)
    case Handling(Addressed(_)) => HandlerSize(j)
    case Handling(Sized(_, _)) => HandlerFlush(j)
    case Handling(Flushed) => HandlerCount(j)
    case Handling(Counted) => HandlerReturn(j)
    case Switching(_) => LoadCr3(j)
    case Running => TakeIpi(j)
    case _ => EndCritical(j)
  }

  ghost function HelpfulStep(s: State): Step
    requires s.shoot.Active? && s.shoot.cpu < |s.cpus| && (AtStage(s, Sending) && s.shoot.next >= |s.cpus| && s.ipiCount != 0 ==>
      Unhandled(s) != {} && SomeOf(Unhandled(s)) < |s.cpus|)
  {
    match s.shoot.stage
    case Entered => FlushLocally
    case LocalDone => StoreAddress
    case AddressStored => StoreSize
    case SizeStored => ResetCount
    case Sending =>
      if s.shoot.next < |s.cpus| then
        if s.shoot.posted then CountIpi
        else if s.shoot.chosen then SendIpi
        else if IsTarget(s, s.shoot.next) then ChooseCpu else SkipCpu
      else if s.ipiCount == 0 then FinishWait
      else NextOf(s.cpus[SomeOf(Unhandled(s))], SomeOf(Unhandled(s)))
  }

  lemma SomebodyOwes(s: State)
    requires Shape(s) && IpisOk(s) && AtStage(s, Sending) && s.shoot.next >= |s.cpus| && s.ipiCount != 0
    ensures Unhandled(s) != {} && SomeOf(Unhandled(s)) < |s.cpus| && Outstanding(s.cpus[SomeOf(Unhandled(s))])
  {
    if s.shoot.sent == s.shoot.handled {
      assert false;
    }
    var j :| j in s.shoot.sent && j !in s.shoot.handled;
    assert j in Unhandled(s);
  }

  predicate IsWaiting(s: State) {
    AtStage(s, Sending) && s.shoot.next >= |s.cpus| && s.ipiCount != 0
  }

  lemma ShootIsActive(s: State)
    requires Inv(s) && s.shoot.Active?
    ensures s.shoot.cpu < |s.cpus| && Shape(s) && IpisOk(s)
  {
  }

  lemma InitiatorCanGo(s: State)
    requires Shape(s) && s.shoot.Active? && s.shoot.cpu < |s.cpus| && !IsWaiting(s)
    ensures Enabled(s, HelpfulStep(s)) && (IsInitiators(HelpfulStep(s)) || HelpfulStep(s).FinishWait?)
  {
    hide Shape, IsTarget;
  }

  lemma OweingCpuCanGo(s: State, j: nat)
    requires Shape(s) && j < |s.cpus| && Outstanding(s.cpus[j]) && s.shoot.Active? && (IpisOk(s) && j in Unhandled(s))
    ensures Enabled(s, NextOf(s.cpus[j], j)) && IsHelpful(NextOf(s.cpus[j], j)) && !IsInitiators(NextOf(s.cpus[j], j))
  {
    hide SpacesOk, ShootOk;
  }

  /** In every state of an active shootdown some helpful step is enabled: nobody waits in a circle. */
  lemma NoDeadlock(s: State) returns (t: Step)
    requires Inv(s) && s.shoot.Active?
    ensures IsHelpful(t) && Enabled(s, t)
    ensures IsWaiting(s) ==>
      && Unhandled(s) != {} && SomeOf(Unhandled(s)) < |s.cpus| && Outstanding(s.cpus[SomeOf(Unhandled(s))])
      && t == NextOf(s.cpus[SomeOf(Unhandled(s))], SomeOf(Unhandled(s)))
    ensures !IsWaiting(s) ==> IsInitiators(t) || t.FinishWait?
  {
    hide ScannedClean, SpacesOk, ShootOk, CpusOk, IpisOk, IsTarget, Enabled;
    ShootIsActive(s);
    if IsWaiting(s) {
      SomebodyOwes(s);
      OweingCpuCanGo(s, SomeOf(Unhandled(s)));
    } else {
      InitiatorCanGo(s);
    }
    t := HelpfulStep(s);
  }

  ghost function OwedLeft(s: State): nat
    requires s.shoot.Active?
  {
    if Unhandled(s) != {} && SomeOf(Unhandled(s)) < |s.cpus| then HandlerLeft(s.cpus[SomeOf(Unhandled(s))]) else 0
  }

  lemma HandlerStepHelps(s: State, t: Step)
    requires Inv(s) && IsWaiting(s) && Enabled(s, t)
    requires Unhandled(s) != {} && SomeOf(Unhandled(s)) < |s.cpus| && Outstanding(s.cpus[SomeOf(Unhandled(s))])
    requires t == NextOf(s.cpus[SomeOf(Unhandled(s))], SomeOf(Unhandled(s))) && !t.HandlerCount?
    ensures var s' := Apply(s, t);
      s'.shoot == s.shoot && |s'.cpus| == |s.cpus| && OwedLeft(s') < OwedLeft(s)
  {
    hide ScannedClean, SpacesOk, Purge, IpisOk, ShootOk, CpusOk, IsTarget, Flushes;
    assert Unhandled(Apply(s, t)) == Unhandled(s);
  }

  lemma KeepsRequest(s: State, t: Step)
    requires Inv(s) && Enabled(s, t) && s.shoot.Active?
    ensures if t.FinishWait? then Apply(s, t).shoot == Leaving(s.shoot.req)
      else Apply(s, t).shoot.Active? && Apply(s, t).shoot.req == s.shoot.req
  {
    hide ScannedClean, SpacesOk, IpisOk, Purge;
  }

  /** From every state of an active shootdown, helpful steps alone lead to its end. */
  lemma {:induction false} ShootdownCanEnd(s: State) returns (steps: seq<Step>)
    requires Inv(s) && Measured(s)
    ensures IsRun(s, steps) && (forall t | t in steps :: IsHelpful(t))
    ensures After(s, steps).shoot == Leaving(s.shoot.req)
    decreases InitiatorLeft(s), |Unhandled(s)|, OwedLeft(s)
  {
    hide ScannedClean, Shape, IpisOk, IsTarget, Enabled, Apply, Unhandled, InitiatorLeft, OwedLeft;
    var t := NoDeadlock(s);
    var s' := Apply(s, t);
    StepKeepsInv(s, t);
    KeepsRequest(s, t);
    if t.FinishWait? {
      steps := [t];
    } else {
      ProgressIsNeverLost(s, t);
      if !IsInitiators(t) && !t.HandlerCount? { HandlerStepHelps(s, t); }
      var rest := ShootdownCanEnd(s');
      steps := [t] + rest;
    }
  }
}
