# A verified model of libscm

libscm implements short-term memory for C programs. Every object or region carries a counter of
descriptors. A refresh places a descriptor in a ring of page lists, a tick of a clock rotates the
ring and moves one slot to an expired list, and collection takes expired descriptors off that list,
decrements the counter of what they name, and frees the object or recycles the region at zero. A
global clock shared by all threads advances when every participating thread has ticked.

This project models that machinery and proves what the rest of a program relies on: how long an
object lives after a refresh, on a local clock and on the global one; that counters always equal the
number of descriptors; that the page lists and pools neither lose nor share a page; and what the
global-time protocol keeps in every interleaving. All limits (extensions, clocks, regions, page
capacities, pool sizes) are symbolic constants in `Config.dfy`, so every statement holds for all
values of them. Run `dafny verify dfyconfig.toml` to check the project.

## How it is built

* `GlobalTime.dfy` is the global-time protocol as a state machine over the atomic steps of a global
  tick (unlocked comparison, bump of the phase, atomic decrement, locked reset, advance) and the
  locked steps of blocking and resuming, for any number of threads. `GlobalClock.dfy` is the code of
  the three functions and shows which of those steps they take.
* `Rings.dfy` is a descriptor buffer as a ring of slots and its refinement of a map from deadlines to
  descriptors. `Roots.dfy` is the expiring part of a descriptor root: the rings of all clocks, the two
  expired queues, ages and the round-robin index. `ZombieCleanup.dfy` and `Holdings.dfy` prove what
  ticking does to zombie buffers and how many descriptors a thread holds.
* `Lifetimes.dfy` is the whole system, every root together with the shared counters and the global-time
  protocol; `Guarantees.dfy` holds the theorems over its runs. A step is one atomic access to shared
  memory and the thread-local work next to it. A thread may collect a descriptor at any time between
  calls, so lazy and eager collection are both runs of the system. `Reclamation.dfy` proves the other
  direction, that what has no further descriptor is reclaimed, and `MaximalExtension.dfy` shows exactly
  for which extensions the global guarantee holds.
* `Descriptors.dfy` is descriptors.c at the level of linked pages, expired lists with their cursor and
  the page pool; `Regions.dfy` is the region allocator with its page pool; `Scm.dfy` is the code of
  scm.c over these, proved to do to the pages what `Roots.dfy` does to the rings. `Conformance.dfy` ties
  the two levels together: each call of `Scm.dfy` is a run of the system of `Lifetimes.dfy`, and calls of
  several threads compose into one run, so what is proved about all runs holds for the calls.
  `Renaming.dfy`, `Placement.dfy` and `Sums.dfy` hold the shared reasoning about renaming descriptors,
  about page ownership and about counting over threads.

Pages live in an explicit heap, a map from references to pages, so that a freed page is gone and each
access has to show that its page is still allocated. What malloc would return is a parameter
(`spare`), and what a finalizer would return is a function parameter or an arbitrary step argument.

The client contract of the system model is the one the library's documentation gives: a refresh or a
free names something that is allocated and whose release has not begun. `Guarantees.WaitingIsAlive`
shows that holding an unexpired descriptor is enough.

### Where the code and its documentation differ

* A global refresh inserts at `extension + 2` into a ring of `MAX + 2` slots, so the maximal extension
  wraps to the slot that expires next. The guarantee documented for every extension holds exactly for
  the smaller ones: `MaximalExtension.GlobalGuaranteeIff`, with a whole run for the maximal one.
* `round_robin` is documented to increase constantly, but it moves only after a zombie was cleaned. An
  unregistered clock is therefore not always cleaned up; `ZombieCleanup.CleanedIff` says exactly when and
  `ZombieCleanup.StalledForever` gives a sequence of calls after which only ticking the clock under the
  index could.
* With two clocks, ticking an unregistered clock 1 rotates it twice: `Roots.DoubleAdvance` and, for calls
  that lead there, `Roots.DoubleAdvanceReached`.
* The size of a region allocation is narrowed to 32 bits; `Regions.NeededSpaceSuffices` says exactly
  which requests still get the space they asked for, and `Regions.NarrowedOverlaps` gives one that does
  not and shares its address with the next object.
* `scm_malloc_in_region` is documented to return NULL for a region without pages. The code checks this
  only in a build with condition checks; otherwise it allocates. `Regions.AllocationSoundIff` and the
  contract of `Regions.RegionStore.MallocInRegion` say that such an allocation is never sound, and
  `Regions.NeverCreatedBreaks`, `Regions.NeverCreatedAllocation`, `Regions.RecycledZombieAllocates` and
  `Regions.RecycledRegionOverlaps` show what happens in the two states a region without pages can be in.

One limit is documented and has a consequence that is not: recycling returns early for a live region
with one page (descriptors.c:280-281), so its bump pointer stays behind the expired objects.
`Regions.RecycledBumpIff` says exactly when a recycled region starts over, and
`Regions.RecycledRegionGrows` is a run in which it does not.

## Model

| member | source | states |
|---|---|---|
| `GlobalTime.StepKeepsInv` | scm.c:252-334 | every step of every thread (block, resume, each part of a global tick) keeps the protocol invariant |
| `GlobalTime.ReachableCountdown` | scm.c:217-226 | in every reachable state: `number_of_threads` counts the participants, every participant's phase is the global time or one more, outside the closing window the countdown is the number of unticked participants plus the ticks in flight and at least 1, it is 1 when nobody participates, and inside the window every participant has ticked; at most one thread closes |
| `GlobalTime.MatchIsStable` | scm.c:1179-1186 | the unlocked comparison is stable: after it succeeded, time and phase stay equal until the thread itself bumps its phase, whatever the others do |
| `GlobalTime.TicksNeedTime` | scm.c:1172-1213 | over every run, k effective ticks of one root need at least k - 1 advances of the global time, across block, resume and reuse |
| `GlobalTime.TimeNeedsTicks` | scm.c:1199-1211 | k advances of the global time cost every thread that participates throughout at least k - 1 effective ticks |
| `GlobalTime.NoDoubleTick` | scm.c:316-329 | two effective ticks of one root never happen at the same global time |
| `GlobalTime.TimeAdvances` | scm.c:1199-1213 | progress: once every thread of a fixed set of participants has made and finished a global tick, the time has advanced |
| `GlobalClock.Clock.ScmBlockThread` | scm.c:252-291 | the code of blocking is the block step, or nothing for a blocked thread |
| `GlobalClock.Clock.ScmResumeThread` | scm.c:300-334 | the code of resuming is the resume step, or nothing for a thread that is not blocked |
| `GlobalClock.Clock.ScmGlobalTick` | scm.c:1172-1213 | an uninterrupted global tick is exactly compare, bump, decrement and, for the last thread, reset and advance |
| `GlobalClock.Clock.NewDescriptorRoot` | scm.c:189-215 | a new root starts blocked with phase 0 |
| `Rings.WrapIsRemainder` | descriptors.c:13-15 | the model's index wrapping is the remainder the code computes |
| `Rings.CheckExtension` | scm.c:803-812 | the clamped extension is the given one exactly if that does not exceed the maximum, and the maximum exactly if it is at least that |
| `Rings.InsertDue` | descriptors.c:61-66 | an insert appends to the slot that is due after `expiration` modulo the length and to no other |
| `Rings.AdvanceDue` | descriptors.c:91-117 | an advance releases the slot that was due next and brings every other slot one advance closer |
| `Rings.RingRefinesDeadlines` | descriptors.c:61-124 | over every run of inserts and advances the ring releases the same descriptors at the same advances in the same order as a map from deadlines to sequences |
| `Rings.FreshRingRefines` | scm.c:200-209 | a buffer that starts empty refines an empty deadline map over its whole life |
| `Rings.ReleasedExactly` | descriptors.c:91-117 | whatever the ring holds and whatever else is inserted, the same target included, an inserted descriptor adds one to exactly one batch and leaves all other batches as they would have been |
| `Rings.ReleasedOnce` | descriptors.c:91-117 | if nothing else names the target, that batch is the only one with it: never earlier and never later |
| `Rings.LocalRefreshDue` | scm.c:846-870 | a local refresh with clamped extension e is due at the (e+1)-th advance |
| `Rings.GlobalRefreshDue` | scm.c:928-934 | a global refresh is due at the (e+3)-th advance if and only if the extension is below the maximum; at the maximum it is due at the next advance |
| `Roots.FreshOk` | scm.c:189-215 | a new root satisfies the root invariant; only clock 0 is registered, all buffers are empty, only those of clock 0 and the global clock have slots, and both round-robin indices are 1 |
| `Roots.RegistrationEffect` | scm.c:474-509 | registering or unregistering a clock changes the registration of that clock only, clocks 0 and 1 cannot be unregistered, and reusing a root makes every used buffer but that of clock 0 a zombie |
| `Roots.RegistrationFrame` | scm.c:456-509 | what registering, unregistering and reusing leave alone: a registration moves the search index one past the clock and gives slots only to buffers without, every other buffer, the queues and the round-robin index stay; the other two change ages and time only |
| `Roots.NextFitRotates` | scm.c:456-509 | clocks are handed out in turn: a clock registered and then unregistered is returned by the very next registration if and only if every other one is registered |
| `Roots.RegistrationKeepsOk` | scm.c:365-370 | registering, unregistering and reusing a root keep the root invariant |
| `Roots.TickKeepsOk` | scm.c:1092-1144 | a tick keeps the invariant: object and region indices of a clock stay equal, ages never pass the current time, `round_robin` stays in 1..MAX_CLOCKS-1 |
| `Roots.GlobalTickKeepsOk` | scm.c:1186-1244 | so does a global tick |
| `Roots.TickAdvancesRings` | scm.c:1072-1144 | how often a tick of one clock rotates the object and region buffers of every clock |
| `Roots.TickCleans` | scm.c:1110-1144 | for every clock, in terms of the round-robin index alone: which clock a tick looks at, that its buffers are rotated once and the index moves past it exactly if it is a zombie, that no other buffer changes, and in which order what expires is queued |
| `Roots.TickCleansItself` | scm.c:1112-1144 | the remaining case, in which the ticked clock is the one to be cleaned: it is rotated twice |
| `Roots.TickIsolation` | scm.c:1112-1144 | with at least three clocks a tick rotates its own buffers once and at most one other pair, that of a used zombie; neither the object nor the region buffer of a registered clock is changed by another clock's tick |
| `Roots.DoubleAdvance` | scm.c:1112-1136 | a tick rotates its own clock twice if and only if there are two clocks and it ticks an unregistered clock 1 |
| `Roots.DoubleAdvanceReached` | scm.c:1112-1136 | a reachable input for that: a new root registers clock 1, is passed on to another thread, and one tick of clock 1 rotates both its buffers twice |
| `Roots.GlobalTickAdvancesRings` | scm.c:1216-1244 | how often a global tick rotates the object and region buffers of every clock: the global ones once if it is effective, besides them at most the zombie under the index, and never a registered clock |
| `Roots.GlobalTickCleans` | scm.c:1186-1244 | the same for a global tick |
| `ZombieCleanup.CleanupExact` | scm.c:1112-1144 | exactly how often m ticks of the base clock rotate each buffer: once per round if all others are zombies, otherwise once for the buffers before the first non-zombie and never for the rest |
| `ZombieCleanup.CleanedIff` | scm.c:1128-1143 | after (MAX_CLOCKS-1)*(MAX_EXTENSION+1) base ticks the object buffer of a zombie is empty if and only if all other clocks are zombies, or it held nothing, or the index reached it and everything in it was due next; the same for its region buffer |
| `ZombieCleanup.CleanupStalls` | scm.c:1112-1143 | while the index rests on a registered or never used buffer, any run of global ticks and of ticks of the other clocks changes neither the index nor any buffer that is not ticked itself |
| `ZombieCleanup.IndexTickCleans` | scm.c:1114-1143 | the exception: a tick of the clock under the index rotates the next buffer if it is a zombie and moves the index past it |
| `ZombieCleanup.StalledForever` | scm.c:1128-1143 | a reachable input for the stall: clocks 1 and 2 are registered, a descriptor is placed with clock 2, clock 2 is unregistered; no run of global ticks and of ticks of clock 0 and clocks from 3 on ever expires the descriptor |
| `ZombieCleanup.BaseTicksRun` | scm.c:1165-1167 | any number of base ticks is such a run |
| `Holdings.TickWeight` | scm.c:1092-1144 | a tick conserves descriptors: every count of what a thread holds is unchanged, unexpired ones only become expired |
| `Holdings.GlobalTickWeight` | scm.c:1186-1244 | so does a global tick |
| `Holdings.RegisterWeight` | scm.c:474-482 | registering a clock adds no descriptor and keeps those of a reused buffer |
| `Holdings.LazyCollectionBound` | scm.c:777-781 | with lazy collection, over every run of refreshes, ticks, clock registrations and reuses, a thread never holds more object (region) descriptors, expired ones included, than the peak of its simultaneously unexpired ones |
| `Lifetimes.StepKeepsInv` | scm.c:821-1065 | every step of the whole system keeps the counters exact, the dying targets unique and the roots in order |
| `Lifetimes.CollectedIsCounted` | descriptors.c:208-222 | a collected descriptor names an allocated target with a positive counter |
| `Guarantees.CountersAreExact` | scm.c:868-870 | in every reachable state the counter of an allocated target is the number of descriptors naming it over all rings and expired queues of all roots plus the refreshes between counting and placing; what is not allocated is named by none |
| `Guarantees.ZeroIffLast` | descriptors.c:220-222 | a collection brings a counter to zero if and only if it collects the last descriptor |
| `Guarantees.LastDescriptorFrees` | descriptors.c:222-253 | the collection of the last descriptor frees the object if and only if its finalizer returns 0 |
| `Guarantees.WaitingIsAlive` | scm.c:116-128 | what has an unexpired descriptor is allocated, counted and not being released |
| `Guarantees.Survives` | descriptors.c:208-260 | over every run of all threads, a target waiting in a ring stays allocated until that ring has been rotated past it |
| `Guarantees.RefreshProtects` | scm.c:868-873 | a refresh never frees what it refreshes: until the thread rotates a ring, neither its own collections nor other threads can |
| `Guarantees.RotationsAreTicks` | scm.c:1072-1086 | while a clock stays registered its buffers are rotated by its own ticks and nothing else |
| `Guarantees.LocalLifetime` | scm.c:814-877 | a descriptor placed on a registered clock with extension e protects its target until that clock has ticked e + 1 times; for clock 0 also across the reuse of the root by another thread |
| `Guarantees.RefreshLifetime` | scm.c:821-877 | the same from the call of the refresh on, other threads running between its counting and its placing; as it holds for each refresh, a target refreshed on several clocks lives until all have ticked that often |
| `Reclamation.LocalLifetimeExact` | scm.c:814-877 | both ways: a target whose only descriptor was placed with extension e on a registered clock, not refreshed again and not waiting for collection, is gone if and only if that clock has ticked e + 1 times, over every run of all threads |
| `Reclamation.RefreshLifetimeExact` | scm.c:821-877 | the same from the call of the refresh on, for a target that had no descriptor |
| `Guarantees.ProjectionRuns` | scm.c:1172-1213 | every run of the system is a run of the global-time protocol |
| `Guarantees.GlobalLifetime` | scm.c:898-934 | a descriptor placed by a global refresh with e below the maximum protects its target until the global time has advanced e + 2 times and every thread participating throughout has made e + 1 effective global ticks |
| `Guarantees.GlobalRefreshLifetime` | scm.c:904-941 | the same from the call of the refresh on, even if the refreshing thread blocks and resumes |
| `Reclamation.GlobalLifetimeExact` | scm.c:898-941 | both ways on the global clock: the target is gone if and only if its thread has made e + 3 effective global ticks, or one if the extension was maximal |
| `Guarantees.MaximalExtensionWraps` | scm.c:202-205 | where a global descriptor waits for every extension; at the maximum the next effective tick already expires it |
| `Guarantees.MaximalExtensionFreesEarly` | scm.c:928-934 | with the maximal extension the object is freed by the thread's next tick and the collection at its end, without any advance of the global time, while another thread still has to tick |
| `MaximalExtension.MaximalRefreshReached` | scm.c:904-937 | a run from the initial state that leads there: two threads start, a first period passes, an object is allocated and refreshed with the maximal extension |
| `MaximalExtension.GlobalGuaranteeIff` | scm.c:898-934 | over all runs of all threads from the initial state, a globally refreshed target lasts for e + 2 advances of the global time and e + 1 effective ticks of every thread that takes part throughout, if and only if the extension is below the maximum |
| `Descriptors.PagesAreConserved` | descriptors.c:22-56 | every allocated descriptor page is in exactly one slot list, expired list or pool position, no listed page is empty, all slot pages but the last are full, the pool keeps its limit |
| `Descriptors.NeedsPageIff` | descriptors.c:68-81 | the next descriptor of a slot needs a new page if and only if the slot holds a multiple of what fits into a page |
| `Descriptors.DescriptorStore.constructor` | scm.c:200-209 | a new store has empty rings, slots only for clock 0 and the global clock |
| `Descriptors.DescriptorStore.IncrementCurrentIndex` | descriptors.c:13-15 | moves the index of one buffer one slot on, cyclically |
| `Descriptors.DescriptorStore.NewDescriptorPage` | descriptors.c:22-56 | hands out an empty page that is in no list, the last one of the pool if it has one, leaving all lists, all other pages and the rest of the pool as they were |
| `Descriptors.DescriptorStore.RecycleDescriptorPage` | descriptors.c:126-146 | a page goes to the end of the pool exactly if the pool has room and is freed otherwise, leaving all lists as they were |
| `Descriptors.DescriptorStore.StartPageList` | descriptors.c:68-71 | an empty slot gets a page holding the new descriptor |
| `Descriptors.DescriptorStore.ExtendPageList` | descriptors.c:76-81 | a slot with a full last page gets another page holding the new descriptor |
| `Descriptors.DescriptorStore.InsertDescriptor` | descriptors.c:61-85 | the page lists do what the ring does: one slot of one buffer gets the descriptor at its end, all other rings and both queues are unchanged; a page is taken, from the pool first, exactly if the slot holds a multiple of what fits into a page |
| `Descriptors.DescriptorStore.ExpireBuffer` | descriptors.c:91-124 | the slot before the index is appended to the queue of its kind and emptied, also when the queue's first page is partly or fully collected; the empty-page branch is unreachable |
| `Descriptors.DescriptorStore.AdvanceBuffer` | scm.c:1075-1085 | increment and expiry together advance the ring and append what it releases to the queue |
| `Descriptors.DescriptorStore.DropEmptiedPage` | descriptors.c:167-187 | taking off a fully collected page changes no queue and no ring; the page is pooled, or freed if the pool is full |
| `Descriptors.DescriptorStore.GetExpiredMemory` | descriptors.c:152-201 | returns the head of the queue and removes it, or nothing if and only if the queue is empty; the first page is pooled or freed exactly if all of it had been collected before, otherwise no page changes |
| `Descriptors.DescriptorStore.Activate` | scm.c:474-477 | an unused buffer gets its slots, a used one keeps its contents |
| `Regions.NeededSpaceSuffices` | scm.c:690-691 | the reserved space holds the request and its header if and only if the request is at most 2^32 - 16 bytes; it is a multiple of 8 |
| `Regions.NeededSpaceModulo` | scm.c:690-691 | in general the reserved space is the request and its header rounded up to a multiple of 8, less a multiple of 2^32 |
| `Regions.NarrowedRequest` | scm.c:690-698 | a request of 2^32 - 8 bytes reserves no space and is granted |
| `Regions.NarrowedOverlaps` | scm.c:690-744 | the object allocated after a narrowed one gets the same address |
| `Regions.PagesAreConserved` | descriptors.c:405-475 | every allocated region page is in exactly one region or in the pool, at one position |
| `Regions.ObjectsAreDisjoint` | scm.c:731-745 | no two objects allocated in regions since their last recycling overlap, in one region or across regions: the spaces reserved never do, and for requests of at most 2^32 - 16 bytes the bytes requested and the header are disjoint and lie within the page |
| `Regions.AllocationSoundIff` | scm.c:690-744 | for a request that is granted, the region keeps its invariant and owns the page of the new object if and only if it had a first page; the reserved space also holds the object if and only if, besides, the request was at most 2^32 - 16 bytes |
| `Regions.NeverCreatedBreaks` | scm.c:731-744 | first input: in a region that was never created the allocation links a page as the last one only; no list of pages satisfies the invariant then, and creating the region afterwards counts two pages where its list has one and loses the other |
| `Regions.NeverCreatedAllocation` | scm.c:731-744 | the same as a run of the code on a new root |
| `Regions.RecycledZombieAllocates` | descriptors.c:477-502 | second input: a recycled zombie has no page, and an allocation hands out the start of its former first page without linking one |
| `Regions.RecycledRegionOverlaps` | scm.c:588-744 | the same as a run of the code on a new root: the page has gone to another region by way of the pool, and an allocation in each of the two regions returns the same address |
| `Regions.RecyclingConserves` | descriptors.c:403-502 | the pages a region had and those in the pool split exactly into the ones it keeps, the ones freed and the ones pooled afterwards, whose number is the limit or the sum, whichever is smaller; no other list and no other region changes, and the region is registered exactly as it was, with counter 0 |
| `Regions.RecycledFields` | descriptors.c:309-344 | every field of a recycled region: what a live one and a zombie keep |
| `Regions.RecycledAvailableIff` | descriptors.c:477-502 | a region whose last descriptor has expired may be handed out again if and only if it was not registered any more |
| `Regions.RecycledBumpIff` | descriptors.c:309-344 | a recycled live region starts over if and only if it had more than one page or nothing was allocated in it |
| `Regions.RecycledRegionGrows` | descriptors.c:309-344 | a run of the code where it does not: after create, allocate, refresh and expiry the next object goes behind the expired one |
| `Regions.RegionStore.constructor` | scm.c:189-215 | a new root has no region page and every region is available |
| `Regions.RegionStore.TakeOver` | scm.c:361-370 | reusing a root turns every region into a zombie and keeps its pages |
| `Regions.RegionStore.InitRegionPage` | scm.c:516-579 | a page from the pool, or a new one, becomes the last page of the region and of no other list |
| `Regions.RegionStore.CreateRegion` | scm.c:588-647 | returns the first region from the search index on, wrapping around, that has no page or is a zombie with counter 0, or -1 if and only if there is none; only that region changes, and a page comes from the pool if it has one |
| `Regions.RegionStore.CreateInEmpty` | scm.c:627-632 | a region without pages gets one page and an empty bump range |
| `Regions.RegionStore.UnregisterRegion` | scm.c:654-668 | only the age of a valid region changes; an invalid index is ignored |
| `Regions.RegionStore.MallocInRegion` | scm.c:689-768 | fails exactly for oversized requests and invalid indices; in a region with a first page the object goes to the bump pointer exactly if it fits into the page, and to the start of one newly linked page otherwise; it is 8-byte aligned, inside one page of the region and apart from all earlier objects; without a first page, exactly what is returned and changed, and whether the invariant survives |
| `Regions.RegionStore.FreeExcess` | descriptors.c:438-451 | the freeing loop ends, frees exactly the pages that exceed the pool limit, from the front, and its counter does not underflow |
| `Regions.RegionStore.DetachLegacy` | descriptors.c:308-401 | a live region gives up all pages but the first, a zombie all |
| `Regions.RegionStore.PoolRecycled` | descriptors.c:403-475 | the recycled pages split exactly into freed and pooled ones, the pool list and its count agree and stay within the limit, despite the interim count |
| `Regions.RegionStore.ResetRegion` | descriptors.c:477-502 | a recycled live region has one page and an empty bump range, a recycled zombie has no page and a bump range in its former first page |
| `Regions.RegionStore.RecycleRegion` | descriptors.c:283-521 | the code does to the pages, the pool and the region exactly the recycling whose conservation is proved above, keeps the region's age, and leaves the bump pointer of a one-page live region alone |
| `Regions.RegionStore.ExpireDescriptor` | descriptors.c:540-555 | an expired descriptor is counted off once; exactly the last one recycles the region, which is then available if and only if it was not registered |
| `Scm.DescriptorRoot.constructor` | scm.c:189-215 | a new root stands for the model's fresh root |
| `Scm.DescriptorRoot.IncrementAndExpireClock` | scm.c:1072-1086 | both buffers of a clock are advanced once, at the level of pages |
| `Scm.DescriptorRoot.CleanZombie` | scm.c:1128-1143 | rotates a used zombie and moves the index on, otherwise changes nothing |
| `Scm.DescriptorRoot.TickClock` | scm.c:1110-1144 | the tick code does to the pages what the model tick does to the rings |
| `Scm.DescriptorRoot.GlobalTick` | scm.c:1186-1244 | so does the thread-local part of a global tick |
| `Scm.DescriptorRoot.RegisterClock` | scm.c:446-485 | returns the first unregistered clock from the search index on, wrapping around to clock 1, or -1 if and only if all are registered; the search index moves one past it |
| `Scm.ClocksInTurn` | scm.c:446-509 | a run of the code: a new root hands out clocks 1 and 2 and, after clock 2 was unregistered, clock 3 |
| `Scm.DescriptorRoot.ActivateClock` | scm.c:474-482 | the clock's buffers have slots and the current age |
| `Scm.DescriptorRoot.UnregisterClock` | scm.c:493-509 | a clock other than 0 and 1 becomes a zombie |
| `Scm.DescriptorRoot.TakeOver` | scm.c:361-370 | a reused root starts with clock 0 registered and all other clocks zombies |
| `Scm.RegisterThread` | scm.c:344-378 | a thread gets the root of a terminated one or a new one; root and regions move to the same new time, only clock 0 is registered and no region is in use |
| `Scm.DescriptorRoot.PlaceDescriptor` | scm.c:869-870 | places one descriptor in one ring of one kind |
| `Scm.DescriptorRoot.PopExpired` | descriptors.c:152-201 | pops one queue and leaves the rest of the root as it was |
| `Scm.DescriptorRoot.ExpireObjectDescriptor` | descriptors.c:208-260 | decrements the named object once and frees it at zero unless its finalizer objects; returns whether there was a descriptor |
| `Scm.DescriptorRoot.ExpireRegionDescriptor` | descriptors.c:528-562 | decrements the named region once and recycles it exactly at zero, with its pages, objects and fields afterwards |
| `Scm.DescriptorRoot.LazyCollect` | scm.c:777-781 | collects at most one descriptor of each kind: exactly which counter changes, which object is freed and which region recycled; every descriptor of the root stays counted |
| `Scm.DescriptorRoot.ScmTickClock` | scm.c:1092-1152 | a tick with lazy collection: the rings, and exactly the counters its collection changes; an invalid clock changes nothing |
| `Scm.DescriptorRoot.ScmGlobalTick` | scm.c:1186-1250 | the same for the thread-local part of a global tick |
| `Scm.LazilyIsLazyCall` | scm.c:777-781 | these calls and the refreshes are the calls whose runs the lazy collection bound is about |
| `Scm.DescriptorRoot.ScmRefreshWithClock` | scm.c:821-877 | counts one descriptor of the object, places it and collects lazily, with exactly the counters that change; ignores a saturated counter and an invalid clock, and never frees the object it refreshes |
| `Scm.DescriptorRoot.ScmGlobalRefresh` | scm.c:904-941 | the same for a global refresh, two slots later |
| `Scm.DescriptorRoot.ScmRefreshRegionWithClock` | scm.c:957-1010 | the same for a region: nothing for an invalid index, an invalid clock or a saturated counter; otherwise the region keeps its pages and objects whatever the collection at the end recycles |
| `Scm.DescriptorRoot.ScmGlobalRefreshRegion` | scm.c:1026-1058 | the same for a global refresh of a region |
| `Scm.DescriptorRoot.EagerCollect` | scm.c:786-791 | ends with both queues empty and the rings unchanged; every queued descriptor decremented its target exactly once, objects and regions at zero were freed and recycled |
| `Scm.DescriptorRoot.CollectObjects` | scm.c:787-788 | an object loses exactly as many counts as it was queued and is gone exactly if that was all of them and its finalizer returns 0 |
| `Scm.DescriptorRoot.CollectRegions` | scm.c:789-790 | a region loses exactly as many counts as it was queued; it is recycled exactly if that was all of them and keeps its pages and objects otherwise |
| `Conformance.StandsIsAccounted` | scm.c:868-873 | in every state of the system the counters meet what the calls demand of them, whatever other threads hold |
| `Conformance.TickPerforms` | scm.c:1092-1152 | a tick call is a tick step and the steps of its collection, and leads to the root and the counters that the code computes |
| `Conformance.GlobalTickPerforms` | scm.c:1172-1250 | an uninterrupted global tick call is its protocol steps, the cleaning of a zombie and the collection, in this order |
| `Conformance.RefreshPerforms` | scm.c:821-941 | a refresh call of an object, local or global, is counting, placing and collecting |
| `Conformance.RegionRefreshPerforms` | scm.c:957-1058 | the same for a region |
| `Conformance.RegistrationPerforms` | scm.c:446-509 | registering, unregistering and reusing a root are single steps |
| `Conformance.EagerCollectPerforms` | scm.c:786-791 | eager collection is one collection step per queued descriptor, and leaves behind exactly what the code does |
| `Conformance.MallocAndFreePerform` | scm.c:14-138 | allocating and freeing an object are single steps; a free succeeds exactly at counter zero |
| `Conformance.CallKeepsOther` | scm.c:821-1065 | a call of one thread leaves the roots and regions of every other thread as they are, with the new object counters |
| `Conformance.CallsCompose` | scm.c:821-1250 | any sequence of calls of any threads is one run of the system, which ends in a state that stands for all roots, counters and regions the calls leave behind |

## Left out

- bench/ and examples/, meter.c, debug.h and all statistics and debug output: no effect on the state modelled here.
- The redirection of a refresh from a region object's header to its region: the model starts at the object or at the region; both are modelled.
- The condition checks that `SCM_CHECK_CONDITIONS` compiles in: the model is the default build.
- Refreshing an object of another thread's region: the code looks the region up in the caller's own root, so regions belong to one root here.
- `__wrap_calloc`, `__wrap_realloc` and `__wrap_malloc_usable_size`: wrappers over an allocator whose usable sizes are unknown; `__wrap_malloc` and `__wrap_free` are steps of the system model.
- Ticking or refreshing with a clock that was never registered: its buffers have no slots and the code would take a remainder by zero, so these calls require slots.
- Allocation failure: the underlying malloc is taken to succeed.
- Interrupting a block or resume in the middle: both hold the lock from beginning to end and are one step each.
- Weak memory and concurrent refreshes racing at a counter of INT_MAX: steps are sequentially consistent and the check and the increment are one step.
- Finalizers that call back into the library, and the table of finalizers.
- Wrap-around of ages, of the global time and of the counts of threads: these are unbounded integers.
- pthread keys, once-control, thread-local storage and the list of terminated roots: registering and unregistering are steps on a pool of roots.
- Contents of region pages: clearing them is modelled only by its effect on the link to the next page.
- The bit mask of the size rounding: `Regions.RoundUp8` subtracts the remainder by 8.
