/** alloc and expand as written, calling each other through get_page (kernel/libc/memory.c, kernel/cpu/paging/paging.c).
    A page table that expand finds missing is allocated from the very heap that is being expanded. */
module HeapReentry {
  import opened Frames
  import opened HeapModel
  import opened HeapOps
  import opened HeapLaws
  import opened HeapAlloc

  /** What kmalloc_ap asks of alloc for a page table. */
  const TABLE_NEED: int := 0x1000 + OVERHEAD

  /** The heap after a call, and all blocks it cut out, those for page tables included, in order. */
  datatype Ended = Ended(state: State, blocks: seq<Region>)

  /** alloc adds what it believes expand has added, counted from the end it saved before. */
  function GivenBytes(st: State, oldEnd: int): State {
    st.(regions := GrownRegions(st.regions, st.index, oldEnd, st.end - oldEnd), index := GrownIndex(st.index, oldEnd))
  }

  /** A call that ends after blocks have been cut out already. */
  function Then(blocks: seq<Region>, r: Option<Ended>): Option<Ended> {
    if r == None then None else Some(Ended(r.value.state, blocks + r.value.blocks))
  }

  lemma ThenNothing(r: Option<Ended>)
    ensures Then([], r) == r
  {
    if r.Some? { assert [] + r.value.blocks == r.value.blocks; }
  }

  /** alloc, with fuel for its nested calls; None when they have not all returned, or the index leads nowhere. */
  ghost function AllocAsWritten(st: State, need: int, align: bool, fuel: nat): (r: Option<Ended>)
    ensures r.Some? ==> r.value.blocks != []
    decreases fuel, 0, 0
  {
    var k := FirstFit(st.index, st.regions, need, align);
    if k < |st.index| then
      if Where(st.regions, st.index[k]) < |st.regions| then
        Some(Ended(Placed(st, k, need, align), [BlockOf(HoleAt(st, k), need, align)]))
      else None
    else if fuel == 0 then None
    else
      var e := ExpandAsWritten(st, st.end, st.start + NewLength(st, need), fuel - 1);
      if e == None then None
      else
        Then(e.value.blocks, AllocAsWritten(GivenBytes(e.value.state, st.end), need, align, fuel - 1))
  }

  /** The loop of expand from address a on. */
  ghost function ExpandAsWritten(st: State, a: int, target: int, fuel: nat): Option<Ended>
    decreases fuel, 1, target - a
  {
    if target <= a then Some(Ended(st.(end := target), []))
    else if HasTableAt(st.tables, a) then ExpandAsWritten(st, a + PAGE, target, fuel)
    else
      var t := AllocAsWritten(st, TABLE_NEED, true, fuel);
      if t == None then None
      else
        Then(t.value.blocks, ExpandAsWritten(WithTable(t.value.state, a), a + PAGE, target, fuel))
  }

  /** get_page finds the table of the page at address a. */
  ghost predicate HasTableAt(tables: set<nat>, a: int) {
    0 <= a && HasTable(tables, a / PAGE)
  }

  function WithTable(st: State, a: int): State {
    if a < 0 then st else st.(tables := st.tables + {a / PAGE / ENTRIES})
  }

  // ---- When expand calls alloc --------------------------------------------------------------------------------

  lemma FirstPagePresent(tables: set<nat>, a: int, target: int)
    requires 0 <= a < target && a % PAGE == 0
    ensures TablesPresent(tables, a, target) <==> HasTableAt(tables, a) && TablesPresent(tables, a + PAGE, target)
  {
    var n := a / PAGE;
    assert n * PAGE == a;
    if HasTableAt(tables, a) && TablesPresent(tables, a + PAGE, target) {
      forall p: nat | a <= p * PAGE < target ensures HasTable(tables, p) {
        assert p == n || a + PAGE <= p * PAGE;
      }
    }
  }

  /** expand calls alloc again if and only if some page it is about to back lacks its table; when it does not, it only
      moves the end. */
  lemma {:induction false} ExpandReenters(st: State, a: int, target: int, fuel: nat)
    requires 0 <= a && a % PAGE == 0
    ensures var r := ExpandAsWritten(st, a, target, fuel);
      && (TablesPresent(st.tables, a, target) ==> r == Some(Ended(st.(end := target), [])))
      && (r.Some? && r.value.blocks == [] ==> TablesPresent(st.tables, a, target))
    decreases target - a
  {
    if a < target {
      FirstPagePresent(st.tables, a, target);
      if HasTableAt(st.tables, a) {
        ExpandReenters(st, a + PAGE, target, fuel);
      } else {
        assert ExpandAsWritten(st, a, target, fuel) == None || ExpandAsWritten(st, a, target, fuel).value.blocks != [];
      }
    }
  }

  // ---- What follows -------------------------------------------------------------------------------------------

  /** What expand hands back to alloc. */
  ghost function Expanded(st: State, need: int, fuel: nat): Option<Ended> {
    ExpandAsWritten(st, st.end, st.start + NewLength(st, need), fuel)
  }

  lemma GrowingAlloc(st: State, need: int, align: bool, fuel: nat)
    requires FirstFit(st.index, st.regions, need, align) == |st.index| && 0 < fuel
    ensures var e := Expanded(st, need, fuel - 1);
      AllocAsWritten(st, need, align, fuel) ==
        if e == None then None
        else Then(e.value.blocks, AllocAsWritten(GivenBytes(e.value.state, st.end), need, align, fuel - 1))
  {
  }

  lemma NoFuel(st: State, need: int, align: bool)
    requires FirstFit(st.index, st.regions, need, align) == |st.index|
    ensures AllocAsWritten(st, need, align, 0) == None
  {
  }

  lemma ExpandedUnderGuard(st: State, need: int, fuel: nat)
    requires Wf(st) && GrowGuard(st, need)
    ensures var end := st.start + NewLength(st, need);
      && Expanded(st, need, fuel) == Some(Ended(st.(end := end), []))
      && GivenBytes(st.(end := end), st.end) == Grown(st, need)
  {
    ExpandReenters(st, st.end, st.start + NewLength(st, need), fuel);
  }

  /** A round of growing that calls no other alloc. */
  lemma GrowingAsModelled(st: State, need: int, align: bool, fuel: nat)
    requires Wf(st) && GrowGuard(st, need) && 0 < fuel
    requires FirstFit(st.index, st.regions, need, align) == |st.index|
    ensures AllocAsWritten(st, need, align, fuel) == AllocAsWritten(Grown(st, need), need, align, fuel - 1)
  {
    hide AllocAsWritten, ExpandAsWritten, NewLength, GrowGuard, Wf, FirstFit, GivenBytes, Grown;
    GrowingAlloc(st, need, align, fuel);
    ExpandedUnderGuard(st, need, fuel - 1);
    ThenNothing(AllocAsWritten(Grown(st, need), need, align, fuel - 1));
    assert Expanded(st, need, fuel - 1).value.blocks == [];
  }

  /** One block, and the heap that the model makes. */
  function Modelled(o: Outcome): Option<Ended> {
    Some(Ended(o.state, [o.block]))
  }

  lemma FittingAsModelled(st: State, need: int, align: bool, fuel: nat)
    requires AllocReady(st, need, align) && FirstFit(st.index, st.regions, need, align) < |st.index|
    ensures AllocAsWritten(st, need, align, fuel) == Modelled(AllocOutcome(st, need, align))
  {
    Found(st, need, align);
  }

  lemma ReadyAfterGrowing(st: State, need: int, align: bool)
    requires AllocReady(st, need, align) && FirstFit(st.index, st.regions, need, align) == |st.index|
    ensures GrowGuard(st, need) && AllocReady(Grown(st, need), need, align)
    ensures var o, p := AllocOutcome(st, need, align), AllocOutcome(Grown(st, need), need, align);
      Modelled(o) == Modelled(p) && o.rounds == p.rounds + 1
  {
    GrowingRound(st, need, align);
  }

  ghost predicate CallsNothing(st: State, need: int, align: bool, fuel: nat) {
    FirstFit(st.index, st.regions, need, align) < |st.index| || fuel == 0
  }

  ghost predicate AsModelled(st: State, need: int, align: bool, fuel: nat) {
    AllocReady(st, need, align) && AllocOutcome(st, need, align).rounds <= fuel ==>
      AllocAsWritten(st, need, align, fuel) == Modelled(AllocOutcome(st, need, align))
  }

  lemma OneRound(st: State, need: int, align: bool, fuel: nat)
    requires !CallsNothing(st, need, align, fuel)
    requires AsModelled(Grown(st, need), need, align, fuel - 1)
    ensures AsModelled(st, need, align, fuel)
  {
    if AllocReady(st, need, align) && AllocOutcome(st, need, align).rounds <= fuel {
      ReadyAfterGrowing(st, need, align);
      GrowingAsModelled(st, need, align, fuel);
    }
  }

  lemma LastRound(st: State, need: int, align: bool, fuel: nat)
    requires CallsNothing(st, need, align, fuel)
    ensures AsModelled(st, need, align, fuel)
  {
    if AllocReady(st, need, align) {
      if FirstFit(st.index, st.regions, need, align) < |st.index| {
        FittingAsModelled(st, need, align, fuel);
      } else {
        ReadyAfterGrowing(st, need, align);
      }
    }
  }

  lemma {:induction false} AllRounds(st: State, need: int, align: bool, fuel: nat)
    ensures AsModelled(st, need, align, fuel)
    decreases fuel
  {
    hide AsModelled, Grown;
    if CallsNothing(st, need, align, fuel) {
      LastRound(st, need, align, fuel);
    } else {
      AllRounds(Grown(st, need), need, align, fuel - 1);
      OneRound(st, need, align, fuel);
    }
  }

  /** Under the guards the code as written is the model: one block, and the same heap. */
  lemma AsWrittenIsModel(st: State, need: int, align: bool, fuel: nat)
    requires AllocReady(st, need, align) && AllocOutcome(st, need, align).rounds <= fuel
    ensures AllocAsWritten(st, need, align, fuel) == Modelled(AllocOutcome(st, need, align))
  {
    AllRounds(st, need, align, fuel);
  }

  // ---- One block, exactly -------------------------------------------------------------------------------------

  /** The same heap with other page tables. */
  function Tabled(st: State, tables: set<nat>): State {
    st.(tables := tables)
  }

  predicate IsOne(r: Option<Ended>) {
    r.Some? && |r.value.blocks| == 1
  }

  /** alloc as written returns, and has cut out one block only. */
  ghost predicate CutsOne(st: State, need: int, align: bool, fuel: nat) {
    IsOne(AllocAsWritten(st, need, align, fuel))
  }

  lemma ThenMore(blocks: seq<Region>, r: Option<Ended>)
    requires blocks != [] && (r.Some? ==> r.value.blocks != [])
    ensures !IsOne(Then(blocks, r))
  {
  }

  lemma ExpandedTables(st: State, need: int, fuel: nat)
    requires 0 <= st.end && st.end % PAGE == 0
    ensures var e := Expanded(st, need, fuel);
      e.Some? ==> (e.value.blocks == [] <==> TablesPresent(st.tables, st.end, st.start + NewLength(st, need)))
  {
    ExpandReenters(st, st.end, st.start + NewLength(st, need), fuel);
  }

  /** An expansion that misses a table leaves no request with one block. */
  lemma MissingCutsMore(st: State, need: int, align: bool, fuel: nat)
    requires 0 <= st.end && st.end % PAGE == 0 && FirstFit(st.index, st.regions, need, align) == |st.index|
    requires !TablesPresent(st.tables, st.end, st.start + NewLength(st, need))
    ensures !CutsOne(st, need, align, fuel)
  {
    hide AllocAsWritten, ExpandAsWritten, NewLength, TablesPresent;
    if fuel == 0 {
      NoFuel(st, need, align);
    } else {
      GrowingAlloc(st, need, align, fuel);
      ExpandedTables(st, need, fuel - 1);
      var e := Expanded(st, need, fuel - 1);
      if e.Some? {
        ThenMore(e.value.blocks, AllocAsWritten(GivenBytes(e.value.state, st.end), need, align, fuel - 1));
      }
    }
  }

  /** A growing request is ready if and only if the growth is sound and it is ready in the grown heap. */
  lemma ReadyGrows(st: State, need: int, align: bool)
    requires Wf(st) && OVERHEAD <= need && FirstFit(st.index, st.regions, need, align) == |st.index|
    ensures AllocReady(st, need, align) <==> GrowGuard(st, need) && AllocReady(Grown(st, need), need, align)
  {
    if GrowGuard(st, need) { GrownStep(st, need, align); }
  }

  lemma TabledGrows(st: State, tables: set<nat>, need: int)
    ensures Wf(Tabled(st, tables)) <==> Wf(st)
    ensures Grown(Tabled(st, tables), need) == Tabled(Grown(st, need), tables)
    ensures GrowGuard(Tabled(st, tables), need) && TablesPresent(st.tables, st.end, st.start + NewLength(st, need))
      ==> GrowGuard(st, need)
  {
  }

  /** What OneBlock says, for one amount of fuel. */
  ghost predicate OneIfReady(st: State, tables: set<nat>, need: int, align: bool, fuel: nat) {
    AllocReady(Tabled(st, tables), need, align) && AllocOutcome(Tabled(st, tables), need, align).rounds <= fuel ==>
      (CutsOne(st, need, align, fuel) <==> AllocReady(st, need, align))
  }

  lemma OneLastRound(st: State, tables: set<nat>, need: int, align: bool, fuel: nat)
    requires CallsNothing(st, need, align, fuel)
    ensures OneIfReady(st, tables, need, align, fuel)
  {
    if AllocReady(Tabled(st, tables), need, align) {
      TabledGrows(st, tables, need);
      if FirstFit(st.index, st.regions, need, align) < |st.index| {
        FittingAsModelled(st, need, align, fuel);
      } else {
        ReadyAfterGrowing(Tabled(st, tables), need, align);
      }
    }
  }

  lemma OneMoreRound(st: State, tables: set<nat>, need: int, align: bool, fuel: nat)
    requires !CallsNothing(st, need, align, fuel) && OneIfReady(Grown(st, need), tables, need, align, fuel - 1)
    ensures OneIfReady(st, tables, need, align, fuel)
  {
    if AllocReady(Tabled(st, tables), need, align) && AllocOutcome(Tabled(st, tables), need, align).rounds <= fuel {
      TabledGrows(st, tables, need);
      ReadyAfterGrowing(Tabled(st, tables), need, align);
      ReadyGrows(st, need, align);
      if TablesPresent(st.tables, st.end, st.start + NewLength(st, need)) {
        GrowingAsModelled(st, need, align, fuel);
      } else {
        MissingCutsMore(st, need, align, fuel);
      }
    }
  }

  lemma {:induction false} OneInAllRounds(st: State, tables: set<nat>, need: int, align: bool, fuel: nat)
    ensures OneIfReady(st, tables, need, align, fuel)
    decreases fuel
  {
    hide OneIfReady, Grown;
    if CallsNothing(st, need, align, fuel) {
      OneLastRound(st, tables, need, align, fuel);
    } else {
      OneInAllRounds(Grown(st, need), tables, need, align, fuel - 1);
      OneMoreRound(st, tables, need, align, fuel);
    }
  }

  /** A request that could be served if all tables were there cuts out one block only, if and only if every round of
      growing finds its tables; and then the code as written is the model. */
  lemma OneBlock(st: State, tables: set<nat>, need: int, align: bool, fuel: nat)
    requires AllocReady(Tabled(st, tables), need, align)
    requires AllocOutcome(Tabled(st, tables), need, align).rounds <= fuel
    ensures CutsOne(st, need, align, fuel) <==> AllocReady(st, need, align)
  {
    OneInAllRounds(st, tables, need, align, fuel);
  }

  // ---- The kernel's own heap ----------------------------------------------------------------------------------

  /** Behind the last page of that table. */
  const BOOT_TABLE_END: int := 0xC040_0000

  /** Of the tables above 3 GiB booting makes only the first, so the heap can grow up to its end and no further. */
  lemma BootTables(tables: set<nat>, lo: int, hi: int)
    requires BOOT_TABLE in tables && BOOT_TABLE + 1 !in tables
    requires BOOT_START <= lo < hi && lo % PAGE == 0 && hi % PAGE == 0 && lo <= BOOT_TABLE_END
    ensures TablesPresent(tables, lo, hi) <==> hi <= BOOT_TABLE_END
  {
    if hi <= BOOT_TABLE_END {
      forall n: nat | lo <= n * PAGE < hi ensures HasTable(tables, n) {
        assert n / ENTRIES == BOOT_TABLE;
      }
    } else {
      var n: nat := BOOT_TABLE_END / PAGE;
      assert lo <= n * PAGE < hi && !HasTable(tables, n);
    }
  }
}
