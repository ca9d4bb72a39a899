/** The checks that a configuration passes before it is used: `config/Config.cpp`. */
module Config {
  import opened Lists
  import opened Registers
  import opened RequestPlanner
  import PlanOptimality

  datatype Instance = Instance(name: string, min: int, max: int)

  /** `offset` is 1, the default, when the configuration sets none. */
  datatype Module = Module(name: string, offset: int, instances: seq<Instance>)

  const DEFAULT_OFFSET := 1

  datatype Fault =
    | NoSlaves | OverlappingRegisters | DuplicateRegisterNames | DuplicateSlaveIds | DuplicateSlaveNames
    | DuplicateModuleNames | DuplicateInstanceNames | DuplicateSentenceIds | OverlappingOffsets

  // ---------- Duplicates ----------

  predicate SameName(left: string, right: string) {
    left == right
  }

  predicate IdLe(left: int, right: int) {
    left <= right
  }

  predicate SameId(left: int, right: int) {
    left == right
  }

  /** Sorting by name and looking for equal neighbours rejects iff two names are equal. */
  lemma NameScanIsExact(names: seq<string>)
    ensures HasAdjacent(SameName, Sort(NameLe, names)) <==> !Distinct(names)
  {
    forall x, y ensures NameLe(x, y) || NameLe(y, x) { NameLeTotal(x, y); }
    forall x, y, z | NameLe(x, y) && NameLe(y, z) ensures NameLe(x, z) { NameLeTransitive(x, y, z); }
    forall x, y ensures SameName(x, y) <==> NameLe(x, y) && NameLe(y, x) {
      if x == y { NameLeReflexive(x); }
      if NameLe(x, y) && NameLe(y, x) { NameLeAntisymmetric(x, y); }
    }
    AdjacentScanFindsDuplicates(NameLe, SameName, names);
    assert (forall i, j | 0 <= i < j < |names| :: !SameName(names[i], names[j])) <==> Distinct(names);
  }

  lemma IdScanIsExact(ids: seq<int>)
    ensures HasAdjacent(SameId, Sort(IdLe, ids)) <==> !Distinct(ids)
  {
    AdjacentScanFindsDuplicates(IdLe, SameId, ids);
    assert (forall i, j | 0 <= i < j < |ids| :: !SameId(ids[i], ids[j])) <==> Distinct(ids);
  }

  function RegisterNames(registers: seq<Register>): seq<string> {
    seq(|registers|, i requires 0 <= i < |registers| => registers[i].name)
  }

  function SlaveNames(slaves: seq<Slave>): seq<string> {
    seq(|slaves|, i requires 0 <= i < |slaves| => slaves[i].name)
  }

  function SlaveIds(slaves: seq<Slave>): seq<int> {
    seq(|slaves|, i requires 0 <= i < |slaves| => slaves[i].id)
  }

  function ModuleNames(modules: seq<Module>): seq<string> {
    seq(|modules|, i requires 0 <= i < |modules| => modules[i].name)
  }

  function InstanceNames(instances: seq<Instance>): seq<string> {
    seq(|instances|, i requires 0 <= i < |instances| => instances[i].name)
  }

  /** No two registers of a slave, in whichever table, have the same name. */
  ghost predicate DistinctlyNamed(slave: Slave) {
    var registers := slave.inputRegisters + slave.outputRegisters;
    forall i, j | 0 <= i < j < |registers| :: registers[i].name != registers[j].name
  }

  lemma NamesOfRegisters(slave: Slave)
    ensures DistinctlyNamed(slave) <==> Distinct(RegisterNames(slave.inputRegisters + slave.outputRegisters))
  {
    var registers := slave.inputRegisters + slave.outputRegisters;
    assert forall i | 0 <= i < |registers| :: RegisterNames(registers)[i] == registers[i].name;
  }

  /** `checkDuplicateRegisterNames`: one name space per slave, across both tables. */
  method CheckDuplicateRegisterNames(slaves: seq<Slave>) returns (fault: Option<Fault>)
    ensures fault in {None, Some(DuplicateRegisterNames)}
    ensures fault == None <==> forall k | 0 <= k < |slaves| :: DistinctlyNamed(slaves[k])
  {
    for it := 0 to |slaves|
      invariant forall k | 0 <= k < it :: DistinctlyNamed(slaves[k])
    {
      var names := RegisterNames(slaves[it].inputRegisters + slaves[it].outputRegisters);
      NamesOfRegisters(slaves[it]);
      NameScanIsExact(names);
      if HasAdjacent(SameName, Sort(NameLe, names)) {
        return Some(DuplicateRegisterNames);
      }
    }
    return None;
  }

  /** `checkDuplicateSentenceIDs`. */
  method CheckDuplicateSentenceIds(ids: seq<string>) returns (fault: Option<Fault>)
    ensures fault == if Distinct(ids) then None else Some(DuplicateSentenceIds)
  {
    NameScanIsExact(ids);
    return if HasAdjacent(SameName, Sort(NameLe, ids)) then Some(DuplicateSentenceIds) else None;
  }

  // ---------- Register spacing ----------

  /** Where a signed address ends up when it meets a `size_t`. */
  function AsSizeT(x: int): nat {
    x % 0x1_0000_0000_0000_0000
  }

  /** `left` reaches into `right`, as the source compares neighbours in address order: the byte
      count is a `size_t`, so that both sides are compared unsigned. */
  predicate ReachesInto(left: Register, right: Register) {
    AsSizeT(left.address + |left.byteOrder| / 2) > AsSizeT(right.address)
  }

  /** Address zero lies between the end of the one register and the start of the other. */
  predicate StraddlesZero(left: Register, right: Register) {
    (End(left) < 0) != (right.address < 0)
  }

  ghost predicate AllParsed(table: seq<Register>) {
    forall r | r in table :: AsParsed(r)
  }

  /** What the neighbours of a table in address order have to do for it to be accepted: keep clear
      of each other, except around address zero, where it is the other way round. */
  ghost predicate SpacingAccepts(table: seq<Register>) {
    var t := Sort(ByAddress, table);
    forall i, j | 0 <= i < j < |t| && j == i + 1 :: PlanOptimality.Disjoint(t[i], t[j]) != StraddlesZero(t[i], t[j])
  }

  /** Some neighbours in address order share a word or not, across address zero or not. */
  ghost predicate HasNeighbours(table: seq<Register>, overlapping: bool, acrossZero: bool) {
    var t := Sort(ByAddress, table);
    exists i, j | 0 <= i < j < |t| && j == i + 1 ::
      PlanOptimality.Disjoint(t[i], t[j]) != overlapping && StraddlesZero(t[i], t[j]) == acrossZero
  }

  /** The comparison of neighbours is wrong exactly around address zero. */
  lemma ComparisonIsWrongAroundZero(left: Register, right: Register)
    requires AsParsed(left) && AsParsed(right) && ByAddress(left, right)
    ensures ReachesInto(left, right) == PlanOptimality.Disjoint(left, right) <==> StraddlesZero(left, right)
  {
  }

  lemma AddressesAwayFromZero(table: seq<Register>)
    requires forall r | r in table :: 0 <= r.address
    ensures !HasNeighbours(table, true, true) && !HasNeighbours(table, false, true)
  {
    ByAddressIsPreorder();
    SortMembers(ByAddress, table);
    var t := Sort(ByAddress, table);
    forall i, j | 0 <= i < j < |t| && j == i + 1 ensures !StraddlesZero(t[i], t[j]) {
      assert t[i] in table && t[j] in table;
    }
  }

  /** In address order, registers are pairwise disjoint iff neighbours are. */
  lemma NeighboursDecide(t: seq<Register>)
    requires SortedBy(ByAddress, t) && forall i | 0 <= i < |t| :: Words(t[i]) > 0
    ensures Pairwise(PlanOptimality.Disjoint, t)
            <==> forall i, j | 0 <= i < j < |t| && j == i + 1 :: PlanOptimality.Disjoint(t[i], t[j])
  {
    if forall i, j | 0 <= i < j < |t| && j == i + 1 :: PlanOptimality.Disjoint(t[i], t[j]) {
      forall i, j | 0 <= i < j < |t| ensures PlanOptimality.Disjoint(t[i], t[j]) {
        assert PlanOptimality.Disjoint(t[i], t[i + 1]) && ByAddress(t[i], t[i + 1]);
        assert i + 1 < j ==> ByAddress(t[i + 1], t[j]);
      }
    }
  }

  lemma ScanDecides(table: seq<Register>)
    requires AllParsed(table)
    ensures !HasAdjacent(ReachesInto, Sort(ByAddress, table)) <==> SpacingAccepts(table)
  {
    var t := Sort(ByAddress, table);
    ByAddressIsPreorder();
    SortCorrect(ByAddress, table);
    SortMembers(ByAddress, table);
    forall i, j | 0 <= i < j < |t| && j == i + 1
      ensures ReachesInto(t[i], t[j]) == PlanOptimality.Disjoint(t[i], t[j]) <==> StraddlesZero(t[i], t[j])
    {
      assert t[i] in table && t[j] in table && ByAddress(t[i], t[j]);
      ComparisonIsWrongAroundZero(t[i], t[j]);
    }
  }

  lemma OverlapIsBetweenNeighbours(table: seq<Register>)
    requires AllParsed(table)
    ensures var t := Sort(ByAddress, table);
            PlanOptimality.NonOverlapping(table)
            <==> forall i, j | 0 <= i < j < |t| && j == i + 1 :: PlanOptimality.Disjoint(t[i], t[j])
  {
    var t := Sort(ByAddress, table);
    ByAddressIsPreorder();
    SortCorrect(ByAddress, table);
    SortMembers(ByAddress, table);
    SortPairwise(ByAddress, PlanOptimality.Disjoint, table);
    assert forall r :: AsParsed(r) ==> Words(r) > 0;
    assert forall i | 0 <= i < |t| :: t[i] in table;
    assert forall i | 0 <= i < |table| :: table[i] in table;
    NeighboursDecide(t);
  }

  /** When the scan over a table sorted by address is right. It accepts iff no two registers,
      however far apart, share a word, except if the only overlaps between neighbours are across
      address zero, or if there is none and disjoint neighbours are across zero. In particular it is
      right for tables without negative addresses. */
  lemma SpacingScanIsExact(table: seq<Register>)
    requires AllParsed(table)
    ensures !HasAdjacent(ReachesInto, Sort(ByAddress, table)) <==> SpacingAccepts(table)
    ensures (SpacingAccepts(table) <==> PlanOptimality.NonOverlapping(table))
            <==> HasNeighbours(table, true, false) || (HasNeighbours(table, true, true) <==> HasNeighbours(table, false, true))
    ensures (forall r | r in table :: 0 <= r.address) ==> (SpacingAccepts(table) <==> PlanOptimality.NonOverlapping(table))
  {
    ScanDecides(table);
    OverlapIsBetweenNeighbours(table);
    if forall r | r in table :: 0 <= r.address {
      AddressesAwayFromZero(table);
    }
  }

  /** An overlap that is accepted and a sound table that is rejected, both around address zero. */
  lemma SpacingScanFailsAroundZero()
    ensures var long, short := Register("a", -2, STRAIGHT_8, Double), Register("b", -1, STRAIGHT_2, Int16);
            AllParsed([long, short]) && SpacingAccepts([long, short]) && !PlanOptimality.NonOverlapping([long, short])
    ensures var low, high := Register("a", -5, STRAIGHT_2, Int16), Register("b", 10, STRAIGHT_2, Int16);
            AllParsed([low, high]) && !SpacingAccepts([low, high]) && PlanOptimality.NonOverlapping([low, high])
  {
    var long, short := Register("a", -2, STRAIGHT_8, Double), Register("b", -1, STRAIGHT_2, Int16);
    var low, high := Register("a", -5, STRAIGHT_2, Int16), Register("b", 10, STRAIGHT_2, Int16);
    SortOfPair(long, short);
    SortOfPair(low, high);
    assert !PlanOptimality.Disjoint([long, short][0], [long, short][1]);
    assert StraddlesZero([low, high][0], [low, high][1]);
  }

  lemma SortOfPair(low: Register, high: Register)
    requires ByAddress(low, high)
    ensures Sort(ByAddress, [low, high]) == [low, high]
  {
    assert [low, high][1..] == [high] && [high][1..] == [];
    assert Sort(ByAddress, [high]) == [high];
  }

  ghost predicate SlavesParsed(slaves: seq<Slave>) {
    forall k | 0 <= k < |slaves| :: AllParsed(slaves[k].inputRegisters) && AllParsed(slaves[k].outputRegisters)
  }

  ghost predicate SpacingOf(slave: Slave) {
    SpacingAccepts(slave.inputRegisters) && SpacingAccepts(slave.outputRegisters)
  }

  ghost predicate NoOverlapIn(slave: Slave) {
    PlanOptimality.NonOverlapping(slave.inputRegisters) && PlanOptimality.NonOverlapping(slave.outputRegisters)
  }

  /** No register of the slave has a negative address. */
  ghost predicate NoNegativeAddress(slave: Slave) {
    forall r | r in slave.inputRegisters || r in slave.outputRegisters :: 0 <= r.address
  }

  lemma SpacingOfSlave(slave: Slave)
    requires AllParsed(slave.inputRegisters) && AllParsed(slave.outputRegisters)
    ensures SpacingOf(slave) <==> !HasAdjacent(ReachesInto, Sort(ByAddress, slave.inputRegisters))
                                  && !HasAdjacent(ReachesInto, Sort(ByAddress, slave.outputRegisters))
    ensures NoNegativeAddress(slave) ==> (SpacingOf(slave) <==> NoOverlapIn(slave))
  {
    SpacingScanIsExact(slave.inputRegisters);
    SpacingScanIsExact(slave.outputRegisters);
  }

  /** `checkRegisterAddressSpacing`: without negative addresses it accepts iff in both tables of
      every slave the registers are pairwise disjoint. */
  method CheckRegisterAddressSpacing(slaves: seq<Slave>) returns (fault: Option<Fault>)
    requires SlavesParsed(slaves)
    ensures fault in {None, Some(OverlappingRegisters)}
    ensures fault == None <==> forall k | 0 <= k < |slaves| :: SpacingOf(slaves[k])
    ensures (forall k | 0 <= k < |slaves| :: NoNegativeAddress(slaves[k])) ==>
              (fault == None <==> forall k | 0 <= k < |slaves| :: NoOverlapIn(slaves[k]))
  {
    forall k | 0 <= k < |slaves|
      ensures NoNegativeAddress(slaves[k]) ==> (SpacingOf(slaves[k]) <==> NoOverlapIn(slaves[k]))
    {
      SpacingOfSlave(slaves[k]);
    }
    for it := 0 to |slaves|
      invariant forall k | 0 <= k < it :: SpacingOf(slaves[k])
    {
      SpacingOfSlave(slaves[it]);
      if HasAdjacent(ReachesInto, Sort(ByAddress, slaves[it].inputRegisters)) {
        return Some(OverlappingRegisters);
      }
      if HasAdjacent(ReachesInto, Sort(ByAddress, slaves[it].outputRegisters)) {
        return Some(OverlappingRegisters);
      }
    }
    return None;
  }

  ghost predicate DistinctSlaveIds(slaves: seq<Slave>) {
    forall i, j | 0 <= i < j < |slaves| :: slaves[i].id != slaves[j].id
  }

  ghost predicate DistinctSlaveNames(slaves: seq<Slave>) {
    forall i, j | 0 <= i < j < |slaves| :: slaves[i].name != slaves[j].name
  }

  lemma SlavesAreDistinct(slaves: seq<Slave>)
    ensures DistinctSlaveIds(slaves) <==> Distinct(SlaveIds(slaves))
    ensures DistinctSlaveNames(slaves) <==> Distinct(SlaveNames(slaves))
  {
    assert forall i | 0 <= i < |slaves| :: SlaveIds(slaves)[i] == slaves[i].id;
    assert forall i | 0 <= i < |slaves| :: SlaveNames(slaves)[i] == slaves[i].name;
  }

  /** The checks of `parseModbus`: the first that fails decides. */
  method CheckModbus(slaves: seq<Slave>) returns (fault: Option<Fault>)
    requires SlavesParsed(slaves)
    ensures fault == Some(NoSlaves) <==> slaves == []
    ensures var spaced := forall k | 0 <= k < |slaves| :: SpacingOf(slaves[k]);
            var named := forall k | 0 <= k < |slaves| :: DistinctlyNamed(slaves[k]);
            slaves != [] ==>
              if !spaced then fault == Some(OverlappingRegisters)
              else if !named then fault == Some(DuplicateRegisterNames)
              else if !DistinctSlaveIds(slaves) then fault == Some(DuplicateSlaveIds)
              else if !DistinctSlaveNames(slaves) then fault == Some(DuplicateSlaveNames)
              else fault == None
    ensures (forall k | 0 <= k < |slaves| :: NoNegativeAddress(slaves[k])) ==>
              (fault == None <==>
                 && slaves != []
                 && (forall k | 0 <= k < |slaves| :: NoOverlapIn(slaves[k]) && DistinctlyNamed(slaves[k]))
                 && DistinctSlaveIds(slaves) && DistinctSlaveNames(slaves))
  {
    if slaves == [] { return Some(NoSlaves); }
    fault := CheckRegisterAddressSpacing(slaves);
    if fault.Some? { return; }
    fault := CheckDuplicateRegisterNames(slaves);
    if fault.Some? { return; }
    SlavesAreDistinct(slaves);
    IdScanIsExact(SlaveIds(slaves));
    if HasAdjacent(SameId, Sort(IdLe, SlaveIds(slaves))) { return Some(DuplicateSlaveIds); }
    NameScanIsExact(SlaveNames(slaves));
    if HasAdjacent(SameName, Sort(NameLe, SlaveNames(slaves))) { return Some(DuplicateSlaveNames); }
    return None;
  }

  // ---------- Wago offsets ----------

  /** The position just past a module's last instance. */
  function ModuleEnd(m: Module): int {
    m.offset + |m.instances|
  }

  predicate IsExplicit(m: Module) {
    m.offset != DEFAULT_OFFSET
  }

  predicate ModulesOk(modules: seq<Module>) {
    modules != [] && forall i | 0 <= i < |modules| :: modules[i].offset >= 1 && |modules[i].instances| > 0
  }

  /** `checkOverlappingOffsets`, which runs while unset offsets still hold the default. */
  method CheckOverlappingOffsets(modules: seq<Module>) returns (fault: Option<Fault>)
    requires modules != []
    ensures fault == if Accepted(modules) then None else Some(OverlappingOffsets)
    ensures fault.Some? <==> exists i | 0 < i < |modules| ::
              modules[i].offset != 1 && modules[i].offset < modules[i - 1].offset + |modules[i - 1].instances|
  {
    if |modules| == 1 { return None; }
    for it := 1 to |modules|
      invariant forall i | 0 < i < it && IsExplicit(modules[i]) :: RoomAfterPrevious(modules, i)
    {
      if modules[it].offset != DEFAULT_OFFSET {
        if modules[it].offset < modules[it - 1].offset + |modules[it - 1].instances| {
          return Some(OverlappingOffsets);
        }
      }
    }
    return None;
  }

  predicate Accepted(modules: seq<Module>) {
    forall i | 0 < i < |modules| && IsExplicit(modules[i]) :: RoomAfterPrevious(modules, i)
  }

  /** The configured offset of a module clears its predecessor's configured end. */
  predicate RoomAfterPrevious(modules: seq<Module>, i: nat)
    requires 0 < i < |modules|
  {
    modules[i].offset >= ModuleEnd(modules[i - 1])
  }

  /** The `i`-th module's final offset. */
  function FinalOffset(modules: seq<Module>, i: nat): int
    requires i < |modules|
  {
    if i == 0 || IsExplicit(modules[i]) then modules[i].offset
    else FinalOffset(modules, i - 1) + |modules[i - 1].instances|
  }

  /** `setOffsetValues`: fills in the unset offsets, in place. */
  method SetOffsetValues(modules: array<Module>)
    requires modules.Length > 0
    modifies modules
    ensures forall i | 0 <= i < modules.Length ::
              modules[i] == old(modules[i]).(offset := FinalOffset(old(modules[..]), i))
    ensures forall i | 0 < i < modules.Length ::
              modules[i].offset == if old(modules[i]).offset != 1 then old(modules[i]).offset
                                   else modules[i - 1].offset + |modules[i - 1].instances|
    ensures modules[0] == old(modules[0])
  {
    if modules.Length == 1 { return; }
    for it := 1 to modules.Length
      invariant forall i | 0 <= i < it :: modules[i] == old(modules[i]).(offset := FinalOffset(old(modules[..]), i))
      invariant forall i | it <= i < modules.Length :: modules[i] == old(modules[i])
    {
      if modules[it].offset == DEFAULT_OFFSET {
        var previous := modules[it - 1];
        modules[it] := modules[it].(offset := previous.offset + |previous.instances|);
      }
    }
  }

  ghost predicate DistinctModuleNames(modules: seq<Module>) {
    forall i, j | 0 <= i < j < |modules| :: modules[i].name != modules[j].name
  }

  ghost predicate DistinctInstanceNames(m: Module) {
    forall i, j | 0 <= i < j < |m.instances| :: m.instances[i].name != m.instances[j].name
  }

  lemma ModulesAreDistinct(modules: seq<Module>)
    ensures DistinctModuleNames(modules) <==> Distinct(ModuleNames(modules))
  {
    assert forall i | 0 <= i < |modules| :: ModuleNames(modules)[i] == modules[i].name;
  }

  lemma InstancesAreDistinct(m: Module)
    ensures DistinctInstanceNames(m) <==> Distinct(InstanceNames(m.instances))
  {
    assert forall i | 0 <= i < |m.instances| :: InstanceNames(m.instances)[i] == m.instances[i].name;
  }

  /** The checks of `parseWago`, in their order. */
  method CheckModules(modules: seq<Module>) returns (fault: Option<Fault>)
    requires modules != []
    ensures var instancesNamed := forall i | 0 <= i < |modules| :: DistinctInstanceNames(modules[i]);
            if !DistinctModuleNames(modules) then fault == Some(DuplicateModuleNames)
            else if !instancesNamed then fault == Some(DuplicateInstanceNames)
            else if !Accepted(modules) then fault == Some(OverlappingOffsets)
            else fault == None
  {
    ModulesAreDistinct(modules);
    NameScanIsExact(ModuleNames(modules));
    if HasAdjacent(SameName, Sort(NameLe, ModuleNames(modules))) { return Some(DuplicateModuleNames); }
    for it := 0 to |modules|
      invariant forall i | 0 <= i < it :: DistinctInstanceNames(modules[i])
    {
      InstancesAreDistinct(modules[it]);
      NameScanIsExact(InstanceNames(modules[it].instances));
      if HasAdjacent(SameName, Sort(NameLe, InstanceNames(modules[it].instances))) {
        return Some(DuplicateInstanceNames);
      }
    }
    fault := CheckOverlappingOffsets(modules);
  }

  /** The checks of `parseWago` and then the filling in of offsets. */
  method PrepareModules(modules: array<Module>) returns (fault: Option<Fault>)
    requires modules.Length > 0
    modifies modules
    ensures fault == None <==>
              && DistinctModuleNames(old(modules[..]))
              && (forall i | 0 <= i < modules.Length :: DistinctInstanceNames(old(modules[i])))
              && Accepted(old(modules[..]))
    ensures if fault == None
            then forall i | 0 <= i < modules.Length ::
                   modules[i] == old(modules[i]).(offset := FinalOffset(old(modules[..]), i))
            else modules[..] == old(modules[..])
  {
    fault := CheckModules(modules[..]);
    if fault == None {
      SetOffsetValues(modules);
    }
  }

  /** The instances of the modules from `a` up to `b`. */
  function InstancesBetween(modules: seq<Module>, a: nat, b: nat): nat
    requires a <= b <= |modules|
  {
    if a == b then 0 else InstancesBetween(modules, a, b - 1) + |modules[b - 1].instances|
  }

  /** A module whose offset does not depend on its predecessor. */
  predicate IsAnchor(modules: seq<Module>, a: nat)
    requires a < |modules|
  {
    a == 0 || IsExplicit(modules[a])
  }

  /** Every explicit offset leaves room for all modules since the anchor before it. */
  ghost predicate LeavesRoom(modules: seq<Module>) {
    forall a, i | 0 <= a < i < |modules| && IsAnchor(modules, a) && IsExplicit(modules[i])
                  && (forall k | a < k < i :: !IsExplicit(modules[k])) ::
      modules[i].offset >= modules[a].offset + InstancesBetween(modules, a, i)
  }

  /** Module `i`'s final instances end before module `j`'s start. */
  predicate EndsBefore(modules: seq<Module>, i: nat, j: nat)
    requires i < |modules| && j < |modules|
  {
    FinalOffset(modules, i) + |modules[i].instances| <= FinalOffset(modules, j)
  }

  predicate FollowsPrevious(modules: seq<Module>, k: nat)
    requires 0 < k < |modules|
  {
    EndsBefore(modules, k - 1, k)
  }

  /** The final instance ranges ascend without overlap. */
  ghost predicate LaidOut(modules: seq<Module>) {
    forall i, j | 0 <= i < j < |modules| :: EndsBefore(modules, i, j)
  }

  lemma {:induction false} OffsetFromAnchor(modules: seq<Module>, a: nat, k: nat)
    requires a <= k < |modules| && IsAnchor(modules, a)
    requires forall m | a < m <= k :: !IsExplicit(modules[m])
    ensures FinalOffset(modules, k) == modules[a].offset + InstancesBetween(modules, a, k)
  {
    if a < k {
      OffsetFromAnchor(modules, a, k - 1);
    }
  }

  lemma {:induction false} AnchorOf(modules: seq<Module>, k: nat) returns (a: nat)
    requires k < |modules|
    ensures a <= k && IsAnchor(modules, a) && forall m | a < m <= k :: !IsExplicit(modules[m])
  {
    if IsAnchor(modules, k) { a := k; } else { a := AnchorOf(modules, k - 1); }
  }

  lemma {:induction false} NeighboursSuffice(modules: seq<Module>, i: nat, j: nat)
    requires i < j < |modules| && ModulesOk(modules)
    requires forall k | 0 < k < |modules| :: FollowsPrevious(modules, k)
    ensures EndsBefore(modules, i, j)
  {
    assert FollowsPrevious(modules, j);
    if i + 1 < j {
      NeighboursSuffice(modules, i, j - 1);
    }
  }

  lemma LaidOutByNeighbours(modules: seq<Module>)
    requires ModulesOk(modules)
    ensures LaidOut(modules) <==> forall k | 0 < k < |modules| :: FollowsPrevious(modules, k)
  {
    if forall k | 0 < k < |modules| :: FollowsPrevious(modules, k) {
      forall i, j | 0 <= i < j < |modules| ensures EndsBefore(modules, i, j) {
        NeighboursSuffice(modules, i, j);
      }
    }
    forall k | LaidOut(modules) && 0 < k < |modules| ensures FollowsPrevious(modules, k) {
      assert EndsBefore(modules, k - 1, k);
    }
  }

  lemma RoomLaysOut(modules: seq<Module>)
    requires ModulesOk(modules) && LeavesRoom(modules)
    ensures LaidOut(modules)
  {
    forall k | 0 < k < |modules| ensures FollowsPrevious(modules, k) {
      if IsExplicit(modules[k]) {
        var a := AnchorOf(modules, k - 1);
        OffsetFromAnchor(modules, a, k - 1);
        assert InstancesBetween(modules, a, k) == InstancesBetween(modules, a, k - 1) + |modules[k - 1].instances|;
      }
    }
    LaidOutByNeighbours(modules);
  }

  lemma LayoutLeavesRoom(modules: seq<Module>, a: nat, i: nat)
    requires ModulesOk(modules) && LaidOut(modules)
    requires a < i < |modules| && IsAnchor(modules, a) && IsExplicit(modules[i])
    requires forall k | a < k < i :: !IsExplicit(modules[k])
    ensures modules[i].offset >= modules[a].offset + InstancesBetween(modules, a, i)
  {
    OffsetFromAnchor(modules, a, i - 1);
    assert EndsBefore(modules, i - 1, i);
  }

  /** Explicit modules stay where they were put, and a module without an explicit offset comes
      after all the instances since the anchor before it; the final instance ranges ascend and are
      disjoint iff every explicit offset leaves room for all the modules since that anchor. */
  lemma OffsetLayout(modules: seq<Module>)
    requires ModulesOk(modules)
    ensures LaidOut(modules) <==> LeavesRoom(modules)
    ensures forall a, i | 0 <= a <= i < |modules| && IsAnchor(modules, a) && (forall k | a < k <= i :: !IsExplicit(modules[k])) ::
              FinalOffset(modules, i) == modules[a].offset + InstancesBetween(modules, a, i)
  {
    if LeavesRoom(modules) {
      RoomLaysOut(modules);
    }
    if LaidOut(modules) {
      forall a, i | 0 <= a < i < |modules| && IsAnchor(modules, a) && IsExplicit(modules[i])
                    && (forall k | a < k < i :: !IsExplicit(modules[k]))
        ensures modules[i].offset >= modules[a].offset + InstancesBetween(modules, a, i)
      {
        LayoutLeavesRoom(modules, a, i);
      }
    }
    forall a, i | 0 <= a <= i < |modules| && IsAnchor(modules, a) && (forall k | a < k <= i :: !IsExplicit(modules[k]))
      ensures FinalOffset(modules, i) == modules[a].offset + InstancesBetween(modules, a, i)
    {
      OffsetFromAnchor(modules, a, i);
    }
  }

  /** Every explicit offset, other than the first module's, follows an anchor. */
  predicate ExplicitFollowAnchors(modules: seq<Module>) {
    forall i | 0 < i < |modules| && IsExplicit(modules[i]) :: IsAnchor(modules, i - 1)
  }

  lemma {:induction false} FinalAtLeastConfigured(modules: seq<Module>, i: nat)
    requires ModulesOk(modules) && i < |modules|
    ensures FinalOffset(modules, i) >= modules[i].offset
  {
    if i > 0 {
      FinalAtLeastConfigured(modules, i - 1);
    }
  }

  /** The overlap check never rejects a sound layout, and is exact when explicit offsets only
      follow anchors. */
  lemma AcceptedAgainstLayout(modules: seq<Module>)
    requires ModulesOk(modules)
    ensures LaidOut(modules) ==> Accepted(modules)
    ensures ExplicitFollowAnchors(modules) ==> (LaidOut(modules) <==> Accepted(modules))
  {
    LaidOutByNeighbours(modules);
    forall i | LaidOut(modules) && 0 < i < |modules| && IsExplicit(modules[i])
      ensures RoomAfterPrevious(modules, i)
    {
      FinalAtLeastConfigured(modules, i - 1);
      assert FollowsPrevious(modules, i);
    }
    forall k | ExplicitFollowAnchors(modules) && Accepted(modules) && 0 < k < |modules|
      ensures FollowsPrevious(modules, k)
    {
      assert IsExplicit(modules[k]) ==> RoomAfterPrevious(modules, k) && IsAnchor(modules, k - 1);
    }
  }

  /** Because the check runs before unset offsets are filled in, it accepts a list whose modules
      end up sharing instances. */
  lemma AcceptedButOverlapping()
    ensures var sensor := Instance("sensor", 0, 100);
            var modules := [Module("a", 1, [sensor, sensor]), Module("b", 1, [sensor]), Module("c", 2, [sensor])];
            ModulesOk(modules) && Accepted(modules) && !LaidOut(modules)
  {
    var sensor := Instance("sensor", 0, 100);
    var modules := [Module("a", 1, [sensor, sensor]), Module("b", 1, [sensor]), Module("c", 2, [sensor])];
    assert FinalOffset(modules, 0) == 1 && FinalOffset(modules, 1) == 3;
    assert modules[2].offset == 2 == FinalOffset(modules, 2);
    assert !EndsBefore(modules, 1, 2);
  }
}
