/** Planning block reads: `communication/modbus/RequestPlanner.cpp`. */
module RequestPlanner {
  import opened Lists
  import opened Registers

  /** Read Holding Registers (0x03) and Read Input Registers (0x04). */
  datatype FunctionCode = ReadHoldingRegisters | ReadInputRegisters

  datatype Request = Request(slaveId: int, code: FunctionCode, address: int, count: int)

  datatype RequestDescription = RequestDescription(request: Request, registers: seq<Register>)

  datatype Slave = Slave(name: string, id: int, inputRegisters: seq<Register>, outputRegisters: seq<Register>)

  predicate ByAddress(left: Register, right: Register) {
    left.address <= right.address
  }

  lemma ByAddressIsPreorder()
    ensures TotalPreorder(ByAddress)
  {
  }

  /** The address just past a register's last word. */
  function End(r: Register): int {
    r.address + Words(r)
  }

  function TotalWords(registers: seq<Register>): nat {
    if registers == [] then 0 else Words(registers[0]) + TotalWords(registers[1..])
  }

  lemma {:induction false} TotalWordsSplit(a: seq<Register>, b: seq<Register>)
    ensures TotalWords(a + b) == TotalWords(a) + TotalWords(b)
  {
    if a == [] {
      assert a + b == b;
    } else {
      TotalWordsSplit(a[1..], b);
      assert (a + b)[1..] == a[1..] + b;
    }
  }

  lemma TotalWordsAppend(a: seq<Register>, r: Register)
    ensures TotalWords(a + [r]) == TotalWords(a) + Words(r)
  {
    TotalWordsSplit(a, [r]);
    assert [r][1..] == [];
  }

  /** Each register starts where the one before it ends. */
  ghost predicate Contiguous(registers: seq<Register>) {
    forall i, j | 0 <= i < j < |registers| && j == i + 1 :: End(registers[i]) == registers[j].address
  }

  // ---------- The plan as a function of the sorted table ----------

  ghost function RunLength(registers: seq<Register>): (n: nat)
    ensures n <= |registers| && (registers != [] ==> n > 0)
  {
    if |registers| <= 1 || End(registers[0]) != registers[1].address then Min(|registers|, 1)
    else 1 + RunLength(registers[1..])
  }

  ghost function Describe(slaveId: int, code: FunctionCode, group: seq<Register>): RequestDescription
    requires group != []
  {
    RequestDescription(Request(slaveId, code, group[0].address, TotalWords(group)), group)
  }

  /** One block read for every maximal run of adjacent registers. */
  ghost function Plan(slaveId: int, code: FunctionCode, registers: seq<Register>): seq<RequestDescription> {
    if registers == [] then []
    else
      var n := RunLength(registers);
      [Describe(slaveId, code, registers[..n])] + Plan(slaveId, code, registers[n..])
  }

  lemma {:induction false} RunLengthIs(registers: seq<Register>, n: nat)
    requires 0 < n <= |registers|
    requires Contiguous(registers[..n])
    requires n < |registers| ==> End(registers[n - 1]) != registers[n].address
    ensures RunLength(registers) == n
  {
    if n > 1 {
      var p := registers[..n];
      assert End(p[0]) == p[1].address;
      var rest := registers[1..];
      assert rest[..n - 1] == p[1..];
      forall i | 0 <= i < n - 2 ensures End(p[1..][i]) == p[1..][i + 1].address {
        assert End(p[i + 1]) == p[i + 2].address;
      }
      RunLengthIs(rest, n - 1);
    }
  }

  lemma {:induction false} RunIsContiguous(registers: seq<Register>)
    ensures var n := RunLength(registers);
            && Contiguous(registers[..n])
            && (0 < n < |registers| ==> End(registers[n - 1]) != registers[n].address)
  {
    if |registers| > 1 && End(registers[0]) == registers[1].address {
      var n := RunLength(registers);
      RunIsContiguous(registers[1..]);
      assert registers[1..][..n - 1] == registers[..n][1..];
      forall i | 0 <= i < n - 1 ensures End(registers[..n][i]) == registers[..n][i + 1].address {
        if i > 0 {
          assert End(registers[1..][..n - 1][i - 1]) == registers[1..][..n - 1][i].address;
        }
      }
    }
  }

  // ---------- The plan partitions the table ----------

  /** All planned registers, in the order in which they will be read. */
  ghost function Flatten(plan: seq<RequestDescription>): seq<Register> {
    if plan == [] then [] else plan[0].registers + Flatten(plan[1..])
  }

  lemma {:induction false} FlattenSplit(p: seq<RequestDescription>, q: seq<RequestDescription>)
    ensures Flatten(p + q) == Flatten(p) + Flatten(q)
  {
    if p == [] {
      ConcatNothing(q);
      ConcatNothing(Flatten(q));
    } else {
      FlattenSplit(p[1..], q);
      assert p + q == [p[0]] + (p[1..] + q);
      DropFirst(p[0], p[1..] + q);
      ConcatAssociates(p[0].registers, Flatten(p[1..]), Flatten(q));
    }
  }

  /** The registers that a plan reads before its `j`-th request. */
  ghost function Before(plan: seq<RequestDescription>, j: nat): nat
    requires j <= |plan|
  {
    |Flatten(plan[..j])|
  }

  lemma FlattenOne(d: RequestDescription)
    ensures Flatten([d]) == d.registers
  {
    assert [d][1..] == [];
    ConcatNothing(d.registers);
  }

  lemma FlattenAt(plan: seq<RequestDescription>, j: nat)
    requires j < |plan|
    ensures Before(plan, j) + |plan[j].registers| == Before(plan, j + 1) <= |Flatten(plan)|
    ensures Flatten(plan)[Before(plan, j)..Before(plan, j + 1)] == plan[j].registers
  {
    var before, after := plan[..j], plan[j + 1..];
    assert plan[..j + 1] == before + [plan[j]];
    CutAt(plan, j + 1);
    FlattenSplit(plan[..j + 1], after);
    FlattenSplit(before, [plan[j]]);
    FlattenOne(plan[j]);
    MiddleOf(Flatten(before), plan[j].registers, Flatten(after));
  }

  lemma MiddleOf(a: seq<Register>, b: seq<Register>, c: seq<Register>)
    ensures ((a + b) + c)[|a|..|a + b|] == b
  {
  }

  ghost predicate GroupIsBlock(d: RequestDescription, slaveId: int, code: FunctionCode) {
    && d.registers != [] && Contiguous(d.registers)
    && d.request.slaveId == slaveId && d.request.code == code
    && d.request.address == d.registers[0].address
    && d.request.count == TotalWords(d.registers)
  }

  /** The second block does not start where the first one ends. */
  ghost predicate Apart(d: RequestDescription, e: RequestDescription) {
    d.registers != [] && e.registers != [] && End(d.registers[|d.registers| - 1]) != e.registers[0].address
  }

  /** Concatenated, the groups are the table; each group is one gapless block that starts at its
      request's address and is as long as the request asks; and no two neighbouring groups could
      have been one block. */
  ghost predicate Partitions(plan: seq<RequestDescription>, slaveId: int, code: FunctionCode, registers: seq<Register>) {
    && Flatten(plan) == registers
    && (forall d | d in plan :: GroupIsBlock(d, slaveId, code))
    && (forall i, j | 0 <= i < j < |plan| && j == i + 1 :: Apart(plan[i], plan[j]))
  }

  /** The plan partitions its sorted table into maximal blocks. */
  lemma {:induction false} PlanPartitions(slaveId: int, code: FunctionCode, registers: seq<Register>)
    ensures Partitions(Plan(slaveId, code, registers), slaveId, code, registers)
  {
    if registers != [] {
      var n := RunLength(registers);
      var rest := Plan(slaveId, code, registers[n..]);
      var first := Describe(slaveId, code, registers[..n]);
      PlanPartitions(slaveId, code, registers[n..]);
      RunIsContiguous(registers);
      CutAt(registers, n);
      assert rest != [] ==> rest[0].registers[0] == registers[n..][0];
      BlockInFront(first, rest, slaveId, code, registers[n..]);
    }
  }

  lemma BlockInFront(first: RequestDescription, rest: seq<RequestDescription>, slaveId: int, code: FunctionCode,
                     registers: seq<Register>)
    requires GroupIsBlock(first, slaveId, code) && Partitions(rest, slaveId, code, registers)
    requires rest != [] ==> Apart(first, rest[0])
    ensures Partitions([first] + rest, slaveId, code, first.registers + registers)
  {
    DropFirst(first, rest);
  }

  lemma PartitionTail(plan: seq<RequestDescription>, slaveId: int, code: FunctionCode, registers: seq<Register>)
    requires Partitions(plan, slaveId, code, registers) && plan != []
    ensures var n := |plan[0].registers|;
            && 0 < n <= |registers| && registers[..n] == plan[0].registers
            && Partitions(plan[1..], slaveId, code, registers[n..])
            && (n < |registers| ==> End(registers[n - 1]) != registers[n].address)
  {
    var n, rest := |plan[0].registers|, plan[1..];
    assert GroupIsBlock(plan[0], slaveId, code);
    DropAll(plan[0].registers, Flatten(rest));
    if n < |registers| {
      assert Apart(plan[0], plan[1]);
      assert registers[n..][0] == rest[0].registers[0];
    }
  }

  /** There is only one way to cut a table into maximal blocks. */
  lemma {:induction false} PartitionIsUnique(plan: seq<RequestDescription>, slaveId: int, code: FunctionCode, registers: seq<Register>)
    requires Partitions(plan, slaveId, code, registers)
    ensures plan == Plan(slaveId, code, registers)
  {
    if plan != [] {
      var n := |plan[0].registers|;
      PartitionTail(plan, slaveId, code, registers);
      assert GroupIsBlock(plan[0], slaveId, code);
      RunLengthIs(registers, n);
      PartitionIsUnique(plan[1..], slaveId, code, registers[n..]);
    }
  }

  // ---------- The planner ----------

  /** Register `i` continues the block of the one before it. */
  predicate Continues(registers: seq<Register>, i: nat)
    requires 0 < i < |registers|
  {
    End(registers[i - 1]) == registers[i].address
  }

  /** Registers `start` to `it` form a block, which register `it` continues unless the block is empty. */
  ghost predicate InBlock(registers: seq<Register>, start: nat, it: nat) {
    && start <= it <= |registers| && (start < it ==> it < |registers|)
    && forall i | start < i <= it && i < |registers| :: Continues(registers, i)
  }

  lemma BlockIsContiguous(registers: seq<Register>, start: nat, it: nat)
    requires InBlock(registers, start, it) && it < |registers|
    ensures Contiguous(registers[start..it + 1])
    ensures registers[start..it + 1] == registers[start..it] + [registers[it]]
  {
    var block := registers[start..it + 1];
    forall i, j | 0 <= i < j < |block| && j == i + 1 ensures End(block[i]) == block[j].address {
      assert Continues(registers, start + j);
    }
  }

  /** The `std::accumulate` over a group. */
  method CountWords(group: seq<Register>) returns (count: int)
    ensures count == TotalWords(group)
  {
    count := 0;
    for k := 0 to |group|
      invariant count == TotalWords(group[..k])
    {
      TotalWordsAppend(group[..k], group[k]);
      assert group[..k + 1] == group[..k] + [group[k]];
      count := |group[k].byteOrder| / 2 + count;
    }
    assert group[..|group|] == group;
  }

  /** The registers before `start` are planned, and those up to `it` are the group being built. */
  ghost predicate Progress(slaveId: int, code: FunctionCode, registers: seq<Register>, start: nat, it: nat,
                           group: seq<Register>, plan: seq<RequestDescription>) {
    && InBlock(registers, start, it)
    && group == registers[start..it]
    && (0 < start < |registers| ==> !Continues(registers, start))
    && Partitions(plan, slaveId, code, registers[..start])
  }

  lemma {:induction false} FlattenLast(plan: seq<RequestDescription>)
    requires plan != [] && plan[|plan| - 1].registers != []
    ensures var last := plan[|plan| - 1].registers;
            Flatten(plan) != [] && Flatten(plan)[|Flatten(plan)| - 1] == last[|last| - 1]
  {
    var n := |plan| - 1;
    FlattenSplit(plan[..n], [plan[n]]);
    FlattenOne(plan[n]);
    assert plan == plan[..n] + [plan[n]];
  }

  /** A block that does not continue the table makes one more group. */
  lemma BlockAtEnd(plan: seq<RequestDescription>, block: RequestDescription, slaveId: int, code: FunctionCode,
                   registers: seq<Register>)
    requires Partitions(plan, slaveId, code, registers) && GroupIsBlock(block, slaveId, code)
    requires registers != [] ==> End(registers[|registers| - 1]) != block.registers[0].address
    ensures Partitions(plan + [block], slaveId, code, registers + block.registers)
  {
    FlattenSplit(plan, [block]);
    FlattenOne(block);
    if plan != [] {
      assert GroupIsBlock(plan[|plan| - 1], slaveId, code);
      FlattenLast(plan);
    }
  }

  lemma ProgressContinues(slaveId: int, code: FunctionCode, registers: seq<Register>, start: nat, it: nat,
                          group: seq<Register>, plan: seq<RequestDescription>)
    requires Progress(slaveId, code, registers, start, it, group, plan)
    requires it + 1 < |registers| && End(registers[it]) == registers[it + 1].address
    ensures Progress(slaveId, code, registers, start, it + 1, group + [registers[it]], plan)
  {
    BlockIsContiguous(registers, start, it);
  }

  /** Closing the group with register `it` adds the request that was put together for it. */
  lemma ProgressCloses(slaveId: int, code: FunctionCode, registers: seq<Register>, start: nat, it: nat,
                       group: seq<Register>, plan: seq<RequestDescription>, closed: RequestDescription)
    requires Progress(slaveId, code, registers, start, it, group, plan) && it < |registers|
    requires it + 1 < |registers| ==> End(registers[it]) != registers[it + 1].address
    requires closed.registers == group + [registers[it]]
    requires closed.request == Request(slaveId, code, registers[start].address, TotalWords(closed.registers))
    ensures Progress(slaveId, code, registers, it + 1, it + 1, [], plan + [closed])
  {
    BlockIsContiguous(registers, start, it);
    assert GroupIsBlock(closed, slaveId, code);
    BlockAtEnd(plan, closed, slaveId, code, registers[..start]);
    assert registers[..it + 1] == registers[..start] + closed.registers;
  }

  /** The loop of the static `requestPlan`, over a table in address order. */
  method PlanSorted(slaveId: int, code: FunctionCode, registers: seq<Register>) returns (plan: seq<RequestDescription>)
    requires registers != []
    ensures plan == Plan(slaveId, code, registers)
  {
    plan := [];
    var address := registers[0].address;
    var group := [];
    ghost var start := 0;
    for it := 0 to |registers|
      invariant Progress(slaveId, code, registers, start, it, group, plan)
      invariant start < |registers| ==> address == registers[start].address
    {
      var next := group + [registers[it]];
      if it + 1 == |registers| || registers[it].address + |registers[it].byteOrder| / 2 != registers[it + 1].address {
        var rawRegisterCount := CountWords(next);
        var description := RequestDescription(Request(slaveId, code, address, rawRegisterCount), next);
        ProgressCloses(slaveId, code, registers, start, it, group, plan, description);
        plan := plan + [description];
        group := [];
        start := it + 1;
        if it + 1 != |registers| {
          address := registers[it + 1].address;
        }
      } else {
        ProgressContinues(slaveId, code, registers, start, it, group, plan);
        group := next;
      }
    }
    assert registers[..start] == registers;
    PartitionIsUnique(plan, slaveId, code, registers);
  }

  /** The static `requestPlan`, for one register table. */
  method PlanTable(slaveId: int, code: FunctionCode, table: seq<Register>) returns (plan: seq<RequestDescription>)
    ensures plan == Plan(slaveId, code, Sort(ByAddress, table))
  {
    var registers := Sort(ByAddress, table);
    if registers == [] {
      return [];
    }
    plan := PlanSorted(slaveId, code, registers);
  }

  ghost function SlavePlan(slave: Slave): seq<RequestDescription> {
    Plan(slave.id, ReadHoldingRegisters, Sort(ByAddress, slave.outputRegisters))
    + Plan(slave.id, ReadInputRegisters, Sort(ByAddress, slave.inputRegisters))
  }

  /** `requestPlan`: the holding table's reads, then the input table's, all of the slave itself. */
  method RequestPlan(slave: Slave) returns (plan: seq<RequestDescription>)
    ensures plan == SlavePlan(slave)
    ensures forall d | d in plan :: d.request.slaveId == slave.id
  {
    var descriptions1 := PlanTable(slave.id, ReadHoldingRegisters, slave.outputRegisters);
    var descriptions2 := PlanTable(slave.id, ReadInputRegisters, slave.inputRegisters);
    plan := descriptions1 + descriptions2;
    ghost var n := SlavePlanPartitions(slave);
  }

  /** A slave's requests all go to that slave; the first `n` of them read its output registers as
      holding registers, the others its input registers. */
  lemma SlavePlanPartitions(slave: Slave) returns (n: nat)
    ensures forall d | d in SlavePlan(slave) :: d.request.slaveId == slave.id
    ensures n <= |SlavePlan(slave)|
    ensures Partitions(SlavePlan(slave)[..n], slave.id, ReadHoldingRegisters, Sort(ByAddress, slave.outputRegisters))
    ensures Partitions(SlavePlan(slave)[n..], slave.id, ReadInputRegisters, Sort(ByAddress, slave.inputRegisters))
  {
    var holding := Plan(slave.id, ReadHoldingRegisters, Sort(ByAddress, slave.outputRegisters));
    var input := Plan(slave.id, ReadInputRegisters, Sort(ByAddress, slave.inputRegisters));
    n := |holding|;
    PlanPartitions(slave.id, ReadHoldingRegisters, Sort(ByAddress, slave.outputRegisters));
    PlanPartitions(slave.id, ReadInputRegisters, Sort(ByAddress, slave.inputRegisters));
    DropAll(holding, input);
    forall d: RequestDescription | d in holding + input ensures d.request.slaveId == slave.id {
      assert d in holding || d in input;
    }
  }

  // ---------- The order of reading ----------

  /** The order of reading is a stable sort by address: a permutation of the configured table, in
      address order, with registers that share an address left in their configured order. */
  lemma PlanIsStableSort(slaveId: int, code: FunctionCode, table: seq<Register>, address: int)
    ensures var read := Flatten(Plan(slaveId, code, Sort(ByAddress, table)));
            && SortedBy(ByAddress, read)
            && multiset(read) == multiset(table)
            && Filter((r: Register) => r.address == address, read) == Filter((r: Register) => r.address == address, table)
  {
    ByAddressIsPreorder();
    PlanPartitions(slaveId, code, Sort(ByAddress, table));
    SortCorrect(ByAddress, table);
    SortStable(ByAddress, table, (r: Register) => r.address == address);
  }

  /** The position, from a block's first word, of its `k`-th register. */
  lemma {:induction false} ContiguousOffset(registers: seq<Register>, k: nat)
    requires k < |registers| && Contiguous(registers)
    ensures registers[k].address == registers[0].address + TotalWords(registers[..k])
  {
    if k > 0 {
      ContiguousOffset(registers, k - 1);
      assert registers[..k] == registers[..k - 1] + [registers[k - 1]];
      TotalWordsAppend(registers[..k - 1], registers[k - 1]);
      assert End(registers[k - 1]) == registers[k].address;
    }
  }
}
