/** The planner reads exactly the configured words, in as few block reads as possible. */
module PlanOptimality {
  import opened Lists
  import opened Registers
  import opened RequestPlanner

  /** Any block read: `count` words from `start`. */
  datatype Read = Read(start: int, count: int)

  predicate Touches(read: Read, a: int) {
    read.start <= a < read.start + read.count
  }

  predicate Occupies(r: Register, a: int) {
    r.address <= a < End(r)
  }

  ghost predicate Configured(table: seq<Register>, a: int) {
    exists i | 0 <= i < |table| :: Occupies(table[i], a)
  }

  /** The word ranges of two registers do not meet. */
  predicate Disjoint(r: Register, s: Register) {
    End(r) <= s.address || End(s) <= r.address
  }

  ghost predicate NonOverlapping(table: seq<Register>) {
    && (forall i | 0 <= i < |table| :: Words(table[i]) > 0)
    && Pairwise(Disjoint, table)
  }

  ghost predicate Covers(blocks: seq<Read>, table: seq<Register>) {
    forall a | Configured(table, a) :: exists k :: 0 <= k < |blocks| && Touches(blocks[k], a)
  }

  ghost predicate StaysWithin(blocks: seq<Read>, table: seq<Register>) {
    forall k, a | 0 <= k < |blocks| && Touches(blocks[k], a) :: Configured(table, a)
  }

  /** The second read starts beyond the end of the first, with at least one word between. */
  predicate Ahead(first: Request, second: Request) {
    first.address + first.count < second.address
  }

  function ReadsOf(plan: seq<RequestDescription>): (blocks: seq<Read>)
    ensures |blocks| == |plan|
  {
    seq(|plan|, j requires 0 <= j < |plan| => Read(plan[j].request.address, plan[j].request.count))
  }

  lemma SortKeepsTable(table: seq<Register>)
    ensures SortedBy(ByAddress, Sort(ByAddress, table))
    ensures forall a :: Configured(Sort(ByAddress, table), a) <==> Configured(table, a)
    ensures NonOverlapping(table) ==> NonOverlapping(Sort(ByAddress, table))
  {
    ByAddressIsPreorder();
    SortCorrect(ByAddress, table);
    SortMembers(ByAddress, table);
    SortPairwise(ByAddress, Disjoint, table);
    var sorted := Sort(ByAddress, table);
    forall a ensures Configured(sorted, a) <==> Configured(table, a) {
      if i :| 0 <= i < |sorted| && Occupies(sorted[i], a) {
        assert sorted[i] in table;
      }
      if i :| 0 <= i < |table| && Occupies(table[i], a) {
        assert table[i] in sorted;
      }
    }
    forall i | NonOverlapping(table) && 0 <= i < |sorted| ensures Words(sorted[i]) > 0 {
      assert sorted[i] in table;
    }
  }

  /** In a sorted table without overlaps every register ends before all later ones start. */
  lemma EndsBefore(sorted: seq<Register>, i: nat, j: nat)
    requires SortedBy(ByAddress, sorted) && NonOverlapping(sorted)
    requires i < j < |sorted|
    ensures End(sorted[i]) <= sorted[j].address
  {
    assert ByAddress(sorted[i], sorted[j]) && Disjoint(sorted[i], sorted[j]);
  }

  // ---------- Exact coverage ----------

  /** A block's words are its registers' words. */
  lemma {:induction false} BlockWords(block: seq<Register>, a: int)
    requires block != [] && Contiguous(block)
    ensures block[0].address <= a < block[0].address + TotalWords(block) <==> Configured(block, a)
  {
    var rest := block[1..];
    if rest == [] {
      assert Configured(block, a) <==> Occupies(block[0], a);
    } else {
      assert End(block[0]) == block[1].address;
      BlockWords(rest, a);
      assert Configured(block, a) <==> Occupies(block[0], a) || Configured(rest, a) by {
        if i :| 0 <= i < |rest| && Occupies(rest[i], a) {
          assert Occupies(block[i + 1], a);
        }
        if i :| 0 <= i < |block| && Occupies(block[i], a) {
          assert i > 0 ==> Occupies(rest[i - 1], a);
        }
      }
    }
  }

  /** The `i`-th register of the `j`-th group, among all planned registers. */
  lemma FlattenIndex(plan: seq<RequestDescription>, j: nat, i: nat)
    requires j < |plan| && i < |plan[j].registers|
    ensures Before(plan, j) + i < |Flatten(plan)| && Flatten(plan)[Before(plan, j) + i] == plan[j].registers[i]
  {
    FlattenAt(plan, j);
    SliceIndex(Flatten(plan), Before(plan, j), Before(plan, j + 1), i);
  }

  lemma SliceIndex(s: seq<Register>, from: nat, to: nat, i: nat)
    requires from + i < to <= |s|
    ensures s[from..to][i] == s[from + i]
  {
  }

  /** A partition's reads touch every configured word. */
  lemma PartitionCovers(plan: seq<RequestDescription>, slaveId: int, code: FunctionCode, sorted: seq<Register>, a: int)
    requires Partitions(plan, slaveId, code, sorted) && Configured(sorted, a)
    ensures exists k :: 0 <= k < |plan| && Touches(ReadsOf(plan)[k], a)
  {
    var i :| 0 <= i < |sorted| && Occupies(sorted[i], a);
    var j := GroupOf(plan, i);
    FlattenAt(plan, j);
    var block := plan[j].registers;
    FlattenIndex(plan, j, i - Before(plan, j));
    assert GroupIsBlock(plan[j], slaveId, code);
    assert Occupies(block[i - Before(plan, j)], a);
    BlockWords(block, a);
    assert Touches(ReadsOf(plan)[j], a);
  }

  /** A partition's reads touch no other word. */
  lemma PartitionStaysWithin(plan: seq<RequestDescription>, slaveId: int, code: FunctionCode, sorted: seq<Register>,
                             k: nat, a: int)
    requires Partitions(plan, slaveId, code, sorted)
    requires k < |plan| && Touches(ReadsOf(plan)[k], a)
    ensures Configured(sorted, a)
  {
    var block := plan[k].registers;
    assert GroupIsBlock(plan[k], slaveId, code);
    BlockWords(block, a);
    var i :| 0 <= i < |block| && Occupies(block[i], a);
    FlattenIndex(plan, k, i);
  }

  /** The planned reads touch every configured word and no other word. */
  lemma PlanCoversExactly(slaveId: int, code: FunctionCode, table: seq<Register>)
    ensures var blocks := ReadsOf(Plan(slaveId, code, Sort(ByAddress, table)));
            Covers(blocks, table) && StaysWithin(blocks, table)
  {
    var sorted := Sort(ByAddress, table);
    var plan := Plan(slaveId, code, sorted);
    SortKeepsTable(table);
    PlanPartitions(slaveId, code, sorted);
    forall a | Configured(table, a) ensures exists k :: 0 <= k < |plan| && Touches(ReadsOf(plan)[k], a) {
      PartitionCovers(plan, slaveId, code, sorted, a);
    }
    forall k, a | 0 <= k < |plan| && Touches(ReadsOf(plan)[k], a) ensures Configured(table, a) {
      PartitionStaysWithin(plan, slaveId, code, sorted, k, a);
    }
  }

  /** The request that reads the `i`-th register. */
  lemma {:induction false} GroupOf(plan: seq<RequestDescription>, i: nat) returns (j: nat)
    requires i < |Flatten(plan)|
    ensures j < |plan| && Before(plan, j) <= i < Before(plan, j + 1)
  {
    var head := |plan[0].registers|;
    if i < head {
      j := 0;
    } else {
      var k := GroupOf(plan[1..], i - head);
      j := k + 1;
      assert plan[..j][1..] == plan[1..][..k];
      assert plan[..j + 1][1..] == plan[1..][..k + 1];
    }
  }

  // ---------- Optimality ----------

  /** The `j`-th request reads registers `Before(plan, j)` up to `Before(plan, j + 1)`. */
  lemma PlannedBlock(plan: seq<RequestDescription>, slaveId: int, code: FunctionCode, sorted: seq<Register>, j: nat)
    requires Partitions(plan, slaveId, code, sorted) && j < |plan|
    ensures var s, e := Before(plan, j), Before(plan, j + 1);
            && s < e <= |sorted|
            && plan[j].request.address == sorted[s].address
            && plan[j].request.address + plan[j].request.count == End(sorted[e - 1])
  {
    assert GroupIsBlock(plan[j], slaveId, code);
    BlockInTable(plan, j);
  }

  lemma BlockInTable(plan: seq<RequestDescription>, j: nat)
    requires j < |plan| && plan[j].registers != [] && Contiguous(plan[j].registers)
    ensures var block, s, e := plan[j].registers, Before(plan, j), Before(plan, j + 1);
            && s < e <= |Flatten(plan)|
            && block[0] == Flatten(plan)[s]
            && block[0].address + TotalWords(block) == End(Flatten(plan)[e - 1])
  {
    FlattenAt(plan, j);
    BlockEnd(plan[j].registers);
  }

  lemma BlockEnd(block: seq<Register>)
    requires block != [] && Contiguous(block)
    ensures block[0].address + TotalWords(block) == End(block[|block| - 1])
  {
    var last := |block| - 1;
    ContiguousOffset(block, last);
    TotalWordsAppend(block[..last], block[last]);
    assert block == block[..last] + [block[last]];
  }

  lemma PlannedGap(plan: seq<RequestDescription>, slaveId: int, code: FunctionCode, sorted: seq<Register>, j: nat)
    requires Partitions(plan, slaveId, code, sorted) && 0 < j < |plan|
    ensures var s := Before(plan, j);
            0 < s < |sorted| && End(sorted[s - 1]) != sorted[s].address
  {
    PlannedBlock(plan, slaveId, code, sorted, j - 1);
    PlannedBlock(plan, slaveId, code, sorted, j);
    BlocksApart(plan, slaveId, code, sorted, j - 1);
  }

  lemma BlocksApart(plan: seq<RequestDescription>, slaveId: int, code: FunctionCode, sorted: seq<Register>, j: nat)
    requires Partitions(plan, slaveId, code, sorted) && j + 1 < |plan|
    ensures plan[j].request.address + plan[j].request.count != plan[j + 1].request.address
  {
    assert GroupIsBlock(plan[j], slaveId, code) && GroupIsBlock(plan[j + 1], slaveId, code);
    assert Apart(plan[j], plan[j + 1]);
    BlockEnd(plan[j].registers);
  }

  /** If two neighbours of a sorted table do not touch, the word before the second is free. */
  lemma WordBeforeIsFree(sorted: seq<Register>, s: nat)
    requires SortedBy(ByAddress, sorted) && NonOverlapping(sorted)
    requires 0 < s < |sorted| && End(sorted[s - 1]) != sorted[s].address
    ensures !Configured(sorted, sorted[s].address - 1)
    ensures End(sorted[s - 1]) < sorted[s].address
  {
    EndsBefore(sorted, s - 1, s);
    forall i | 0 <= i < |sorted| ensures !Occupies(sorted[i], sorted[s].address - 1) {
      if i < s - 1 {
        EndsBefore(sorted, i, s - 1);
      } else if i > s {
        EndsBefore(sorted, s, i);
      }
    }
  }

  lemma FirstWordIsConfigured(table: seq<Register>, i: nat)
    requires i < |table| && Words(table[i]) > 0
    ensures Configured(table, table[i].address)
  {
    assert Occupies(table[i], table[i].address);
  }

  /** The word right before a planned block, other than the first, is not configured; the block's
      own first word is. */
  lemma BlockStartsAfterGap(plan: seq<RequestDescription>, slaveId: int, code: FunctionCode, sorted: seq<Register>, j: nat)
    requires Partitions(plan, slaveId, code, sorted) && j < |plan|
    requires SortedBy(ByAddress, sorted) && NonOverlapping(sorted)
    ensures Configured(sorted, plan[j].request.address)
    ensures j > 0 ==> !Configured(sorted, plan[j].request.address - 1)
  {
    PlannedBlock(plan, slaveId, code, sorted, j);
    FirstWordIsConfigured(sorted, Before(plan, j));
    if j > 0 {
      PlannedGap(plan, slaveId, code, sorted, j);
      WordBeforeIsFree(sorted, Before(plan, j));
    }
  }

  lemma EndsFarBefore(sorted: seq<Register>, e: nat, s: nat)
    requires SortedBy(ByAddress, sorted) && NonOverlapping(sorted)
    requires e < s < |sorted| && End(sorted[s - 1]) != sorted[s].address
    ensures End(sorted[e]) < sorted[s].address
  {
    WordBeforeIsFree(sorted, s);
    if e < s - 1 {
      EndsBefore(sorted, e, s - 1);
    }
  }

  lemma BlocksAscend(plan: seq<RequestDescription>, slaveId: int, code: FunctionCode, sorted: seq<Register>, i: nat, j: nat)
    requires Partitions(plan, slaveId, code, sorted) && i < j < |plan|
    requires SortedBy(ByAddress, sorted) && NonOverlapping(sorted)
    ensures Ahead(plan[i].request, plan[j].request)
  {
    PlannedBlock(plan, slaveId, code, sorted, i);
    PlannedBlock(plan, slaveId, code, sorted, j);
    PlannedGap(plan, slaveId, code, sorted, j);
    BeforeGrows(plan, i + 1, j);
    EndsFarBefore(sorted, Before(plan, i + 1) - 1, Before(plan, j));
  }

  lemma {:induction false} BeforeGrows(plan: seq<RequestDescription>, i: nat, j: nat)
    requires i <= j <= |plan|
    ensures Before(plan, i) <= Before(plan, j)
  {
    assert plan[..j] == plan[..i] + plan[i..j];
    FlattenSplit(plan[..i], plan[i..j]);
  }

  ghost function ReadTouching(blocks: seq<Read>, a: int): (k: int)
    requires exists k :: 0 <= k < |blocks| && Touches(blocks[k], a)
    ensures 0 <= k < |blocks| && Touches(blocks[k], a)
  {
    var k :| 0 <= k < |blocks| && Touches(blocks[k], a);
    k
  }

  /** A read that covers the first word of one block cannot also cover that of a later one. */
  lemma ReadStaysInBlock(read: Read, first: int, second: int, sorted: seq<Register>)
    requires first < second && Touches(read, first) && !Configured(sorted, second - 1)
    requires forall a | Touches(read, a) :: Configured(sorted, a)
    ensures !Touches(read, second)
  {
    assert !Touches(read, second - 1);
  }

  lemma PartitionIsOptimal(plan: seq<RequestDescription>, slaveId: int, code: FunctionCode, sorted: seq<Register>,
                           blocks: seq<Read>)
    requires Partitions(plan, slaveId, code, sorted)
    requires SortedBy(ByAddress, sorted) && NonOverlapping(sorted)
    requires Covers(blocks, sorted) && StaysWithin(blocks, sorted)
    ensures |plan| <= |blocks|
  {
    forall j | 0 <= j < |plan| ensures exists k :: 0 <= k < |blocks| && Touches(blocks[k], plan[j].request.address) {
      BlockStartsAfterGap(plan, slaveId, code, sorted, j);
    }
    var chosen := seq(|plan|, j requires 0 <= j < |plan| => ReadTouching(blocks, plan[j].request.address));
    forall i, j | 0 <= i < j < |plan| ensures chosen[i] != chosen[j] {
      BlocksAscend(plan, slaveId, code, sorted, i, j);
      BlockStartsAfterGap(plan, slaveId, code, sorted, j);
      assert plan[i].request.count >= 0 by { assert GroupIsBlock(plan[i], slaveId, code); }
      ReadStaysInBlock(blocks[chosen[i]], plan[i].request.address, plan[j].request.address, sorted);
    }
    Pigeonhole(chosen, |blocks|);
  }

  /** Without overlaps, planned reads leave a real gap between them. */
  lemma PlannedReadsLeaveGaps(slaveId: int, code: FunctionCode, table: seq<Register>)
    requires NonOverlapping(table)
    ensures var plan := Plan(slaveId, code, Sort(ByAddress, table));
            forall i, j | 0 <= i < j < |plan| :: Ahead(plan[i].request, plan[j].request)
  {
    var sorted := Sort(ByAddress, table);
    var plan := Plan(slaveId, code, sorted);
    SortKeepsTable(table);
    PlanPartitions(slaveId, code, sorted);
    forall i, j | 0 <= i < j < |plan| ensures Ahead(plan[i].request, plan[j].request) {
      BlocksAscend(plan, slaveId, code, sorted, i, j);
    }
  }

  /** No list of block reads that covers every configured word of a table and touches no other word
      is shorter than the plan. */
  lemma PlanIsOptimal(slaveId: int, code: FunctionCode, table: seq<Register>, blocks: seq<Read>)
    requires NonOverlapping(table)
    requires Covers(blocks, table) && StaysWithin(blocks, table)
    ensures |Plan(slaveId, code, Sort(ByAddress, table))| <= |blocks|
  {
    var sorted := Sort(ByAddress, table);
    SortKeepsTable(table);
    PlanPartitions(slaveId, code, sorted);
    PartitionIsOptimal(Plan(slaveId, code, sorted), slaveId, code, sorted, blocks);
  }
}
