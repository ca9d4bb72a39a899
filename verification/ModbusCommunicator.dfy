/** Reading one slave: `communication/modbus/Communicator.cpp`, and what the whole read path
    means in terms of the slave's memory. */
module ModbusCommunicator {
  import opened Lists
  import opened Registers
  import opened RequestPlanner
  import opened ModbusInterpreter

  datatype Error = ModbusError(what: string) | OsError(what: string)

  datatype Data = Data(deviceName: string, fields: seq<Field>, error: Option<Error>)

  /** What comes back for one request: the response's words and the moment they arrived, or the
      exception that `Adapter::send` threw. */
  datatype Outcome = Response(words: seq<Word>, timestamp: int) | Thrown(error: Error)

  /** The bus answers the `k`-th request of a poll somehow; a response is never shorter than asked for. */
  ghost predicate AnswersInFull(bus: (nat, Request) -> Outcome) {
    forall k: nat, q: Request | bus(k, q).Response? :: q.count <= |bus(k, q).words|
  }

  ghost predicate Readable(plan: seq<RequestDescription>) {
    forall d | d in plan :: d.request.count == TotalWords(d.registers)
                            && forall r | r in d.registers :: WellFormed(r)
  }

  ghost predicate SlaveSupported(slave: Slave) {
    (forall r | r in slave.inputRegisters :: Supported(r.dtype)) && (forall r | r in slave.outputRegisters :: Supported(r.dtype))
  }

  ghost predicate SlaveWellFormed(slave: Slave) {
    (forall r | r in slave.inputRegisters :: WellFormed(r)) && (forall r | r in slave.outputRegisters :: WellFormed(r))
  }

  // ---------- Requests on their own ----------

  /** The request is answered and all its registers can be read. */
  ghost predicate Answered(d: RequestDescription, outcome: Outcome) {
    outcome.Response? && AllSupported(d.registers)
  }

  /** Why a request fails: what the adapter threw, or a type that cannot be read. */
  ghost predicate FailsWith(d: RequestDescription, outcome: Outcome, error: Error) {
    match outcome
    case Thrown(thrown) => error == thrown
    case Response(_, _) => !AllSupported(d.registers) && error == ModbusError("Modbus - Unsupported type!")
  }

  /** The field is the `i`-th register of the request: named after it, stamped with the answer's
      arrival and decoded from the register's own words of the answer. */
  ghost predicate IsFieldOf(field: Field, d: RequestDescription, outcome: Outcome, i: nat)
    requires outcome.Response? && TotalWords(d.registers) <= |outcome.words| && i < |d.registers|
  {
    && WellFormed(d.registers[i])
    && field == Field(d.registers[i].name, outcome.timestamp,
                      DecodeRegister(d.registers[i], Slice(outcome.words, d.registers, i)))
  }

  /** `fields` are the request's registers, in order. */
  ghost predicate AreFieldsOf(fields: seq<Field>, d: RequestDescription, outcome: Outcome) {
    && outcome.Response? && TotalWords(d.registers) <= |outcome.words| && |fields| == |d.registers|
    && forall i | 0 <= i < |fields| :: IsFieldOf(fields[i], d, outcome, i)
  }

  /** The fields of the first `n` requests of a poll, one request after the other. */
  ghost predicate ArePollFields(fields: seq<Field>, plan: seq<RequestDescription>, bus: (nat, Request) -> Outcome, n: nat) {
    exists parts: seq<seq<Field>> :: fields == Concat(parts) && |parts| == n && ArePartsOf(parts, plan, bus, 0)
  }

  /** The `i`-th part are the fields of the `i`-th request, which is the bus's `k + i`-th. */
  ghost predicate ArePartsOf(parts: seq<seq<Field>>, plan: seq<RequestDescription>, bus: (nat, Request) -> Outcome, k: nat) {
    parts == [] ||
    var n := |parts| - 1;
    n < |plan| && ArePartsOf(parts[..n], plan, bus, k) && IsPartOf(parts[n], plan[n], bus, k + n)
  }

  ghost predicate IsPartOf(part: seq<Field>, d: RequestDescription, bus: (nat, Request) -> Outcome, k: nat) {
    Answered(d, bus(k, d.request)) && AreFieldsOf(part, d, bus(k, d.request))
  }

  lemma {:induction false} PartsAnswered(parts: seq<seq<Field>>, plan: seq<RequestDescription>,
                                         bus: (nat, Request) -> Outcome, i: nat)
    requires ArePartsOf(parts, plan, bus, 0) && i < |parts|
    ensures i < |plan| && Answered(plan[i], bus(i, plan[i].request))
  {
    if i < |parts| - 1 {
      PartsAnswered(parts[..|parts| - 1], plan, bus, i);
    }
  }

  lemma PollAnswered(fields: seq<Field>, plan: seq<RequestDescription>, bus: (nat, Request) -> Outcome, n: nat)
    requires ArePollFields(fields, plan, bus, n) && n <= |plan|
    ensures forall i | 0 <= i < n :: Answered(plan[i], bus(i, plan[i].request))
  {
    var parts :| fields == Concat(parts) && |parts| == n && ArePartsOf(parts, plan, bus, 0);
    forall i | 0 <= i < n ensures Answered(plan[i], bus(i, plan[i].request)) {
      PartsAnswered(parts, plan, bus, i);
    }
  }

  lemma SlavePlanIsReadable(slave: Slave)
    requires SlaveWellFormed(slave)
    ensures Readable(SlavePlan(slave))
  {
    TablePlanIsReadable(slave.id, ReadHoldingRegisters, slave.outputRegisters);
    TablePlanIsReadable(slave.id, ReadInputRegisters, slave.inputRegisters);
  }

  lemma TablePlanIsReadable(slaveId: int, code: FunctionCode, table: seq<Register>)
    requires forall r | r in table :: WellFormed(r)
    ensures Readable(Plan(slaveId, code, Sort(ByAddress, table)))
  {
    TablePlanKeepsRegisters(slaveId, code, table);
  }

  /** Every planned group is a block of the table's registers. */
  lemma TablePlanKeepsRegisters(slaveId: int, code: FunctionCode, table: seq<Register>)
    ensures forall d | d in Plan(slaveId, code, Sort(ByAddress, table)) ::
              GroupIsBlock(d, slaveId, code) && forall r | r in d.registers :: r in table
  {
    var sorted := Sort(ByAddress, table);
    var plan := Plan(slaveId, code, sorted);
    ByAddressIsPreorder();
    SortMembers(ByAddress, table);
    PlanPartitions(slaveId, code, sorted);
    forall d | d in plan ensures forall r | r in d.registers :: r in table {
      var j :| 0 <= j < |plan| && plan[j] == d;
      FlattenAt(plan, j);
      forall r | r in d.registers ensures r in table {
        assert r in sorted[Before(plan, j)..Before(plan, j + 1)];
      }
    }
  }

  /** Sending one request and interpreting what comes back, inside the `try` block. */
  method RequestBlock(d: RequestDescription, outcome: Outcome) returns (r: Result<seq<Field>, Error>)
    requires forall r | r in d.registers :: WellFormed(r)
    requires outcome.Response? ==> TotalWords(d.registers) <= |outcome.words|
    ensures r.Success? <==> Answered(d, outcome)
    ensures r.Success? ==> AreFieldsOf(r.value, d, outcome)
    ensures r.Failure? ==> FailsWith(d, outcome, r.error)
  {
    if outcome.Thrown? {
      return Failure(outcome.error);
    }
    var fields := Parse(outcome.words, d.registers, outcome.timestamp);
    if fields.Failure? {
      return Failure(ModbusError(WhatOf(fields.error)));
    }
    return Success(fields.value);
  }

  function WhatOf(error: InterpreterError): string {
    match error
    case CountMismatch => "Modbus - Config register and input register count mismatch!"
    case UnsupportedType => "Modbus - Unsupported type!"
  }

  lemma PollStarts(plan: seq<RequestDescription>, bus: (nat, Request) -> Outcome)
    ensures ArePollFields([], plan, bus, 0)
  {
    var parts: seq<seq<Field>> := [];
    assert Concat(parts) == [] && ArePartsOf(parts, plan, bus, 0);
  }

  lemma PollGrows(fields: seq<Field>, plan: seq<RequestDescription>, bus: (nat, Request) -> Outcome, n: nat, part: seq<Field>)
    requires n < |plan| && ArePollFields(fields, plan, bus, n) && IsPartOf(part, plan[n], bus, n)
    ensures ArePollFields(fields + part, plan, bus, n + 1)
  {
    var parts :| fields == Concat(parts) && |parts| == n && ArePartsOf(parts, plan, bus, 0);
    ConcatAppend(parts, part);
    PartsGrow(parts, plan, bus, part);
  }

  lemma PartsGrow(parts: seq<seq<Field>>, plan: seq<RequestDescription>, bus: (nat, Request) -> Outcome, part: seq<Field>)
    requires |parts| < |plan| && ArePartsOf(parts, plan, bus, 0) && IsPartOf(part, plan[|parts|], bus, |parts|)
    ensures ArePartsOf(parts + [part], plan, bus, 0)
  {
    DropLast(parts, part);
  }

  /** The `n`-th request is the first that fails, and fails with `error`. */
  ghost predicate FailsFirst(plan: seq<RequestDescription>, bus: (nat, Request) -> Outcome, n: nat, error: Error) {
    && n < |plan| && FailsWith(plan[n], bus(n, plan[n].request), error)
    && forall i | 0 <= i < n :: Answered(plan[i], bus(i, plan[i].request))
  }

  /** The `try` block and its handlers, for a plan. */
  method PollPlan(name: string, plan: seq<RequestDescription>, bus: (nat, Request) -> Outcome) returns (data: Data)
    requires Readable(plan) && AnswersInFull(bus)
    ensures data.deviceName == name
    ensures data.error.None? ==> forall i | 0 <= i < |plan| :: Answered(plan[i], bus(i, plan[i].request))
    ensures data.error.None? ==> ArePollFields(data.fields, plan, bus, |plan|)
    ensures data.error.Some? ==> data.fields == [] && exists n :: FailsFirst(plan, bus, n, data.error.value)
  {
    data := Data(name, [], None);
    PollStarts(plan, bus);
    for k := 0 to |plan|
      invariant data.error == None && data.deviceName == name
      invariant ArePollFields(data.fields, plan, bus, k)
    {
      assert plan[k] in plan;
      var fields := RequestBlock(plan[k], bus(k, plan[k].request));
      if fields.Failure? {
        PollAnswered(data.fields, plan, bus, k);
        assert FailsFirst(plan, bus, k, fields.error);
        return Data(name, [], Some(fields.error));
      }
      PollGrows(data.fields, plan, bus, k, fields.value);
      data := data.(fields := data.fields + fields.value);
    }
    PollAnswered(data.fields, plan, bus, |plan|);
  }

  /** `Communicator::request`. It succeeds iff every planned request does on its own, and then
      carries the fields of all of them in order; otherwise it carries the error of the first one
      that does not, and no field at all. On a bus that reads the memories of slaves, the fields are
      what reading each register of the slave on its own would give. */
  method RequestSlave(slave: Slave, bus: (nat, Request) -> Outcome) returns (data: Data)
    requires SlaveWellFormed(slave) && AnswersInFull(bus)
    ensures data.deviceName == slave.name
    ensures var plan := SlavePlan(slave);
            data.error.None? <==>
              forall i | 0 <= i < |plan| :: bus(i, plan[i].request).Response? && AllSupported(plan[i].registers)
    ensures data.error.None? ==> ArePollFields(data.fields, SlavePlan(slave), bus, |SlavePlan(slave)|)
    ensures data.error.None? ==>
              forall f | f in data.fields :: exists k: nat :: IsArrivalOf(f, SlavePlan(slave), bus, k)
    ensures var plan := SlavePlan(slave);
            data.error.Some? ==>
              && data.fields == []
              && exists n | 0 <= n < |plan| ::
                   && (if bus(n, plan[n].request).Thrown? then data.error.value == bus(n, plan[n].request).error
                       else !AllSupported(plan[n].registers) && data.error.value == ModbusError("Modbus - Unsupported type!"))
                   && forall i | 0 <= i < n :: bus(i, plan[i].request).Response? && AllSupported(plan[i].registers)
    ensures forall memories, clock | ReadsMemory(bus, memories, clock) && SlaveSupported(slave) ::
              data.error == None && MeansSlave(data.fields, slave, memories(slave.id))
  {
    SlavePlanIsReadable(slave);
    var plan := RequestPlan(slave);
    data := PollPlan(slave.name, plan, bus);
    PollMeansSlave(slave, bus, data);
    if data.error.None? {
      PollArrivals(data.fields, plan, bus);
    } else {
      assert exists n :: FailsFirst(plan, bus, n, data.error.value);
    }
  }

  /** The field is stamped with the arrival of the `k`-th answer, which was for a register of its name. */
  ghost predicate IsArrivalOf(f: Field, plan: seq<RequestDescription>, bus: (nat, Request) -> Outcome, k: nat) {
    && k < |plan| && bus(k, plan[k].request).Response? && f.timestamp == bus(k, plan[k].request).timestamp
    && exists r :: r in plan[k].registers && r.name == f.name
  }

  lemma {:induction false} PartsArrive(parts: seq<seq<Field>>, plan: seq<RequestDescription>,
                                       bus: (nat, Request) -> Outcome, f: Field) returns (k: nat)
    requires ArePartsOf(parts, plan, bus, 0) && f in Concat(parts)
    ensures IsArrivalOf(f, plan, bus, k)
  {
    var n := |parts| - 1;
    if f in Concat(parts[..n]) {
      k := PartsArrive(parts[..n], plan, bus, f);
    } else {
      k := n;
      PartArrives(parts[n], plan, bus, f, n);
    }
  }

  lemma PartArrives(part: seq<Field>, plan: seq<RequestDescription>, bus: (nat, Request) -> Outcome, f: Field, k: nat)
    requires k < |plan| && IsPartOf(part, plan[k], bus, k) && f in part
    ensures IsArrivalOf(f, plan, bus, k)
  {
    var i :| 0 <= i < |part| && part[i] == f;
    assert IsFieldOf(part[i], plan[k], bus(k, plan[k].request), i);
    assert plan[k].registers[i] in plan[k].registers;
  }

  lemma PollArrivals(fields: seq<Field>, plan: seq<RequestDescription>, bus: (nat, Request) -> Outcome)
    requires ArePollFields(fields, plan, bus, |plan|)
    ensures forall f | f in fields :: exists k: nat :: IsArrivalOf(f, plan, bus, k)
  {
    var parts :| fields == Concat(parts) && |parts| == |plan| && ArePartsOf(parts, plan, bus, 0);
    forall f | f in fields ensures exists k: nat :: IsArrivalOf(f, plan, bus, k) {
      var k := PartsArrive(parts, plan, bus, f);
    }
  }

  /** On a bus that reads the memories of slaves, every poll of a slave that can be read succeeds
      and gives the slave's meaning. */
  lemma PollMeansSlave(slave: Slave, bus: (nat, Request) -> Outcome, data: Data)
    requires SlaveWellFormed(slave)
    requires if data.error.None? then ArePollFields(data.fields, SlavePlan(slave), bus, |SlavePlan(slave)|)
             else exists n :: FailsFirst(SlavePlan(slave), bus, n, data.error.value)
    ensures forall memories, clock | ReadsMemory(bus, memories, clock) && SlaveSupported(slave) ::
              data.error == None && MeansSlave(data.fields, slave, memories(slave.id))
  {
    forall memories, clock | ReadsMemory(bus, memories, clock) && SlaveSupported(slave)
      ensures data.error == None && MeansSlave(data.fields, slave, memories(slave.id))
    {
      if data.error.None? {
        BatchedReadingPreservesMeaning(slave, bus, memories, clock, data.fields);
      } else {
        var n: nat :| FailsFirst(SlavePlan(slave), bus, n, data.error.value);
        AnswersFromMemory(slave, bus, memories, clock, n);
      }
    }
  }

  lemma SlavePlanSupported(slave: Slave, k: nat)
    requires SlaveSupported(slave) && k < |SlavePlan(slave)|
    ensures AllSupported(SlavePlan(slave)[k].registers) && SlavePlan(slave)[k].request.count >= 0
  {
    TablePlanKeepsRegisters(slave.id, ReadHoldingRegisters, slave.outputRegisters);
    TablePlanKeepsRegisters(slave.id, ReadInputRegisters, slave.inputRegisters);
    var holding := Plan(slave.id, ReadHoldingRegisters, Sort(ByAddress, slave.outputRegisters));
    var input := Plan(slave.id, ReadInputRegisters, Sort(ByAddress, slave.inputRegisters));
    var d := (holding + input)[k];
    assert d in holding || d in input;
    forall i | 0 <= i < |d.registers| ensures Supported(d.registers[i].dtype) {
      assert d.registers[i] in d.registers;
    }
  }

  lemma AnswersFromMemory(slave: Slave, bus: (nat, Request) -> Outcome, memories: int -> Memory, clock: nat -> int, n: nat)
    requires SlaveSupported(slave) && ReadsMemory(bus, memories, clock) && n < |SlavePlan(slave)|
    ensures var d := SlavePlan(slave)[n]; forall error :: !FailsWith(d, bus(n, d.request), error)
  {
    SlavePlanSupported(slave, n);
    assert bus(n, SlavePlan(slave)[n].request).Response?;
  }

  // ---------- Meaning in terms of the slave's memory ----------

  /** The two register tables of a slave. */
  datatype Memory = Memory(holding: int -> Word, input: int -> Word)

  function Table(memory: Memory, code: FunctionCode): int -> Word {
    match code
    case ReadHoldingRegisters => memory.holding
    case ReadInputRegisters => memory.input
  }

  function WordsAt(table: int -> Word, address: int, count: nat): (words: seq<Word>)
    ensures |words| == count
  {
    seq(count, i => table(address + i))
  }

  /** The bus that block-reads the memory of whichever slave a request addresses, answering the
      `k`-th request at `clock(k)`. */
  ghost predicate ReadsMemory(bus: (nat, Request) -> Outcome, memories: int -> Memory, clock: nat -> int) {
    forall k: nat, q: Request | 0 <= q.count ::
      bus(k, q) == Response(WordsAt(Table(memories(q.slaveId), q.code), q.address, q.count), clock(k))
  }

  /** A register read on its own, straight from its table. */
  function Meaning(r: Register, table: int -> Word): Value
    requires WellFormed(r)
  {
    DecodeRegister(r, WordsAt(table, r.address, Words(r)))
  }

  /** `fields` are exactly the registers, in order, each with its own meaning. */
  ghost predicate Means(fields: seq<Field>, registers: seq<Register>, table: int -> Word) {
    && |fields| == |registers|
    && forall k | 0 <= k < |registers| ::
         WellFormed(registers[k]) && fields[k].name == registers[k].name && fields[k].value == Meaning(registers[k], table)
  }

  lemma MeansAppend(f: seq<Field>, g: seq<Field>, p: seq<Register>, q: seq<Register>, table: int -> Word)
    requires Means(f, p, table) && Means(g, q, table)
    ensures Means(f + g, p + q, table)
  {
  }

  lemma FieldMeaning(d: RequestDescription, table: int -> Word, timestamp: int, fields: seq<Field>, k: nat)
    requires k < |d.registers| && Contiguous(d.registers)
    requires d.request.address == d.registers[0].address && d.request.count == TotalWords(d.registers)
    requires AreFieldsOf(fields, d, Response(WordsAt(table, d.request.address, d.request.count), timestamp))
    ensures WellFormed(d.registers[k]) && fields[k].name == d.registers[k].name
    ensures fields[k].value == Meaning(d.registers[k], table)
  {
    var words := WordsAt(table, d.request.address, d.request.count);
    ContiguousOffset(d.registers, k);
    assert Slice(words, d.registers, k) == WordsAt(table, d.registers[k].address, Words(d.registers[k]));
    assert IsFieldOf(fields[k], d, Response(words, timestamp), k);
  }

  /** Cutting a block read into registers yields what reading each register alone would. */
  lemma BlockMeaning(d: RequestDescription, table: int -> Word, timestamp: int, fields: seq<Field>)
    requires d.registers != [] && Contiguous(d.registers)
    requires d.request.address == d.registers[0].address && d.request.count == TotalWords(d.registers)
    requires AreFieldsOf(fields, d, Response(WordsAt(table, d.request.address, d.request.count), timestamp))
    ensures Means(fields, d.registers, table)
  {
    forall k | 0 <= k < |d.registers|
      ensures WellFormed(d.registers[k]) && fields[k].name == d.registers[k].name
              && fields[k].value == Meaning(d.registers[k], table)
    {
      FieldMeaning(d, table, timestamp, fields, k);
    }
  }

  lemma PartMeans(part: seq<Field>, d: RequestDescription, bus: (nat, Request) -> Outcome,
                  memories: int -> Memory, clock: nat -> int, code: FunctionCode, slaveId: int, k: nat)
    requires ReadsMemory(bus, memories, clock) && GroupIsBlock(d, slaveId, code) && IsPartOf(part, d, bus, k)
    ensures Means(part, d.registers, Table(memories(slaveId), code))
  {
    var table := Table(memories(slaveId), code);
    assert bus(k, d.request) == Response(WordsAt(table, d.request.address, d.request.count), clock(k));
    BlockMeaning(d, table, clock(k), part);
  }

  lemma OneMoreMeans(before: seq<Field>, part: seq<Field>, plan: seq<RequestDescription>, n: nat, table: int -> Word)
    requires n < |plan| && Means(before, Flatten(plan[..n]), table) && Means(part, plan[n].registers, table)
    ensures Means(before + part, Flatten(plan[..n + 1]), table)
  {
    FlattenSplit(plan[..n], [plan[n]]);
    FlattenOne(plan[n]);
    assert plan[..n + 1] == plan[..n] + [plan[n]];
    MeansAppend(before, part, Flatten(plan[..n]), plan[n].registers, table);
  }

  /** The requests of one table, wherever in the poll, yield its registers' meanings. */
  lemma {:induction false} TableMeaning(parts: seq<seq<Field>>, plan: seq<RequestDescription>,
                                        bus: (nat, Request) -> Outcome, memories: int -> Memory, clock: nat -> int,
                                        code: FunctionCode, slaveId: int, k: nat)
    requires ReadsMemory(bus, memories, clock) && |parts| <= |plan| && ArePartsOf(parts, plan, bus, k)
    requires forall d | d in plan :: GroupIsBlock(d, slaveId, code)
    ensures Means(Concat(parts), Flatten(plan[..|parts|]), Table(memories(slaveId), code))
  {
    if parts != [] {
      var n := |parts| - 1;
      TableMeaning(parts[..n], plan, bus, memories, clock, code, slaveId, k);
      assert plan[n] in plan;
      PartMeans(parts[n], plan[n], bus, memories, clock, code, slaveId, k + n);
      OneMoreMeans(Concat(parts[..n]), parts[n], plan, n, Table(memories(slaveId), code));
    }
  }

  lemma PlannedTableMeaning(parts: seq<seq<Field>>, slaveId: int, code: FunctionCode, table: seq<Register>,
                            bus: (nat, Request) -> Outcome, memories: int -> Memory, clock: nat -> int, k: nat)
    requires var plan := Plan(slaveId, code, Sort(ByAddress, table));
             ReadsMemory(bus, memories, clock) && |parts| == |plan| && ArePartsOf(parts, plan, bus, k)
    ensures Means(Concat(parts), Sort(ByAddress, table), Table(memories(slaveId), code))
    ensures |Sort(ByAddress, table)| == |table|
  {
    PlanPartitions(slaveId, code, Sort(ByAddress, table));
    ByAddressIsPreorder();
    SortCorrect(ByAddress, table);
    TableMeaning(parts, Plan(slaveId, code, Sort(ByAddress, table)), bus, memories, clock, code, slaveId, k);
    assert Plan(slaveId, code, Sort(ByAddress, table))[..|parts|] == Plan(slaveId, code, Sort(ByAddress, table));
  }

  /** One field per configured register: the holding registers in stable address order, then the
      input registers in theirs, each with its own meaning. */
  ghost predicate MeansSlave(fields: seq<Field>, slave: Slave, memory: Memory) {
    var n := |slave.outputRegisters|;
    && |fields| == n + |slave.inputRegisters|
    && Means(fields[..n], Sort(ByAddress, slave.outputRegisters), memory.holding)
    && Means(fields[n..], Sort(ByAddress, slave.inputRegisters), memory.input)
  }

  /** The first parts of a poll are those of the requests that come first. */
  lemma {:induction false} PartsOfFirst(parts: seq<seq<Field>>, holding: seq<RequestDescription>,
                                        input: seq<RequestDescription>, bus: (nat, Request) -> Outcome)
    requires |parts| <= |holding| && ArePartsOf(parts, holding + input, bus, 0)
    ensures ArePartsOf(parts, holding, bus, 0)
  {
    if parts != [] {
      PartsOfFirst(parts[..|parts| - 1], holding, input, bus);
    }
  }

  lemma {:induction false} PartsSplit(first: seq<seq<Field>>, second: seq<seq<Field>>, holding: seq<RequestDescription>,
                                      input: seq<RequestDescription>, bus: (nat, Request) -> Outcome)
    requires |first| == |holding| && ArePartsOf(first + second, holding + input, bus, 0)
    ensures ArePartsOf(first, holding, bus, 0) && ArePartsOf(second, input, bus, |holding|)
  {
    if second == [] {
      ConcatNothing(first);
      PartsOfFirst(first, holding, input, bus);
    } else {
      var n := |second| - 1;
      assert (first + second)[..|first| + n] == first + second[..n];
      PartsSplit(first, second[..n], holding, input, bus);
    }
  }

  lemma TablesMeanSlave(outputs: seq<Field>, inputs: seq<Field>, slave: Slave, memory: Memory)
    requires |outputs| == |slave.outputRegisters| && |inputs| == |slave.inputRegisters|
    requires Means(outputs, Sort(ByAddress, slave.outputRegisters), memory.holding)
    requires Means(inputs, Sort(ByAddress, slave.inputRegisters), memory.input)
    ensures MeansSlave(outputs + inputs, slave, memory)
  {
    DropAll(outputs, inputs);
  }

  lemma PollSplits(fields: seq<Field>, holding: seq<RequestDescription>, input: seq<RequestDescription>,
                   bus: (nat, Request) -> Outcome)
    returns (first: seq<seq<Field>>, second: seq<seq<Field>>)
    requires ArePollFields(fields, holding + input, bus, |holding + input|)
    ensures fields == Concat(first) + Concat(second) && |first| == |holding| && |second| == |input|
    ensures ArePartsOf(first, holding, bus, 0) && ArePartsOf(second, input, bus, |holding|)
  {
    var parts :| fields == Concat(parts) && |parts| == |holding + input| && ArePartsOf(parts, holding + input, bus, 0);
    first, second := parts[..|holding|], parts[|holding|..];
    CutAt(parts, |holding|);
    PartsSplit(first, second, holding, input, bus);
    ConcatSplit(first, second);
  }

  /** Batched reading preserves meaning. For every slave and every content of the memories on its
      bus, the fields of a poll are what reading each register of that very slave on its own gives. */
  lemma BatchedReadingPreservesMeaning(slave: Slave, bus: (nat, Request) -> Outcome, memories: int -> Memory,
                                       clock: nat -> int, fields: seq<Field>)
    requires ReadsMemory(bus, memories, clock) && ArePollFields(fields, SlavePlan(slave), bus, |SlavePlan(slave)|)
    ensures MeansSlave(fields, slave, memories(slave.id))
  {
    var holding := Plan(slave.id, ReadHoldingRegisters, Sort(ByAddress, slave.outputRegisters));
    var input := Plan(slave.id, ReadInputRegisters, Sort(ByAddress, slave.inputRegisters));
    var first, second := PollSplits(fields, holding, input, bus);
    PlannedTableMeaning(first, slave.id, ReadHoldingRegisters, slave.outputRegisters, bus, memories, clock, 0);
    PlannedTableMeaning(second, slave.id, ReadInputRegisters, slave.inputRegisters, bus, memories, clock, |holding|);
    TablesMeanSlave(Concat(first), Concat(second), slave, memories(slave.id));
  }
}
