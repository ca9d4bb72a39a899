/** Minimum and maximum of every field over a sliding time window: `processing/limits/Processor.cpp`. */
module Limits {
  import opened Lists

  /** A variant: which alternative it holds, and where its payload ranks among that alternative's
      values. `std::variant` compares alternatives first. */
  datatype Value = Value(alternative: nat, rank: int)

  predicate ValueLe(a: Value, b: Value) {
    a.alternative < b.alternative || (a.alternative == b.alternative && a.rank <= b.rank)
  }

  datatype Field = Field(name: string, value: Option<Value>, timestamp: int)

  datatype Reading = Reading(deviceName: string, fields: seq<Field>, failed: bool)

  datatype Sample = Sample(time: int, value: Value)

  datatype FieldLimit = FieldLimit(name: string, min: Option<Value>, max: Option<Value>)

  datatype LimitsData = LimitsData(deviceName: string, instanceLimits: seq<FieldLimit>)

  type FieldStore = map<string, seq<Sample>>

  // ---------- What the steps mean ----------

  /** The samples that the cutoff `currentTime` leaves. */
  function Unexpired(samples: seq<Sample>, duration: int, currentTime: int): seq<Sample> {
    if samples == [] then []
    else if samples[0].time + duration < currentTime then Unexpired(samples[1..], duration, currentTime)
    else [samples[0]] + Unexpired(samples[1..], duration, currentTime)
  }

  /** The samples that one reading adds to the field `name`. */
  function NewSamples(fields: seq<Field>, name: string): seq<Sample> {
    if fields == [] then []
    else
      var last := fields[|fields| - 1];
      var before := NewSamples(fields[..|fields| - 1], name);
      if last.name == name && last.value.Some? then before + [Sample(last.timestamp, last.value.value)] else before
  }

  function NamesOf(fields: seq<Field>): set<string> {
    set f | f in fields :: f.name
  }

  function SamplesOf(store: FieldStore, name: string): seq<Sample> {
    if name in store then store[name] else []
  }

  ghost function Pruned(store: FieldStore, duration: int, currentTime: int): FieldStore {
    map name | name in store :: Unexpired(store[name], duration, currentTime)
  }

  ghost function WithFields(store: FieldStore, fields: seq<Field>): FieldStore {
    map name | name in store.Keys + NamesOf(fields) :: SamplesOf(store, name)
  }

  ghost function WithValues(store: FieldStore, fields: seq<Field>): FieldStore {
    map name | name in store :: store[name] + NewSamples(fields, name)
  }

  /** One reading of a device, applied to the device's store. */
  ghost function AfterReading(store: FieldStore, fields: seq<Field>, duration: int): FieldStore
    requires fields != []
  {
    WithValues(WithFields(Pruned(store, duration, fields[0].timestamp), fields), fields)
  }

  function MinValue(samples: seq<Sample>): (m: Value)
    requires samples != []
    ensures exists s | s in samples :: s.value == m
    ensures forall s | s in samples :: ValueLe(m, s.value)
  {
    var last := samples[|samples| - 1];
    if |samples| == 1 then last.value
    else
      var m := MinValue(samples[..|samples| - 1]);
      assert samples == samples[..|samples| - 1] + [last];
      if ValueLe(m, last.value) then m else last.value
  }

  function MaxValue(samples: seq<Sample>): (m: Value)
    requires samples != []
    ensures exists s | s in samples :: s.value == m
    ensures forall s | s in samples :: ValueLe(s.value, m)
  {
    var last := samples[|samples| - 1];
    if |samples| == 1 then last.value
    else
      var m := MaxValue(samples[..|samples| - 1]);
      assert samples == samples[..|samples| - 1] + [last];
      if ValueLe(last.value, m) then m else last.value
  }

  // ---------- Iterating a `std::map` by key ----------

  lemma {:induction false} FirstNameExists(s: set<string>)
    requires s != {}
    ensures exists m :: m in s && forall k | k in s :: NameLe(m, k)
    decreases |s|
  {
    assert (forall x: string :: x !in s) ==> s == {};
    var x :| x in s;
    var rest := s - {x};
    assert s == rest + {x};
    NameLeReflexive(x);
    if rest == {} {
      assert s == {x};
      assert x in s && forall k | k in s :: NameLe(x, k);
    } else {
      FirstNameExists(rest);
      var m :| m in rest && forall k | k in rest :: NameLe(m, k);
      NameLeTotal(x, m);
      if NameLe(x, m) {
        forall k | k in s ensures NameLe(x, k) {
          if k != x { NameLeTransitive(x, m, k); }
        }
      } else {
        assert m in s && forall k | k in s :: NameLe(m, k);
      }
    }
  }

  function FirstName(s: set<string>): (m: string)
    requires s != {}
    ensures m in s && forall k | k in s :: NameLe(m, k)
  {
    FirstNameExists(s);
    assert forall a, b | NameLe(a, b) && NameLe(b, a) :: a == b by {
      forall a, b | NameLe(a, b) && NameLe(b, a) ensures a == b { NameLeAntisymmetric(a, b); }
    }
    var m :| m in s && forall k | k in s :: NameLe(m, k);
    m
  }

  /** The keys of a `std::map`, in iteration order. */
  function InOrder(s: set<string>): (names: seq<string>)
    ensures forall name :: name in names <==> name in s
    ensures forall i, j | 0 <= i < j < |names| :: NameLe(names[i], names[j]) && names[i] != names[j]
    decreases |s|
  {
    if s == {} then []
    else
      var first := FirstName(s);
      [first] + InOrder(s - {first})
  }

  /** `v` is the least of the samples' values, or there is none. */
  ghost predicate IsMinimum(v: Option<Value>, samples: seq<Sample>) {
    match v
    case None => samples == []
    case Some(m) => (exists s | s in samples :: s.value == m) && forall s | s in samples :: ValueLe(m, s.value)
  }

  ghost predicate IsMaximum(v: Option<Value>, samples: seq<Sample>) {
    match v
    case None => samples == []
    case Some(m) => (exists s | s in samples :: s.value == m) && forall s | s in samples :: ValueLe(s.value, m)
  }

  /** The report has one entry for each of the names, in their order. */
  ghost predicate NamesInOrder(report: seq<FieldLimit>, names: set<string>) {
    && (forall i, j | 0 <= i < j < |report| :: NameLe(report[i].name, report[j].name) && report[i].name != report[j].name)
    && (forall name :: name in names <==> exists i | 0 <= i < |report| :: report[i].name == name)
  }

  /** The output is the device's, and describes what its store holds. */
  ghost predicate Describes(output: LimitsData, device: string, store: FieldStore) {
    && output.deviceName == device
    && NamesInOrder(output.instanceLimits, store.Keys)
    && forall i | 0 <= i < |output.instanceLimits| :: IsLimitOf(output.instanceLimits[i], store)
  }

  ghost predicate IsLimitOf(limit: FieldLimit, store: FieldStore) {
    limit.name in store && IsMinimum(limit.min, store[limit.name]) && IsMaximum(limit.max, store[limit.name])
  }

  lemma ReportOf(report: seq<FieldLimit>, names: seq<string>, keys: set<string>)
    requires |report| == |names| && forall i | 0 <= i < |names| :: report[i].name == names[i]
    requires forall name :: name in names <==> name in keys
    requires forall i, j | 0 <= i < j < |names| :: NameLe(names[i], names[j]) && names[i] != names[j]
    ensures NamesInOrder(report, keys)
  {
    forall name ensures name in keys <==> exists i | 0 <= i < |report| :: report[i].name == name {
      if name in keys {
        assert name in names;
        var i :| 0 <= i < |names| && names[i] == name;
        assert report[i].name == name;
      }
      if i :| 0 <= i < |report| && report[i].name == name {
        assert names[i] in names;
      }
    }
  }

  // ---------- The state after a history of readings ----------

  /** An error-free reading of a device that is enabled for limits. */
  predicate Counts(r: Reading, devices: set<string>) {
    !r.failed && r.deviceName in devices
  }

  ghost predicate HasFields(readings: seq<Reading>) {
    forall r | r in readings && !r.failed :: r.fields != []
  }

  ghost function StoreAfter(devices: set<string>, duration: int, h: seq<Reading>): (s: map<string, FieldStore>)
    requires HasFields(h)
    ensures s.Keys == devices
  {
    if h == [] then map d | d in devices :: map[]
    else
      var n := |h| - 1;
      var before := StoreAfter(devices, duration, h[..n]);
      if Counts(h[n], devices)
      then before[h[n].deviceName := AfterReading(before[h[n].deviceName], h[n].fields, duration)]
      else before
  }

  lemma WithOneMoreField(store: FieldStore, fields: seq<Field>, f: Field)
    ensures var w := WithFields(store, fields);
            WithFields(store, fields + [f]) == if f.name in w then w else w[f.name := []]
  {
    assert NamesOf(fields + [f]) == NamesOf(fields) + {f.name};
  }

  lemma WithNoValues(store: FieldStore)
    ensures WithValues(store, []) == store
  {
    forall name | name in store ensures store[name] + NewSamples([], name) == store[name] {}
  }

  lemma WithOneMoreValue(store: FieldStore, fields: seq<Field>, f: Field)
    requires f.name in store
    ensures var w := WithValues(store, fields);
            WithValues(store, fields + [f])
            == if f.value.None? then w else w[f.name := w[f.name] + [Sample(f.timestamp, f.value.value)]]
  {
    assert (fields + [f])[..|fields|] == fields;
    if f.value.Some? {
      var added := [Sample(f.timestamp, f.value.value)];
      assert (store[f.name] + NewSamples(fields, f.name)) + added == store[f.name] + (NewSamples(fields, f.name) + added);
    }
  }

  lemma LastUpdateStays(data: map<string, FieldStore>, device: string, first: FieldStore, second: FieldStore)
    ensures data[device := first][device := second] == data[device := second]
  {
  }

  lemma HasFieldsParts(h: seq<Reading>, inputs: seq<Reading>)
    ensures HasFields(h + inputs) <==> HasFields(h) && HasFields(inputs)
  {
    assert forall r :: r in h + inputs <==> r in h || r in inputs;
  }

  lemma StoreAfterOneMore(devices: set<string>, duration: int, h: seq<Reading>, r: Reading)
    requires HasFields(h) && HasFields(h + [r])
    ensures !r.failed ==> r.fields != []
    ensures var store := StoreAfter(devices, duration, h);
            StoreAfter(devices, duration, h + [r])
            == if Counts(r, devices) then store[r.deviceName := AfterReading(store[r.deviceName], r.fields, duration)] else store
  {
    assert r in h + [r];
    DropLast(h, r);
  }

  // ---------- The processor ----------

  class Processor {
    const duration: int
    const devices: set<string>
    var data: map<string, FieldStore>
    /** Every reading ever processed. */
    ghost var history: seq<Reading>

    ghost predicate Valid()
      reads this
    {
      HasFields(history) && data == StoreAfter(devices, duration, history)
    }

    constructor (devices: set<string>, duration: int)
      ensures Valid() && this.devices == devices && this.duration == duration && history == []
    {
      this.devices, this.duration := devices, duration;
      data := map d | d in devices :: map[];
      history := [];
    }

    method RemoveOldValues(device: string, currentTime: int)
      requires device in data
      modifies this`data
      ensures data == old(data)[device := Pruned(old(data)[device], duration, currentTime)]
    {
      var pending := data[device].Keys;
      ghost var before := data[device];
      while pending != {}
        invariant device in data && data == old(data)[device := data[device]]
        invariant pending <= before.Keys == data[device].Keys
        invariant forall name | name in before ::
                    data[device][name] == if name in pending then before[name]
                                          else Unexpired(before[name], duration, currentTime)
        decreases |pending|
      {
        assert (forall name: string :: name !in pending) ==> pending == {};
        var name :| name in pending;
        pending := pending - {name};
        data := data[device := data[device][name := Unexpired(data[device][name], duration, currentTime)]];
      }
      assert forall name | name in before :: name !in pending;
      assert data[device] == Pruned(before, duration, currentTime);
    }

    method AddMissingFields(device: string, fields: seq<Field>)
      requires device in data
      modifies this`data
      ensures data == old(data)[device := WithFields(old(data)[device], fields)]
    {
      ghost var before := data[device];
      assert before == WithFields(before, []);
      for i := 0 to |fields|
        invariant device in data && data == old(data)[device := WithFields(before, fields[..i])]
      {
        assert fields[..i + 1] == fields[..i] + [fields[i]];
        WithOneMoreField(before, fields[..i], fields[i]);
        if fields[i].name !in data[device] {
          data := data[device := data[device][fields[i].name := []]];
        }
      }
      assert fields[..|fields|] == fields;
    }

    method InsertNewValues(device: string, fields: seq<Field>)
      requires device in data && NamesOf(fields) <= data[device].Keys
      modifies this`data
      ensures data == old(data)[device := WithValues(old(data)[device], fields)]
    {
      ghost var before := data[device];
      WithNoValues(before);
      for i := 0 to |fields|
        invariant device in data && data == old(data)[device := WithValues(before, fields[..i])]
      {
        assert fields[..i + 1] == fields[..i] + [fields[i]];
        assert fields[i].name in NamesOf(fields);
        WithOneMoreValue(before, fields[..i], fields[i]);
        if fields[i].value.Some? {
          var name := fields[i].name;
          data := data[device := data[device][name := data[device][name] + [Sample(fields[i].timestamp, fields[i].value.value)]]];
        }
      }
      assert fields[..|fields|] == fields;
    }

    /** `generateOutput`. */
    method GenerateOutput(device: string) returns (output: LimitsData)
      requires device in data
      ensures Describes(output, device, data[device])
    {
      var names := InOrder(data[device].Keys);
      var instanceLimits: seq<FieldLimit> := [];
      for i := 0 to |names|
        invariant |instanceLimits| == i
        invariant forall k | 0 <= k < i :: instanceLimits[k].name == names[k] && IsLimitOf(instanceLimits[k], data[device])
      {
        assert names[i] in names;
        var values := data[device][names[i]];
        var entry := FieldLimit(names[i], None, None);
        if values != [] {
          entry := entry.(min := Some(MinValue(values)), max := Some(MaxValue(values)));
        }
        instanceLimits := instanceLimits + [entry];
      }
      ReportOf(instanceLimits, names, data[device].Keys);
      return LimitsData(device, instanceLimits);
    }

    /** The body of `process`'s `try` block. */
    method ProcessReading(device: string, fields: seq<Field>) returns (output: LimitsData)
      requires device in data && fields != []
      modifies this`data
      ensures data == old(data)[device := AfterReading(old(data)[device], fields, duration)]
      ensures Describes(output, device, data[device])
    {
      ghost var before := data;
      ghost var pruned := Pruned(before[device], duration, fields[0].timestamp);
      ghost var extended := WithFields(pruned, fields);
      RemoveOldValues(device, fields[0].timestamp);
      AddMissingFields(device, fields);
      LastUpdateStays(before, device, pruned, extended);
      InsertNewValues(device, fields);
      LastUpdateStays(before, device, extended, data[device]);
      output := GenerateOutput(device);
    }

    /** What `process` does with one reading: failed ones and devices that are not enabled are
        skipped; for any other the device's limits over the history so far are put out. */
    method ProcessInput(input: Reading) returns (output: Option<LimitsData>)
      requires Valid() && HasFields(history + [input])
      modifies this
      ensures Valid() && history == old(history) + [input]
      ensures output.Some? <==> !input.failed && input.deviceName in devices
      ensures output.Some? ==> output.value.deviceName == input.deviceName
                               && IsReport(output.value.instanceLimits, history, input.deviceName, duration)
    {
      ghost var before := history;
      StoreAfterOneMore(devices, duration, before, input);
      history := history + [input];
      if input.failed || input.deviceName !in data {
        return None;
      }
      var limits := ProcessReading(input.deviceName, input.fields);
      InputIsReported(devices, duration, before, input, limits);
      return Some(limits);
    }

    /** `process`: one output for every error-free reading of an enabled device, in their order; the
        `k`-th is for the device of reading `at[k]` and reports the least and greatest values over
        the history of readings up to that one. */
    method Process(inputList: seq<Reading>) returns (outputList: seq<LimitsData>, ghost at: seq<nat>)
      requires Valid() && HasFields(inputList)
      modifies this
      ensures Valid() && history == old(history) + inputList
      ensures |outputList| == |at|
      ensures forall i, j | 0 <= i < j < |at| :: at[i] < at[j]
      ensures forall i :: i in at <==> 0 <= i < |inputList| && !inputList[i].failed && inputList[i].deviceName in devices
      ensures forall k | 0 <= k < |at| :: at[k] < |inputList| && outputList[k].deviceName == inputList[at[k]].deviceName
      ensures forall k | 0 <= k < |at| :: IsOutputOf(outputList[k], at[k], duration, old(history), inputList)
    {
      outputList, at := [], [];
      ConcatNothing(history);
      for i := 0 to |inputList|
        invariant Valid() && history == old(history) + inputList[..i]
        invariant AreOutputs(outputList, at, devices, duration, old(history), inputList, i)
      {
        NextInput(old(history), inputList, i);
        ghost var before, beforeAt := outputList, at;
        var output := ProcessInput(inputList[i]);
        if output.Some? {
          outputList, at := outputList + [output.value], at + [i];
        }
        OutputsGrow(before, beforeAt, devices, duration, old(history), inputList, i, output);
      }
      assert inputList[..|inputList|] == inputList;
    }
  }

  lemma InputIsReported(devices: set<string>, duration: int, h: seq<Reading>, r: Reading, output: LimitsData)
    requires HasFields(h) && HasFields(h + [r]) && Counts(r, devices) && r.fields != []
    requires Describes(output, r.deviceName, AfterReading(StoreAfter(devices, duration, h)[r.deviceName], r.fields, duration))
    ensures output.deviceName == r.deviceName && IsReport(output.instanceLimits, h + [r], r.deviceName, duration)
  {
    StoreAfterOneMore(devices, duration, h, r);
    ReportRefinesHistory(devices, duration, h + [r], r.deviceName, output);
  }

  /** The output is that of the `i`-th input, over the history up to it. */
  ghost predicate IsOutputOf(output: LimitsData, i: nat, duration: int, h: seq<Reading>, inputs: seq<Reading>) {
    && i < |inputs| && output.deviceName == inputs[i].deviceName
    && HasFields(h + inputs[..i + 1])
    && IsReport(output.instanceLimits, h + inputs[..i + 1], inputs[i].deviceName, duration)
  }

  /** The outputs so far are those of the first `n` inputs, the `k`-th that of input `at[k]`. */
  ghost predicate AreOutputs(outputs: seq<LimitsData>, at: seq<nat>, devices: set<string>, duration: int,
                             h: seq<Reading>, inputs: seq<Reading>, n: nat)
  {
    && |outputs| == |at| && n <= |inputs|
    && (forall i, j | 0 <= i < j < |at| :: at[i] < at[j])
    && (forall i :: i in at <==> 0 <= i < n && !inputs[i].failed && inputs[i].deviceName in devices)
    && (forall k | 0 <= k < |at| :: IsOutputOf(outputs[k], at[k], duration, h, inputs))
  }

  lemma OutputsGrow(outputs: seq<LimitsData>, at: seq<nat>, devices: set<string>, duration: int,
                    h: seq<Reading>, inputs: seq<Reading>, n: nat, output: Option<LimitsData>)
    requires AreOutputs(outputs, at, devices, duration, h, inputs, n) && n < |inputs|
    requires output.Some? <==> !inputs[n].failed && inputs[n].deviceName in devices
    requires output.Some? ==> IsOutputOf(output.value, n, duration, h, inputs)
    ensures if output.Some? then AreOutputs(outputs + [output.value], at + [n], devices, duration, h, inputs, n + 1)
            else AreOutputs(outputs, at, devices, duration, h, inputs, n + 1)
  {
    if output.Some? {
      var more, moreAt := outputs + [output.value], at + [n];
      forall k | 0 <= k < |moreAt| ensures IsOutputOf(more[k], moreAt[k], duration, h, inputs) {
        assert more[k] == (if k < |at| then outputs[k] else output.value) && moreAt[k] == if k < |at| then at[k] else n;
      }
      forall i ensures i in moreAt <==> 0 <= i < n + 1 && !inputs[i].failed && inputs[i].deviceName in devices {
        assert i in moreAt <==> i in at || i == n;
      }
    }
  }

  lemma NextInput(h: seq<Reading>, inputs: seq<Reading>, i: nat)
    requires HasFields(h) && HasFields(inputs) && i < |inputs|
    ensures inputs[..i + 1] == inputs[..i] + [inputs[i]]
    ensures (h + inputs[..i]) + [inputs[i]] == h + inputs[..i + 1]
    ensures HasFields(inputs[..i]) && HasFields(inputs[..i + 1]) && HasFields(h + inputs[..i + 1])
  {
    CutAt(inputs, i + 1);
    HasFieldsParts(inputs[..i + 1], inputs[i + 1..]);
    HasFieldsParts(inputs[..i], [inputs[i]]);
    HasFieldsParts(h, inputs[..i + 1]);
    ConcatAssociates(h, inputs[..i], [inputs[i]]);
  }

  // ---------- The store refines the full history ----------

  /** A sample together with the reading that brought it. */
  datatype Arrival = Arrival(index: nat, sample: Sample)

  function Tagged(index: nat, samples: seq<Sample>): (a: seq<Arrival>)
    ensures |a| == |samples|
  {
    seq(|samples|, i requires 0 <= i < |samples| => Arrival(index, samples[i]))
  }

  predicate IsReadingOf(r: Reading, device: string) {
    !r.failed && r.deviceName == device
  }

  /** Every value of a device's field that ever arrived, in order. */
  ghost function Arrivals(h: seq<Reading>, device: string, name: string): seq<Arrival> {
    if h == [] then []
    else
      var n := |h| - 1;
      var before := Arrivals(h[..n], device, name);
      if IsReadingOf(h[n], device) then before + Tagged(n, NewSamples(h[n].fields, name)) else before
  }

  /** The value is still in the window of every later reading of its device. */
  ghost predicate Survives(h: seq<Reading>, device: string, duration: int, a: Arrival)
    requires HasFields(h)
  {
    forall k | a.index < k < |h| && IsReadingOf(h[k], device) :: a.sample.time + duration >= Cutoff(h, k)
  }

  ghost function Cutoff(h: seq<Reading>, k: nat): int
    requires HasFields(h) && k < |h| && !h[k].failed
  {
    assert h[k] in h;
    h[k].fields[0].timestamp
  }

  /** The samples of the arrivals that survive. */
  ghost function Survivors(h: seq<Reading>, device: string, duration: int, arrivals: seq<Arrival>): seq<Sample>
    requires HasFields(h)
  {
    if arrivals == [] then []
    else if Survives(h, device, duration, arrivals[0])
    then [arrivals[0].sample] + Survivors(h, device, duration, arrivals[1..])
    else Survivors(h, device, duration, arrivals[1..])
  }

  lemma {:induction false} SurvivorsSplit(h: seq<Reading>, device: string, duration: int, p: seq<Arrival>, q: seq<Arrival>)
    requires HasFields(h)
    ensures Survivors(h, device, duration, p + q)
         == Survivors(h, device, duration, p) + Survivors(h, device, duration, q)
  {
    if p == [] {
      ConcatNothing(q);
      ConcatNothing(Survivors(h, device, duration, q));
    } else {
      SurvivorsSplit(h, device, duration, p[1..], q);
      assert p + q == [p[0]] + (p[1..] + q);
      DropFirst(p[0], p[1..] + q);
      ConcatAssociates([p[0].sample], Survivors(h, device, duration, p[1..]), Survivors(h, device, duration, q));
    }
  }

  lemma {:induction false} NewArrivalsSurvive(h: seq<Reading>, device: string, duration: int, samples: seq<Sample>)
    requires HasFields(h) && h != []
    ensures Survivors(h, device, duration, Tagged(|h| - 1, samples)) == samples
  {
    if samples != [] {
      NewArrivalsSurvive(h, device, duration, samples[1..]);
      assert Tagged(|h| - 1, samples)[1..] == Tagged(|h| - 1, samples[1..]);
    }
  }

  lemma SurvivesOneMore(h: seq<Reading>, device: string, duration: int, a: Arrival)
    requires HasFields(h) && h != [] && a.index < |h| - 1
    ensures var n := |h| - 1;
            && HasFields(h[..n])
            && (Survives(h, device, duration, a) <==>
                  && Survives(h[..n], device, duration, a)
                  && (IsReadingOf(h[n], device) ==> a.sample.time + duration >= Cutoff(h, n)))
  {
    var n := |h| - 1;
    assert HasFields(h[..n]);
    forall k | a.index < k < n && IsReadingOf(h[k], device) ensures Cutoff(h, k) == Cutoff(h[..n], k) {}
    if Survives(h, device, duration, a) {
      forall k | a.index < k < n && IsReadingOf(h[..n][k], device) ensures a.sample.time + duration >= Cutoff(h[..n], k) {
        assert IsReadingOf(h[k], device);
      }
    }
    if Survives(h[..n], device, duration, a) {
      forall k | a.index < k < n && IsReadingOf(h[k], device) ensures a.sample.time + duration >= Cutoff(h, k) {
        assert IsReadingOf(h[..n][k], device);
      }
    }
  }

  /** One more reading prunes the survivors by its cutoff if it is of the device, and leaves them
      alone otherwise. */
  lemma {:induction false} SurvivorsOneMore(h: seq<Reading>, device: string, duration: int, arrivals: seq<Arrival>)
    requires HasFields(h) && h != []
    requires forall a | a in arrivals :: a.index < |h| - 1
    ensures HasFields(h[..|h| - 1])
    ensures var n := |h| - 1;
            var before := Survivors(h[..n], device, duration, arrivals);
            Survivors(h, device, duration, arrivals)
            == if IsReadingOf(h[n], device) then Unexpired(before, duration, Cutoff(h, n)) else before
  {
    assert HasFields(h[..|h| - 1]);
    if arrivals != [] {
      SurvivesOneMore(h, device, duration, arrivals[0]);
      SurvivorsOneMore(h, device, duration, arrivals[1..]);
      var rest := Survivors(h[..|h| - 1], device, duration, arrivals[1..]);
      assert ([arrivals[0].sample] + rest)[1..] == rest;
    }
  }

  lemma {:induction false} ArrivalIndices(h: seq<Reading>, device: string, name: string)
    ensures forall a | a in Arrivals(h, device, name) :: a.index < |h|
  {
    if h != [] {
      ArrivalIndices(h[..|h| - 1], device, name);
    }
  }

  /** Some reading of the device mentioned the field. */
  ghost predicate Mentioned(h: seq<Reading>, device: string, name: string) {
    exists k | 0 <= k < |h| :: IsReadingOf(h[k], device) && name in NamesOf(h[k].fields)
  }

  lemma MentionedOneMore(h: seq<Reading>, device: string, name: string)
    requires h != []
    ensures var n := |h| - 1;
            Mentioned(h, device, name) <==>
              Mentioned(h[..n], device, name) || (IsReadingOf(h[n], device) && name in NamesOf(h[n].fields))
  {
    var n := |h| - 1;
    if k :| 0 <= k < n && IsReadingOf(h[..n][k], device) && name in NamesOf(h[..n][k].fields) {
      assert IsReadingOf(h[k], device);
    }
    if k :| 0 <= k < |h| && IsReadingOf(h[k], device) && name in NamesOf(h[k].fields) {
      assert k < n ==> IsReadingOf(h[..n][k], device);
    }
  }

  /** After any history of readings, the store of an enabled device knows exactly the fields that
      its readings mentioned, and holds for each of them exactly the values that arrived and are
      still in the window of every later reading of the device, in order of arrival. */
  lemma {:induction false} StoreRefinesHistory(devices: set<string>, duration: int, h: seq<Reading>, device: string, name: string)
    requires HasFields(h) && device in devices
    ensures var store := StoreAfter(devices, duration, h)[device];
            && (name in store <==> Mentioned(h, device, name))
            && SamplesOf(store, name) == Survivors(h, device, duration, Arrivals(h, device, name))
  {
    if h != [] {
      var n := |h| - 1;
      assert HasFields(h[..n]);
      StoreRefinesHistory(devices, duration, h[..n], device, name);
      MentionedOneMore(h, device, name);
      var before := Arrivals(h[..n], device, name);
      ArrivalIndices(h[..n], device, name);
      SurvivorsOneMore(h, device, duration, before);
      if IsReadingOf(h[n], device) {
        var added := NewSamples(h[n].fields, name);
        SurvivorsSplit(h, device, duration, before, Tagged(n, added));
        NewArrivalsSurvive(h, device, duration, added);
        if name !in NamesOf(h[n].fields) {
          NoSamplesForOthers(h[n].fields, name);
        }
      }
    }
  }

  lemma {:induction false} NoSamplesForOthers(fields: seq<Field>, name: string)
    requires name !in NamesOf(fields)
    ensures NewSamples(fields, name) == []
  {
    if fields != [] {
      var last := fields[|fields| - 1];
      assert last in fields && last.name in NamesOf(fields);
      assert NamesOf(fields[..|fields| - 1]) <= NamesOf(fields);
      NoSamplesForOthers(fields[..|fields| - 1], name);
    }
  }

  // ---------- The report against the history ----------

  /** The `i`-th field of the `k`-th reading is a value of the device's field `name` that is still in
      the window of every later reading of the device. */
  ghost predicate IsLive(h: seq<Reading>, device: string, name: string, duration: int, k: nat, i: nat)
    requires HasFields(h)
  {
    && k < |h| && IsReadingOf(h[k], device)
    && i < |h[k].fields| && h[k].fields[i].name == name && h[k].fields[i].value.Some?
    && forall later | k < later < |h| && IsReadingOf(h[later], device) ::
         h[k].fields[i].timestamp + duration >= Cutoff(h, later)
  }

  ghost predicate HasValue(h: seq<Reading>, k: nat, i: nat, v: Value) {
    k < |h| && i < |h[k].fields| && h[k].fields[i].value == Some(v)
  }

  /** `v` is the least value of the field that is still in the window, or there is none. */
  ghost predicate IsLeastLive(v: Option<Value>, h: seq<Reading>, device: string, name: string, duration: int)
    requires HasFields(h)
  {
    match v
    case None => forall k: nat, i: nat :: !IsLive(h, device, name, duration, k, i)
    case Some(m) =>
      && (exists k: nat, i: nat :: IsLive(h, device, name, duration, k, i) && HasValue(h, k, i, m))
      && (forall k: nat, i: nat, w | IsLive(h, device, name, duration, k, i) && HasValue(h, k, i, w) :: ValueLe(m, w))
  }

  ghost predicate IsGreatestLive(v: Option<Value>, h: seq<Reading>, device: string, name: string, duration: int)
    requires HasFields(h)
  {
    match v
    case None => forall k: nat, i: nat :: !IsLive(h, device, name, duration, k, i)
    case Some(m) =>
      && (exists k: nat, i: nat :: IsLive(h, device, name, duration, k, i) && HasValue(h, k, i, m))
      && (forall k: nat, i: nat, w | IsLive(h, device, name, duration, k, i) && HasValue(h, k, i, w) :: ValueLe(w, m))
  }

  /** What a history of readings makes of a device's limits: one entry for every field that its
      readings mentioned, in name order, with the least and the greatest value in the window. */
  ghost predicate IsReport(report: seq<FieldLimit>, h: seq<Reading>, device: string, duration: int)
    requires HasFields(h)
  {
    && (forall i, j | 0 <= i < j < |report| :: NameLe(report[i].name, report[j].name) && report[i].name != report[j].name)
    && (forall name :: Mentioned(h, device, name) <==> exists i | 0 <= i < |report| :: report[i].name == name)
    && (forall i | 0 <= i < |report| ::
          && IsLeastLive(report[i].min, h, device, report[i].name, duration)
          && IsGreatestLive(report[i].max, h, device, report[i].name, duration))
  }

  /** A sample is one of a reading's iff some field of the name brought it. */
  ghost predicate BringsSample(fields: seq<Field>, i: nat, name: string, s: Sample) {
    i < |fields| && fields[i].name == name && fields[i].value == Some(s.value) && fields[i].timestamp == s.time
  }

  lemma {:induction false} NewSamplesAre(fields: seq<Field>, name: string, s: Sample)
    ensures s in NewSamples(fields, name) <==> exists i: nat :: BringsSample(fields, i, name, s)
  {
    if fields != [] {
      var n := |fields| - 1;
      NewSamplesAre(fields[..n], name, s);
      if i: nat :| BringsSample(fields[..n], i, name, s) {
        assert BringsSample(fields, i, name, s);
      }
      if i: nat :| BringsSample(fields, i, name, s) {
        assert i < n ==> BringsSample(fields[..n], i, name, s);
      }
      if s == Sample(fields[n].timestamp, s.value) && fields[n].name == name && fields[n].value == Some(s.value) {
        assert BringsSample(fields, n, name, s);
      }
    }
  }

  lemma {:induction false} ArrivalsAre(h: seq<Reading>, device: string, name: string, a: Arrival)
    ensures a in Arrivals(h, device, name)
            <==> a.index < |h| && IsReadingOf(h[a.index], device) && a.sample in NewSamples(h[a.index].fields, name)
  {
    if h != [] {
      var n := |h| - 1;
      ArrivalsAre(h[..n], device, name, a);
      ArrivalIndices(h[..n], device, name);
      if IsReadingOf(h[n], device) {
        TaggedAre(n, NewSamples(h[n].fields, name), a);
      }
    }
  }

  lemma TaggedAre(index: nat, samples: seq<Sample>, a: Arrival)
    ensures a in Tagged(index, samples) <==> a.index == index && a.sample in samples
  {
    if a.index == index && a.sample in samples {
      var i :| 0 <= i < |samples| && samples[i] == a.sample;
      assert Tagged(index, samples)[i] == a;
    }
  }

  lemma {:induction false} SurvivorsAre(h: seq<Reading>, device: string, duration: int, arrivals: seq<Arrival>, s: Sample)
    requires HasFields(h)
    ensures s in Survivors(h, device, duration, arrivals)
            <==> exists a | a in arrivals :: a.sample == s && Survives(h, device, duration, a)
  {
    if arrivals != [] {
      SurvivorsAre(h, device, duration, arrivals[1..], s);
      assert forall a :: a in arrivals <==> a == arrivals[0] || a in arrivals[1..];
    }
  }

  /** The survivors are the live values. */
  lemma SurvivorIsLive(h: seq<Reading>, device: string, name: string, duration: int, s: Sample) returns (k: nat, i: nat)
    requires HasFields(h) && s in Survivors(h, device, duration, Arrivals(h, device, name))
    ensures IsLive(h, device, name, duration, k, i) && HasValue(h, k, i, s.value)
  {
    SurvivorsAre(h, device, duration, Arrivals(h, device, name), s);
    var a :| a in Arrivals(h, device, name) && a.sample == s && Survives(h, device, duration, a);
    ArrivalsAre(h, device, name, a);
    k := a.index;
    NewSamplesAre(h[k].fields, name, s);
    i :| BringsSample(h[k].fields, i, name, s);
  }

  lemma LiveSurvives(h: seq<Reading>, device: string, name: string, duration: int, k: nat, i: nat)
    requires HasFields(h) && IsLive(h, device, name, duration, k, i)
    ensures Sample(h[k].fields[i].timestamp, h[k].fields[i].value.value)
            in Survivors(h, device, duration, Arrivals(h, device, name))
  {
    var s := Sample(h[k].fields[i].timestamp, h[k].fields[i].value.value);
    assert BringsSample(h[k].fields, i, name, s);
    NewSamplesAre(h[k].fields, name, s);
    ArrivalsAre(h, device, name, Arrival(k, s));
    assert Survives(h, device, duration, Arrival(k, s));
    SurvivorsAre(h, device, duration, Arrivals(h, device, name), s);
  }

  lemma LeastSurvivorIsLeastLive(v: Option<Value>, h: seq<Reading>, device: string, name: string, duration: int)
    requires HasFields(h) && IsMinimum(v, Survivors(h, device, duration, Arrivals(h, device, name)))
    ensures IsLeastLive(v, h, device, name, duration)
  {
    var kept := Survivors(h, device, duration, Arrivals(h, device, name));
    forall k: nat, i: nat | IsLive(h, device, name, duration, k, i)
      ensures v.Some? && forall w | HasValue(h, k, i, w) :: ValueLe(v.value, w)
    {
      LiveSurvives(h, device, name, duration, k, i);
    }
    if v.Some? {
      var s :| s in kept && s.value == v.value;
      var k, i := SurvivorIsLive(h, device, name, duration, s);
    }
  }

  lemma GreatestSurvivorIsGreatestLive(v: Option<Value>, h: seq<Reading>, device: string, name: string, duration: int)
    requires HasFields(h) && IsMaximum(v, Survivors(h, device, duration, Arrivals(h, device, name)))
    ensures IsGreatestLive(v, h, device, name, duration)
  {
    var kept := Survivors(h, device, duration, Arrivals(h, device, name));
    forall k: nat, i: nat | IsLive(h, device, name, duration, k, i)
      ensures v.Some? && forall w | HasValue(h, k, i, w) :: ValueLe(w, v.value)
    {
      LiveSurvives(h, device, name, duration, k, i);
    }
    if v.Some? {
      var s :| s in kept && s.value == v.value;
      var k, i := SurvivorIsLive(h, device, name, duration, s);
    }
  }

  /** What describes a device's store after a history reports that history. */
  lemma ReportRefinesHistory(devices: set<string>, duration: int, h: seq<Reading>, device: string, output: LimitsData)
    requires HasFields(h) && device in devices && Describes(output, device, StoreAfter(devices, duration, h)[device])
    ensures output.deviceName == device && IsReport(output.instanceLimits, h, device, duration)
  {
    var store, report := StoreAfter(devices, duration, h)[device], output.instanceLimits;
    forall name ensures Mentioned(h, device, name) <==> name in store {
      StoreRefinesHistory(devices, duration, h, device, name);
    }
    forall i | 0 <= i < |report|
      ensures IsLeastLive(report[i].min, h, device, report[i].name, duration)
              && IsGreatestLive(report[i].max, h, device, report[i].name, duration)
    {
      assert IsLimitOf(report[i], store);
      StoreRefinesHistory(devices, duration, h, device, report[i].name);
      LeastSurvivorIsLeastLive(report[i].min, h, device, report[i].name, duration);
      GreatestSurvivorIsGreatestLive(report[i].max, h, device, report[i].name, duration);
    }
  }

  ghost predicate TimesNeverGoBack(h: seq<Reading>, device: string)
    requires HasFields(h)
  {
    forall i, k | 0 <= i < k < |h| && IsReadingOf(h[i], device) && IsReadingOf(h[k], device) :: Cutoff(h, i) <= Cutoff(h, k)
  }

  /** If the device's reading times never go back, the survivors are the sliding window: a value
      survives iff it came with the device's latest reading or lies within `duration` of it. */
  lemma SurvivalIsWindow(h: seq<Reading>, device: string, duration: int, a: Arrival, last: nat)
    requires HasFields(h) && TimesNeverGoBack(h, device)
    requires a.index <= last < |h| && IsReadingOf(h[last], device)
    requires forall k | last < k < |h| :: !IsReadingOf(h[k], device)
    ensures Survives(h, device, duration, a) <==> a.index == last || a.sample.time + duration >= Cutoff(h, last)
  {
    if a.sample.time + duration >= Cutoff(h, last) {
      forall k | a.index < k < |h| && IsReadingOf(h[k], device) ensures a.sample.time + duration >= Cutoff(h, k) {
        assert k < last || k == last;
      }
    }
  }
}
