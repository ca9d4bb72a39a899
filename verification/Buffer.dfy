/** The buffer behind the HTTP output: `out/Buffer.cpp`. */
module Buffer {
  import opened Lists

  datatype BufferType = Stream | Single

  datatype Stamped<+T> = Stamped(time: int, value: T)

  /** One call of `add`: a list of entries and the clock reading it is stamped with. */
  datatype Batch<+T> = Batch(list: seq<T>, now: int)

  type Positive = n: nat | n > 0 witness 1

  const MAX_BYTES := 500_000

  // ---------- What the operations mean ----------

  function StampAll<T>(list: seq<T>, now: int): (s: seq<Stamped<T>>)
    ensures |s| == |list|
  {
    seq(|list|, i requires 0 <= i < |list| => Stamped(now, list[i]))
  }

  function Values<T>(data: seq<Stamped<T>>): (s: seq<T>)
    ensures |s| == |data|
  {
    seq(|data|, i requires 0 <= i < |data| => data[i].value)
  }

  /** The longest suffix of at most `n` elements. */
  function Suffix<T>(s: seq<T>, n: nat): seq<T> {
    if |s| <= n then s else s[|s| - n..]
  }

  /** The entries that came after `lastTime`, by a linear scan. */
  function After<T>(data: seq<Stamped<T>>, lastTime: int): seq<Stamped<T>> {
    if data == [] then []
    else if data[0].time > lastTime then [data[0]] + After(data[1..], lastTime)
    else After(data[1..], lastTime)
  }

  ghost predicate TimeSorted<T>(data: seq<Stamped<T>>) {
    forall i, j | 0 <= i < j < |data| :: data[i].time <= data[j].time
  }

  ghost predicate Named<T>(list: seq<T>, nameOf: T -> string, name: string) {
    exists x | x in list :: nameOf(x) == name
  }

  ghost predicate Mentioned<T>(data: seq<Stamped<T>>, nameOf: T -> string, name: string) {
    exists e | e in data :: nameOf(e.value) == name
  }

  lemma ValuesAppend<T>(p: seq<Stamped<T>>, q: seq<Stamped<T>>)
    ensures Values(p + q) == Values(p) + Values(q)
  {
  }

  lemma ValuesTail<T>(s: seq<Stamped<T>>, k: nat)
    requires k <= |s|
    ensures Values(s[k..]) == Values(s)[k..]
  {
  }

  lemma ValuesSuffix<T>(s: seq<Stamped<T>>, n: nat)
    ensures Values(Suffix(s, n)) == Suffix(Values(s), n)
  {
    if |s| > n {
      ValuesTail(s, |s| - n);
    }
  }

  lemma ValuesOfStamped<T>(list: seq<T>, now: int)
    ensures Values(StampAll(list, now)) == list
  {
  }

  /** `data` is the end of `before` followed by the stamped list. */
  ghost predicate IsTailOf<T>(data: seq<Stamped<T>>, before: seq<Stamped<T>>, list: seq<T>, now: int) {
    var dropped := |before| + |list| - |data|;
    && dropped >= 0
    && forall i | 0 <= i < |data| ::
         data[i] == if dropped + i < |before| then before[dropped + i] else Stamped(now, list[dropped + i - |before|])
  }

  lemma StampedIsTail<T>(before: seq<Stamped<T>>, list: seq<T>, now: int)
    ensures IsTailOf(before + StampAll(list, now), before, list, now)
  {
  }

  lemma TailOfTail<T>(all: seq<Stamped<T>>, k: nat, before: seq<Stamped<T>>, list: seq<T>, now: int)
    requires IsTailOf(all, before, list, now) && k <= |all|
    ensures IsTailOf(all[k..], before, list, now)
  {
  }

  lemma MentionedAppend<T>(p: seq<Stamped<T>>, q: seq<Stamped<T>>, nameOf: T -> string)
    ensures forall name :: Mentioned(p + q, nameOf, name) <==> Mentioned(p, nameOf, name) || Mentioned(q, nameOf, name)
  {
    assert forall e :: e in p + q <==> e in p || e in q;
  }

  lemma MentionedOne<T>(e: Stamped<T>, nameOf: T -> string)
    ensures forall name :: Mentioned([e], nameOf, name) <==> nameOf(e.value) == name
  {
    assert e in [e];
  }

  function Without<T>(data: seq<Stamped<T>>, nameOf: T -> string, name: string): seq<Stamped<T>> {
    if data == [] then []
    else if nameOf(data[0].value) == name then Without(data[1..], nameOf, name)
    else [data[0]] + Without(data[1..], nameOf, name)
  }

  /** The entries of devices that `list` does not mention. */
  ghost function Others<T>(data: seq<Stamped<T>>, nameOf: T -> string, list: seq<T>): seq<Stamped<T>> {
    if data == [] then []
    else if Named(list, nameOf, nameOf(data[0].value)) then Others(data[1..], nameOf, list)
    else [data[0]] + Others(data[1..], nameOf, list)
  }

  lemma {:induction false} OthersOfNone<T>(data: seq<Stamped<T>>, nameOf: T -> string)
    ensures Others(data, nameOf, []) == data
  {
    if data != [] {
      OthersOfNone(data[1..], nameOf);
    }
  }

  /** `Others` are exactly the entries whose device the list does not mention, in order. */
  lemma {:induction false} OthersAre<T>(data: seq<Stamped<T>>, nameOf: T -> string, list: seq<T>) returns (at: seq<nat>)
    ensures |at| == |Others(data, nameOf, list)|
    ensures forall k | 0 <= k < |at| :: at[k] < |data| && Others(data, nameOf, list)[k] == data[at[k]]
    ensures forall i, j | 0 <= i < j < |at| :: at[i] < at[j]
    ensures forall i | 0 <= i < |data| :: i in at <==> !Named(list, nameOf, nameOf(data[i].value))
  {
    at := [];
    if data != [] {
      var n := |data| - 1;
      at := OthersAre(data[..n], nameOf, list);
      OthersLast(data, nameOf, list);
      if !Named(list, nameOf, nameOf(data[n].value)) {
        at := at + [n];
      }
    }
  }

  lemma {:induction false} OthersLast<T>(data: seq<Stamped<T>>, nameOf: T -> string, list: seq<T>)
    requires data != []
    ensures var n := |data| - 1;
            Others(data, nameOf, list)
            == Others(data[..n], nameOf, list) + if Named(list, nameOf, nameOf(data[n].value)) then [] else [data[n]]
  {
    if |data| > 1 {
      OthersLast(data[1..], nameOf, list);
      assert data[1..][..|data| - 2] == data[..|data| - 1][1..];
    }
  }

  lemma {:induction false} OthersStep<T>(data: seq<Stamped<T>>, nameOf: T -> string, list: seq<T>, entry: T)
    ensures Without(Others(data, nameOf, list), nameOf, nameOf(entry)) == Others(data, nameOf, list + [entry])
  {
    if data != [] {
      OthersStep(data[1..], nameOf, list, entry);
      var name := nameOf(data[0].value);
      assert Named(list + [entry], nameOf, name) <==> Named(list, nameOf, name) || nameOf(entry) == name by {
        assert entry in list + [entry];
      }
      var rest := Others(data[1..], nameOf, list);
      assert ([data[0]] + rest)[1..] == rest;
    }
  }

  // ---------- The buffer ----------

  /** `std::upper_bound` by time, on any data; on sorted data it is the partition point. */
  method UpperBound<T>(data: seq<Stamped<T>>, lastTime: int) returns (first: nat)
    ensures first <= |data|
    ensures TimeSorted(data) ==> forall i | 0 <= i < |data| :: i < first <==> data[i].time <= lastTime
  {
    first := 0;
    var len := |data|;
    while len > 0
      invariant 0 <= len && first + len <= |data|
      invariant TimeSorted(data) ==> forall i | 0 <= i < first :: data[i].time <= lastTime
      invariant TimeSorted(data) ==> forall i | first + len <= i < |data| :: lastTime < data[i].time
    {
      var half := len / 2;
      var middle := first + half;
      if lastTime < data[middle].time {
        len := half;
      } else {
        first := middle + 1;
        len := len - half - 1;
      }
    }
  }

  lemma {:induction false} AfterIsTail<T>(data: seq<Stamped<T>>, lastTime: int, first: nat)
    requires first <= |data|
    requires forall i | 0 <= i < |data| :: i < first <==> data[i].time <= lastTime
    ensures After(data, lastTime) == data[first..]
  {
    if data != [] {
      AfterIsTail(data[1..], lastTime, if first == 0 then 0 else first - 1);
      if first == 0 {
        assert data == [data[0]] + data[1..];
      }
    }
  }

  /** `entries` are the last of `data`, in order. */
  ghost predicate AreEndOf<T>(entries: seq<T>, data: seq<Stamped<T>>) {
    |entries| <= |data| && forall i | 0 <= i < |entries| :: entries[i] == data[|data| - |entries| + i].value
  }

  /** From position `first` on the entries are newer than `lastTime`, and before it they are not. */
  ghost predicate SplitsAt<T>(data: seq<Stamped<T>>, lastTime: int, first: int) {
    forall i | 0 <= i < |data| :: data[i].time > lastTime <==> i >= first
  }

  lemma TailIsEnd<T>(data: seq<Stamped<T>>, begin: nat)
    requires begin <= |data|
    ensures |Values(data[begin..])| == |data| - begin && AreEndOf(Values(data[begin..]), data)
  {
  }

  class Buffer<T> {
    const kind: BufferType
    const nameOf: T -> string
    /** The size of one stored element, which stands for `sizeof( rdbus::Data )`. */
    const entrySize: Positive
    var data: seq<Stamped<T>>
    /** Every call of `Add` so far. */
    ghost var history: seq<Batch<T>>

    /** The buffer is where its history has brought it. */
    ghost predicate Valid()
      reads this
    {
      data == if kind.Stream? then StreamRun(history, Capacity()) else SingleRun(history, nameOf)
    }

    constructor (kind: BufferType, nameOf: T -> string, entrySize: Positive)
      ensures this.kind == kind && this.nameOf == nameOf && this.entrySize == entrySize
      ensures Valid() && data == [] && history == []
    {
      this.kind, this.nameOf, this.entrySize := kind, nameOf, entrySize;
      data, history := [], [];
    }

    /** How many elements fit `maxBytes`. */
    function Capacity(): nat {
      MAX_BYTES / entrySize
    }

    method RemoveIntersection(list: seq<T>)
      modifies this`data
      ensures data == Others(old(data), nameOf, list)
    {
      OthersOfNone(data, nameOf);
      for i := 0 to |list|
        invariant data == Others(old(data), nameOf, list[..i])
      {
        OthersStep(old(data), nameOf, list[..i], list[i]);
        assert list[..i + 1] == list[..i] + [list[i]];
        data := Without(data, nameOf, nameOf(list[i]));
      }
      assert list[..|list|] == list;
    }

    /** Pops from the front until what is left fits. */
    method ConstrainSize()
      modifies this`data
      ensures data == Suffix(old(data), Capacity())
      ensures |data| <= |old(data)| && data == old(data)[|old(data)| - |data|..]
      ensures |data| * entrySize <= MAX_BYTES
      ensures |data| < |old(data)| ==> (|data| + 1) * entrySize > MAX_BYTES
    {
      ghost var popped := 0;
      while |data| * entrySize > MAX_BYTES
        invariant popped <= |old(data)| && data == old(data)[popped..]
        invariant popped > 0 ==> |data| >= Capacity() && (|data| + 1) * entrySize > MAX_BYTES
        decreases |data|
      {
        OverfullIffAboveCapacity(|data|, entrySize);
        data := data[1..];
        popped := popped + 1;
      }
      OverfullIffAboveCapacity(|data|, entrySize);
    }

    /** The loop of `emplace_back`. */
    method AppendAll(list: seq<T>, now: int)
      modifies this`data
      ensures data == old(data) + StampAll(list, now)
      ensures |data| == |old(data)| + |list| && IsTailOf(data, old(data), list, now)
    {
      ghost var added := StampAll(list, now);
      for i := 0 to |list|
        invariant data == old(data) + added[..i]
      {
        assert added[..i + 1] == added[..i] + [added[i]];
        ConcatAssociates(old(data), added[..i], [added[i]]);
        data := data + [Stamped(now, list[i])];
      }
      assert added[..|list|] == added;
      StampedIsTail(old(data), list, now);
    }

    /** The body of `add`. */
    method Store(list: seq<T>, now: int)
      modifies this`data
      ensures kind.Stream? ==> IsTailOf(data, old(data), list, now) && FitsExactly(|old(data)| + |list|)
      ensures kind.Stream? ==> data == Suffix(old(data) + StampAll(list, now), Capacity())
      ensures kind.Single? ==> IsTailOf(data, Others(old(data), nameOf, list), list, now)
      ensures kind.Single? ==> data == Others(old(data), nameOf, list) + StampAll(list, now)
    {
      if kind == Single {
        RemoveIntersection(list);
        AppendAll(list, now);
      } else {
        AppendAll(list, now);
        ghost var all := data;
        ConstrainSize();
        TailOfTail(all, |all| - |data|, old(data), list, now);
      }
    }

    /** What the buffer holds fits, and with one more of `available` entries it would not. */
    ghost predicate FitsExactly(available: nat)
      reads this
    {
      |data| * entrySize <= MAX_BYTES && (|data| < available ==> (|data| + 1) * entrySize > MAX_BYTES)
    }

    /** `add`. The new entries come last, in the order of the list and stamped with the clock. In
        front of them a Stream keeps its newest entries, as many as fit, and a Single buffer those of
        devices that the list does not mention. */
    method Add(list: seq<T>, now: int)
      requires Valid()
      modifies this
      ensures Valid() && history == old(history) + [Batch(list, now)]
      ensures kind.Stream? ==> IsTailOf(data, old(data), list, now) && FitsExactly(|old(data)| + |list|)
      ensures kind.Single? ==> IsTailOf(data, Others(old(data), nameOf, list), list, now)
      ensures kind.Single? ==> |data| == |Others(old(data), nameOf, list)| + |list|
    {
      RunsGrow(history, Batch(list, now), Capacity(), nameOf);
      Store(list, now);
      history := history + [Batch(list, now)];
    }

    /** `parseFrom`: delivers the last entries of the buffer, in order. As long as the clock has not
        gone back, the binary search finds exactly what a linear filter would; a Single buffer
        delivers everything. */
    method ParseFrom(lastTime: int) returns (entries: seq<T>)
      requires Valid()
      ensures AreEndOf(entries, data)
      ensures kind.Stream? && ClockNeverGoesBack(history) ==> entries == Values(After(data, lastTime))
      ensures kind.Stream? && ClockNeverGoesBack(history) ==> SplitsAt(data, lastTime, |data| - |entries|)
      ensures kind.Single? ==> |entries| == |data|
    {
      var begin := 0;
      if kind == Stream {
        begin := UpperBound(data, lastTime);
        if ClockNeverGoesBack(history) {
          StreamStaysSorted(history, Capacity());
          AfterIsTail(data, lastTime, begin);
        }
      }
      entries := Values(data[begin..]);
      TailIsEnd(data, begin);
    }
  }

  lemma OverfullIffAboveCapacity(n: nat, size: Positive)
    ensures n * size > MAX_BYTES <==> n > MAX_BYTES / size
  {
    var capacity, left := MAX_BYTES / size, MAX_BYTES % size;
    assert MAX_BYTES == capacity * size + left;
    if n > capacity {
      assert n * size >= (capacity + 1) * size;
    } else {
      assert n * size <= capacity * size;
    }
  }

  // ---------- Whole runs, Stream ----------

  /** Everything ever added. */
  ghost function Everything<T>(batches: seq<Batch<T>>): seq<Stamped<T>> {
    if batches == [] then []
    else
      var last := batches[|batches| - 1];
      Everything(batches[..|batches| - 1]) + StampAll(last.list, last.now)
  }

  /** The entries of all batches, in the order of the batches and of each batch's list. */
  ghost function AddedEntries<T>(batches: seq<Batch<T>>): seq<T> {
    if batches == [] then [] else AddedEntries(batches[..|batches| - 1]) + batches[|batches| - 1].list
  }

  lemma {:induction false} EverythingIsAdded<T>(batches: seq<Batch<T>>)
    ensures Values(Everything(batches)) == AddedEntries(batches)
  {
    if batches != [] {
      var last := batches[|batches| - 1];
      EverythingIsAdded(batches[..|batches| - 1]);
      ValuesAppend(Everything(batches[..|batches| - 1]), StampAll(last.list, last.now));
      ValuesOfStamped(last.list, last.now);
    }
  }

  ghost function StreamRun<T>(batches: seq<Batch<T>>, capacity: nat): seq<Stamped<T>> {
    if batches == [] then []
    else
      var last := batches[|batches| - 1];
      Suffix(StreamRun(batches[..|batches| - 1], capacity) + StampAll(last.list, last.now), capacity)
  }

  ghost predicate ClockNeverGoesBack<T>(batches: seq<Batch<T>>) {
    forall i, j | 0 <= i < j < |batches| :: batches[i].now <= batches[j].now
  }

  lemma SuffixOfSuffix<T>(s: seq<T>, t: seq<T>, n: nat)
    ensures Suffix(Suffix(s, n) + t, n) == Suffix(s + t, n)
  {
  }

  lemma {:induction false} StreamIsSuffix<T>(batches: seq<Batch<T>>, capacity: nat)
    ensures StreamRun(batches, capacity) == Suffix(Everything(batches), capacity)
  {
    if batches != [] {
      var n := |batches| - 1;
      StreamIsSuffix(batches[..n], capacity);
      SuffixOfSuffix(Everything(batches[..n]), StampAll(batches[n].list, batches[n].now), capacity);
    }
  }

  /** `data` holds the last of the `added` entries, as many as fit, in order. */
  ghost predicate AreLastOf<T>(data: seq<Stamped<T>>, added: seq<T>, capacity: nat) {
    && |data| == Min(|added|, capacity)
    && forall i | 0 <= i < |data| :: data[i].value == added[|added| - |data| + i]
  }

  lemma SuffixAreLast<T>(data: seq<Stamped<T>>, added: seq<T>, capacity: nat)
    requires Values(data) == Suffix(added, capacity)
    ensures AreLastOf(data, added, capacity)
  {
    forall i | 0 <= i < |data| ensures data[i].value == added[|added| - |data| + i] {
      assert Values(data)[i] == Suffix(added, capacity)[i];
    }
  }

  /** However many entries have come and gone, the buffer holds the last of all entries ever added,
      as many as fit, in the order in which they were added. */
  lemma {:induction false} StreamKeepsNewest<T>(batches: seq<Batch<T>>, capacity: nat)
    ensures AreLastOf(StreamRun(batches, capacity), AddedEntries(batches), capacity)
  {
    StreamIsSuffix(batches, capacity);
    EverythingIsAdded(batches);
    ValuesSuffix(Everything(batches), capacity);
    SuffixAreLast(StreamRun(batches, capacity), AddedEntries(batches), capacity);
  }

  lemma {:induction false} EverythingSorted<T>(batches: seq<Batch<T>>)
    requires ClockNeverGoesBack(batches)
    ensures TimeSorted(Everything(batches))
    ensures forall e | e in Everything(batches) :: exists i | 0 <= i < |batches| :: batches[i].now == e.time
  {
    if batches != [] {
      var n := |batches| - 1;
      EverythingSorted(batches[..n]);
      forall e | e in Everything(batches) ensures exists i | 0 <= i < |batches| :: batches[i].now == e.time {
        if e in Everything(batches[..n]) {
          var i :| 0 <= i < n && batches[..n][i].now == e.time;
          assert batches[i].now == e.time;
        }
      }
    }
  }

  /** While the clock never goes back the buffer stays sorted, so the search in `ParseFrom`
      always delivers the entries newer than the caller's last access. */
  lemma StreamStaysSorted<T>(batches: seq<Batch<T>>, capacity: nat)
    requires ClockNeverGoesBack(batches)
    ensures TimeSorted(StreamRun(batches, capacity))
  {
    EverythingSorted(batches);
    StreamIsSuffix(batches, capacity);
  }

  // ---------- Whole runs, Single ----------

  ghost function SingleRun<T>(batches: seq<Batch<T>>, nameOf: T -> string): seq<Stamped<T>> {
    if batches == [] then []
    else
      var last := batches[|batches| - 1];
      Others(SingleRun(batches[..|batches| - 1], nameOf), nameOf, last.list) + StampAll(last.list, last.now)
  }

  lemma RunsGrow<T>(batches: seq<Batch<T>>, b: Batch<T>, capacity: nat, nameOf: T -> string)
    ensures StreamRun(batches + [b], capacity) == Suffix(StreamRun(batches, capacity) + StampAll(b.list, b.now), capacity)
    ensures SingleRun(batches + [b], nameOf) == Others(SingleRun(batches, nameOf), nameOf, b.list) + StampAll(b.list, b.now)
  {
    DropLast(batches, b);
  }

  /** `log` without the entries that a later entry of the same device supersedes. */
  ghost function Latest<T>(log: seq<Stamped<T>>, nameOf: T -> string): seq<Stamped<T>> {
    if log == [] then []
    else if Mentioned(log[1..], nameOf, nameOf(log[0].value)) then Latest(log[1..], nameOf)
    else [log[0]] + Latest(log[1..], nameOf)
  }

  ghost predicate DistinctNames<T>(list: seq<T>, nameOf: T -> string) {
    forall i, j | 0 <= i < j < |list| :: nameOf(list[i]) != nameOf(list[j])
  }

  ghost predicate OnePerDevice<T>(data: seq<Stamped<T>>, nameOf: T -> string) {
    forall i, j | 0 <= i < j < |data| :: nameOf(data[i].value) != nameOf(data[j].value)
  }

  lemma StampedNames<T>(list: seq<T>, now: int, nameOf: T -> string)
    ensures forall name :: Mentioned(StampAll(list, now), nameOf, name) <==> Named(list, nameOf, name)
    ensures OnePerDevice(StampAll(list, now), nameOf) <==> DistinctNames(list, nameOf)
  {
    var stamped := StampAll(list, now);
    forall name | Named(list, nameOf, name) ensures Mentioned(stamped, nameOf, name) {
      var i :| 0 <= i < |list| && nameOf(list[i]) == name;
      assert stamped[i] in stamped;
    }
    if OnePerDevice(stamped, nameOf) {
      forall i, j | 0 <= i < j < |list| ensures nameOf(list[i]) != nameOf(list[j]) {
        assert nameOf(stamped[i].value) != nameOf(stamped[j].value);
      }
    }
  }

  lemma {:induction false} LatestAppend<T>(log: seq<Stamped<T>>, list: seq<T>, now: int, nameOf: T -> string)
    requires DistinctNames(list, nameOf)
    ensures Latest(log + StampAll(list, now), nameOf) == Others(Latest(log, nameOf), nameOf, list) + StampAll(list, now)
  {
    var added := StampAll(list, now);
    if log == [] {
      assert log + added == added;
      StampedNames(list, now, nameOf);
      LatestOfDistinct(added, nameOf);
    } else {
      LatestAppend(log[1..], list, now, nameOf);
      LatestAppendStep(log[0], log[1..], list, now, nameOf);
      assert log == [log[0]] + log[1..];
      ConcatAssociates([log[0]], log[1..], added);
    }
  }

  lemma MentionedAfterAdding<T>(tail: seq<Stamped<T>>, list: seq<T>, now: int, nameOf: T -> string, name: string)
    ensures Mentioned(tail + StampAll(list, now), nameOf, name)
            <==> Mentioned(tail, nameOf, name) || Named(list, nameOf, name)
  {
    StampedNames(list, now, nameOf);
    MentionedAppend(tail, StampAll(list, now), nameOf);
  }

  lemma LatestAppendStep<T>(e: Stamped<T>, tail: seq<Stamped<T>>, list: seq<T>, now: int, nameOf: T -> string)
    requires var added := StampAll(list, now);
             Latest(tail + added, nameOf) == Others(Latest(tail, nameOf), nameOf, list) + added
    ensures var added := StampAll(list, now);
            Latest([e] + (tail + added), nameOf) == Others(Latest([e] + tail, nameOf), nameOf, list) + added
  {
    var added, name := StampAll(list, now), nameOf(e.value);
    var rest := Latest(tail, nameOf);
    LatestStep(e, tail, nameOf);
    LatestStep(e, tail + added, nameOf);
    OthersStepFront(e, rest, nameOf, list);
    MentionedAfterAdding(tail, list, now, nameOf, name);
    if !Mentioned(tail + added, nameOf, name) {
      ConcatAssociates([e], Others(rest, nameOf, list), added);
    }
  }

  lemma LatestStep<T>(e: Stamped<T>, tail: seq<Stamped<T>>, nameOf: T -> string)
    ensures Latest([e] + tail, nameOf)
         == if Mentioned(tail, nameOf, nameOf(e.value)) then Latest(tail, nameOf) else [e] + Latest(tail, nameOf)
  {
    assert ([e] + tail)[1..] == tail;
  }

  lemma OthersStepFront<T>(e: Stamped<T>, tail: seq<Stamped<T>>, nameOf: T -> string, list: seq<T>)
    ensures Others([e] + tail, nameOf, list)
         == if Named(list, nameOf, nameOf(e.value)) then Others(tail, nameOf, list) else [e] + Others(tail, nameOf, list)
  {
    assert ([e] + tail)[1..] == tail;
  }

  lemma HeadIsAlone<T>(log: seq<Stamped<T>>, nameOf: T -> string)
    requires OnePerDevice(log, nameOf) && log != []
    ensures !Mentioned(log[1..], nameOf, nameOf(log[0].value)) && OnePerDevice(log[1..], nameOf)
  {
    forall e | e in log[1..] ensures nameOf(e.value) != nameOf(log[0].value) {
      var q :| 0 <= q < |log| - 1 && log[1..][q] == e;
      assert log[q + 1] == e;
    }
  }

  lemma {:induction false} LatestOfDistinct<T>(log: seq<Stamped<T>>, nameOf: T -> string)
    requires OnePerDevice(log, nameOf)
    ensures Latest(log, nameOf) == log
  {
    if log != [] {
      HeadIsAlone(log, nameOf);
      LatestOfDistinct(log[1..], nameOf);
    }
  }

  /** Entry `p` of the log is the last one of its device. */
  ghost predicate IsLast<T>(log: seq<Stamped<T>>, nameOf: T -> string, p: nat) {
    p < |log| && forall q | p < q < |log| :: nameOf(log[q].value) != nameOf(log[p].value)
  }

  lemma {:induction false} LatestCoversDevices<T>(log: seq<Stamped<T>>, nameOf: T -> string)
    ensures forall name :: Mentioned(Latest(log, nameOf), nameOf, name) <==> Mentioned(log, nameOf, name)
    ensures OnePerDevice(Latest(log, nameOf), nameOf)
  {
    if log != [] {
      var tail, name := log[1..], nameOf(log[0].value);
      LatestCoversDevices(tail, nameOf);
      assert log == [log[0]] + tail;
      MentionedAppend([log[0]], tail, nameOf);
      MentionedOne(log[0], nameOf);
      MentionedAppend([log[0]], Latest(tail, nameOf), nameOf);
      if !Mentioned(tail, nameOf, name) {
        forall e | e in Latest(tail, nameOf) ensures nameOf(e.value) != name {
          assert !Mentioned(Latest(tail, nameOf), nameOf, name);
        }
      }
    }
  }

  /** The entries are found at the given positions of the log, each the last one of its device, in
      log order. */
  ghost predicate AreLastAt<T>(positions: seq<nat>, entries: seq<Stamped<T>>, log: seq<Stamped<T>>, nameOf: T -> string) {
    && |positions| == |entries|
    && (forall i | 0 <= i < |positions| :: IsLast(log, nameOf, positions[i]) && log[positions[i]] == entries[i])
    && (forall i, j | 0 <= i < j < |positions| :: positions[i] < positions[j])
  }

  lemma ShiftPositions<T>(rest: seq<nat>, entries: seq<Stamped<T>>, log: seq<Stamped<T>>, nameOf: T -> string)
    returns (shifted: seq<nat>)
    requires log != [] && AreLastAt(rest, entries, log[1..], nameOf)
    ensures AreLastAt(shifted, entries, log, nameOf) && forall i | 0 <= i < |shifted| :: shifted[i] > 0
  {
    shifted := seq(|rest|, i requires 0 <= i < |rest| => rest[i] + 1);
    forall i | 0 <= i < |shifted| ensures IsLast(log, nameOf, shifted[i]) && log[shifted[i]] == entries[i] {
      LastInTail(log, nameOf, rest[i]);
    }
  }

  lemma HeadPosition<T>(shifted: seq<nat>, entries: seq<Stamped<T>>, log: seq<Stamped<T>>, nameOf: T -> string)
    requires AreLastAt(shifted, entries, log, nameOf) && forall i | 0 <= i < |shifted| :: shifted[i] > 0
    requires log != [] && IsLast(log, nameOf, 0)
    ensures AreLastAt([0] + shifted, [log[0]] + entries, log, nameOf)
  {
  }

  lemma {:induction false} LatestPositions<T>(log: seq<Stamped<T>>, nameOf: T -> string) returns (positions: seq<nat>)
    ensures AreLastAt(positions, Latest(log, nameOf), log, nameOf)
  {
    if log == [] {
      positions := [];
    } else {
      var tail := log[1..];
      positions := LatestPositions(tail, nameOf);
      positions := ShiftPositions(positions, Latest(tail, nameOf), log, nameOf);
      if !Mentioned(tail, nameOf, nameOf(log[0].value)) {
        HeadIsLast(log, nameOf);
        HeadPosition(positions, Latest(tail, nameOf), log, nameOf);
        positions := [0] + positions;
      }
    }
  }

  /** `Latest` holds one entry for every device of the log, its most recent, in log order. */
  lemma LatestIsLatest<T>(log: seq<Stamped<T>>, nameOf: T -> string) returns (positions: seq<nat>)
    ensures OnePerDevice(Latest(log, nameOf), nameOf)
    ensures forall name :: Mentioned(Latest(log, nameOf), nameOf, name) <==> Mentioned(log, nameOf, name)
    ensures AreLastAt(positions, Latest(log, nameOf), log, nameOf)
  {
    LatestCoversDevices(log, nameOf);
    positions := LatestPositions(log, nameOf);
  }

  lemma LastInTail<T>(log: seq<Stamped<T>>, nameOf: T -> string, p: nat)
    requires log != [] && IsLast(log[1..], nameOf, p)
    ensures IsLast(log, nameOf, p + 1) && log[p + 1] == log[1..][p]
  {
    forall q | p + 1 < q < |log| ensures nameOf(log[q].value) != nameOf(log[p + 1].value) {
      assert log[q] == log[1..][q - 1];
    }
  }

  lemma HeadIsLast<T>(log: seq<Stamped<T>>, nameOf: T -> string)
    requires log != [] && !Mentioned(log[1..], nameOf, nameOf(log[0].value))
    ensures IsLast(log, nameOf, 0)
  {
    forall q | 0 < q < |log| ensures nameOf(log[q].value) != nameOf(log[0].value) {
      assert log[q] in log[1..];
    }
  }

  /** A Single buffer is a latest-value map: as long as no batch mentions a device twice, it holds
      exactly the entries that nothing later supersedes. */
  lemma {:induction false} SingleHoldsLatest<T>(batches: seq<Batch<T>>, nameOf: T -> string)
    requires forall i | 0 <= i < |batches| :: DistinctNames(batches[i].list, nameOf)
    ensures SingleRun(batches, nameOf) == Latest(Everything(batches), nameOf)
  {
    if batches != [] {
      var n := |batches| - 1;
      SingleHoldsLatest(batches[..n], nameOf);
      LatestAppend(Everything(batches[..n]), batches[n].list, batches[n].now, nameOf);
    }
  }

  /** The buffer holds one entry per device at every point of a run iff no batch of the run
      mentions a device twice. */
  lemma SingleHoldsOnePerDevice<T>(batches: seq<Batch<T>>, nameOf: T -> string)
    ensures (forall k | 0 <= k <= |batches| :: OnePerDevice(SingleRun(batches[..k], nameOf), nameOf))
            <==> (forall i | 0 <= i < |batches| :: DistinctNames(batches[i].list, nameOf))
  {
    if forall i | 0 <= i < |batches| :: DistinctNames(batches[i].list, nameOf) {
      forall k | 0 <= k <= |batches| ensures OnePerDevice(SingleRun(batches[..k], nameOf), nameOf) {
        SingleHoldsLatest(batches[..k], nameOf);
        var positions := LatestIsLatest(Everything(batches[..k]), nameOf);
      }
    } else {
      var i :| 0 <= i < |batches| && !DistinctNames(batches[i].list, nameOf);
      var list, state := batches[i].list, SingleRun(batches[..i + 1], nameOf);
      assert batches[..i + 1][..i] == batches[..i];
      var kept := |state| - |list|;
      var p, q :| 0 <= p < q < |list| && nameOf(list[p]) == nameOf(list[q]);
      assert state[kept + p].value == list[p] && state[kept + q].value == list[q];
      assert !OnePerDevice(state, nameOf);
    }
  }
}
