/** What clients of the HTTP output can rely on over whole runs. */
module SessionRuns {
  import opened Lists
  import opened Buffer
  import opened Sessioner
  import opened HttpServer

  // ---------- Which sessions are alive ----------

  /** What one read does to one session's entry in the table. */
  lemma CookieAfterRead<T>(s: State<T>, cookie: Option<int>, now: int, id: int)
    ensures var (after, reply) := AfterRead(s, cookie, now);
            var accessed := reply.Delivered? && (cookie == Some(id) || reply.setCookie == Some(id));
            && (accessed ==> id in after.cookies && after.cookies[id] == now)
            && (!accessed && id in after.cookies ==> id in s.cookies && after.cookies[id] == s.cookies[id])
            && (!accessed && id in s.cookies && id !in after.cookies ==> now - s.cookies[id] >= INACTIVITY_TIMEOUT)
  {
  }

  /** The session table after a run, told from the run alone: a stored session was last touched
      by its latest access, and a session that was touched but is gone had been idle too long. */
  lemma {:induction false} TableMatchesRun<T>(es: seq<Event<T>>, id: int, capacity: nat)
    requires ClockNondecreasing(es)
    ensures var cookies, j := Run(es, capacity).cookies, LastAccess(es, id, capacity);
            && (id in cookies ==> j.Some? && cookies[id] == es[j.value].now)
            && (j.Some? && id !in cookies ==> es[|es| - 1].now - es[j.value].now >= INACTIVITY_TIMEOUT)
  {
    if es != [] {
      var n := |es| - 1;
      TableMatchesRun(es[..n], id, capacity);
      var before, j := Run(es[..n], capacity), LastAccess(es[..n], id, capacity);
      assert n > 0 ==> es[n - 1].now <= es[n].now;
      assert j.Some? ==> es[..n][j.value] == es[j.value];
      if es[n].Read? {
        CookieAfterRead(before, es[n].cookie, es[n].now, id);
      }
    }
  }

  /** An access succeeds iff the session's latest access, its creation included, is less than
      five minutes old. */
  lemma AccessSucceedsIff<T>(es: seq<Event<T>>, id: int, now: int, capacity: nat)
    requires ClockNondecreasing(es + [Read(Some(id), now)])
    ensures var j := LastAccess(es, id, capacity);
            Answer(es, Read(Some(id), now), capacity).Delivered?
            <==> j.Some? && now - es[j.value].now < INACTIVITY_TIMEOUT
  {
    ClockOfPrefix(es, Read(Some(id), now));
    TableMatchesRun(es, id, capacity);
  }

  lemma ClockOfPrefix<T>(es: seq<Event<T>>, e: Event<T>)
    requires ClockNondecreasing(es + [e])
    ensures ClockNondecreasing(es) && forall i | 0 <= i < |es| :: es[i].now <= e.now
  {
    var all := es + [e];
    forall i, j | 0 <= i < j < |es| ensures es[i].now <= es[j].now {
      assert all[i].now <= all[j].now;
    }
    forall i | 0 <= i < |es| ensures es[i].now <= e.now {
      assert all[i].now <= all[|es|].now;
    }
  }

  // ---------- What a read delivers ----------

  lemma {:induction false} PartitionPoint<T>(log: seq<Stamped<T>>, time: int) returns (k: nat)
    requires TimeSorted(log)
    ensures k <= |log| && forall i | 0 <= i < |log| :: i < k <==> log[i].time <= time
  {
    if log == [] || log[|log| - 1].time <= time {
      k := |log|;
    } else {
      k := PartitionPoint(log[..|log| - 1], time);
    }
  }

  lemma AfterOfSuffix<T>(log: seq<Stamped<T>>, capacity: nat, time: int, k: nat)
    requires k <= |log| && forall i | 0 <= i < |log| :: i < k <==> log[i].time <= time
    ensures After(Suffix(log, capacity), time) == log[Max(k, |log| - capacity)..]
  {
    var dropped := Max(0, |log| - capacity);
    var suffix := Suffix(log, capacity);
    assert suffix == log[dropped..];
    AfterIsTail(suffix, time, Max(0, k - dropped));
  }

  /** What a live session is answered, told from the log. */
  lemma AnswerFromLog<T>(es: seq<Event<T>>, id: int, now: int, capacity: nat)
    requires ClockNondecreasing(es + [Read(Some(id), now)])
    requires Answer(es, Read(Some(id), now), capacity).Delivered?
    ensures ClockNondecreasing(es)
    ensures var j := LastAccess(es, id, capacity);
            && j.Some? && es[j.value].Read?
            && Answer(es, Read(Some(id), now), capacity)
               == Delivered(None, Values(After(Suffix(Log(es), capacity), es[j.value].now)))
  {
    ClockOfPrefix(es, Read(Some(id), now));
    TableMatchesRun(es, id, capacity);
    BufferIsSuffix(es, capacity);
  }

  /** The first `cut` entries of a log are no newer than `time` and the others no older. */
  ghost predicate Around<T>(log: seq<Stamped<T>>, cut: nat, time: int) {
    cut <= |log| && forall i | 0 <= i < |log| :: if i < cut then log[i].time <= time else log[i].time >= time
  }

  /** What a log holds after a given time. */
  lemma TailAfter<T>(log: seq<Stamped<T>>, cut: nat, time: int, capacity: nat) returns (p: nat)
    requires TimeSorted(log) && Around(log, cut, time)
    ensures var first := Max(cut, |log| - capacity);
            && first <= p <= |log| && After(Suffix(log, capacity), time) == log[p..]
            && (p == first <==> forall i | first <= i < |log| :: log[i].time != time)
  {
    var k := PartitionPoint(log, time);
    AfterOfSuffix(log, capacity, time, k);
    p := Max(k, |log| - capacity);
    var first := Max(cut, |log| - capacity);
    assert cut > 0 ==> log[cut - 1].time <= time;
    if first < p {
      assert log[first].time == time;
    }
  }

  /** None of the entries from position `first` on was sent after the `j`-th event at that event's
      clock reading. */
  ghost predicate NoneAtClockOf<T>(es: seq<Event<T>>, j: nat, first: nat)
    requires j < |es|
  {
    forall k | j < k < |es| && es[k].Send? && es[k].list != [] && es[k].now == es[j].now :: Cursor(es, k + 1) <= first
  }

  /** A live session's read, under a clock that never goes back, delivers the end of everything
      sent, in the order in which it was sent. It never starts before the session's previous read,
      so nothing is delivered twice, and it misses nothing that the buffer still holds iff none of
      the entries held was sent since then at the very clock reading of that previous read. */
  lemma ReadDelivers<T>(es: seq<Event<T>>, id: int, now: int, capacity: nat) returns (p: nat)
    requires ClockNondecreasing(es + [Read(Some(id), now)])
    requires Answer(es, Read(Some(id), now), capacity).Delivered?
    ensures var j, sent := LastAccess(es, id, capacity), SentEntries(es);
            && j.Some?
            && var first := Max(Cursor(es, j.value), |sent| - capacity);
               && first <= p <= |sent|
               && Answer(es, Read(Some(id), now), capacity) == Delivered(None, sent[p..])
               && (p == first <==> NoneAtClockOf(es, j.value, first))
  {
    AnswerFromLog(es, id, now, capacity);
    p := TailOfSent(es, LastAccess(es, id, capacity).value, capacity);
  }

  lemma TailOfSent<T>(es: seq<Event<T>>, j: nat, capacity: nat) returns (p: nat)
    requires ClockNondecreasing(es) && j < |es| && es[j].Read?
    ensures var sent, first := SentEntries(es), Max(Cursor(es, j), |SentEntries(es)| - capacity);
            && first <= p <= |sent| && Values(After(Suffix(Log(es), capacity), es[j].now)) == sent[p..]
            && (p == first <==> NoneAtClockOf(es, j, first))
  {
    p := TailAfterRead(es, j, capacity);
    LogEntries(es);
    ValuesTail(Log(es), p);
    TimesAndSends(es, j, Max(Cursor(es, j), |SentEntries(es)| - capacity));
  }

  /** The clock readings of the log against the sends they come from. */
  lemma TimesAndSends<T>(es: seq<Event<T>>, j: nat, first: nat)
    requires j < |es| && es[j].Read? && Cursor(es, j) <= first
    ensures (forall i | first <= i < |Log(es)| :: Log(es)[i].time != es[j].now) <==> NoneAtClockOf(es, j, first)
  {
    if NoneAtClockOf(es, j, first) {
      forall i | first <= i < |Log(es)| ensures Log(es)[i].time != es[j].now {
        SentAtOtherTime(es, j, first, i);
      }
    } else {
      var i := SentAtSameTime(es, j, first);
    }
  }

  lemma SentAtOtherTime<T>(es: seq<Event<T>>, j: nat, first: nat, i: nat)
    requires j < |es| && es[j].Read? && Cursor(es, j) <= first <= i < |Log(es)|
    requires NoneAtClockOf(es, j, first)
    ensures Log(es)[i].time != es[j].now
  {
    var k := LogOrigin(es, i);
    if k < j {
      CursorGrows(es, k + 1, j);
    }
  }

  lemma SentAtSameTime<T>(es: seq<Event<T>>, j: nat, first: nat) returns (i: nat)
    requires j < |es| && !NoneAtClockOf(es, j, first)
    ensures first <= i < |Log(es)| && Log(es)[i].time == es[j].now
  {
    var k :| j < k < |es| && es[k].Send? && es[k].list != [] && es[k].now == es[j].now && Cursor(es, k + 1) > first;
    i := LastSentAt(es, k);
  }

  lemma LastSentAt<T>(es: seq<Event<T>>, k: nat) returns (i: nat)
    requires k < |es| && es[k].Send? && es[k].list != []
    ensures i == Cursor(es, k + 1) - 1 && i < |Log(es)| && Log(es)[i].time == es[k].now
  {
    LastOfSend(es, k);
    CursorIsLog(es, k + 1);
    i := Cursor(es, k + 1) - 1;
  }

  /** The last entry of a send carries its clock reading. */
  lemma LastOfSend<T>(es: seq<Event<T>>, k: nat)
    requires k < |es| && es[k].Send? && es[k].list != []
    ensures 0 < |Log(es[..k + 1])| <= |Log(es)| && Log(es)[|Log(es[..k + 1])| - 1].time == es[k].now
  {
    LogAt(es, k + 1);
    assert es[..k + 1][..k] == es[..k];
  }

  lemma TailAfterRead<T>(es: seq<Event<T>>, j: nat, capacity: nat) returns (p: nat)
    requires ClockNondecreasing(es) && j < |es| && es[j].Read?
    ensures var log, first := Log(es), Max(Cursor(es, j), |Log(es)| - capacity);
            && first <= p <= |log| && After(Suffix(log, capacity), es[j].now) == log[p..]
            && (p == first <==> forall i | first <= i < |log| :: log[i].time != es[j].now)
  {
    LogSorted(es);
    LogAroundRead(es, j);
    p := TailAfter(Log(es), Cursor(es, j), es[j].now, capacity);
  }

  lemma LogAroundRead<T>(es: seq<Event<T>>, j: nat)
    requires ClockNondecreasing(es) && j < |es| && es[j].Read?
    ensures Around(Log(es), Cursor(es, j), es[j].now)
  {
    CursorIsLog(es, j);
    LogAt(es, j);
    TimesAroundRead(es, j);
    JoinedAround(Log(es[..j]), Log(es[j..]), es[j].now);
  }

  lemma CursorIsLog<T>(es: seq<Event<T>>, j: nat)
    requires j <= |es|
    ensures Cursor(es, j) == |Log(es[..j])|
  {
    LogEntries(es[..j]);
  }

  lemma JoinedAround<T>(before: seq<Stamped<T>>, since: seq<Stamped<T>>, time: int)
    requires forall e | e in before :: e.time <= time
    requires forall e | e in since :: e.time >= time
    ensures Around(before + since, |before|, time)
  {
    var log := before + since;
    forall i | 0 <= i < |log| ensures if i < |before| then log[i].time <= time else log[i].time >= time {
      assert if i < |before| then log[i] in before else log[i] in since;
    }
  }

  lemma TimesAroundRead<T>(es: seq<Event<T>>, j: nat)
    requires ClockNondecreasing(es) && j < |es| && es[j].Read?
    ensures forall e | e in Log(es[..j]) :: e.time <= es[j].now
    ensures forall e | e in Log(es[j..]) :: e.time >= es[j].now
    ensures ClockIncreasing(es) ==> forall e | e in Log(es[j..]) :: e.time > es[j].now
  {
    forall e | e in Log(es[..j]) ensures e.time <= es[j].now {
      TimesBefore(es, j, e);
    }
    forall e | e in Log(es[j..]) ensures e.time >= es[j].now && (ClockIncreasing(es) ==> e.time > es[j].now) {
      TimesSince(es, j, e);
    }
  }

  lemma SuffixOfTail<T>(s: seq<T>, k: nat, n: nat)
    requires k <= |s|
    ensures Suffix(s[k..], n) == s[Max(k, |s| - n)..]
  {
  }

  /** Exactly once: if the clock advances between locked sections, a read of a live session
      delivers precisely the entries sent since the session's previous read that have not been
      evicted, in the order in which they were sent. */
  lemma ReadDeliversExactlyNew<T>(es: seq<Event<T>>, id: int, now: int, capacity: nat)
    requires ClockIncreasing(es + [Read(Some(id), now)])
    requires Answer(es, Read(Some(id), now), capacity).Delivered?
    ensures var j := LastAccess(es, id, capacity);
            && j.Some?
            && Answer(es, Read(Some(id), now), capacity) == Delivered(None, Suffix(SentEntries(es[j.value..]), capacity))
  {
    StrictPrefix(es, Read(Some(id), now));
    AnswerFromLog(es, id, now, capacity);
    var j := LastAccess(es, id, capacity).value;
    NewerThanRead(es, j, capacity);
    LogEntries(es[j..]);
    ValuesSuffix(Log(es[j..]), capacity);
  }

  lemma NewerSuffix<T>(before: seq<Stamped<T>>, since: seq<Stamped<T>>, capacity: nat, time: int)
    requires forall e | e in before :: e.time <= time
    requires forall e | e in since :: e.time > time
    ensures After(Suffix(before + since, capacity), time) == Suffix(since, capacity)
  {
    var all := before + since;
    forall i | 0 <= i < |all| ensures i < |before| <==> all[i].time <= time {
      assert if i < |before| then all[i] in before else all[i] in since;
    }
    AfterOfSuffix(all, capacity, time, |before|);
    DropAll(before, since);
    SuffixOfTail(all, |before|, capacity);
  }

  /** The buffered entries newer than a read are those sent since. */
  lemma NewerThanRead<T>(es: seq<Event<T>>, j: nat, capacity: nat)
    requires ClockIncreasing(es) && j < |es| && es[j].Read?
    ensures After(Suffix(Log(es), capacity), es[j].now) == Suffix(Log(es[j..]), capacity)
  {
    TimesAroundRead(es, j);
    LogAt(es, j);
    NewerSuffix(Log(es[..j]), Log(es[j..]), capacity, es[j].now);
  }

  lemma StrictPrefix<T>(es: seq<Event<T>>, e: Event<T>)
    requires ClockIncreasing(es + [e])
    ensures ClockIncreasing(es)
  {
    var all := es + [e];
    forall i, j | 0 <= i < j < |es| ensures es[i].now < es[j].now {
      assert all[i].now < all[j].now;
    }
  }

  /** A read without a cookie delivers everything the buffer holds and opens a session whose id
      no stored session has. */
  lemma FirstReadDelivers<T>(es: seq<Event<T>>, now: int, capacity: nat)
    requires forall i | 0 <= i < |es| :: es[i].now > 0
    ensures var id := NextId(Run(es, capacity).cookies);
            && id !in Run(es, capacity).cookies
            && Answer(es, Read(None, now), capacity) == Delivered(Some(id), Suffix(SentEntries(es), capacity))
  {
    BufferIsSuffix(es, capacity);
    forall e | e in Log(es) ensures e.time > EPOCH {
      LogTimes(es, e);
    }
    NewerSuffix([], Log(es), capacity, EPOCH);
    ConcatNothing(Log(es));
    LogEntries(es);
    ValuesSuffix(Log(es), capacity);
  }

  /** With equal clock readings an entry can be lost: sent right after a read, at the same clock
      reading, it is never delivered to that session. */
  lemma EqualClockLosesEntry()
    ensures var es := [Read(None, 5), Send(["x"], 5)];
            && ClockNondecreasing(es + [Read(Some(1), 6)])
            && SentEntries(es) == ["x"]
            && Answer(es, Read(Some(1), 6), 10) == Delivered(None, [])
  {
    var es: seq<Event<string>> := [Read(None, 5), Send(["x"], 5)];
    assert es[..1] == [Read(None, 5)] && es[..1][..0] == [];
    assert Run(es[..1], 10) == State([], map[1 := 5]);
    assert Run(es, 10).buffer == [Stamped(5, "x")];
    assert SentEntries(es[..1]) == SentEntries(es[..1][..0]) + [];
    assert After(Run(es, 10).buffer, 5) == [];
  }

  // ---------- A whole session ----------

  /** All entries delivered to session `id` since it was last created, in order. */
  ghost function Received<T>(es: seq<Event<T>>, id: int, capacity: nat): seq<T> {
    if es == [] then []
    else
      var n := |es| - 1;
      if !Accesses(es[..n], es[n], id, capacity) then Received(es[..n], id, capacity)
      else
        (if es[n].cookie.None? then [] else Received(es[..n], id, capacity)) + Answer(es[..n], es[n], capacity).entries
  }

  /** Since session `id` was last created, no more than `capacity` entries were ever sent between
      two of its reads, nor before its first. */
  ghost predicate KeptUp<T>(es: seq<Event<T>>, id: int, capacity: nat) {
    es == [] ||
    var n := |es| - 1;
    if !Accesses(es[..n], es[n], id, capacity) then KeptUp(es[..n], id, capacity)
    else if es[n].cookie.None? then Cursor(es, n) <= capacity
    else
      var j := LastAccess(es[..n], id, capacity);
      KeptUp(es[..n], id, capacity) && j.Some? && |SentEntries(es[..n][j.value..])| <= capacity
  }

  lemma ClockToPrefix<T>(es: seq<Event<T>>, n: nat)
    requires n <= |es| && ClockIncreasing(es)
    ensures ClockIncreasing(es[..n])
  {
  }

  /** All of `sent` was received if `kept`, and fewer entries than that otherwise. */
  ghost predicate ReceivedAllIff<T>(received: seq<T>, sent: seq<T>, kept: bool) {
    if kept then received == sent else |received| < |sent|
  }

  /** One more read appends what was sent since, and falls behind iff that exceeds `capacity`. */
  lemma ReceivedGrows<T>(before: seq<T>, since: seq<T>, received: seq<T>, kept: bool, capacity: nat)
    requires ReceivedAllIff(received, before, kept)
    ensures ReceivedAllIff(received + Suffix(since, capacity), before + since, kept && |since| <= capacity)
  {
  }

  lemma FirstReceived<T>(sent: seq<T>, capacity: nat)
    ensures ReceivedAllIff(Suffix(sent, capacity), sent, |sent| <= capacity)
  {
  }

  /** The session has received all that was sent up to its latest read iff it kept up. */
  ghost predicate ReceivesWholeLog<T>(es: seq<Event<T>>, id: int, capacity: nat) {
    var j := LastAccess(es, id, capacity);
    j.Some? ==> ReceivedAllIff(Received(es, id, capacity), SentEntries(es[..j.value]), KeptUp(es, id, capacity))
  }

  lemma OtherEventAddsNothing<T>(es: seq<Event<T>>, id: int, capacity: nat)
    requires es != [] && !Accesses(es[..|es| - 1], es[|es| - 1], id, capacity)
    requires ReceivesWholeLog(es[..|es| - 1], id, capacity)
    ensures ReceivesWholeLog(es, id, capacity)
  {
    var prefix, j := es[..|es| - 1], LastAccess(es, id, capacity);
    assert j.Some? ==> prefix[..j.value] == es[..j.value];
  }

  lemma FirstReadAddsLog<T>(es: seq<Event<T>>, id: int, capacity: nat)
    requires es != [] && forall i | 0 <= i < |es| :: es[i].now > 0
    requires var n := |es| - 1; Accesses(es[..n], es[n], id, capacity) && es[n].cookie.None?
    ensures ReceivesWholeLog(es, id, capacity)
  {
    var n := |es| - 1;
    FirstReadDelivers(es[..n], es[n].now, capacity);
    FirstReceived(SentEntries(es[..n]), capacity);
    ConcatNothing(Suffix(SentEntries(es[..n]), capacity));
  }

  lemma SentAt<T>(es: seq<Event<T>>, j: nat)
    requires j <= |es|
    ensures SentEntries(es) == SentEntries(es[..j]) + SentEntries(es[j..])
  {
    LogAt(es, j);
    LogEntries(es);
    LogEntries(es[..j]);
    LogEntries(es[j..]);
    ValuesAppend(Log(es[..j]), Log(es[j..]));
  }

  /** What a read adds to a session that exists, whose previous read was the `j`-th event. */
  lemma LaterReadAdds<T>(es: seq<Event<T>>, id: int, capacity: nat) returns (j: nat)
    requires ClockIncreasing(es) && es != []
    requires var n := |es| - 1; Accesses(es[..n], es[n], id, capacity) && es[n].cookie.Some?
    ensures var prefix := es[..|es| - 1];
            && LastAccess(es, id, capacity) == Some(|prefix|)
            && LastAccess(prefix, id, capacity) == Some(j) && j <= |prefix|
            && Received(es, id, capacity) == Received(prefix, id, capacity) + Suffix(SentEntries(prefix[j..]), capacity)
            && (KeptUp(es, id, capacity) <==> KeptUp(prefix, id, capacity) && |SentEntries(prefix[j..])| <= capacity)
  {
    var n := |es| - 1;
    var prefix := es[..n];
    assert es == prefix + [es[n]];
    ReadDeliversExactlyNew(prefix, id, es[n].now, capacity);
    j := LastAccess(prefix, id, capacity).value;
  }

  lemma LaterReadAddsRest<T>(es: seq<Event<T>>, id: int, capacity: nat)
    requires ClockIncreasing(es) && es != []
    requires var n := |es| - 1; Accesses(es[..n], es[n], id, capacity) && es[n].cookie.Some?
    requires ReceivesWholeLog(es[..|es| - 1], id, capacity)
    ensures ReceivesWholeLog(es, id, capacity)
  {
    var prefix := es[..|es| - 1];
    var j := LaterReadAdds(es, id, capacity);
    SentAt(prefix, j);
    ReceivedGrows(SentEntries(prefix[..j]), SentEntries(prefix[j..]), Received(prefix, id, capacity),
                  KeptUp(prefix, id, capacity), capacity);
  }

  /** Under an advancing clock a session has received the whole log up to its latest read, every
      entry once and in order, iff it always read before `capacity` unread entries were exceeded;
      otherwise it has received fewer entries. */
  lemma {:induction false} SessionReceivesWholeLog<T>(es: seq<Event<T>>, id: int, capacity: nat)
    requires ClockIncreasing(es) && forall i | 0 <= i < |es| :: es[i].now > 0
    ensures ReceivesWholeLog(es, id, capacity)
  {
    if es != [] {
      var n := |es| - 1;
      ClockToPrefix(es, n);
      SessionReceivesWholeLog(es[..n], id, capacity);
      if !Accesses(es[..n], es[n], id, capacity) {
        OtherEventAddsNothing(es, id, capacity);
      } else if es[n].cookie.None? {
        FirstReadAddsLog(es, id, capacity);
      } else {
        LaterReadAddsRest(es, id, capacity);
      }
    }
  }

  // ---------- A whole session under a clock that only never goes back ----------

  /** `received` are the entries that `sent` holds at the strictly ascending positions `at`. */
  ghost predicate IsSelection<T>(at: seq<nat>, received: seq<T>, sent: seq<T>) {
    && |at| == |received|
    && (forall i | 0 <= i < |at| :: at[i] < |sent| && sent[at[i]] == received[i])
    && (forall i, j | 0 <= i < j < |at| :: at[i] < at[j])
  }

  function PositionsFrom(p: nat, n: nat): (at: seq<nat>)
    requires p <= n
    ensures |at| == n - p
  {
    seq(n - p, i requires 0 <= i < n - p => p + i)
  }

  lemma SelectTail<T>(at: seq<nat>, received: seq<T>, before: seq<T>, sent: seq<T>, p: nat)
    requires IsSelection(at, received, before) && before <= sent && |before| <= p <= |sent|
    ensures IsSelection(at + PositionsFrom(p, |sent|), received + sent[p..], sent)
  {
    var more := PositionsFrom(p, |sent|);
    forall i | 0 <= i < |at + more|
      ensures (at + more)[i] < |sent| && sent[(at + more)[i]] == (received + sent[p..])[i]
    {
      if i >= |at| {
        assert (received + sent[p..])[i] == sent[p..][i - |at|];
      }
    }
  }

  /** Under a clock that never goes back, a session receives nothing twice and everything in order,
      over its whole life: what it has received are entries sent up to its latest read, at strictly
      ascending positions. */
  lemma {:induction false} SessionReceivesInOrder<T>(es: seq<Event<T>>, id: int, capacity: nat) returns (at: seq<nat>)
    requires ClockNondecreasing(es) && LastAccess(es, id, capacity).Some?
    ensures IsSelection(at, Received(es, id, capacity), SentEntries(es[..LastAccess(es, id, capacity).value]))
  {
    var n := |es| - 1;
    var prefix := es[..n];
    assert es == prefix + [es[n]];
    if !Accesses(prefix, es[n], id, capacity) {
      var j := LastAccess(prefix, id, capacity).value;
      assert prefix[..j] == es[..j];
      at := SessionReceivesInOrder(prefix, id, capacity);
    } else if es[n].cookie.None? {
      var p := FirstReadIsTail(prefix, es[n].now, capacity);
      SelectTail([], [], [], SentEntries(prefix), p);
      at := [] + PositionsFrom(p, |SentEntries(prefix)|);
    } else {
      var p := NextReadIsTail(prefix, id, es[n].now, capacity);
      at := SessionReceivesInOrder(prefix, id, capacity);
      var j := LastAccess(prefix, id, capacity).value;
      SentAt(prefix, j);
      SelectTail(at, Received(prefix, id, capacity), SentEntries(prefix[..j]), SentEntries(prefix), p);
      at := at + PositionsFrom(p, |SentEntries(prefix)|);
    }
  }

  /** A later read continues at or after the entry where the session's previous read ended. */
  lemma NextReadIsTail<T>(es: seq<Event<T>>, id: int, now: int, capacity: nat) returns (p: nat)
    requires ClockNondecreasing(es + [Read(Some(id), now)])
    requires Answer(es, Read(Some(id), now), capacity).Delivered?
    ensures LastAccess(es, id, capacity).Some?
    ensures Cursor(es, LastAccess(es, id, capacity).value) <= p <= |SentEntries(es)|
    ensures Answer(es, Read(Some(id), now), capacity) == Delivered(None, SentEntries(es)[p..])
  {
    p := ReadDelivers(es, id, now, capacity);
  }

  lemma FirstReadIsTail<T>(es: seq<Event<T>>, now: int, capacity: nat) returns (p: nat)
    requires ClockNondecreasing(es)
    ensures p <= |SentEntries(es)|
    ensures Answer(es, Read(None, now), capacity) == Delivered(Some(NextId(Run(es, capacity).cookies)), SentEntries(es)[p..])
  {
    BufferIsSuffix(es, capacity);
    LogSorted(es);
    LogEntries(es);
    var k := PartitionPoint(Log(es), EPOCH);
    AfterOfSuffix(Log(es), capacity, EPOCH, k);
    p := Max(k, |Log(es)| - capacity);
    ValuesTail(Log(es), p);
  }

  // ---------- Sessions do not disturb each other ----------

  ghost function AfterReads<T>(s: State<T>, others: seq<Event<T>>): State<T>
    requires forall e | e in others :: e.Read?
    decreases |others|
  {
    if others == [] then s else AfterReads(AfterRead(s, others[0].cookie, others[0].now).0, others[1..])
  }

  /** However many reads other clients make, with a cookie or without, they never change what an
      unexpired session will be answered next. */
  lemma {:induction false} OthersDoNotDisturb<T>(s: State<T>, others: seq<Event<T>>, id: int, now: int)
    requires forall e | e in others :: e.Read? && e.cookie != Some(id) && e.now <= now
    requires id in s.cookies && now - s.cookies[id] < INACTIVITY_TIMEOUT
    ensures AfterRead(AfterReads(s, others), Some(id), now).1 == AfterRead(s, Some(id), now).1
    ensures AfterRead(s, Some(id), now).1.Delivered?
    decreases |others|
  {
    if others != [] {
      var next := AfterRead(s, others[0].cookie, others[0].now).0;
      CookieAfterRead(s, others[0].cookie, others[0].now, id);
      OthersDoNotDisturb(next, others[1..], id, now);
    }
  }

  // ---------- Session ids ----------

  /** Session `id` was handed out by the `k`-th event. */
  ghost predicate IssuedAt<T>(es: seq<Event<T>>, k: nat, id: int, capacity: nat)
    requires k < |es|
  {
    es[k] == Read(None, es[k].now) && NextId(Run(es[..k], capacity).cookies) == id
  }

  ghost predicate Issued<T>(es: seq<Event<T>>, id: int, capacity: nat) {
    exists k | 0 <= k < |es| :: IssuedAt(es, k, id, capacity)
  }

  /** The highest id handed out so far, or 0. */
  ghost function HighestIssued<T>(es: seq<Event<T>>, capacity: nat): int {
    if es == [] then 0
    else
      var n := |es| - 1;
      var before := HighestIssued(es[..n], capacity);
      if es[n].Read? && es[n].cookie.None? then Max(before, NextId(Run(es[..n], capacity).cookies)) else before
  }

  lemma IssuedExtends<T>(es: seq<Event<T>>, id: int, capacity: nat)
    requires es != []
    ensures var n := |es| - 1;
            Issued(es, id, capacity) <==> Issued(es[..n], id, capacity) || IssuedAt(es, n, id, capacity)
  {
    var n := |es| - 1;
    if k :| 0 <= k < |es| && IssuedAt(es, k, id, capacity) {
      if k < n {
        assert es[..n][..k] == es[..k];
        assert IssuedAt(es[..n], k, id, capacity);
      }
    }
    if k :| 0 <= k < n && IssuedAt(es[..n], k, id, capacity) {
      assert es[..n][..k] == es[..k];
      assert IssuedAt(es, k, id, capacity);
    }
  }

  /** Ids are handed out without gaps, and only ids that were handed out are stored. */
  lemma {:induction false} IssuedIds<T>(es: seq<Event<T>>, id: int, capacity: nat)
    ensures Issued(es, id, capacity) <==> 1 <= id <= HighestIssued(es, capacity)
    ensures id in Run(es, capacity).cookies ==> 1 <= id <= HighestIssued(es, capacity)
  {
    if es != [] {
      var n := |es| - 1;
      IssuedExtends(es, id, capacity);
      IssuedIds(es[..n], id, capacity);
      var cookies := Run(es[..n], capacity).cookies;
      if cookies.Keys != {} {
        IssuedIds(es[..n], MaxOf(cookies.Keys), capacity);
      }
    }
  }

  /** A new session gets an id that an earlier session already had iff the highest id ever handed
      out is no longer stored. */
  lemma NewIdIsReused<T>(es: seq<Event<T>>, capacity: nat)
    ensures var cookies, highest := Run(es, capacity).cookies, HighestIssued(es, capacity);
            Issued(es, NextId(cookies), capacity) <==> highest > 0 && highest !in cookies
  {
    var cookies, highest := Run(es, capacity).cookies, HighestIssued(es, capacity);
    IssuedIds(es, NextId(cookies), capacity);
    if cookies.Keys != {} {
      IssuedIds(es, MaxOf(cookies.Keys), capacity);
      assert highest in cookies <==> MaxOf(cookies.Keys) == highest;
    } else {
      assert highest !in cookies.Keys;
    }
  }

  /** A client that stays away for five minutes can lose its id to a later client. */
  lemma ExpiredIdIsReused()
    ensures var es: seq<Event<string>> := [Read(None, 1), Read(Some(1), 1 + INACTIVITY_TIMEOUT)];
            Issued(es, 1, 10) && NextId(Run(es, 10).cookies) == 1
  {
    var es: seq<Event<string>> := [Read(None, 1), Read(Some(1), 1 + INACTIVITY_TIMEOUT)];
    assert es[..1] == [Read(None, 1)] && es[..1][..0] == [];
    assert Run(es[..1], 10) == State([], map[1 := 1]);
    assert Run(es, 10).cookies.Keys == {};
    assert es[..0] == [];
    assert IssuedAt(es, 0, 1, 10);
  }
}
