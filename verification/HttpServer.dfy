/** The locked sections of the HTTP output as atomic steps: `out/http/HTTP.cpp`. */
module HttpServer {
  import opened Lists
  import opened Buffer
  import opened Sessioner

  /** `/read` either finds no live session, or delivers entries and perhaps sets a cookie. */
  datatype Reply<+T> = Expired | Delivered(setCookie: Option<int>, entries: seq<T>)

  /** One locked section, with the clock reading it makes. */
  datatype Event<+T> = Send(list: seq<T>, now: int) | Read(cookie: Option<int>, now: int)

  datatype State<+T> = State(buffer: seq<Stamped<T>>, cookies: map<int, int>)

  /** The default-constructed time point that a client without a cookie reads from. */
  const EPOCH := 0

  // ---------- The step ----------

  function AfterSend<T>(s: State<T>, list: seq<T>, now: int, capacity: nat): State<T> {
    s.(buffer := Suffix(s.buffer + StampAll(list, now), capacity))
  }

  /** The session table after a read: without a cookie a session is created; with one, what has
      expired is cleared and the session, if still there, is touched. */
  function CookiesAfterRead(cookies: map<int, int>, cookie: Option<int>, now: int): map<int, int> {
    match cookie
    case None => cookies[NextId(cookies) := now]
    case Some(id) =>
      var live := Unexpired(cookies, now);
      if id in live then live[id := now] else live
  }

  /** The time from which a read delivers, unless its session is gone. */
  function ReadFrom(cookies: map<int, int>, cookie: Option<int>, now: int): Option<int> {
    match cookie
    case None => Some(EPOCH)
    case Some(id) => if id in Unexpired(cookies, now) then Some(cookies[id]) else None
  }

  function AfterRead<T>(s: State<T>, cookie: Option<int>, now: int): (State<T>, Reply<T>) {
    var after := s.(cookies := CookiesAfterRead(s.cookies, cookie, now));
    match ReadFrom(s.cookies, cookie, now)
    case None => (after, Expired)
    case Some(time) =>
      (after, Delivered(if cookie.None? then Some(NextId(s.cookies)) else None, Values(After(s.buffer, time))))
  }

  // ---------- Runs ----------

  ghost function Step<T>(s: State<T>, e: Event<T>, capacity: nat): State<T> {
    match e
    case Send(list, now) => AfterSend(s, list, now, capacity)
    case Read(cookie, now) => AfterRead(s, cookie, now).0
  }

  ghost function Run<T>(es: seq<Event<T>>, capacity: nat): State<T> {
    if es == [] then State([], map[]) else Step(Run(es[..|es| - 1], capacity), es[|es| - 1], capacity)
  }

  /** What the read `e` is answered after the run `es`. */
  ghost function Answer<T>(es: seq<Event<T>>, e: Event<T>, capacity: nat): Reply<T>
    requires e.Read?
  {
    AfterRead(Run(es, capacity), e.cookie, e.now).1
  }

  /** The calls of `Buffer.Add` that a run makes. */
  ghost function Sent<T>(es: seq<Event<T>>): seq<Batch<T>> {
    if es == [] then []
    else
      var last := es[|es| - 1];
      if last.Send? then Sent(es[..|es| - 1]) + [Batch(last.list, last.now)] else Sent(es[..|es| - 1])
  }

  /** Everything that was ever sent, oldest first, with its time. */
  ghost function Log<T>(es: seq<Event<T>>): seq<Stamped<T>> {
    if es == [] then []
    else
      var last := es[|es| - 1];
      Log(es[..|es| - 1]) + Added(last)
  }

  /** Everything that was ever sent: the lists of all sends, one after the other. */
  ghost function SentEntries<T>(es: seq<Event<T>>): seq<T> {
    if es == [] then []
    else SentEntries(es[..|es| - 1]) + if es[|es| - 1].Send? then es[|es| - 1].list else []
  }

  ghost predicate ClockNondecreasing<T>(es: seq<Event<T>>) {
    forall i, j | 0 <= i < j < |es| :: es[i].now <= es[j].now
  }

  ghost predicate ClockIncreasing<T>(es: seq<Event<T>>) {
    forall i, j | 0 <= i < j < |es| :: es[i].now < es[j].now
  }

  /** The read `e` is an access of session `id`: it creates the session or is delivered to it. */
  ghost predicate Accesses<T>(es: seq<Event<T>>, e: Event<T>, id: int, capacity: nat) {
    && e.Read?
    && var reply := Answer(es, e, capacity);
       reply.Delivered? && (e.cookie == Some(id) || reply.setCookie == Some(id))
  }

  /** The position of the latest access of session `id`. */
  ghost function LastAccess<T>(es: seq<Event<T>>, id: int, capacity: nat): (j: Option<nat>)
    ensures j.Some? ==> j.value < |es| && es[j.value].Read?
  {
    if es == [] then None
    else
      var n := |es| - 1;
      if Accesses(es[..n], es[n], id, capacity) then Some(n) else LastAccess(es[..n], id, capacity)
  }

  /** That position is the last one at which the session is accessed. */
  lemma {:induction false} LastAccessIsLatest<T>(es: seq<Event<T>>, id: int, capacity: nat, k: nat)
    requires k < |es|
    ensures var j := LastAccess(es, id, capacity);
            && (j == Some(k) ==> Accesses(es[..k], es[k], id, capacity))
            && (j == None || j.value < k ==> !Accesses(es[..k], es[k], id, capacity))
  {
    var n := |es| - 1;
    if k < n {
      LastAccessIsLatest(es[..n], id, capacity, k);
      assert es[..n][..k] == es[..k] && es[..n][k] == es[k];
    }
  }

  /** How many entries had been sent before the `j`-th event. */
  ghost function Cursor<T>(es: seq<Event<T>>, j: nat): nat
    requires j <= |es|
  {
    |SentEntries(es[..j])|
  }

  // ---------- The server ----------

  class Http<T> {
    const storage: Buffer<T>
    const sessioner: Sessioner
    /** Every locked section so far. */
    ghost var events: seq<Event<T>>

    /** The state is where the run of events has brought it. */
    ghost predicate Valid()
      reads this, storage, sessioner
    {
      && storage.Valid() && storage.kind.Stream?
      && storage.history == Sent(events)
      && State(storage.data, sessioner.cookies) == Run(events, Capacity())
    }

    ghost function Capacity(): nat {
      storage.Capacity()
    }

    constructor (nameOf: T -> string, entrySize: Positive)
      ensures Valid() && fresh(storage) && fresh(sessioner) && events == []
    {
      storage := new Buffer(Stream, nameOf, entrySize);
      sessioner := new Sessioner();
      events := [];
    }

    /** The locked section of `send`. */
    method SendData(list: seq<T>, now: int)
      requires Valid()
      modifies this`events, storage
      ensures Valid() && events == old(events) + [Send(list, now)]
    {
      OneMoreSend(events, list, now, Capacity());
      storage.Add(list, now);
      events := events + [Send(list, now)];
    }

    /** The session part of the `/read` handler: the time to read from and the cookie to set, if
        the session is not gone. */
    method AccessSession(cookie: Option<int>, now: int) returns (lastTime: Option<int>, setCookie: Option<int>)
      modifies sessioner
      ensures sessioner.cookies == CookiesAfterRead(old(sessioner.cookies), cookie, now)
      ensures lastTime == ReadFrom(old(sessioner.cookies), cookie, now)
      ensures setCookie == if cookie.None? then Some(NextId(old(sessioner.cookies))) else None
    {
      setCookie := None;
      if cookie.Some? {
        lastTime := sessioner.GetLastAccessTime(cookie.value, now);
      } else {
        var sessionId := sessioner.Create(now);
        lastTime, setCookie := Some(EPOCH), Some(sessionId);
      }
    }

    /** The locked section of the `/read` handler. An expired session still leaves the expired
        cookies cleared behind. What is delivered is only known while the clock has not gone back,
        because only then the buffer is sorted. */
    method ReadData(cookie: Option<int>, now: int) returns (reply: Reply<T>)
      requires Valid()
      modifies this`events, sessioner
      ensures Valid() && events == old(events) + [Read(cookie, now)]
      ensures reply.Expired? <==> Answer(old(events), Read(cookie, now), Capacity()).Expired?
      ensures ClockNondecreasing(old(events)) ==> reply == Answer(old(events), Read(cookie, now), Capacity())
    {
      ghost var before := events;
      var lastTime, setCookie := AccessSession(cookie, now);
      events := events + [Read(cookie, now)];
      OneMoreRead(before, cookie, now, Capacity());
      if lastTime.None? {
        return Expired;
      }
      var json := storage.ParseFrom(lastTime.value);
      reply := Delivered(setCookie, json);
      if ClockNondecreasing(before) {
        SentClock(before);
      }
    }
  }

  lemma OneMoreSend<T>(es: seq<Event<T>>, list: seq<T>, now: int, capacity: nat)
    ensures Sent(es + [Send(list, now)]) == Sent(es) + [Batch(list, now)]
    ensures Run(es + [Send(list, now)], capacity) == AfterSend(Run(es, capacity), list, now, capacity)
    ensures StreamRun(Sent(es) + [Batch(list, now)], capacity)
         == Suffix(StreamRun(Sent(es), capacity) + StampAll(list, now), capacity)
  {
    DropLast(es, Send(list, now));
    DropLast(Sent(es), Batch(list, now));
  }

  lemma OneMoreRead<T>(es: seq<Event<T>>, cookie: Option<int>, now: int, capacity: nat)
    ensures Sent(es + [Read(cookie, now)]) == Sent(es)
    ensures Run(es + [Read(cookie, now)], capacity)
            == Run(es, capacity).(cookies := CookiesAfterRead(Run(es, capacity).cookies, cookie, now))
  {
    DropLast(es, Read(cookie, now));
  }

  lemma {:induction false} SentClock<T>(es: seq<Event<T>>)
    requires ClockNondecreasing(es)
    ensures ClockNeverGoesBack(Sent(es))
    ensures forall b | b in Sent(es) :: exists i | 0 <= i < |es| :: es[i].now == b.now
  {
    if es != [] {
      var n := |es| - 1;
      SentClock(es[..n]);
      forall b | b in Sent(es) ensures exists i | 0 <= i < |es| :: es[i].now == b.now {
        if b in Sent(es[..n]) {
          var i :| 0 <= i < n && es[..n][i].now == b.now;
          assert es[i].now == b.now;
        }
      }
    }
  }

  // ---------- The log and the clock ----------

  lemma {:induction false} BufferIsSuffix<T>(es: seq<Event<T>>, capacity: nat)
    ensures Run(es, capacity).buffer == Suffix(Log(es), capacity)
  {
    if es != [] {
      var n := |es| - 1;
      BufferIsSuffix(es[..n], capacity);
      if es[n].Send? {
        SuffixOfSuffix(Log(es[..n]), StampAll(es[n].list, es[n].now), capacity);
      } else {
        ConcatNothing(Log(es[..n]));
      }
    }
  }

  /** After any interleaving of sends and reads the buffer holds the last of the entries sent, as
      many as fit, in the order in which they were sent. */
  lemma {:induction false} BufferHoldsNewest<T>(es: seq<Event<T>>, capacity: nat)
    ensures AreLastOf(Run(es, capacity).buffer, SentEntries(es), capacity)
  {
    BufferIsSuffix(es, capacity);
    LogEntries(es);
    ValuesSuffix(Log(es), capacity);
    SuffixAreLast(Run(es, capacity).buffer, SentEntries(es), capacity);
  }

  /** The log's entries are the lists sent, in order. */
  lemma {:induction false} LogEntries<T>(es: seq<Event<T>>)
    ensures Values(Log(es)) == SentEntries(es)
  {
    if es != [] {
      var n := |es| - 1;
      LogEntries(es[..n]);
      ValuesAppend(Log(es[..n]), Added(es[n]));
      if es[n].Send? {
        ValuesOfStamped(es[n].list, es[n].now);
      }
    }
  }

  /** The `i`-th entry of the log comes from the `k`-th event, a send, and carries its clock reading. */
  lemma {:induction false} LogOrigin<T>(es: seq<Event<T>>, i: nat) returns (k: nat)
    requires i < |Log(es)|
    ensures k < |es| && es[k].Send? && es[k].list != [] && Log(es)[i].time == es[k].now
    ensures Cursor(es, k) <= i < Cursor(es, k + 1)
  {
    var n := |es| - 1;
    LogEntries(es);
    LogEntries(es[..n]);
    if i < |Log(es[..n])| {
      k := LogOrigin(es[..n], i);
      assert es[..n][..k] == es[..k] && es[..n][..k + 1] == es[..k + 1] && es[..n][k] == es[k];
    } else {
      k := n;
      assert es[..n + 1] == es;
    }
  }

  lemma {:induction false} CursorGrows<T>(es: seq<Event<T>>, k: nat, j: nat)
    requires k <= j <= |es|
    ensures Cursor(es, k) <= Cursor(es, j)
  {
    if k < j {
      CursorGrows(es, k, j - 1);
      assert es[..j][..j - 1] == es[..j - 1];
    }
  }

  /** What one event adds to the log. */
  ghost function Added<T>(e: Event<T>): seq<Stamped<T>> {
    if e.Send? then StampAll(e.list, e.now) else []
  }

  lemma LogAppend<T>(es: seq<Event<T>>, e: Event<T>)
    ensures Log(es + [e]) == Log(es) + Added(e)
  {
    DropLast(es, e);
  }

  lemma {:induction false} LogSplit<T>(p: seq<Event<T>>, q: seq<Event<T>>)
    ensures Log(p + q) == Log(p) + Log(q)
  {
    if q == [] {
      ConcatNothing(p);
    } else {
      var n := |q| - 1;
      LogSplit(p, q[..n]);
      CutAt(q, n);
      assert q[n..] == [q[n]];
      ConcatAssociates(p, q[..n], [q[n]]);
      LogAppend(p + q[..n], q[n]);
      ConcatAssociates(Log(p), Log(q[..n]), Added(q[n]));
    }
  }

  /** Every logged entry carries the clock reading of some send. */
  lemma {:induction false} LogTimes<T>(es: seq<Event<T>>, e: Stamped<T>)
    requires e in Log(es)
    ensures exists i | 0 <= i < |es| :: es[i].Send? && es[i].now == e.time
  {
    var n := |es| - 1;
    if e in Log(es[..n]) {
      LogTimes(es[..n], e);
      var i :| 0 <= i < n && es[..n][i].Send? && es[..n][i].now == e.time;
      assert es[i].Send?;
    }
  }

  lemma LogAt<T>(es: seq<Event<T>>, j: nat)
    requires j <= |es|
    ensures Log(es) == Log(es[..j]) + Log(es[j..]) && Log(es[..j]) <= Log(es)
  {
    CutAt(es, j);
    LogSplit(es[..j], es[j..]);
  }

  /** What was logged before a read is no newer than it. */
  lemma TimesBefore<T>(es: seq<Event<T>>, j: nat, e: Stamped<T>)
    requires ClockNondecreasing(es) && j < |es| && e in Log(es[..j])
    ensures e.time <= es[j].now
  {
    LogTimes(es[..j], e);
    var i :| 0 <= i < j && es[..j][i].Send? && es[..j][i].now == e.time;
    assert es[i].now <= es[j].now;
  }

  /** What is logged after a read is no older than it, and is newer under a strict clock. */
  lemma TimesSince<T>(es: seq<Event<T>>, j: nat, e: Stamped<T>)
    requires ClockNondecreasing(es) && j < |es| && es[j].Read? && e in Log(es[j..])
    ensures e.time >= es[j].now && (ClockIncreasing(es) ==> e.time > es[j].now)
  {
    LogTimes(es[j..], e);
    var i :| 0 <= i < |es| - j && es[j..][i].Send? && es[j..][i].now == e.time;
    assert es[j..][i] == es[j + i] && i > 0;
  }

  lemma {:induction false} LogSorted<T>(es: seq<Event<T>>)
    requires ClockNondecreasing(es)
    ensures TimeSorted(Log(es))
  {
    if es != [] {
      var n := |es| - 1;
      LogSorted(es[..n]);
      forall e | e in Log(es[..n]) ensures e.time <= es[n].now {
        LogTimes(es[..n], e);
        var i :| 0 <= i < n && es[..n][i].Send? && es[..n][i].now == e.time;
        assert es[i].now <= es[n].now;
      }
    }
  }
}
