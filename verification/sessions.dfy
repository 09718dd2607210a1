/** `processLoggerContext` (etw-enum-windbg.js:46-97), the loop of
    `enumerateETWConsumers` that feeds it (lines 21-35), and the summary
    counters of `printResults` (lines 298-305, 320-322). */
module Sessions {
  import opened Options
  import opened Target
  import opened Walk

  /** Offset of _WMI_LOGGER_CONTEXT.Consumers the script adds to the context
      address to form the list head (line 74) */
  const CONSUMERS_HEAD_OFFSET: nat := 0x158
  /** NumConsumers is a ULONG */
  const ULONG_BYTES: nat := 4

  /** One `(address, id, name)` triple of the logger directory */
  datatype LoggerRef = LoggerRef(address: Addr, loggerId: nat, loggerName: string)

  /** The `sessionInfo` record pushed onto the output (lines 57-62) */
  datatype Session = Session(address: Addr, loggerId: nat, loggerName: string, consumers: seq<Consumer>)

  /** `loggerContext.NumConsumers` */
  function NumConsumers(t: Snapshot, layout: Layout, logger: LoggerRef): Option<nat> {
    ReadUnsigned(t.memory, logger.address, layout.numConsumersOffset, ULONG_BYTES)
  }

  /** `addr.add(0x158)` */
  function ListHead(logger: LoggerRef): Option<Addr> {
    Offset(logger.address, CONSUMERS_HEAD_OFFSET)
  }

  /** `loggerContext.Consumers.Flink` */
  function ConsumersFlink(t: Snapshot, layout: Layout, logger: LoggerRef): Option<Addr> {
    ReadQuad(t.memory, logger.address, layout.consumersOffset)
  }

  /** The header reads `processLoggerContext` cannot do without all succeed */
  predicate HeaderReadable(numConsumers: Option<nat>, head: Option<Addr>, flink: Option<Addr>) {
    && numConsumers.Some?
    && (numConsumers.value > 0 ==> head.Some? && flink.Some?)
  }

  /** The body of `processLoggerContext` given the results of its header reads
      (`None` where a read threw) and the per-node view the walk uses. `None` is
      "nothing pushed": the push (line 91) sits inside the `try`. */
  function ScanSession(logger: LoggerRef, numConsumers: Option<nat>, head: Option<Addr>, flink: Option<Addr>, view: View): (r: Option<Session>)
    ensures r.Some? <==> HeaderReadable(numConsumers, head, flink)
    ensures r.Some? ==>
      && r.value.address == logger.address
      && r.value.loggerId == logger.loggerId
      && r.value.loggerName == logger.loggerName
      && |r.value.consumers| <= numConsumers.value
    ensures r.Some? && numConsumers.value > 0 && flink.value != head.value ==>
      r.value.consumers == WalkConsumerList(view, flink.value, head.value, numConsumers.value).consumers
    ensures r.Some? && (numConsumers.value == 0 || flink.value == head.value) ==> r.value.consumers == []
  {
    match numConsumers
    case None => None
    case Some(n) =>
      var skeleton := Session(logger.address, logger.loggerId, logger.loggerName, []);
      if n == 0 then Some(skeleton)
      else match head
        case None => None
        case Some(h) =>
          match flink
          case None => None
          case Some(f) =>
            if f == h then Some(skeleton)
            else Some(skeleton.(consumers := WalkConsumerList(view, f, h, n).consumers))
  }

  /** `processLoggerContext(contextAddr, loggerId, loggerName, output)` */
  function ProcessLoggerContext(t: Snapshot, layout: Layout, logger: LoggerRef): (r: Option<Session>)
    ensures r.Some? <==> HeaderReadable(NumConsumers(t, layout, logger), ListHead(logger), ConsumersFlink(t, layout, logger))
    ensures r.Some? ==> |r.value.consumers| <= NumConsumers(t, layout, logger).value
    ensures r.Some? ==> forall i | 0 <= i < |r.value.consumers| :: r.value.consumers[i].pid > 0 && r.value.consumers[i].eprocessAddr != 0
    ensures r.Some? ==> LoggerOf(r.value) == logger
    ensures r.Some? && NumConsumers(t, layout, logger).value > 0 && ConsumersFlink(t, layout, logger) != ListHead(logger) ==>
      r.value.consumers == WalkConsumerList(Viewer(t, layout), ConsumersFlink(t, layout, logger).value,
                                            ListHead(logger).value, NumConsumers(t, layout, logger).value).consumers
  {
    ViewerIsSound(t, layout);
    ScanSession(logger, NumConsumers(t, layout, logger), ListHead(logger), ConsumersFlink(t, layout, logger), Viewer(t, layout))
  }

  /** A session declaring no consumers, or whose list head links to itself, is
      reported with an empty consumer list, and no list node is read: any two
      views of the nodes give the same result */
  lemma EmptySessionSkipsWalk(logger: LoggerRef, n: nat, head: Option<Addr>, flink: Option<Addr>, view1: View, view2: View)
    requires n == 0 || (head.Some? && flink == head)
    ensures ScanSession(logger, Some(n), head, flink, view1) == ScanSession(logger, Some(n), head, flink, view2)
    ensures ScanSession(logger, Some(n), head, flink, view1) == Some(Session(logger.address, logger.loggerId, logger.loggerName, []))
  {
  }

  /** A session whose consumer list is a ring of at most NumConsumers nodes
      reports exactly the entries of those nodes, in link order */
  lemma SessionOverRing(logger: LoggerRef, n: nat, head: Addr, view: View, nodes: seq<Addr>)
    requires IsRing(view, head, nodes)
    requires |nodes| <= n
    ensures ScanSession(logger, Some(n), Some(head), Some(nodes[0]), view).Some?
    ensures ScanSession(logger, Some(n), Some(head), Some(nodes[0]), view).value.consumers == Entries(view, nodes)
  {
    WalkRing(view, head, nodes, n);
    assert nodes[..Min(|nodes|, n)] == nodes;
  }

  /** The logger a session was made from */
  function LoggerOf(s: Session): LoggerRef {
    LoggerRef(s.address, s.loggerId, s.loggerName)
  }

  /** What the driver does for one logger of the directory */
  type Scan = LoggerRef -> Option<Session>

  /** `processLoggerContext` over the snapshot, one logger at a time */
  function Scanner(t: Snapshot, layout: Layout): Scan {
    (logger: LoggerRef) => ProcessLoggerContext(t, layout, logger)
  }

  /** Every session a scan produces belongs to the logger it was made for */
  ghost predicate KeepsLogger(scan: Scan) {
    forall logger: LoggerRef {:trigger scan(logger)} :: scan(logger).Some? ==> LoggerOf(scan(logger).value) == logger
  }

  /** The snapshot's scan is `processLoggerContext` at every logger, and keeps the logger */
  lemma ScannerIsProcessLoggerContext(t: Snapshot, layout: Layout)
    ensures forall logger: LoggerRef :: Scanner(t, layout)(logger) == ProcessLoggerContext(t, layout, logger)
    ensures KeepsLogger(Scanner(t, layout))
  {
    forall logger: LoggerRef
      ensures Scanner(t, layout)(logger) == ProcessLoggerContext(t, layout, logger)
    {
    }
  }

  /** The loop of lines 21-35 over the logger directory: each logger the scan
      yields a session for contributes it, in directory order */
  function ScanWith(scan: Scan, loggers: seq<LoggerRef>): (out: seq<Session>)
    ensures |out| <= |loggers|
    ensures (forall i | 0 <= i < |loggers| :: scan(loggers[i]).Some?) ==> |out| == |loggers|
  {
    if |loggers| == 0 then []
    else
      var rest := ScanWith(scan, loggers[1..]);
      match scan(loggers[0])
      case None => rest
      case Some(s) => [s] + rest
  }

  /** Each session the loop yields is the scan's session for its own logger,
      which is a logger of the directory */
  lemma {:induction false} ScanWithSound(scan: Scan, loggers: seq<LoggerRef>)
    requires KeepsLogger(scan)
    ensures forall s | s in ScanWith(scan, loggers) :: LoggerOf(s) in loggers && scan(LoggerOf(s)) == Some(s)
  {
    if |loggers| > 0 {
      ScanWithSound(scan, loggers[1..]);
      var rest := ScanWith(scan, loggers[1..]);
      var out := ScanWith(scan, loggers);
      var here := scan(loggers[0]);
      var front := if here.Some? then [here.value] else [];
      assert out == front + rest;
      forall s | s in out
        ensures LoggerOf(s) in loggers && scan(LoggerOf(s)) == Some(s)
      {
        if s !in rest {
          assert s == here.value;
          assert LoggerOf(here.value) == loggers[0];
        }
      }
    }
  }

  /** No logger's session is lost */
  lemma {:induction false} ScanWithComplete(scan: Scan, loggers: seq<LoggerRef>)
    ensures forall i | 0 <= i < |loggers| :: scan(loggers[i]).Some? ==> scan(loggers[i]).value in ScanWith(scan, loggers)
  {
    if |loggers| > 0 {
      ScanWithComplete(scan, loggers[1..]);
      var rest := ScanWith(scan, loggers[1..]);
      var out := ScanWith(scan, loggers);
      var here := scan(loggers[0]);
      assert out == (if here.Some? then [here.value] else []) + rest;
      forall i | 0 < i < |loggers| && scan(loggers[i]).Some?
        ensures scan(loggers[i]).value in out
      {
        assert loggers[i] == loggers[1..][i - 1];
      }
    }
  }

  /** Scanning two directories one after the other gives the two outputs in order */
  lemma {:induction false} ScanWithAppend(scan: Scan, a: seq<LoggerRef>, b: seq<LoggerRef>)
    ensures ScanWith(scan, a + b) == ScanWith(scan, a) + ScanWith(scan, b)
  {
    if |a| > 0 {
      assert (a + b)[0] == a[0];
      assert (a + b)[1..] == a[1..] + b;
      ScanWithAppend(scan, a[1..], b);
    } else {
      assert a + b == b;
    }
  }

  /** The driver over the snapshot's logger directory */
  function ScanAll(t: Snapshot, layout: Layout, loggers: seq<LoggerRef>): (out: seq<Session>)
    ensures |out| <= |loggers|
    ensures (forall i | 0 <= i < |loggers| :: ProcessLoggerContext(t, layout, loggers[i]).Some?) ==> |out| == |loggers|
  {
    ScannerIsProcessLoggerContext(t, layout);
    ScanWith(Scanner(t, layout), loggers)
  }

  /** Each session the driver yields is exactly what `processLoggerContext`
      gives for its own logger, a logger of the directory, and every logger's
      session is in the output */
  lemma ScanAllSessions(t: Snapshot, layout: Layout, loggers: seq<LoggerRef>)
    ensures var out := ScanAll(t, layout, loggers);
      forall i | 0 <= i < |out| :: LoggerOf(out[i]) in loggers && ProcessLoggerContext(t, layout, LoggerOf(out[i])) == Some(out[i])
    ensures forall i | 0 <= i < |loggers| :: ProcessLoggerContext(t, layout, loggers[i]).Some? ==>
      ProcessLoggerContext(t, layout, loggers[i]).value in ScanAll(t, layout, loggers)
  {
    var scan := Scanner(t, layout);
    ScannerIsProcessLoggerContext(t, layout);
    ScanWithSound(scan, loggers);
    ScanWithComplete(scan, loggers);
    var out := ScanAll(t, layout, loggers);
    assert out == ScanWith(scan, loggers);
    forall i | 0 <= i < |out|
      ensures LoggerOf(out[i]) in loggers && ProcessLoggerContext(t, layout, LoggerOf(out[i])) == Some(out[i])
    {
      assert out[i] in out;
      assert scan(LoggerOf(out[i])) == Some(out[i]);
    }
    forall i | 0 <= i < |loggers| && ProcessLoggerContext(t, layout, loggers[i]).Some?
      ensures ProcessLoggerContext(t, layout, loggers[i]).value in out
    {
      assert scan(loggers[i]) == ProcessLoggerContext(t, layout, loggers[i]);
    }
  }

  /** A directory of one logger yields that logger's session if it has one */
  lemma ScanAllOne(t: Snapshot, layout: Layout, logger: LoggerRef)
    ensures ScanAll(t, layout, [logger]) ==
      match ProcessLoggerContext(t, layout, logger)
      case None => []
      case Some(s) => [s]
  {
    assert [logger][1..] == [];
  }

  /** Sessions keep directory order over a split of the directory */
  lemma ScanAllAppend(t: Snapshot, layout: Layout, a: seq<LoggerRef>, b: seq<LoggerRef>)
    ensures ScanAll(t, layout, a + b) == ScanAll(t, layout, a) + ScanAll(t, layout, b)
  {
    ScanWithAppend(Scanner(t, layout), a, b);
  }

  /** The counters `printResults` reports */
  datatype Summary = Summary(totalSessions: nat, sessionsWithConsumers: nat, totalConsumers: nat)

  /** Number of sessions with at least one consumer */
  function CountWithConsumers(sessions: seq<Session>): (n: nat)
    ensures n <= |sessions|
  {
    if |sessions| == 0 then 0
    else CountWithConsumers(sessions[..|sessions| - 1]) + (if |sessions[|sessions| - 1].consumers| > 0 then 1 else 0)
  }

  /** Sum of the lengths of all consumer lists */
  function TotalConsumers(sessions: seq<Session>): (n: nat)
    ensures n >= CountWithConsumers(sessions)
    ensures n == 0 <==> CountWithConsumers(sessions) == 0
  {
    if |sessions| == 0 then 0
    else TotalConsumers(sessions[..|sessions| - 1]) + |sessions[|sessions| - 1].consumers|
  }

  /** The counting loop of `printResults`: only sessions with consumers add to
      the two counters, yet the total is the sum over all sessions */
  method Summarise(sessions: seq<Session>) returns (s: Summary)
    ensures s.totalSessions == |sessions|
    ensures s.sessionsWithConsumers == CountWithConsumers(sessions)
    ensures s.totalConsumers == TotalConsumers(sessions)
    ensures s.sessionsWithConsumers <= s.totalSessions
    ensures s.sessionsWithConsumers <= s.totalConsumers
  {
    var withConsumers := 0;
    var total := 0;
    var i := 0;
    while i < |sessions|
      invariant 0 <= i <= |sessions|
      invariant withConsumers == CountWithConsumers(sessions[..i])
      invariant total == TotalConsumers(sessions[..i])
    {
      if |sessions[i].consumers| > 0 {
        withConsumers := withConsumers + 1;
        total := total + |sessions[i].consumers|;
      }
      assert sessions[..i + 1][..i] == sessions[..i];
      i := i + 1;
    }
    assert sessions[..i] == sessions;
    s := Summary(|sessions|, withConsumers, total);
  }

  /** The counters of a concatenation are the sums of the parts' counters */
  lemma {:induction false} CountersAdd(a: seq<Session>, b: seq<Session>)
    ensures CountWithConsumers(a + b) == CountWithConsumers(a) + CountWithConsumers(b)
    ensures TotalConsumers(a + b) == TotalConsumers(a) + TotalConsumers(b)
    decreases |b|
  {
    if |b| > 0 {
      assert (a + b)[..|a + b| - 1] == a + b[..|b| - 1];
      CountersAdd(a, b[..|b| - 1]);
    } else {
      assert a + b == a;
    }
  }
}
