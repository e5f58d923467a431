/** What one SNMP poll asks for, how the question is split into requests, and what a metric makes of the reply. */
module PollRequests {
  import opened Basics
  import opened Oids
  import opened Formulas
  import opened FormulaAgreement
  import opened CounterRates
  import opened InterfaceTraffic

  const GET_CHUNK_SIZE: nat := 16
  const SYSTEM_OIDS := ["1.3.6.1.2.1.1.1.0", "1.3.6.1.2.1.1.2.0", "1.3.6.1.2.1.1.3.0", "1.3.6.1.2.1.1.5.0"]

  /** A metric as the request remembers it: one variable, a compiled formula, or neither. */
  datatype MetricPoll = MetricPoll(id: nat, oid: Option<string>, formula: Option<Compiled>)

  datatype PollRequest = PollRequest(
    metrics: seq<MetricPoll>,
    interfaces: seq<Request>,
    supplyOids: seq<string>,
    upsOids: seq<string>,
    counter64: bool)

  // ---------------------------------------------------------------- the list of variables

  /** First occurrences only. */
  function Dedup(s: seq<string>): seq<string> {
    if s == [] then []
    else
      var before := Dedup(s[..|s| - 1]);
      if s[|s| - 1] in before then before else before + [s[|s| - 1]]
  }

  lemma {:induction false} DedupKeepsEachOnce(s: seq<string>)
    ensures Distinct(Dedup(s)) && Elements(Dedup(s)) == Elements(s)
  {
    if s != [] {
      var last := |s| - 1;
      DedupKeepsEachOnce(s[..last]);
      assert Elements(s) == Elements(s[..last]) + {s[last]} by { assert s == s[..last] + [s[last]]; }
      assert s[last] in Dedup(s[..last]) <==> s[last] in Elements(Dedup(s[..last]));
      assert s[last] !in Dedup(s[..last]) ==> Elements(Dedup(s)) == Elements(Dedup(s[..last])) + {s[last]};
    }
  }

  function MetricOids(metrics: seq<MetricPoll>): seq<string> {
    if metrics == [] then []
    else (if metrics[0].oid.Some? then [metrics[0].oid.value] else []) + MetricOids(metrics[1..])
  }

  function FormulaOids(metrics: seq<MetricPoll>): seq<string> {
    if metrics == [] then []
    else (if metrics[0].formula.Some? then metrics[0].formula.value.sourceOids else []) + FormulaOids(metrics[1..])
  }

  function OneInterfaceOids(i: Request, counter64: bool): seq<string> {
    [ColumnOid(IF_ADMIN_STATUS, i.ifIndex), ColumnOid(IF_OPER_STATUS, i.ifIndex)]
      + TrafficPollOids(i.ifIndex, i.mode, counter64)
  }

  function InterfaceOids(interfaces: seq<Request>, counter64: bool): seq<string> {
    if interfaces == [] then []
    else OneInterfaceOids(interfaces[0], counter64) + InterfaceOids(interfaces[1..], counter64)
  }

  function RequestedOids(p: PollRequest): seq<string> {
    Dedup(SYSTEM_OIDS + MetricOids(p.metrics) + FormulaOids(p.metrics) + InterfaceOids(p.interfaces, p.counter64)
          + p.supplyOids + p.upsOids)
  }

  // ---------------------------------------------------------------- chunked requests

  /** One variable as the client returns it. */
  datatype Answer = Answer(oid: string, item: VarBind)

  datatype Gathering = Values(reply: Reply) | TransportError | MalformedOid

  /** The client answers a list of variables, or fails. */
  type Client = seq<string> -> Option<seq<Answer>>

  function Merge(reply: Reply, answers: seq<Answer>): Gathering {
    if answers == [] then Values(reply)
    else
      var before := Merge(reply, answers[..|answers| - 1]);
      var last := answers[|answers| - 1];
      if !before.Values? then before
      else if CanonicalOid(last.oid).None? then MalformedOid
      else Values(before.reply[CanonicalOid(last.oid).value := last.item])
  }

  function Chunk(oids: seq<string>, k: nat): seq<string>
    requires GET_CHUNK_SIZE * k <= |oids|
  {
    oids[GET_CHUNK_SIZE * k..Min(GET_CHUNK_SIZE * k + GET_CHUNK_SIZE, |oids|)]
  }

  function ChunkCount(oids: seq<string>): nat {
    (|oids| + GET_CHUNK_SIZE - 1) / GET_CHUNK_SIZE
  }

  /** What is known after the first `k` requests. */
  function Gathered(client: Client, oids: seq<string>, k: nat): Gathering
    requires k <= ChunkCount(oids)
  {
    if k == 0 then Values(map[])
    else
      var before := Gathered(client, oids, k - 1);
      if !before.Values? then before
      else
        var answers := client(Chunk(oids, k - 1));
        if answers.None? then TransportError else Merge(before.reply, answers.value)
  }

  function Joined(chunks: seq<seq<string>>): seq<string> {
    if chunks == [] then [] else Joined(chunks[..|chunks| - 1]) + chunks[|chunks| - 1]
  }

  lemma JoinedNothing()
    ensures Joined([]) == []
  {
  }

  lemma JoinedStep(chunks: seq<seq<string>>, chunk: seq<string>, oids: seq<string>, position: nat, next: nat)
    requires position <= next <= |oids| && Joined(chunks) == oids[..position] && chunk == oids[position..next]
    ensures Joined(chunks + [chunk]) == oids[..next]
  {
    assert (chunks + [chunk])[..|chunks|] == chunks;
  }

  lemma {:induction false} GatheredFails(client: Client, oids: seq<string>, k: nat, n: nat)
    requires k <= n <= ChunkCount(oids) && !Gathered(client, oids, k).Values?
    ensures Gathered(client, oids, n) == Gathered(client, oids, k)
  {
    if k < n {
      GatheredFails(client, oids, k, n - 1);
    }
  }

  /**
   * Sends the variables in order, sixteen at a time, and stops at the first failure.  `asked` lists
   * the requests that were sent.
   */
  method GetValues(client: Client, oids: seq<string>) returns (r: Gathering, asked: seq<seq<string>>)
    ensures r == Gathered(client, oids, ChunkCount(oids))
    ensures forall i :: 0 <= i < |asked| ==> 0 < |asked[i]| <= GET_CHUNK_SIZE
    ensures Joined(asked) <= oids
    ensures r.Values? ==> Joined(asked) == oids
  {
    hide Merge, CanonicalOid, Joined;
    JoinedNothing();
    r, asked := Values(map[]), [];
    var position := 0;
    ghost var k := 0;
    while position < |oids|
      invariant k <= ChunkCount(oids) && r.Values? && r == Gathered(client, oids, k)
      invariant position == Min(GET_CHUNK_SIZE * k, |oids|) && |asked| == k
      invariant forall i :: 0 <= i < |asked| ==> 0 < |asked[i]| <= GET_CHUNK_SIZE
      invariant Joined(asked) == oids[..position]
      decreases |oids| - position
    {
      var next := Min(position + GET_CHUNK_SIZE, |oids|);
      var chunk := oids[position..next];
      assert chunk == Chunk(oids, k);
      JoinedStep(asked, chunk, oids, position, next);
      asked := asked + [chunk];
      var answers := client(chunk);
      k := k + 1;
      if answers.None? {
        r := TransportError;
        GatheredFails(client, oids, k, ChunkCount(oids));
        return;
      }
      r := MergeAnswers(r.reply, answers.value);
      if !r.Values? {
        GatheredFails(client, oids, k, ChunkCount(oids));
        return;
      }
      position := next;
    }
    assert oids[..|oids|] == oids;
  }

  method MergeAnswers(reply: Reply, answers: seq<Answer>) returns (r: Gathering)
    ensures r == Merge(reply, answers)
  {
    var values := reply;
    for i := 0 to |answers|
      invariant Merge(reply, answers[..i]) == Values(values)
    {
      assert answers[..i + 1][..i] == answers[..i];
      var oid := CanonicalOid(answers[i].oid);
      if oid.None? {
        MergeStops(reply, answers, i + 1);
        return MalformedOid;
      }
      values := values[oid.value := answers[i].item];
    }
    assert answers[..|answers|] == answers;
    r := Values(values);
  }

  lemma {:induction false} MergeStops(reply: Reply, answers: seq<Answer>, i: nat)
    requires i <= |answers| && Merge(reply, answers[..i]) == MalformedOid
    ensures Merge(reply, answers) == MalformedOid
    decreases |answers| - i
  {
    if i == |answers| {
      assert answers[..i] == answers;
    } else {
      assert answers[..i + 1][..i] == answers[..i];
      MergeStops(reply, answers, i + 1);
    }
  }

  // ---------------------------------------------------------------- what the request covers

  lemma {:induction false} MetricCovered(metrics: seq<MetricPoll>, i: nat)
    requires i < |metrics|
    ensures metrics[i].oid.Some? ==> metrics[i].oid.value in MetricOids(metrics)
    ensures metrics[i].formula.Some? ==> forall oid :: oid in metrics[i].formula.value.sourceOids ==>
              oid in FormulaOids(metrics)
  {
    if i > 0 {
      MetricCovered(metrics[1..], i - 1);
    }
  }

  lemma {:induction false} InterfaceCovered(interfaces: seq<Request>, counter64: bool, i: nat)
    requires i < |interfaces|
    ensures forall oid :: oid in OneInterfaceOids(interfaces[i], counter64) ==>
              oid in InterfaceOids(interfaces, counter64)
  {
    hide OneInterfaceOids;
    if i > 0 {
      InterfaceCovered(interfaces[1..], counter64, i - 1);
    }
  }

  lemma RequestedAre(p: PollRequest, oid: string)
    ensures oid in RequestedOids(p)
            <==> oid in SYSTEM_OIDS || oid in MetricOids(p.metrics) || oid in FormulaOids(p.metrics)
                 || oid in InterfaceOids(p.interfaces, p.counter64) || oid in p.supplyOids || oid in p.upsOids
  {
    hide Dedup, MetricOids, FormulaOids, InterfaceOids;
    var all := SYSTEM_OIDS + MetricOids(p.metrics) + FormulaOids(p.metrics) + InterfaceOids(p.interfaces, p.counter64)
               + p.supplyOids + p.upsOids;
    DedupKeepsEachOnce(all);
    assert oid in Dedup(all) <==> oid in Elements(Dedup(all));
    assert oid in all <==> oid in Elements(all);
  }

  // ---------------------------------------------------------------- what a metric makes of the reply

  /** The variables whose value the reply gives as a number. */
  function NumericValues(reply: Reply): Readings {
    map oid | oid in reply && !reply[oid].error
      && NumericValue(reply[oid]).Some? :: NumericValue(reply[oid]).value as real
  }

  /** `Produced` is stored as a sample; `Answered` clears the last number; a failure keeps it. */
  datatype Outcome = Produced(number: real) | Answered | NotConfigured | NoData | ReplyError
    | FormulaFailed(fault: Fault)

  function MetricOutcome(m: MetricPoll, reply: Reply): Outcome {
    if m.formula.Some? then
      var r := Evaluate(m.formula.value.tree, NumericValues(reply));
      if r.Ok? then Produced(r.value) else FormulaFailed(r.fault)
    else if m.oid.None? then NotConfigured
    else if m.oid.value !in reply then NoData
    else
      var item := reply[m.oid.value];
      if item.error then ReplyError
      else if NumericValue(item).Some? then Produced(NumericValue(item).value as real)
      else Answered
  }

  lemma WholeNumber(item: VarBind)
    ensures NumericValue(item).Some? <==>
            item.numericType && item.number.Some? && item.number.value.Floor as real == item.number.value
    ensures NumericValue(item).Some? ==> NumericValue(item).value as real == item.number.value
  {
  }

  /** What formulas are evaluated on: the whole numbers of numeric variables without an error, as they came. */
  lemma FormulasReadNumbers(reply: Reply, oid: string)
    ensures oid in NumericValues(reply) <==>
            && oid in reply && !reply[oid].error && reply[oid].numericType
            && reply[oid].number.Some? && reply[oid].number.value.Floor as real == reply[oid].number.value
    ensures oid in NumericValues(reply) ==> NumericValues(reply)[oid] == reply[oid].number.value
  {
    if oid in reply {
      WholeNumber(reply[oid]);
    }
  }

  /**
   * A metric without a formula gives the number of its own variable, if that is numeric and whole, and
   * otherwise says in this order: it has no variable, the reply has none of it, the variable is in error, or
   * it is answered by something that is no number.
   */
  lemma PlainMetricOutcome(m: MetricPoll, reply: Reply)
    requires m.formula.None?
    ensures var r := MetricOutcome(m, reply);
            && (r == NotConfigured <==> m.oid.None?)
            && (r == NoData <==> m.oid.Some? && m.oid.value !in reply)
            && (r == ReplyError <==> m.oid.Some? && m.oid.value in reply && reply[m.oid.value].error)
            && (r.Produced? <==>
                  && m.oid.Some? && m.oid.value in reply && !reply[m.oid.value].error
                  && reply[m.oid.value].numericType && reply[m.oid.value].number.Some?
                  && reply[m.oid.value].number.value.Floor as real == reply[m.oid.value].number.value)
            && (r.Produced? ==> Some(r.number) == reply[m.oid.value].number)
            && !r.FormulaFailed?
  {
    if m.oid.Some? && m.oid.value in reply {
      WholeNumber(reply[m.oid.value]);
    }
  }

  /** Every formula of the request came out of the compiler. */
  ghost predicate FromCompiler(p: PollRequest) {
    forall i :: 0 <= i < |p.metrics| && p.metrics[i].formula.Some? ==> IsCompiled(p.metrics[i].formula.value)
  }

  ghost predicate IsCompiled(f: Compiled) {
    exists expression, parsed :: Compile(expression, parsed) == Ok(f)
  }

  /**
   * A formula metric of a poll gives a number, or fails on a zero divisor or a zero storage total, or
   * one of its own variables, which the poll did ask for, came back without a number.
   */
  lemma FormulaMetricOutcomes(p: PollRequest, i: nat, reply: Reply)
    requires FromCompiler(p) && i < |p.metrics| && p.metrics[i].formula.Some?
    ensures var r := MetricOutcome(p.metrics[i], reply);
            || r.Produced?
            || r == FormulaFailed(DivisionByZero)
            || r == FormulaFailed(ZeroStorage)
            || (r.FormulaFailed? && r.fault.MissingSource? && r.fault.oid in p.metrics[i].formula.value.sourceOids
                && r.fault.oid in RequestedOids(p) && r.fault.oid !in NumericValues(reply))
  {
    hide Evaluate, RequestedOids, NumericValues, FormulaOids, MetricOids;
    var f := p.metrics[i].formula.value;
    assert IsCompiled(f);
    var expression, parsed :| Compile(expression, parsed) == Ok(f);
    CompiledFormulaRuns(expression, parsed, NumericValues(reply));
    var r := Evaluate(f.tree, NumericValues(reply));
    if r.Err? && r.fault.MissingSource? {
      MetricCovered(p.metrics, i);
      RequestedAre(p, r.fault.oid);
    }
  }

  /** What a poll saves about a metric depends on nothing but the variables the poll asked for. */
  lemma MetricReadsOnlyRequested(p: PollRequest, i: nat, a: Reply, b: Reply)
    requires FromCompiler(p) && i < |p.metrics| && SameAnswers(RequestedOids(p), a, b)
    ensures MetricOutcome(p.metrics[i], a) == MetricOutcome(p.metrics[i], b)
  {
    hide Evaluate, RequestedOids, FormulaOids, MetricOids;
    MetricCovered(p.metrics, i);
    var m := p.metrics[i];
    if m.formula.Some? {
      assert IsCompiled(m.formula.value);
      var expression, parsed :| Compile(expression, parsed) == Ok(m.formula.value);
      forall oid | oid in m.formula.value.sourceOids
        ensures Source(NumericValues(a), oid) == Source(NumericValues(b), oid)
      {
        RequestedAre(p, oid);
        assert Agree(a, b, oid);
      }
      CompiledFormulaReadsItsSources(expression, parsed, NumericValues(a), NumericValues(b));
    } else if m.oid.Some? {
      RequestedAre(p, m.oid.value);
      assert Agree(a, b, m.oid.value);
    }
  }

  lemma InterfaceAsked(p: PollRequest, i: nat)
    requires i < |p.interfaces|
    ensures var r, oids := p.interfaces[i], RequestedOids(p);
            && ColumnOid(IF_ADMIN_STATUS, r.ifIndex) in oids && ColumnOid(IF_OPER_STATUS, r.ifIndex) in oids
            && forall j :: 0 <= j < |TrafficPollOids(r.ifIndex, r.mode, p.counter64)| ==>
                 TrafficPollOids(r.ifIndex, r.mode, p.counter64)[j] in oids
  {
    hide RequestedOids, InterfaceOids, TrafficPollOids, ColumnOid;
    var r := p.interfaces[i];
    var own := OneInterfaceOids(r, p.counter64);
    InterfaceCovered(p.interfaces, p.counter64, i);
    forall j | 0 <= j < |own| ensures own[j] in RequestedOids(p) {
      RequestedAre(p, own[j]);
    }
    assert own[0] in RequestedOids(p) && own[1] in RequestedOids(p);
    forall j | 0 <= j < |own| - 2 ensures own[2..][j] in RequestedOids(p) {
      assert own[j + 2] in RequestedOids(p);
    }
    assert own[2..] == TrafficPollOids(r.ifIndex, r.mode, p.counter64);
  }

  lemma SameInterfacePoll(p: PollRequest, i: nat, port: Port, a: Reply, b: Reply, uptime: Option<int>, now: Time)
    requires i < |p.interfaces| && SameAnswers(RequestedOids(p), a, b)
    requires ReadsWithin(RequestedOids(p), p.interfaces[i].ifIndex, p.interfaces[i].mode, p.counter64)
    ensures Polled(port, a, p.interfaces[i].ifIndex, p.interfaces[i].mode, uptime, now)
            == Polled(port, b, p.interfaces[i].ifIndex, p.interfaces[i].mode, uptime, now)
  {
    hide RequestedOids, TrafficPollOids, BuildSnapshot, RatesSince, ClearedRuntime, ColumnOid, ReadsWithin;
    var r := p.interfaces[i];
    InterfaceAsked(p, i);
    assert Agree(a, b, ColumnOid(IF_ADMIN_STATUS, r.ifIndex)) && Agree(a, b, ColumnOid(IF_OPER_STATUS, r.ifIndex));
    SameSnapshot(RequestedOids(p), a, b, r.ifIndex, r.mode, p.counter64);
  }

  lemma VolunteeredCountersTell(p: PollRequest, i: nat, port: Port, uptime: Option<int>, now: Time)
    requires i < |p.interfaces|
    requires !ReadsWithin(RequestedOids(p), p.interfaces[i].ifIndex, p.interfaces[i].mode, p.counter64)
    ensures var r, wide := p.interfaces[i], WideReply(p.interfaces[i].ifIndex);
            && SameAnswers(RequestedOids(p), wide, Within(RequestedOids(p), wide))
            && Polled(port, wide, r.ifIndex, r.mode, uptime, now)
               != Polled(port, Within(RequestedOids(p), wide), r.ifIndex, r.mode, uptime, now)
  {
    hide RequestedOids, TrafficPollOids, BuildSnapshot, RatesSince, ColumnOid;
    var r, wide := p.interfaces[i], WideReply(p.interfaces[i].ifIndex);
    InterfaceAsked(p, i);
    UnaskedWideCounters(RequestedOids(p), r.ifIndex, r.mode);
    assert StatusAnswered(wide, r.ifIndex) && StatusAnswered(Within(RequestedOids(p), wide), r.ifIndex);
  }

  /**
   * For an interface this is so exactly when the protocol knows the wide counters, or the narrow mode
   * is already chosen, or something else in the request asks for both of the interface's wide counters.
   */
  lemma InterfaceReadsOnlyRequested(p: PollRequest, i: nat)
    requires i < |p.interfaces|
    ensures var r := p.interfaces[i];
            (forall port: Port, a: Reply, b: Reply, uptime: Option<int>, now: Time ::
               SameAnswers(RequestedOids(p), a, b) ==>
               Polled(port, a, r.ifIndex, r.mode, uptime, now) == Polled(port, b, r.ifIndex, r.mode, uptime, now))
            <==> p.counter64 || r.mode == Some(Legacy32) || WideAsked(RequestedOids(p), r.ifIndex)
  {
    hide RequestedOids, Polled, SameAnswers, WideAsked;
    var r := p.interfaces[i];
    if ReadsWithin(RequestedOids(p), r.ifIndex, r.mode, p.counter64) {
      forall port: Port, a: Reply, b: Reply, uptime: Option<int>, now: Time | SameAnswers(RequestedOids(p), a, b)
        ensures Polled(port, a, r.ifIndex, r.mode, uptime, now) == Polled(port, b, r.ifIndex, r.mode, uptime, now)
      {
        SameInterfacePoll(p, i, port, a, b, uptime, now);
      }
    } else {
      var port := Port(Interface("", None, true, true, NO_BASELINE, None, None, NO_STATS, false), []);
      VolunteeredCountersTell(p, i, port, None, 0);
    }
  }

  // ---------------------------------------------------------------- a client that answers

  /** Every variable of a request is answered, and every answer is a number without an error. */
  ghost predicate AnswersInFull(client: Client, oids: seq<string>) {
    && client(oids).Some?
    && (forall i :: 0 <= i < |oids| ==> AnsweredIn(oids[i], client(oids).value))
    && (forall j :: 0 <= j < |client(oids).value| ==> GoodAnswer(client(oids).value[j]))
  }

  ghost predicate AnsweredIn(oid: string, answers: seq<Answer>) {
    exists j :: 0 <= j < |answers| && CanonicalOid(answers[j].oid) == Some(oid)
  }

  predicate Names(a: Answer, reply: Reply) {
    CanonicalOid(a.oid).Some? && CanonicalOid(a.oid).value in reply
  }

  predicate GoodAnswer(a: Answer) {
    CanonicalOid(a.oid).Some? && GoodItem(a.item)
  }

  predicate GoodItem(item: VarBind) {
    !item.error && NumericValue(item).Some?
  }

  ghost predicate AllGood(reply: Reply) {
    forall oid :: oid in reply ==> GoodItem(reply[oid])
  }

  lemma {:induction false} MergeKeeps(reply: Reply, answers: seq<Answer>)
    requires AllGood(reply) && forall j :: 0 <= j < |answers| ==> GoodAnswer(answers[j])
    ensures Merge(reply, answers).Values? && AllGood(Merge(reply, answers).reply)
    ensures reply.Keys <= Merge(reply, answers).reply.Keys
    ensures forall j :: 0 <= j < |answers| ==> Names(answers[j], Merge(reply, answers).reply)
  {
    hide GoodItem, CanonicalOid;
    if answers != [] {
      MergeKeeps(reply, answers[..|answers| - 1]);
    }
  }

  lemma {:induction false} GatheredInFull(client: Client, oids: seq<string>, k: nat)
    requires k <= ChunkCount(oids)
    requires forall c :: 0 <= c < ChunkCount(oids) ==> AnswersInFull(client, Chunk(oids, c))
    ensures Gathered(client, oids, k).Values? && AllGood(Gathered(client, oids, k).reply)
    ensures forall i :: 0 <= i < |oids| && i < GET_CHUNK_SIZE * k ==> oids[i] in Gathered(client, oids, k).reply
  {
    hide AllGood, Merge, GoodAnswer, CanonicalOid;
    if k > 0 {
      GatheredInFull(client, oids, k - 1);
      var chunk := Chunk(oids, k - 1);
      assert AnswersInFull(client, chunk);
      var before, answers := Gathered(client, oids, k - 1).reply, client(chunk).value;
      MergeKeeps(before, answers);
      forall i | 0 <= i < |oids| && i < GET_CHUNK_SIZE * k
        ensures oids[i] in Merge(before, answers).reply
      {
        if i >= GET_CHUNK_SIZE * (k - 1) {
          assert chunk[i - GET_CHUNK_SIZE * (k - 1)] == oids[i];
          assert AnsweredIn(oids[i], answers);
        }
      }
    } else {
      AllGoodEmpty();
    }
  }

  lemma AllGoodEmpty()
    ensures AllGood(map[])
  {
  }

  /**
   * When every request is answered in full, no formula metric of the poll lacks a source: it gives a
   * number unless its own arithmetic divides by zero.
   */
  lemma AnsweredPollsMissNothing(p: PollRequest, client: Client, i: nat)
    requires FromCompiler(p) && i < |p.metrics| && p.metrics[i].formula.Some?
    requires forall c :: 0 <= c < ChunkCount(RequestedOids(p)) ==> AnswersInFull(client, Chunk(RequestedOids(p), c))
    ensures var reply := Gathered(client, RequestedOids(p), ChunkCount(RequestedOids(p)));
            reply.Values?
            && var r := MetricOutcome(p.metrics[i], reply.reply);
               r.Produced? || r == FormulaFailed(DivisionByZero) || r == FormulaFailed(ZeroStorage)
  {
    hide MetricOutcome, Gathered, RequestedOids, AnswersInFull;
    var oids := RequestedOids(p);
    GatheredInFull(client, oids, ChunkCount(oids));
    var reply := Gathered(client, oids, ChunkCount(oids)).reply;
    FormulaMetricOutcomes(p, i, reply);
  }

  // ---------------------------------------------------------------- spelling

  /** The variables an administrator or a table gave were stored in their one spelling. */
  predicate Spelled(p: PollRequest) {
    && (forall i :: 0 <= i < |p.metrics| && p.metrics[i].oid.Some? ==>
        CanonicalOid(p.metrics[i].oid.value) == p.metrics[i].oid)
    && (forall i :: 0 <= i < |p.supplyOids| ==> CanonicalOid(p.supplyOids[i]) == Some(p.supplyOids[i]))
    && (forall i :: 0 <= i < |p.upsOids| ==> CanonicalOid(p.upsOids[i]) == Some(p.upsOids[i]))
  }

  lemma ColumnsAreCanonical(base: string, ifIndex: nat)
    requires Dotted(base)
    ensures CanonicalOid(ColumnOid(base, ifIndex)) == Some(ColumnOid(base, ifIndex))
  {
    hide Dotted, CanonicalOid;
    DottedAppend(base, ifIndex);
    DottedIsCanonical(ColumnOid(base, ifIndex));
  }

  lemma StatusBasesAreDotted()
    ensures Dotted(IF_ADMIN_STATUS) && Dotted(IF_OPER_STATUS)
  {
    assert IF_ADMIN_STATUS[1] == '.' && IF_OPER_STATUS[1] == '.';
  }

  lemma NarrowBasesAreDotted()
    ensures Dotted(IF_IN_OCTETS) && Dotted(IF_OUT_OCTETS)
  {
    assert IF_IN_OCTETS[1] == '.' && IF_OUT_OCTETS[1] == '.';
  }

  lemma WideBasesAreDotted()
    ensures Dotted(IF_HC_IN_OCTETS) && Dotted(IF_HC_OUT_OCTETS)
  {
    assert IF_HC_IN_OCTETS[1] == '.' && IF_HC_OUT_OCTETS[1] == '.';
  }

  lemma ErrorBasesAreDotted()
    ensures Dotted(IF_IN_ERRORS) && Dotted(IF_OUT_ERRORS)
  {
    assert IF_IN_ERRORS[1] == '.' && IF_OUT_ERRORS[1] == '.';
  }

  lemma DiscardBasesAreDotted()
    ensures Dotted(IF_IN_DISCARDS) && Dotted(IF_OUT_DISCARDS)
  {
    assert IF_IN_DISCARDS[1] == '.' && IF_OUT_DISCARDS[1] == '.';
  }

  lemma InterfaceIsCanonical(r: Request, counter64: bool, oid: string)
    requires oid in OneInterfaceOids(r, counter64)
    ensures CanonicalOid(oid) == Some(oid)
  {
    hide Dotted, CanonicalOid, ColumnOid;
    StatusBasesAreDotted();
    NarrowBasesAreDotted();
    WideBasesAreDotted();
    ErrorBasesAreDotted();
    DiscardBasesAreDotted();
    ColumnsAreCanonical(IF_ADMIN_STATUS, r.ifIndex);
    ColumnsAreCanonical(IF_OPER_STATUS, r.ifIndex);
    ColumnsAreCanonical(IF_IN_OCTETS, r.ifIndex);
    ColumnsAreCanonical(IF_OUT_OCTETS, r.ifIndex);
    ColumnsAreCanonical(IF_HC_IN_OCTETS, r.ifIndex);
    ColumnsAreCanonical(IF_HC_OUT_OCTETS, r.ifIndex);
    ColumnsAreCanonical(IF_IN_ERRORS, r.ifIndex);
    ColumnsAreCanonical(IF_OUT_ERRORS, r.ifIndex);
    ColumnsAreCanonical(IF_IN_DISCARDS, r.ifIndex);
    ColumnsAreCanonical(IF_OUT_DISCARDS, r.ifIndex);
  }

  lemma {:induction false} InterfacesAreCanonical(interfaces: seq<Request>, counter64: bool, oid: string)
    requires oid in InterfaceOids(interfaces, counter64)
    ensures CanonicalOid(oid) == Some(oid)
  {
    hide OneInterfaceOids, CanonicalOid;
    if oid in OneInterfaceOids(interfaces[0], counter64) {
      InterfaceIsCanonical(interfaces[0], counter64, oid);
    } else {
      InterfacesAreCanonical(interfaces[1..], counter64, oid);
    }
  }

  lemma {:induction false} MetricsAreCanonical(metrics: seq<MetricPoll>, oid: string)
    requires forall i :: 0 <= i < |metrics| && metrics[i].oid.Some? ==>
               CanonicalOid(metrics[i].oid.value) == metrics[i].oid
    requires forall i :: 0 <= i < |metrics| && metrics[i].formula.Some? ==> IsCompiled(metrics[i].formula.value)
    requires oid in MetricOids(metrics) || oid in FormulaOids(metrics)
    ensures CanonicalOid(oid) == Some(oid)
  {
    hide CanonicalOid, Compile;
    var first := metrics[0];
    if oid in MetricOids(metrics[1..]) || oid in FormulaOids(metrics[1..]) {
      MetricsAreCanonical(metrics[1..], oid);
    } else if first.formula.Some? && oid in first.formula.value.sourceOids {
      var expression, parsed :| Compile(expression, parsed) == Ok(first.formula.value);
      CompiledSourcesCanonical(expression, parsed);
    }
  }

  lemma SystemIsCanonical(oid: string)
    requires oid in SYSTEM_OIDS
    ensures CanonicalOid(oid) == Some(oid)
  {
    var i :| 0 <= i < |SYSTEM_OIDS| && SYSTEM_OIDS[i] == oid;
    assert oid[1] == '.' && Dotted(oid);
    DottedIsCanonical(oid);
  }

  /** Everything a poll asks for is spelled as replies are keyed. */
  lemma RequestedCanonical(p: PollRequest, oid: string)
    requires FromCompiler(p) && Spelled(p) && oid in RequestedOids(p)
    ensures CanonicalOid(oid) == Some(oid)
  {
    hide RequestedOids, MetricOids, FormulaOids, InterfaceOids, CanonicalOid;
    RequestedAre(p, oid);
    if oid in SYSTEM_OIDS {
      SystemIsCanonical(oid);
    } else if oid in MetricOids(p.metrics) || oid in FormulaOids(p.metrics) {
      MetricsAreCanonical(p.metrics, oid);
    } else if oid in InterfaceOids(p.interfaces, p.counter64) {
      InterfacesAreCanonical(p.interfaces, p.counter64, oid);
    }
  }

  /** The client answers with the very variables it was asked for, in order, each a good number. */
  ghost predicate Echoes(client: Client, oids: seq<string>) {
    && client(oids).Some? && |client(oids).value| == |oids|
    && forall j :: 0 <= j < |oids| ==> client(oids).value[j].oid == oids[j] && GoodItem(client(oids).value[j].item)
  }

  lemma EchoIsInFull(client: Client, oids: seq<string>)
    requires Echoes(client, oids) && forall j :: 0 <= j < |oids| ==> CanonicalOid(oids[j]) == Some(oids[j])
    ensures AnswersInFull(client, oids)
  {
    hide CanonicalOid, GoodItem;
    forall i | 0 <= i < |oids| ensures AnsweredIn(oids[i], client(oids).value) {
      assert CanonicalOid(client(oids).value[i].oid) == Some(oids[i]);
    }
  }

  /** A device that answers just what it is asked, with numbers, leaves no formula without a source. */
  lemma EchoingPollsMissNothing(p: PollRequest, client: Client, i: nat)
    requires FromCompiler(p) && Spelled(p) && i < |p.metrics| && p.metrics[i].formula.Some?
    requires forall c :: 0 <= c < ChunkCount(RequestedOids(p)) ==> Echoes(client, Chunk(RequestedOids(p), c))
    ensures var reply := Gathered(client, RequestedOids(p), ChunkCount(RequestedOids(p)));
            reply.Values?
            && var r := MetricOutcome(p.metrics[i], reply.reply);
               r.Produced? || r == FormulaFailed(DivisionByZero) || r == FormulaFailed(ZeroStorage)
  {
    hide MetricOutcome, Gathered, RequestedOids, AnswersInFull, Echoes, CanonicalOid;
    var oids := RequestedOids(p);
    forall c | 0 <= c < ChunkCount(oids) ensures AnswersInFull(client, Chunk(oids, c)) {
      var chunk := Chunk(oids, c);
      forall j | 0 <= j < |chunk| ensures CanonicalOid(chunk[j]) == Some(chunk[j]) {
        assert chunk[j] == oids[GET_CHUNK_SIZE * c + j];
        RequestedCanonical(p, chunk[j]);
      }
      EchoIsInFull(client, chunk);
    }
    AnsweredPollsMissNothing(p, client, i);
  }
}
