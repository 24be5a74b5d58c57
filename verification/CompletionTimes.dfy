/** Ordered message completion times per queue pair, scratch/third.cc (all times in nanoseconds, as integers). */
module CompletionTimes {
  import opened Common

  // transmit is the time a message occupies the sender, oracle its completion time on an idle network.
  datatype Message = Message(start: int, finish: int, oracle: int, transmit: int)

  function Max(a: int, b: int): int {
    if a < b then b else a
  }

  // ----- the three recurrences of the loops, after k messages -----

  ghost function Finished(ms: seq<Message>, k: nat): int
    requires k <= |ms|
  {
    if k == 0 then 0 else Max(Finished(ms, k - 1), ms[k - 1].finish)
  }

  ghost function OracleFinished(ms: seq<Message>, k: nat): int
    requires k <= |ms|
  {
    if k == 0 then 0 else Max(ms[k - 1].start, OracleFinished(ms, k - 1)) + ms[k - 1].oracle
  }

  // When the sender is idle again in the pipelined model.
  ghost function SenderFree(ms: seq<Message>, k: nat): int
    requires k <= |ms|
  {
    if k == 0 then 0 else Max(ms[k - 1].start, SenderFree(ms, k - 1)) + ms[k - 1].transmit
  }

  ghost function PipelinedFinish(ms: seq<Message>, k: nat): int
    requires 0 < k <= |ms|
  {
    Max(ms[k - 1].start, SenderFree(ms, k - 1)) + ms[k - 1].oracle
  }

  // One line of output: the three completion times of a message.
  datatype Times = Times(mct: int, minAfterFact: int, oracleMct: int)

  ghost function TimesOf(ms: seq<Message>, k: nat): Times
    requires k < |ms|
  {
    Times(Finished(ms, k + 1) - ms[k].start,
          Max(ms[k].start, Finished(ms, k)) + ms[k].oracle - ms[k].start,
          OracleFinished(ms, k + 1) - ms[k].start)
  }

  // printOrderedMCT: the messages of one queue pair, in message order.
  method OrderedMct(ms: seq<Message>) returns (r: seq<Times>)
    ensures |r| == |ms| && forall k :: 0 <= k < |ms| ==> r[k] == TimesOf(ms, k)
  {
    r := [];
    var finishedAbove, oracleFinishedAbove := 0, 0;
    for i := 0 to |ms|
      invariant |r| == i && finishedAbove == Finished(ms, i) && oracleFinishedAbove == OracleFinished(ms, i)
      invariant forall k :: 0 <= k < i ==> r[k] == TimesOf(ms, k)
    {
      NextMessage(ms, i);
      hide Finished, OracleFinished, TimesOf;
      var m := ms[i];
      var finishedCurr := Max(finishedAbove, m.finish);
      var finishedOracleCurr;
      if m.start < finishedAbove {
        finishedOracleCurr := finishedAbove + m.oracle;
      } else {
        finishedOracleCurr := m.start + m.oracle;
      }
      if m.start < oracleFinishedAbove {
        oracleFinishedAbove := oracleFinishedAbove + m.oracle;
      } else {
        oracleFinishedAbove := m.start + m.oracle;
      }
      finishedAbove := finishedCurr;
      r := r + [Times(finishedCurr - m.start, finishedOracleCurr - m.start, oracleFinishedAbove - m.start)];
    }
  }

  datatype QpTimes = QpTimes(mct: int, oracleMct: int)

  ghost function QpTimesOf(ms: seq<Message>, k: nat): QpTimes
    requires k < |ms|
  {
    QpTimes(Finished(ms, k + 1) - ms[k].start, PipelinedFinish(ms, k + 1) - ms[k].start)
  }

  // printOrderedMCTForQPMode.
  method OrderedMctForQpMode(ms: seq<Message>) returns (r: seq<QpTimes>)
    ensures |r| == |ms| && forall k :: 0 <= k < |ms| ==> r[k] == QpTimesOf(ms, k)
  {
    r := [];
    var finishAbove, transmitEmptyOracleAbove := 0, 0;
    for i := 0 to |ms|
      invariant |r| == i && finishAbove == Finished(ms, i) && transmitEmptyOracleAbove == SenderFree(ms, i)
      invariant forall k :: 0 <= k < i ==> r[k] == QpTimesOf(ms, k)
    {
      NextMessage(ms, i);
      hide Finished, SenderFree, QpTimesOf;
      var m := ms[i];
      finishAbove := Max(finishAbove, m.finish);
      var oracleFinished;
      if m.start < transmitEmptyOracleAbove {
        oracleFinished := transmitEmptyOracleAbove + m.oracle;
        transmitEmptyOracleAbove := transmitEmptyOracleAbove + m.transmit;
      } else {
        oracleFinished := m.start + m.oracle;
        transmitEmptyOracleAbove := m.start + m.transmit;
      }
      r := r + [QpTimes(finishAbove - m.start, oracleFinished - m.start)];
    }
  }

  lemma {:induction false} NextMessage(ms: seq<Message>, i: nat)
    requires i < |ms|
    ensures Finished(ms, i + 1) == Max(Finished(ms, i), ms[i].finish)
    ensures OracleFinished(ms, i + 1) == Max(ms[i].start, OracleFinished(ms, i)) + ms[i].oracle
    ensures SenderFree(ms, i + 1) == Max(ms[i].start, SenderFree(ms, i)) + ms[i].transmit
    ensures QpTimesOf(ms, i) == QpTimes(Max(Finished(ms, i), ms[i].finish) - ms[i].start,
                                        Max(ms[i].start, SenderFree(ms, i)) + ms[i].oracle - ms[i].start)
    ensures TimesOf(ms, i) == Times(Max(Finished(ms, i), ms[i].finish) - ms[i].start,
                                    Max(ms[i].start, Finished(ms, i)) + ms[i].oracle - ms[i].start,
                                    Max(ms[i].start, OracleFinished(ms, i)) + ms[i].oracle - ms[i].start)
  {
  }

  // ----- closed forms -----

  /** The actual ordered finish is the running maximum of the finish times. */
  lemma {:induction false} FinishedIsMaximum(ms: seq<Message>, k: nat)
    requires 0 < k <= |ms|
    ensures forall j :: 0 <= j < k ==> Finished(ms, k) >= ms[j].finish
    ensures Finished(ms, k) >= 0
    ensures Finished(ms, k) == 0 || exists j :: 0 <= j < k && Finished(ms, k) == ms[j].finish
  {
    if k > 1 {
      FinishedIsMaximum(ms, k - 1);
    }
  }

  ghost function OracleSum(ms: seq<Message>, j: nat, k: nat): int
    requires j <= k <= |ms|
  {
    if j == k then 0 else OracleSum(ms, j, k - 1) + ms[k - 1].oracle
  }

  // The sums of oracle and of transmit times add up message by message.
  lemma {:induction false} SumsAddUp(ms: seq<Message>, i: nat, j: nat, k: nat)
    requires i <= j <= k <= |ms|
    ensures OracleSum(ms, i, k) == OracleSum(ms, i, j) + OracleSum(ms, j, k)
    ensures TransmitSum(ms, i, k) == TransmitSum(ms, i, j) + TransmitSum(ms, j, k)
    ensures k == j + 1 ==> OracleSum(ms, j, k) == ms[j].oracle && TransmitSum(ms, j, k) == ms[j].transmit
  {
    if j < k {
      SumsAddUp(ms, i, j, k - 1);
      if k == j + 1 {
        assert OracleSum(ms, j, j) == 0 && TransmitSum(ms, j, j) == 0;
      }
    }
  }

  ghost function TransmitSum(ms: seq<Message>, j: nat, k: nat): int
    requires j <= k <= |ms|
  {
    if j == k then 0 else TransmitSum(ms, j, k - 1) + ms[k - 1].transmit
  }

  // Message j starts on time and j..k-1 follow back to back; j == k stands for a start at time 0.
  ghost function BackToBack(ms: seq<Message>, j: nat, k: nat): int
    requires j < k <= |ms|
  {
    ms[j].start + OracleSum(ms, j, k)
  }

  /** Max-plus: the oracle finish is the latest of all back-to-back bursts that end with the message. */
  lemma {:induction false} OracleIsLatestBurst(ms: seq<Message>, k: nat)
    requires 0 < k <= |ms| && ms[0].start >= 0
    ensures forall j :: 0 <= j < k ==> OracleFinished(ms, k) >= BackToBack(ms, j, k)
    ensures exists j :: 0 <= j < k && OracleFinished(ms, k) == BackToBack(ms, j, k)
  {
    assert BackToBack(ms, k - 1, k) == ms[k - 1].start + ms[k - 1].oracle by {
      assert OracleSum(ms, k - 1, k - 1) == 0;
    }
    if k == 1 {
      assert OracleFinished(ms, 0) == 0;
      assert OracleFinished(ms, 1) == BackToBack(ms, 0, 1);
    } else {
      OracleIsLatestBurst(ms, k - 1);
      var j :| 0 <= j < k - 1 && OracleFinished(ms, k - 1) == BackToBack(ms, j, k - 1);
      forall i | 0 <= i < k - 1 ensures BackToBack(ms, i, k) == BackToBack(ms, i, k - 1) + ms[k - 1].oracle {
      }
      assert OracleFinished(ms, k)
          == BackToBack(ms, if ms[k - 1].start < OracleFinished(ms, k - 1) then j else k - 1, k);
    }
  }

  /** The sender is free once the latest burst that starts on time has been transmitted. */
  lemma {:induction false} SenderFreeAfterBursts(ms: seq<Message>, k: nat)
    requires 0 < k <= |ms| && ms[0].start >= 0
    ensures forall j :: 0 <= j < k ==> SenderFree(ms, k) >= ms[j].start + TransmitSum(ms, j, k)
    ensures exists j :: 0 <= j < k && SenderFree(ms, k) == ms[j].start + TransmitSum(ms, j, k)
  {
    assert TransmitSum(ms, k - 1, k) == ms[k - 1].transmit by {
      assert TransmitSum(ms, k - 1, k - 1) == 0;
    }
    if k == 1 {
      assert SenderFree(ms, 0) == 0;
      assert SenderFree(ms, 1) == ms[0].start + TransmitSum(ms, 0, 1);
    } else {
      SenderFreeAfterBursts(ms, k - 1);
      var j :| 0 <= j < k - 1 && SenderFree(ms, k - 1) == ms[j].start + TransmitSum(ms, j, k - 1);
      var b := if ms[k - 1].start < SenderFree(ms, k - 1) then j else k - 1;
      assert SenderFree(ms, k) == ms[b].start + TransmitSum(ms, b, k);
    }
  }

  // x is when the latest of the bursts of oracle times that end with message k ends.
  ghost predicate EndsLatestBurst(ms: seq<Message>, k: nat, x: int)
    requires k < |ms|
  {
    && (forall j :: 0 <= j <= k ==> ms[j].start + OracleSum(ms, j, k + 1) <= x)
    && exists j :: 0 <= j <= k && ms[j].start + OracleSum(ms, j, k + 1) == x
  }

  // x is when the latest of the bursts of transmit times before message k ends.
  ghost predicate FreeAfterBursts(ms: seq<Message>, k: nat, x: int)
    requires k < |ms|
  {
    && (forall j :: 0 <= j < k ==> ms[j].start + TransmitSum(ms, j, k) <= x)
    && exists j :: 0 <= j < k && ms[j].start + TransmitSum(ms, j, k) == x
  }

  // x is the largest finish of the first n messages, or 0.
  ghost predicate LargestFinish(ms: seq<Message>, n: nat, x: int)
    requires n <= |ms|
  {
    && x >= 0 && (forall j :: 0 <= j < n ==> ms[j].finish <= x)
    && (x == 0 || exists j :: 0 <= j < n && ms[j].finish == x)
  }

  /** What the reports print of message k, from start, finish, oracle and transmit times alone: its finish is the
      largest finish so far; on an idle network it ends the latest burst of oracle times; given the actual finishes
      before it, it takes its oracle time from their largest or its own start; pipelined, from the latest burst of
      transmit times before it or its own start. */
  lemma {:induction false} TimesMean(ms: seq<Message>, k: nat)
    requires k < |ms| && ms[0].start >= 0
    ensures LargestFinish(ms, k + 1, TimesOf(ms, k).mct + ms[k].start) && QpTimesOf(ms, k).mct == TimesOf(ms, k).mct
    ensures EndsLatestBurst(ms, k, TimesOf(ms, k).oracleMct + ms[k].start)
    ensures k == 0 ==> TimesOf(ms, k).minAfterFact == QpTimesOf(ms, k).oracleMct == ms[k].oracle
    ensures k > 0 ==> forall before :: LargestFinish(ms, k, before) ==>
              TimesOf(ms, k).minAfterFact + ms[k].start
              == (if ms[k].start < before then before else ms[k].start) + ms[k].oracle
    ensures k > 0 ==> forall free :: FreeAfterBursts(ms, k, free) ==>
              QpTimesOf(ms, k).oracleMct + ms[k].start
              == (if ms[k].start < free then free else ms[k].start) + ms[k].oracle
    ensures k > 0 ==> exists free :: FreeAfterBursts(ms, k, free)
  {
    OneLargestFinish(ms, k + 1, Finished(ms, k + 1));
    OracleIsLatestBurst(ms, k + 1);
    assert forall j :: 0 <= j <= k ==> BackToBack(ms, j, k + 1) == ms[j].start + OracleSum(ms, j, k + 1);
    NextMessage(ms, k);
    if k == 0 {
      assert Finished(ms, 0) == 0 && SenderFree(ms, 0) == 0;
    } else {
      forall before | LargestFinish(ms, k, before) ensures before == Finished(ms, k) {
        OneLargestFinish(ms, k, before);
      }
      SenderFreeAfterBursts(ms, k);
      assert FreeAfterBursts(ms, k, SenderFree(ms, k));
    }
    hide Finished, OracleFinished, SenderFree, OracleSum, TransmitSum;
  }

  lemma {:induction false} OneLargestFinish(ms: seq<Message>, n: nat, x: int)
    requires 0 < n <= |ms|
    ensures LargestFinish(ms, n, x) <==> x == Finished(ms, n)
  {
    FinishedIsMaximum(ms, n);
    hide Finished;
  }

  // ----- when pipelining never finishes later -----

  function Timed(ms: seq<Message>, starts: seq<int>): (r: seq<Message>)
    requires |starts| == |ms|
    ensures |r| == |ms| && forall i :: 0 <= i < |ms| ==> r[i] == ms[i].(start := starts[i])
  {
    seq(|ms|, i requires 0 <= i < |ms| => ms[i].(start := starts[i]))
  }

  ghost predicate NeverLater(ms: seq<Message>) {
    forall k :: 0 < k <= |ms| ==> PipelinedFinish(ms, k) <= OracleFinished(ms, k)
  }

  // No message but the last transmits longer than it takes.
  ghost predicate TransmitWithinOracle(ms: seq<Message>) {
    forall i :: 0 <= i < |ms| - 1 ==> ms[i].transmit <= ms[i].oracle
  }

  // Start times as they come: none negative, none before an earlier one.
  ghost predicate Rising(starts: seq<int>) {
    && (forall i :: 0 <= i < |starts| ==> starts[i] >= 0)
    && forall i, j :: 0 <= i < j < |starts| ==> starts[i] <= starts[j]
  }

  lemma {:induction false} SenderFreeEarlier(ms: seq<Message>, k: nat)
    requires k <= |ms| && forall i :: 0 <= i < k ==> ms[i].transmit <= ms[i].oracle
    ensures SenderFree(ms, k) <= OracleFinished(ms, k)
  {
    if k > 0 {
      SenderFreeEarlier(ms, k - 1);
    }
  }

  lemma {:induction false} PipelinedNotLater(ms: seq<Message>, k: nat)
    requires 0 < k <= |ms| && forall i :: 0 <= i < k - 1 ==> ms[i].transmit <= ms[i].oracle
    ensures PipelinedFinish(ms, k) <= OracleFinished(ms, k)
  {
    SenderFreeEarlier(ms, k - 1);
  }

  lemma {:induction false} SamePrefix(ms: seq<Message>, ms': seq<Message>, k: nat)
    requires k <= |ms| && k <= |ms'| && forall i :: 0 <= i < k ==> ms[i] == ms'[i]
    ensures OracleFinished(ms, k) == OracleFinished(ms', k) && SenderFree(ms, k) == SenderFree(ms', k)
  {
    if k > 0 {
      SamePrefix(ms, ms', k - 1);
    }
  }

  // Everything before message i starts at 0, message i and what follows once both models are through with that.
  lemma {:induction false} LateStarts(ms: seq<Message>, i: nat) returns (starts: seq<int>)
    requires i < |ms| - 1 && ms[i].transmit > ms[i].oracle >= 0
    ensures |starts| == |ms| && Rising(starts) && !NeverLater(Timed(ms, starts))
  {
    var zeros := seq(|ms|, _ => 0);
    var early := Timed(ms, zeros);
    var late := Max(0, Max(OracleFinished(early, i), SenderFree(early, i)));
    starts := seq(|ms|, j => if j < i then 0 else late);
    var t := Timed(ms, starts);
    SamePrefix(early, t, i);
    assert OracleFinished(t, i + 1) == late + ms[i].oracle && SenderFree(t, i + 1) == late + ms[i].transmit;
    assert PipelinedFinish(t, i + 2) > OracleFinished(t, i + 2);
  }

  /** Pipelining never finishes a message later, whatever the start times, exactly when no message but the last
      transmits longer than it takes; start times in rising order make no difference. */
  lemma {:induction false} PipelinedNeverLaterIff(ms: seq<Message>)
    requires forall i :: 0 <= i < |ms| ==> ms[i].oracle >= 0
    ensures (forall starts :: |starts| == |ms| ==> NeverLater(Timed(ms, starts))) <==> TransmitWithinOracle(ms)
    ensures (forall starts :: |starts| == |ms| && Rising(starts) ==> NeverLater(Timed(ms, starts)))
            <==> TransmitWithinOracle(ms)
  {
    if TransmitWithinOracle(ms) {
      forall starts | |starts| == |ms| ensures NeverLater(Timed(ms, starts)) {
        forall k | 0 < k <= |ms| ensures PipelinedFinish(Timed(ms, starts), k) <= OracleFinished(Timed(ms, starts), k) {
          PipelinedNotLater(Timed(ms, starts), k);
        }
      }
    } else {
      var i :| 0 <= i < |ms| - 1 && ms[i].transmit > ms[i].oracle;
      var starts := LateStarts(ms, i);
    }
  }

  // ----- arranging the flows by queue pair -----

  datatype Flow = Flow(isTest: bool, qp: nat, msg: nat, times: Message)

  // None selects all flows, Some(b) those whose isTest is b.
  predicate Selected(f: Flow, wanted: Option<bool>) {
    wanted.None? || f.isTest == wanted.value
  }

  // std::greater on (msg_seq, sender_index) pairs
  predicate Less(a: (nat, nat), b: (nat, nat)) {
    a.0 < b.0 || (a.0 == b.0 && a.1 < b.1)
  }

  // The contents of a priority queue in pop order.
  ghost predicate InOrder(q: seq<(nat, nat)>) {
    forall i, j :: 0 <= i < j < |q| ==> Less(q[i], q[j])
  }

  function Push(q: seq<(nat, nat)>, e: (nat, nat)): seq<(nat, nat)> {
    if |q| == 0 || Less(e, q[0]) then [e] + q else [q[0]] + Push(q[1..], e)
  }

  lemma {:induction false} PushInOrder(q: seq<(nat, nat)>, e: (nat, nat))
    requires InOrder(q) && e !in q
    ensures InOrder(Push(q, e)) && forall x :: x in Push(q, e) <==> x in q || x == e
  {
    if |q| > 0 && !Less(e, q[0]) {
      assert q == [q[0]] + q[1..];
      PushInOrder(q[1..], e);
      assert forall x :: x in q[1..] ==> Less(q[0], x);
    }
  }

  // The selected flows with index below n are filed, each once, under their queue pair and in message order.
  ghost predicate Filed(fs: seq<Flow>, wanted: Option<bool>, qps: map<nat, seq<(nat, nat)>>, n: nat)
    requires n <= |fs|
  {
    && (forall k :: k in qps ==> InOrder(qps[k]))
    && (forall k, e :: k in qps && e in qps[k] ==>
          e.1 < n && Selected(fs[e.1], wanted) && e.0 == fs[e.1].msg && k == fs[e.1].qp)
    && (forall i :: 0 <= i < n && Selected(fs[i], wanted) ==> fs[i].qp in qps && (fs[i].msg, i) in qps[fs[i].qp])
  }

  function Queue(qps: map<nat, seq<(nat, nat)>>, k: nat): seq<(nat, nat)> {
    if k in qps then qps[k] else []
  }

  lemma {:induction false} FileNext(fs: seq<Flow>, wanted: Option<bool>, qps: map<nat, seq<(nat, nat)>>, n: nat)
    requires n < |fs| && Filed(fs, wanted, qps, n) && Selected(fs[n], wanted)
    ensures Filed(fs, wanted, qps[fs[n].qp := Push(Queue(qps, fs[n].qp), (fs[n].msg, n))], n + 1)
  {
    var q, e := Queue(qps, fs[n].qp), (fs[n].msg, n);
    assert e !in q;
    PushInOrder(q, e);
    hide InOrder, Push, Selected;
  }

  // A queue holds flows by rising message number, and by rising index where two numbers are equal.
  ghost predicate ByNumber(fs: seq<Flow>, q: seq<(nat, nat)>) {
    && (forall s :: 0 <= s < |q| ==> q[s].1 < |fs|)
    && forall s, t :: 0 <= s < t < |q| ==>
         || fs[q[s].1].msg < fs[q[t].1].msg
         || (fs[q[s].1].msg == fs[q[t].1].msg && q[s].1 < q[t].1)
  }

  lemma {:induction false} FiledByNumber(fs: seq<Flow>, wanted: Option<bool>, qps: map<nat, seq<(nat, nat)>>, k: nat)
    requires Filed(fs, wanted, qps, |fs|) && k in qps
    ensures ByNumber(fs, qps[k])
  {
    forall s | 0 <= s < |qps[k]| ensures qps[k][s].1 < |fs| && qps[k][s].0 == fs[qps[k][s].1].msg {
      assert qps[k][s] in qps[k];
    }
  }

  /** The selected flows, under their queue pair and in message order. */
  method Arrange(fs: seq<Flow>, wanted: Option<bool>) returns (qps: map<nat, seq<(nat, nat)>>)
    ensures Filed(fs, wanted, qps, |fs|)
    ensures forall k :: k in qps ==> ByNumber(fs, qps[k])
    ensures forall i :: 0 <= i < |fs| && (wanted.None? || wanted.value == fs[i].isTest) ==>
              fs[i].qp in qps && (fs[i].msg, i) in qps[fs[i].qp]
    ensures forall k, e :: k in qps && e in qps[k] ==>
              e.1 < |fs| && (wanted.None? || wanted.value == fs[e.1].isTest) && fs[e.1].qp == k && fs[e.1].msg == e.0
  {
    qps := map[];
    for i := 0 to |fs|
      invariant Filed(fs, wanted, qps, i)
    {
      if Selected(fs[i], wanted) {
        FileNext(fs, wanted, qps, i);
        hide Filed;
        qps := qps[fs[i].qp := Push(Queue(qps, fs[i].qp), (fs[i].msg, i))];
      }
    }
    forall k | k in qps ensures ByNumber(fs, qps[k]) {
      FiledByNumber(fs, wanted, qps, k);
    }
    FiledFlows(fs, wanted, qps);
    hide Filed, ByNumber;
  }

  // Flow i stands at position t of queue pair k.
  ghost predicate At(qps: map<nat, seq<(nat, nat)>>, k: nat, t: nat, i: nat) {
    k in qps && t < |qps[k]| && qps[k][t].1 == i
  }

  /** Every selected flow stands at exactly one place, and no other flow stands anywhere. */
  lemma {:induction false} CountedOnce(fs: seq<Flow>, wanted: Option<bool>, qps: map<nat, seq<(nat, nat)>>, i: nat)
    requires Filed(fs, wanted, qps, |fs|)
    ensures (exists k, t :: At(qps, k, t, i)) <==> i < |fs| && Selected(fs[i], wanted)
    ensures forall k, t, k', t' :: At(qps, k, t, i) && At(qps, k', t', i) ==> k == k' && t == t'
  {
    if i < |fs| && Selected(fs[i], wanted) {
      var t :| 0 <= t < |qps[fs[i].qp]| && qps[fs[i].qp][t] == (fs[i].msg, i);
      assert At(qps, fs[i].qp, t, i);
    }
    forall k: nat, t: nat | At(qps, k, t, i)
      ensures i < |fs| && Selected(fs[i], wanted) && k == fs[i].qp && qps[k][t].0 == fs[i].msg
    {
      assert qps[k][t] in qps[k];
    }
    forall k: nat, t: nat, k': nat, t': nat | At(qps, k, t, i) && At(qps, k', t', i) ensures k == k' && t == t' {
      assert k == k' && InOrder(qps[k]);
      assert qps[k][t] == qps[k][t'];
    }
  }

  /** What the queues hold, flow by flow: exactly the flows wanted, each under its own queue pair. */
  lemma {:induction false} FiledFlows(fs: seq<Flow>, wanted: Option<bool>, qps: map<nat, seq<(nat, nat)>>)
    requires Filed(fs, wanted, qps, |fs|)
    ensures forall i :: 0 <= i < |fs| && (wanted.None? || wanted.value == fs[i].isTest) ==>
              fs[i].qp in qps && (fs[i].msg, i) in qps[fs[i].qp]
    ensures forall k, e :: k in qps && e in qps[k] ==>
              e.1 < |fs| && (wanted.None? || wanted.value == fs[e.1].isTest) && fs[e.1].qp == k && fs[e.1].msg == e.0
  {
  }

  // ----- the two reports -----

  // The messages of a queue, as they are popped.
  ghost function MessagesOf(fs: seq<Flow>, q: seq<(nat, nat)>): (r: seq<Message>)
    requires forall e :: e in q ==> e.1 < |fs|
    ensures |r| == |q| && forall t :: 0 <= t < |q| ==> r[t] == fs[q[t].1].times
  {
    seq(|q|, t requires 0 <= t < |q| => fs[q[t].1].times)
  }

  method PopAll(fs: seq<Flow>, q: seq<(nat, nat)>) returns (ms: seq<Message>)
    requires forall e :: e in q ==> e.1 < |fs|
    ensures ms == MessagesOf(fs, q)
  {
    ms := [];
    for t := 0 to |q|
      invariant |ms| == t && forall u :: 0 <= u < t ==> ms[u] == fs[q[u].1].times
    {
      assert q[t] in q;
      ms := ms + [fs[q[t].1].times];
    }
  }

  /** printOrderedMCT: every flow's three times, in message order within its queue pair. */
  method PrintOrderedMct(fs: seq<Flow>)
    returns (lines: map<nat, seq<Times>>, qps: map<nat, seq<(nat, nat)>>)
    ensures Filed(fs, None, qps, |fs|) && lines.Keys == qps.Keys
    ensures forall i :: 0 <= i < |fs| ==> fs[i].qp in qps && (fs[i].msg, i) in qps[fs[i].qp]
    ensures forall k, e :: k in qps && e in qps[k] ==> e.1 < |fs| && fs[e.1].qp == k && fs[e.1].msg == e.0
    ensures forall k :: k in qps ==> ByNumber(fs, qps[k])
    ensures forall k :: k in qps ==> |lines[k]| == |qps[k]|
    ensures forall k, t :: k in qps && 0 <= t < |qps[k]| ==> lines[k][t] == TimesOf(MessagesOf(fs, qps[k]), t)
  {
    qps := Arrange(fs, None);
    lines := map[];
    var left := qps.Keys;
    while left != {}
      invariant left <= qps.Keys && lines.Keys == qps.Keys - left
      invariant forall k :: k in lines ==> |lines[k]| == |qps[k]|
      invariant forall k, t :: k in lines && 0 <= t < |qps[k]| ==> lines[k][t] == TimesOf(MessagesOf(fs, qps[k]), t)
      decreases left
    {
      hide InOrder, TimesOf, ByNumber;
      var k :| k in left;
      var ms := PopAll(fs, qps[k]);
      var r := OrderedMct(ms);
      lines, left := lines[k := r], left - {k};
    }
  }

  /** printOrderedMCTForQPMode: both times of every flow with that test flag. */
  method PrintOrderedMctForQpMode(fs: seq<Flow>, isTest: bool)
    returns (lines: map<nat, seq<QpTimes>>, qps: map<nat, seq<(nat, nat)>>)
    ensures Filed(fs, Some(isTest), qps, |fs|) && lines.Keys == qps.Keys
    ensures forall i :: 0 <= i < |fs| && fs[i].isTest == isTest ==> fs[i].qp in qps && (fs[i].msg, i) in qps[fs[i].qp]
    ensures forall k, e :: k in qps && e in qps[k] ==>
              e.1 < |fs| && fs[e.1].isTest == isTest && fs[e.1].qp == k && fs[e.1].msg == e.0
    ensures forall k :: k in qps ==> ByNumber(fs, qps[k])
    ensures forall k :: k in qps ==> |lines[k]| == |qps[k]|
    ensures forall k, t :: k in qps && 0 <= t < |qps[k]| ==> lines[k][t] == QpTimesOf(MessagesOf(fs, qps[k]), t)
  {
    qps := Arrange(fs, Some(isTest));
    lines := map[];
    var left := qps.Keys;
    while left != {}
      invariant left <= qps.Keys && lines.Keys == qps.Keys - left
      invariant forall k :: k in lines ==> |lines[k]| == |qps[k]|
      invariant forall k, t :: k in lines && 0 <= t < |qps[k]| ==> lines[k][t] == QpTimesOf(MessagesOf(fs, qps[k]), t)
      decreases left
    {
      hide InOrder, QpTimesOf, ByNumber;
      var k :| k in left;
      var ms := PopAll(fs, qps[k]);
      var r := OrderedMctForQpMode(ms);
      lines, left := lines[k := r], left - {k};
    }
  }
}
