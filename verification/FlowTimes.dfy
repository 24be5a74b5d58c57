/** The oracle and transmit times scratch/third.cc gives a flow, and when pipelining never finishes later with them. */
module FlowTimes {
  import opened Common
  import opened CompletionTimes

  // pd and td of the two hosts, and the nanoseconds per byte 1e9 / host_bw_Bps of the first host's interface.
  datatype Path = Path(pd: nat, td: nat, byteNs: real)

  // GetDefaultDelayUs, in nanoseconds
  function DelayNs(p: Path, size: nat): real {
    p.pd as real + p.td as real / 1000.0 * size as real
  }

  // Get_Oracle_Fct, in nanoseconds; the bytes of the full packets are counted in 32 bits.
  function OracleExact(p: Path, payload: nat, size: nat): real
    requires payload > 0
  {
    var mtu, full, left := payload + 78, Quot(size, payload), Rem(size, payload);
    if full >= 1 then
      DelayNs(p, mtu) + DelayNs(p, 84) + ((full - 1) * mtu % WORD) as real * p.byteNs + (left + 78) as real * p.byteNs
    else
      DelayNs(p, left) + DelayNs(p, 84)
  }

  // transmit_ns before its truncation; packets is Settings::pktsmode.
  function TransmitExact(p: Path, payload: nat, size: nat, packets: bool): real
    requires payload > 0
  {
    var mtu := payload + 78;
    if packets then (mtu * size) as real * p.byteNs
    else (Quot(size, payload) * mtu + Rem(size, payload) + 84) as real * p.byteNs
  }

  /** 4000 ns and 320 ns per 1000 bytes away, at 12.5 bytes a nanosecond, in packets of 1000 bytes. */
  lemma {:induction false} SampleTimes()
    ensures var p := Path(4000, 320, 0.08);
            && OracleExact(p, 1000, 2500) == 4344.96 + 4026.88 + 86.24 + 46.24
            && OracleExact(p, 1000, 500) == 4160.0 + 4026.88
            && TransmitExact(p, 1000, 2500, false) == 219.2 && TransmitExact(p, 1000, 2500, true) == 215600.0
  {
    assert Quot(2500, 1000) == 2 && Rem(2500, 1000) == 500 && Quot(500, 1000) == 0 && Rem(500, 1000) == 500;
  }

  /** The oracle time forgets every 2^32 bytes in full packets. */
  lemma {:induction false} OracleForgets(p: Path, payload: nat, size: nat, other: nat, w: nat)
    requires 0 < payload <= size && payload <= other && Rem(size, payload) == Rem(other, payload)
    requires (Quot(size, payload) - 1) * (payload + 78)
          == (Quot(other, payload) - 1) * (payload + 78) + 0x1_0000_0000 * w
    ensures OracleExact(p, payload, size) == OracleExact(p, payload, other)
  {
    var a, b := (Quot(size, payload) - 1) * (payload + 78), (Quot(other, payload) - 1) * (payload + 78);
    SameRemainder(a, b, w);
    hide Quot, Rem;
  }

  lemma {:induction false} SameRemainder(a: nat, b: nat, w: nat)
    requires a == b + 0x1_0000_0000 * w
    ensures a % WORD == b % WORD
  {
  }

  // How often the 32-bit count of bytes in full packets has wrapped around.
  function Wraps(payload: nat, size: nat): nat
    requires 0 < payload <= size
  {
    (Quot(size, payload) - 1) * (payload + 78) / WORD
  }

  // From one packet on it does not depend on the size, but for the wrap-arounds.
  function Slack(p: Path, payload: nat, size: nat): real
    requires payload > 0
  {
    if size < payload then DelayNs(p, size) + DelayNs(p, 84) - (size + 84) as real * p.byteNs
    else DelayNs(p, payload + 78) + DelayNs(p, 84) - (payload + 84) as real * p.byteNs
         - (WORD * Wraps(payload, size)) as real * p.byteNs
  }

  /** The slack is by how much a flow's oracle time exceeds its transmit time. */
  lemma {:induction false} SlackIsExact(p: Path, payload: nat, size: nat)
    requires payload > 0
    ensures OracleExact(p, payload, size) - TransmitExact(p, payload, size, false) == Slack(p, payload, size)
  {
    if size >= payload {
      PacketsSlack(p, payload, size);
    } else {
      SmallSlack(p, payload, size);
    }
    hide Slack, OracleExact, TransmitExact;
  }

  lemma {:induction false} SmallSlack(p: Path, payload: nat, size: nat)
    requires size < payload
    ensures OracleExact(p, payload, size) - TransmitExact(p, payload, size, false) == Slack(p, payload, size)
  {
    assert Quot(size, payload) == 0 && Rem(size, payload) == size;
  }

  lemma {:induction false} PacketsSlack(p: Path, payload: nat, size: nat)
    requires 0 < payload <= size
    ensures OracleExact(p, payload, size) - TransmitExact(p, payload, size, false) == Slack(p, payload, size)
  {
    var mtu, full, left := payload + 78, Quot(size, payload), Rem(size, payload);
    var bytes := (full - 1) * mtu;
    assert full * mtu + left + 84 == bytes + mtu + left + 84;
    assert bytes % WORD == bytes - WORD * (bytes / WORD);
  }

  // ----- one queue pair -----

  // Its messages, sizes in bytes: one path, any start and finish times.
  ghost predicate QueuePair(ms: seq<Message>, p: Path, payload: nat, sizes: seq<nat>) {
    && payload > 0 && p.byteNs > 0.0 && |sizes| == |ms|
    && forall i :: 0 <= i < |ms| ==> IsFlow(ms[i], p, payload, sizes[i], false)
  }

  // Both times are truncated to whole nanoseconds.
  ghost predicate IsFlow(m: Message, p: Path, payload: nat, size: nat, packets: bool)
    requires payload > 0
  {
    m.oracle == OracleExact(p, payload, size).Floor && m.transmit == TransmitExact(p, payload, size, packets).Floor
  }

  lemma {:induction false} OracleNonNegative(p: Path, payload: nat, size: nat)
    requires payload > 0 && p.byteNs > 0.0
    ensures OracleExact(p, payload, size) >= 0.0
  {
  }

  /** Pipelining never finishes later, whatever the start times, if no flow but the last has a negative slack ... */
  lemma {:induction false} QueuePairNeverLater(ms: seq<Message>, p: Path, payload: nat, sizes: seq<nat>,
                                               starts: seq<int>)
    requires QueuePair(ms, p, payload, sizes) && |starts| == |ms|
    requires forall i :: 0 <= i < |ms| - 1 ==> Slack(p, payload, sizes[i]) >= 0.0
    ensures NeverLater(Timed(ms, starts))
  {
    forall i | 0 <= i < |ms| ensures ms[i].oracle >= 0 && (i < |ms| - 1 ==> ms[i].transmit <= ms[i].oracle) {
      assert IsFlow(ms[i], p, payload, sizes[i], false);
      SlackIsExact(p, payload, sizes[i]);
      OracleNonNegative(p, payload, sizes[i]);
    }
    PipelinedNeverLaterIff(ms);
  }

  /** ... and does, for some rising start times, if one transmits a nanosecond longer than its oracle time. */
  lemma {:induction false} LongTransmitLater(ms: seq<Message>, i: nat, p: Path, payload: nat, size: nat, packets: bool)
    requires payload > 0 && p.byteNs > 0.0 && i < |ms| - 1 && IsFlow(ms[i], p, payload, size, packets)
    requires TransmitExact(p, payload, size, packets) >= OracleExact(p, payload, size) + 1.0
    ensures exists starts :: |starts| == |ms| && Rising(starts) && !NeverLater(Timed(ms, starts))
  {
    OracleNonNegative(p, payload, size);
    var starts := LateStarts(ms, i);
  }

  // The path is no faster than the first host's interface.
  ghost predicate SlowPath(p: Path) {
    p.td as real / 1000.0 >= p.byteNs
  }

  /** On such a path no flow whose bytes fit the 32-bit count has a negative slack. */
  lemma {:induction false} SlowPathSlack(p: Path, payload: nat, size: nat)
    requires payload > 0 && p.byteNs > 0.0 && SlowPath(p) && (payload <= size ==> Wraps(payload, size) == 0)
    ensures Slack(p, payload, size) >= 0.0
  {
    var perByte := p.td as real / 1000.0;
    assert (size + 84) as real * p.byteNs <= (size + 84) as real * perByte;
    assert (payload + 84) as real * p.byteNs <= (payload + 84) as real * perByte;
  }

  /** With a first host at 10 Gbps, every flow of a packet or more between hosts 100 ns apart over two links at 100 Gbps
      makes the next message of its queue pair later. */
  lemma {:induction false} FasterHostsLater(ms: seq<Message>, i: nat, size: nat)
    requires i < |ms| - 1 && size >= 1000 && IsFlow(ms[i], Path(100, 160, 0.8), 1000, size, false)
    ensures exists starts :: |starts| == |ms| && Rising(starts) && !NeverLater(Timed(ms, starts))
  {
    SlackIsExact(Path(100, 160, 0.8), 1000, size);
    LongTransmitLater(ms, i, Path(100, 160, 0.8), 1000, size, false);
  }

  // ----- sizes in packets -----

  // The part of the oracle time that does not grow with the size, and a nanosecond.
  function Fixed(p: Path, payload: nat): real {
    DelayNs(p, payload + 78) + DelayNs(p, 84) + DelayNs(p, payload) + 1.0
  }

  lemma {:induction false} HalfCounted(payload: nat, size: nat)
    requires 1 < payload <= size
    ensures 2 * CountedBytes(payload, size) <= (payload + 78) * size
  {
    var mtu, full := payload + 78, Quot(size, payload);
    MulMonotone(2, payload, full);
    MulMonotone(2 * full, size, mtu);
    AtMost((full - 1) * mtu);
    assert CountedBytes(payload, size) <= (full - 1) * mtu + mtu by {
      hide Quot;
    }
    assert (full - 1) * mtu + mtu == full * mtu;
  }

  lemma {:induction false} AtMost(x: nat)
    ensures x % WORD <= x
  {
  }

  /** With sizes counted in packets, which the oracle takes as bytes, every path is too fast from some size on. */
  lemma {:induction false} PacketsTooLate(p: Path, payload: nat, size: nat)
    requires payload > 1 && p.byteNs > 0.0 && size >= payload && size as real * p.byteNs >= 2.0 * Fixed(p, payload)
    ensures TransmitExact(p, payload, size, true) >= OracleExact(p, payload, size) + 1.0
  {
    hide Fixed, OracleExact, CountedBytes, Quot, Rem;
    HalfCounted(payload, size);
    OracleBound(p, payload, size);
    MulMonotone(1, payload + 78, size);
    Covers(CountedBytes(payload, size), (payload + 78) * size, size, p.byteNs, Fixed(p, payload));
  }

  lemma {:induction false} PacketsLater(ms: seq<Message>, i: nat, p: Path, payload: nat, size: nat)
    requires payload > 1 && p.byteNs > 0.0 && i < |ms| - 1 && IsFlow(ms[i], p, payload, size, true)
    requires size >= payload && size as real * p.byteNs >= 2.0 * Fixed(p, payload)
    ensures exists starts :: |starts| == |ms| && Rising(starts) && !NeverLater(Timed(ms, starts))
  {
    hide OracleExact, TransmitExact, Fixed;
    PacketsTooLate(p, payload, size);
    LongTransmitLater(ms, i, p, payload, size, true);
  }

  lemma {:induction false} Covers(counted: nat, total: nat, size: nat, x: real, fixed: real)
    requires 2 * counted <= total && size <= total && x > 0.0 && size as real * x >= 2.0 * fixed
    ensures total as real * x >= counted as real * x + fixed
  {
    Scale(2 * counted, total, x);
    Scale(size, total, x);
    assert (2 * counted) as real * x == 2.0 * (counted as real * x);
  }

  // All bytes in the oracle time of a flow of one packet or more.
  function CountedBytes(payload: nat, size: nat): nat
    requires 0 < payload <= size
  {
    (Quot(size, payload) - 1) * (payload + 78) % WORD + Rem(size, payload) + 78
  }

  lemma {:induction false} OracleBound(p: Path, payload: nat, size: nat)
    requires 0 < payload <= size && p.byteNs > 0.0
    ensures OracleExact(p, payload, size) + 1.0 <= Fixed(p, payload) + CountedBytes(payload, size) as real * p.byteNs
  {
    hide Quot, Rem;
  }

  lemma {:induction false} Scale(a: nat, b: nat, x: real)
    requires a <= b && x > 0.0
    ensures a as real * x <= b as real * x
  {
  }
}
