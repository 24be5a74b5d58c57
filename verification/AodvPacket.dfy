/** The AODV wire headers of src/aodv/model/aodv-packet.cc (message formats of RFC 3561, sections 5.1 to 5.3). */
module AodvPacket {
  import opened Common

  type byte = x: nat | x < 0x100
  type uint32 = x: nat | x < 0x1_0000_0000

  // ----- network byte order -----

  function Hton(x: uint32): (r: seq<byte>)
    ensures |r| == 4
  {
    var y := x / 0x100;
    var z := y / 0x100;
    [z / 0x100, z % 0x100, y % 0x100, x % 0x100]
  }

  function Ntoh(b: seq<byte>): uint32
    requires |b| >= 4
  {
    ((b[0] as int * 0x100 + b[1]) * 0x100 + b[2]) * 0x100 + b[3]
  }

  lemma {:induction false} NtohHton(x: uint32, rest: seq<byte>)
    ensures Ntoh(Hton(x) + rest) == x
  {
  }

  lemma {:induction false} HtonNtoh(b: seq<byte>)
    requires |b| >= 4
    ensures Hton(Ntoh(b)) == b[..4]
  {
    var z := b[0] as int * 0x100 + b[1];
    var y := z * 0x100 + b[2];
    LowByte(y, b[3]);
    LowByte(z, b[2]);
    LowByte(b[0] as int, b[1]);
  }

  lemma {:induction false} LowByte(q: nat, r: nat)
    requires r < 0x100
    ensures (q * 0x100 + r) / 0x100 == q && (q * 0x100 + r) % 0x100 == r
  {
  }

  twostate predicate Untouched(buf: array<byte>, i: nat)
    reads buf
  {
    forall k :: i <= k < buf.Length ==> buf[k] == old(buf[k])
  }

  // Buffer::Iterator: writing in place, reading, and the new position.
  method WriteU8(buf: array<byte>, i: nat, x: byte) returns (i': nat)
    requires i < buf.Length
    modifies buf
    ensures i' == i + 1 && buf[..i'] == old(buf[..i]) + [x] && Untouched(buf, i')
  {
    buf[i] := x;
    i' := i + 1;
  }

  method WriteHtonU32(buf: array<byte>, i: nat, x: uint32) returns (i': nat)
    requires i + 4 <= buf.Length
    modifies buf
    ensures i' == i + 4 && buf[..i'] == old(buf[..i]) + Hton(x) && Untouched(buf, i')
  {
    buf[i], buf[i + 1], buf[i + 2], buf[i + 3] := Hton(x)[0], Hton(x)[1], Hton(x)[2], Hton(x)[3];
    i' := i + 4;
  }

  // The three bytes every header starts with.
  method WriteHead(buf: array<byte>, i: nat, a: byte, b: byte, c: byte) returns (i': nat)
    requires i + 3 <= buf.Length
    modifies buf
    ensures i' == i + 3 && buf[..i'] == old(buf[..i]) + [a, b, c] && Untouched(buf, i')
  {
    i' := WriteU8(buf, i, a);
    i' := WriteU8(buf, i', b);
    i' := WriteU8(buf, i', c);
  }

  method WriteTwo(buf: array<byte>, i: nat, x: uint32, y: uint32) returns (i': nat)
    requires i + 8 <= buf.Length
    modifies buf
    ensures i' == i + 8 && buf[..i'] == old(buf[..i]) + (Hton(x) + Hton(y)) && Untouched(buf, i')
  {
    hide Hton;
    i' := WriteHtonU32(buf, i, x);
    i' := WriteHtonU32(buf, i', y);
  }

  method ReadNtohU32(buf: array<byte>, i: nat) returns (x: uint32, i': nat)
    requires i + 4 <= buf.Length
    ensures x == Ntoh(buf[i..]) && i' == i + 4
  {
    x := Ntoh(buf[i..i + 4]);
    i' := i + 4;
  }

  // The 32-bit number at position i, most significant byte first.
  function Word(b: seq<byte>, i: nat): nat
    requires i + 4 <= |b|
  {
    b[i] as int * 0x1000000 + b[i + 1] as int * 0x10000 + b[i + 2] as int * 0x100 + b[i + 3]
  }

  lemma {:induction false} HtonIsWord(x: uint32, b: seq<byte>, i: nat)
    requires i + 4 <= |b| && b[i..i + 4] == Hton(x)
    ensures Word(b, i) == x
  {
    assert b[i] == Hton(x)[0] && b[i + 1] == Hton(x)[1] && b[i + 2] == Hton(x)[2] && b[i + 3] == Hton(x)[3];
  }

  // ----- RREQ -----

  datatype Rreq = Rreq(flags: byte, reserved: byte, hopCount: byte, requestID: uint32, dst: uint32,
                       dstSeqNo: uint32, origin: uint32, originSeqNo: uint32)

  const RREQ_SIZE: nat := 23

  function RreqBytes(h: Rreq): (r: seq<byte>)
    ensures |r| == RREQ_SIZE
  {
    [h.flags, h.reserved, h.hopCount] + Hton(h.requestID)
    + Hton(h.dst) + Hton(h.dstSeqNo) + Hton(h.origin) + Hton(h.originSeqNo)
  }

  function RreqOf(b: seq<byte>): Rreq
    requires |b| >= RREQ_SIZE
  {
    Rreq(b[0], b[1], b[2], Ntoh(b[3..]), Ntoh(b[7..]), Ntoh(b[11..]), Ntoh(b[15..]), Ntoh(b[19..]))
  }

  /** Both round trips, whatever follows in the buffer. */
  lemma {:induction false} RreqRoundTrip(h: Rreq, b: seq<byte>, rest: seq<byte>)
    ensures RreqOf(RreqBytes(h) + rest) == h
    ensures |b| >= RREQ_SIZE ==> RreqBytes(RreqOf(b)) == b[..RREQ_SIZE]
  {
    var w := RreqBytes(h) + rest;
    assert w[3..][..4] == Hton(h.requestID) && w[7..][..4] == Hton(h.dst) && w[11..][..4] == Hton(h.dstSeqNo);
    assert w[15..][..4] == Hton(h.origin) && w[19..][..4] == Hton(h.originSeqNo);
    NtohHton(h.requestID, w[7..]);
    NtohHton(h.dst, w[11..]);
    NtohHton(h.dstSeqNo, w[15..]);
    NtohHton(h.origin, w[19..]);
    NtohHton(h.originSeqNo, w[23..]);
    if |b| >= RREQ_SIZE {
      HtonNtoh(b[3..]);
      HtonNtoh(b[7..]);
      HtonNtoh(b[11..]);
      HtonNtoh(b[15..]);
      HtonNtoh(b[19..]);
    }
  }

  /** Where each field stands. */
  lemma {:induction false} RreqLayout(h: Rreq)
    ensures var b := RreqBytes(h);
            && b[0] == h.flags && b[1] == h.reserved && b[2] == h.hopCount && Word(b, 3) == h.requestID
            && Word(b, 7) == h.dst && Word(b, 11) == h.dstSeqNo
            && Word(b, 15) == h.origin && Word(b, 19) == h.originSeqNo
  {
    hide Hton, Word;
    var b := RreqBytes(h);
    HtonIsWord(h.requestID, b, 3);
    HtonIsWord(h.dst, b, 7);
    HtonIsWord(h.dstSeqNo, b, 11);
    HtonIsWord(h.origin, b, 15);
    HtonIsWord(h.originSeqNo, b, 19);
  }

  class RreqHeader {
    var h: Rreq

    constructor (h: Rreq)
      ensures this.h == h
    {
      this.h := h;
    }

    method Serialize(buf: array<byte>, start: nat)
      requires start + RREQ_SIZE <= buf.Length
      modifies buf
      ensures buf[..start + RREQ_SIZE] == old(buf[..start]) + RreqBytes(h) && Untouched(buf, start + RREQ_SIZE)
    {
      hide Hton;
      var i := WriteHead(buf, start, h.flags, h.reserved, h.hopCount);
      i := WriteHtonU32(buf, i, h.requestID);
      i := WriteTwo(buf, i, h.dst, h.dstSeqNo);
      i := WriteTwo(buf, i, h.origin, h.originSeqNo);
    }

    method Deserialize(buf: array<byte>, start: nat) returns (dist: nat)
      requires start + RREQ_SIZE <= buf.Length
      modifies this
      ensures h == RreqOf(buf[start..]) && dist == RREQ_SIZE
    {
      var requestID, dst, dstSeqNo, origin, originSeqNo;
      var i := start + 3;
      requestID, i := ReadNtohU32(buf, i);
      dst, i := ReadNtohU32(buf, i);
      dstSeqNo, i := ReadNtohU32(buf, i);
      origin, i := ReadNtohU32(buf, i);
      originSeqNo, i := ReadNtohU32(buf, i);
      ghost var b := buf[start..];
      assert b[3..] == buf[start + 3..] && b[7..] == buf[start + 7..] && b[11..] == buf[start + 11..];
      assert b[15..] == buf[start + 15..] && b[19..] == buf[start + 19..];
      h := Rreq(buf[start], buf[start + 1], buf[start + 2], requestID, dst, dstSeqNo, origin, originSeqNo);
      dist := i - start;
    }
  }

  // ----- RREP -----

  datatype Rrep = Rrep(flags: byte, prefixSize: byte, hopCount: byte, dst: uint32, dstSeqNo: uint32,
                       origin: uint32, lifeTime: uint32)

  const RREP_SIZE: nat := 19

  function RrepBytes(h: Rrep): (r: seq<byte>)
    ensures |r| == RREP_SIZE
  {
    [h.flags, h.prefixSize, h.hopCount] + Hton(h.dst) + Hton(h.dstSeqNo) + Hton(h.origin) + Hton(h.lifeTime)
  }

  function RrepOf(b: seq<byte>): Rrep
    requires |b| >= RREP_SIZE
  {
    Rrep(b[0], b[1], b[2], Ntoh(b[3..]), Ntoh(b[7..]), Ntoh(b[11..]), Ntoh(b[15..]))
  }

  /** Both round trips, whatever follows in the buffer. */
  lemma {:induction false} RrepRoundTrip(h: Rrep, b: seq<byte>, rest: seq<byte>)
    ensures RrepOf(RrepBytes(h) + rest) == h
    ensures |b| >= RREP_SIZE ==> RrepBytes(RrepOf(b)) == b[..RREP_SIZE]
  {
    var w := RrepBytes(h) + rest;
    assert w[3..][..4] == Hton(h.dst) && w[7..][..4] == Hton(h.dstSeqNo);
    assert w[11..][..4] == Hton(h.origin) && w[15..][..4] == Hton(h.lifeTime);
    NtohHton(h.dst, w[7..]);
    NtohHton(h.dstSeqNo, w[11..]);
    NtohHton(h.origin, w[15..]);
    NtohHton(h.lifeTime, w[19..]);
    if |b| >= RREP_SIZE {
      HtonNtoh(b[3..]);
      HtonNtoh(b[7..]);
      HtonNtoh(b[11..]);
      HtonNtoh(b[15..]);
    }
  }

  lemma {:induction false} RrepLayout(h: Rrep)
    ensures var b := RrepBytes(h);
            && b[0] == h.flags && b[1] == h.prefixSize && b[2] == h.hopCount
            && Word(b, 3) == h.dst && Word(b, 7) == h.dstSeqNo && Word(b, 11) == h.origin && Word(b, 15) == h.lifeTime
  {
    hide Hton, Word;
    var b := RrepBytes(h);
    HtonIsWord(h.dst, b, 3);
    HtonIsWord(h.dstSeqNo, b, 7);
    HtonIsWord(h.origin, b, 11);
    HtonIsWord(h.lifeTime, b, 15);
  }

  class RrepHeader {
    var h: Rrep

    constructor (h: Rrep)
      ensures this.h == h
    {
      this.h := h;
    }

    method Serialize(buf: array<byte>, start: nat)
      requires start + RREP_SIZE <= buf.Length
      modifies buf
      ensures buf[..start + RREP_SIZE] == old(buf[..start]) + RrepBytes(h) && Untouched(buf, start + RREP_SIZE)
    {
      hide Hton;
      var i := WriteHead(buf, start, h.flags, h.prefixSize, h.hopCount);
      i := WriteTwo(buf, i, h.dst, h.dstSeqNo);
      i := WriteTwo(buf, i, h.origin, h.lifeTime);
    }

    method Deserialize(buf: array<byte>, start: nat) returns (dist: nat)
      requires start + RREP_SIZE <= buf.Length
      modifies this
      ensures h == RrepOf(buf[start..]) && dist == RREP_SIZE
    {
      var dst, dstSeqNo, origin, lifeTime;
      var i := start + 3;
      dst, i := ReadNtohU32(buf, i);
      dstSeqNo, i := ReadNtohU32(buf, i);
      origin, i := ReadNtohU32(buf, i);
      lifeTime, i := ReadNtohU32(buf, i);
      ghost var b := buf[start..];
      assert b[3..] == buf[start + 3..] && b[7..] == buf[start + 7..];
      assert b[11..] == buf[start + 11..] && b[15..] == buf[start + 15..];
      h := Rrep(buf[start], buf[start + 1], buf[start + 2], dst, dstSeqNo, origin, lifeTime);
      dist := i - start;
    }
  }

  // ----- RERR -----

  // One unreachable destination; the header keeps them as a map ordered by address.
  datatype Dest = Dest(addr: uint32, seqNo: uint32)

  datatype Rerr = Rerr(flag: byte, reserved: byte, dests: seq<Dest>)

  predicate Ascending(ds: seq<Dest>) {
    forall i, j :: 0 <= i < j < |ds| ==> ds[i].addr < ds[j].addr
  }

  // map::insert: nothing happens when the address is there.
  function Insert(ds: seq<Dest>, d: Dest): seq<Dest> {
    if |ds| == 0 || d.addr < ds[0].addr then [d] + ds
    else if d.addr == ds[0].addr then ds
    else [ds[0]] + Insert(ds[1..], d)
  }

  function DestCount(ds: seq<Dest>): byte {
    |ds| % 0x100
  }

  function RerrSize(h: Rerr): nat {
    3 + 8 * DestCount(h.dests)
  }

  function DestsBytes(ds: seq<Dest>): (r: seq<byte>)
    ensures |r| == 8 * |ds|
  {
    if |ds| == 0 then [] else DestsBytes(ds[..|ds| - 1]) + (Hton(Last(ds).addr) + Hton(Last(ds).seqNo))
  }

  // What Serialize writes: the count modulo 256, but every destination.
  function RerrBytes(h: Rerr): seq<byte> {
    [h.flag, h.reserved, DestCount(h.dests)] + DestsBytes(h.dests)
  }

  // The first n records of b, in buffer order.
  function Records(b: seq<byte>, n: nat): (r: seq<Dest>)
    requires |b| >= 8 * n
    ensures |r| == n
  {
    if n == 0 then [] else Records(b, n - 1) + [Dest(Ntoh(b[8 * (n - 1)..]), Ntoh(b[8 * (n - 1) + 4..]))]
  }

  function InsertAll(rs: seq<Dest>): seq<Dest> {
    if |rs| == 0 then [] else Insert(InsertAll(rs[..|rs| - 1]), Last(rs))
  }

  // The destination count byte, and whether that many records follow.
  function CountIn(b: seq<byte>): nat
    requires |b| >= 3
  {
    b[2] as nat
  }

  ghost predicate Readable(b: seq<byte>) {
    |b| >= 3 && |b| >= 3 + 8 * CountIn(b)
  }

  function RerrOf(b: seq<byte>): Rerr
    requires Readable(b)
  {
    Rerr(b[0], b[1], InsertAll(Records(b[3..], CountIn(b))))
  }

  lemma {:induction false} InsertAscending(ds: seq<Dest>, d: Dest)
    requires Ascending(ds)
    ensures Ascending(Insert(ds, d))
    ensures forall x :: x in Insert(ds, d) ==> x in ds || x == d
    ensures |Insert(ds, d)| <= |ds| + 1
  {
    if |ds| > 0 && d.addr >= ds[0].addr {
      InsertAscending(ds[1..], d);
      assert ds == [ds[0]] + ds[1..];
      assert forall x :: x in ds[1..] ==> ds[0].addr < x.addr;
    }
  }

  lemma {:induction false} InsertLast(ds: seq<Dest>, d: Dest)
    requires forall x :: x in ds ==> x.addr < d.addr
    ensures Insert(ds, d) == ds + [d]
  {
    if |ds| > 0 {
      assert ds[0] in ds;
      InsertLast(ds[1..], d);
    }
  }

  lemma {:induction false} InsertAllAscending(rs: seq<Dest>)
    ensures Ascending(InsertAll(rs)) && |InsertAll(rs)| <= |rs|
    ensures Ascending(rs) <==> InsertAll(rs) == rs
  {
    if |rs| > 0 {
      var q := rs[..|rs| - 1];
      InsertAllAscending(q);
      InsertAscending(InsertAll(q), Last(rs));
      if Ascending(rs) {
        InsertLast(q, Last(rs));
      }
    }
  }

  ghost predicate DistinctAddrs(rs: seq<Dest>) {
    forall i, j :: 0 <= i < j < |rs| ==> rs[i].addr != rs[j].addr
  }

  ghost predicate HasAddr(rs: seq<Dest>, a: uint32) {
    exists i :: 0 <= i < |rs| && rs[i].addr == a
  }

  lemma {:induction false} InsertLength(ds: seq<Dest>, d: Dest)
    requires Ascending(ds)
    ensures |Insert(ds, d)| == |ds| + if HasAddr(ds, d.addr) then 0 else 1
    ensures forall a :: HasAddr(Insert(ds, d), a) <==> HasAddr(ds, a) || a == d.addr
  {
    if |ds| == 0 || d.addr < ds[0].addr {
      HasAddrCons(d, ds);
    } else if d.addr > ds[0].addr {
      InsertLength(ds[1..], d);
      HasAddrCons(ds[0], ds[1..]);
      HasAddrCons(ds[0], Insert(ds[1..], d));
      assert ds == [ds[0]] + ds[1..];
      hide HasAddr;
    }
  }

  lemma {:induction false} HasAddrCons(d: Dest, ds: seq<Dest>)
    ensures forall a :: HasAddr([d] + ds, a) <==> d.addr == a || HasAddr(ds, a)
  {
    forall a ensures HasAddr([d] + ds, a) <==> d.addr == a || HasAddr(ds, a) {
      if d.addr == a {
        assert ([d] + ds)[0].addr == a;
      } else if i :| 0 <= i < |ds| && ds[i].addr == a {
        assert ([d] + ds)[i + 1].addr == a;
      }
    }
  }

  // Nothing is lost by inserting exactly when no address repeats.
  lemma {:induction false} InsertAllLength(rs: seq<Dest>)
    ensures |InsertAll(rs)| == |rs| <==> DistinctAddrs(rs)
    ensures forall a :: HasAddr(InsertAll(rs), a) <==> HasAddr(rs, a)
  {
    if |rs| > 0 {
      var q := rs[..|rs| - 1];
      InsertAllLength(q);
      InsertAllAscending(q);
      InsertLength(InsertAll(q), Last(rs));
      hide Insert;
      assert HasAddr(rs, Last(rs).addr);
      forall a ensures HasAddr(rs, a) <==> HasAddr(q, a) || a == Last(rs).addr {
        if i :| 0 <= i < |q| && q[i].addr == a {
          assert rs[i].addr == a;
        }
      }
      if DistinctAddrs(q) && !HasAddr(q, Last(rs).addr) {
        assert forall i :: 0 <= i < |q| ==> q[i] == rs[i];
      }
      if HasAddr(q, Last(rs).addr) {
        var i :| 0 <= i < |q| && q[i].addr == Last(rs).addr;
        assert rs[i].addr == rs[|rs| - 1].addr;
      }
    }
  }

  /** The size assertion at the end of Deserialize holds exactly when no address repeats. */
  lemma {:induction false} SizeAssertionIff(b: seq<byte>)
    requires Readable(b)
    ensures 3 + 8 * CountIn(b) == RerrSize(RerrOf(b)) <==> DistinctAddrs(Records(b[3..], CountIn(b)))
  {
    hide InsertAll, Records, DistinctAddrs, HasAddr, DestCount;
    var rs := Records(b[3..], CountIn(b));
    InsertAllLength(rs);
    InsertAllAscending(rs);
    SmallCount(InsertAll(rs));
  }

  lemma {:induction false} SmallCount(ds: seq<Dest>)
    requires |ds| <= 255
    ensures DestCount(ds) == |ds|
  {
  }

  lemma {:induction false} RecordsOfDests(ds: seq<Dest>, rest: seq<byte>)
    ensures Records(DestsBytes(ds) + rest, |ds|) == ds
  {
    if |ds| > 0 {
      var d := Last(ds);
      var front := DestsBytes(ds[..|ds| - 1]);
      var b := DestsBytes(ds) + rest;
      var tail := Hton(d.addr) + Hton(d.seqNo) + rest;
      assert b == front + tail;
      RecordsOfDests(ds[..|ds| - 1], tail);
      assert b[8 * (|ds| - 1)..] == Hton(d.addr) + (Hton(d.seqNo) + rest);
      assert b[8 * (|ds| - 1) + 4..] == Hton(d.seqNo) + rest;
      NtohHton(d.addr, Hton(d.seqNo) + rest);
      NtohHton(d.seqNo, rest);
    }
  }

  lemma {:induction false} DestsOfRecords(b: seq<byte>, n: nat)
    requires |b| >= 8 * n
    ensures DestsBytes(Records(b, n)) == b[..8 * n]
  {
    if n > 0 {
      hide Hton, Ntoh;
      DestsOfRecords(b, n - 1);
      var rs := Records(b, n);
      assert rs[..n - 1] == Records(b, n - 1);
      HtonNtoh(b[8 * (n - 1)..]);
      HtonNtoh(b[8 * (n - 1) + 4..]);
      EightMore(b, 8 * (n - 1));
    }
  }

  lemma {:induction false} EightMore(b: seq<byte>, m: nat)
    requires |b| >= m + 8
    ensures b[..m + 8] == b[..m] + (b[m..][..4] + b[m + 4..][..4])
  {
  }

  /** A RERR comes back, and exactly its serialized size is read, iff it has at most 255 destinations. */
  lemma {:induction false} RerrRoundTrip(h: Rerr, rest: seq<byte>)
    requires Ascending(h.dests)
    ensures Readable(RerrBytes(h) + rest)
    ensures RerrOf(RerrBytes(h) + rest) == h <==> |h.dests| <= 255
    ensures |RerrBytes(h)| == RerrSize(h) <==> |h.dests| <= 255
  {
    hide Hton, Insert, Records, InsertAll, DestsBytes;
    var b := RerrBytes(h) + rest;
    assert b[3..] == DestsBytes(h.dests) + rest;
    RecordsOfDests(h.dests, rest);
    InsertAllAscending(h.dests);
    InsertAllAscending(Records(b[3..], CountIn(b)));
  }

  // operator==: flags, counts modulo 256, and that many destinations from the smallest address on.
  ghost predicate SameRerr(a: Rerr, b: Rerr) {
    && a.flag == b.flag && a.reserved == b.reserved && DestCount(a.dests) == DestCount(b.dests)
    && forall i :: 0 <= i < DestCount(a.dests) ==> a.dests[i] == b.dests[i]
  }

  lemma {:induction false} RecordsPrefix(b: seq<byte>, n: nat, m: nat)
    requires n <= m && |b| >= 8 * m
    ensures Records(b, n) == Records(b, m)[..n]
  {
    if n < m {
      RecordsPrefix(b, n, m - 1);
    }
  }

  /** For any number of destinations the header that is read back is equal under operator==, and the bytes read are the
      serialized size: the loss of the others does not show. */
  lemma {:induction false} RerrReadsBackSame(h: Rerr, rest: seq<byte>)
    requires Ascending(h.dests)
    ensures Readable(RerrBytes(h) + rest)
    ensures SameRerr(RerrOf(RerrBytes(h) + rest), h)
    ensures 3 + 8 * CountIn(RerrBytes(h) + rest) == RerrSize(h)
  {
    hide Hton, Insert, Records, InsertAll, DestsBytes;
    var b, n := RerrBytes(h) + rest, DestCount(h.dests);
    assert b[3..] == DestsBytes(h.dests) + rest;
    RecordsOfDests(h.dests, rest);
    RecordsPrefix(b[3..], n, |h.dests|);
    InsertAllAscending(h.dests[..n]);
  }

  /** operator== is equality exactly when both headers have at most 255 destinations or the extra ones agree. */
  lemma {:induction false} SameRerrIff(a: Rerr, b: Rerr)
    ensures a == b <==> SameRerr(a, b) && a.dests[DestCount(a.dests)..] == b.dests[DestCount(b.dests)..]
    ensures |a.dests| <= 255 && |b.dests| <= 255 ==> (SameRerr(a, b) <==> a == b)
  {
    if SameRerr(a, b) {
      var n := DestCount(a.dests);
      assert a.dests == a.dests[..n] + a.dests[n..] && b.dests == b.dests[..n] + b.dests[n..];
      assert a.dests[..n] == b.dests[..n];
    }
  }

  lemma {:induction false} DestsInjective(a: seq<Dest>, b: seq<Dest>)
    requires DestsBytes(a) == DestsBytes(b)
    ensures a == b
  {
    hide Hton, DestsBytes, Records;
    RecordsOfDests(a, []);
    RecordsOfDests(b, []);
    assert DestsBytes(a) + [] == DestsBytes(b) + [];
  }

  /** On received bytes the reverse round trip holds exactly when the addresses are strictly increasing. */
  lemma {:induction false} RerrReverseRoundTrip(b: seq<byte>)
    requires Readable(b)
    ensures RerrBytes(RerrOf(b)) == b[..3 + 8 * CountIn(b)] <==> Ascending(Records(b[3..], CountIn(b)))
  {
    hide Hton, Insert, Records, InsertAll, DestsBytes;
    var n := CountIn(b);
    var rs := Records(b[3..], n);
    var ds := InsertAll(rs);
    InsertAllAscending(rs);
    DestsOfRecords(b[3..], n);
    assert b[..3 + 8 * n] == [b[0], b[1], b[2]] + DestsBytes(rs);
    var out := [b[0], b[1], DestCount(ds)] + DestsBytes(ds);
    assert out[3..] == DestsBytes(ds) && b[..3 + 8 * n][3..] == DestsBytes(rs);
    if out == b[..3 + 8 * n] {
      DestsInjective(ds, rs);
    }
  }

  lemma {:induction false} RerrLayout(h: Rerr, i: nat)
    requires i < |h.dests|
    ensures var b := RerrBytes(h);
            && |b| == 3 + 8 * |h.dests| && b[0] == h.flag && b[1] == h.reserved && b[2] == |h.dests| % 256
            && Word(b, 3 + 8 * i) == h.dests[i].addr && Word(b, 7 + 8 * i) == h.dests[i].seqNo
  {
    DestAt(h.dests, i);
    var b := RerrBytes(h);
    assert b[3..] == DestsBytes(h.dests);
    hide Hton, Word, DestsBytes;
    assert b[3 + 8 * i..][..4] == b[3 + 8 * i..3 + 8 * i + 4] && b[7 + 8 * i..][..4] == b[7 + 8 * i..7 + 8 * i + 4];
    HtonIsWord(h.dests[i].addr, b, 3 + 8 * i);
    HtonIsWord(h.dests[i].seqNo, b, 7 + 8 * i);
  }

  lemma {:induction false} DestAt(ds: seq<Dest>, i: nat)
    requires i < |ds|
    ensures var b := DestsBytes(ds);
            b[8 * i..8 * i + 4] == Hton(ds[i].addr) && b[8 * i + 4..8 * i + 8] == Hton(ds[i].seqNo)
  {
    hide Hton;
    var n, b := |ds| - 1, DestsBytes(ds);
    if i < n {
      DestAt(ds[..n], i);
      assert b[..8 * n] == DestsBytes(ds[..n]);
      SliceOfFront(b, 8 * n, 8 * i, 8 * i + 4);
      SliceOfFront(b, 8 * n, 8 * i + 4, 8 * i + 8);
    }
  }

  lemma {:induction false} SliceOfFront(b: seq<byte>, n: nat, i: nat, j: nat)
    requires i <= j <= n <= |b|
    ensures b[..n][i..j] == b[i..j]
  {
  }

  // Record i is the first with its address.
  ghost predicate IsFirst(rs: seq<Dest>, i: nat) {
    i < |rs| && forall j :: 0 <= j < i ==> rs[j].addr != rs[i].addr
  }

  ghost predicate FirstAmong(rs: seq<Dest>, x: Dest) {
    exists i: nat :: IsFirst(rs, i) && rs[i] == x
  }

  /** Records with an address that came before are dropped, all others are kept: the first sequence number counts. */
  lemma {:induction false} FirstRecordWins(rs: seq<Dest>, x: Dest)
    ensures x in InsertAll(rs) <==> FirstAmong(rs, x)
  {
    if |rs| > 0 {
      var q := rs[..|rs| - 1];
      FirstRecordWins(q, x);
      InsertAllAscending(q);
      InsertAllLength(q);
      InsertMembers(InsertAll(q), Last(rs), x);
      FirstAmongStep(rs, x);
      InsertAllOne(rs);
      hide *;
    }
  }

  lemma {:induction false} InsertAllOne(rs: seq<Dest>)
    requires |rs| > 0
    ensures InsertAll(rs) == Insert(InsertAll(rs[..|rs| - 1]), Last(rs))
  {
  }

  lemma {:induction false} FirstAmongStep(rs: seq<Dest>, x: Dest)
    requires |rs| > 0
    ensures var q := rs[..|rs| - 1];
            FirstAmong(rs, x) <==> FirstAmong(q, x) || (x == Last(rs) && !HasAddr(q, x.addr))
  {
    hide HasAddr, IsFirst, FirstAmong;
    var q := rs[..|rs| - 1];
    LastIsFirst(rs);
    if FirstAmong(rs, x) {
      var i := FirstAt(rs, x);
      if i < |rs| - 1 {
        FrontFirst(rs, i);
        IsAmong(q, i);
      }
    }
    if FirstAmong(q, x) {
      var i := FirstAt(q, x);
      FrontFirst(rs, i);
      IsAmong(rs, i);
    }
    if x == Last(rs) && !HasAddr(q, x.addr) {
      IsAmong(rs, |rs| - 1);
    }
  }

  lemma {:induction false} FirstAt(rs: seq<Dest>, x: Dest) returns (i: nat)
    requires FirstAmong(rs, x)
    ensures i < |rs| && IsFirst(rs, i) && rs[i] == x
  {
    i :| IsFirst(rs, i) && rs[i] == x;
  }

  lemma {:induction false} IsAmong(rs: seq<Dest>, i: nat)
    requires i < |rs| && IsFirst(rs, i)
    ensures FirstAmong(rs, rs[i])
  {
  }

  lemma {:induction false} FrontFirst(rs: seq<Dest>, i: nat)
    requires i < |rs| - 1
    ensures IsFirst(rs, i) <==> IsFirst(rs[..|rs| - 1], i)
  {
  }

  lemma {:induction false} LastIsFirst(rs: seq<Dest>)
    requires |rs| > 0
    ensures IsFirst(rs, |rs| - 1) <==> !HasAddr(rs[..|rs| - 1], Last(rs).addr)
  {
    if i :| 0 <= i < |rs| - 1 && rs[i].addr == Last(rs).addr {
      assert rs[..|rs| - 1][i].addr == Last(rs).addr;
    }
  }

  lemma {:induction false} InsertMembers(ds: seq<Dest>, d: Dest, x: Dest)
    requires Ascending(ds)
    ensures x in Insert(ds, d) <==> x in ds || (x == d && !HasAddr(ds, d.addr))
  {
    if |ds| > 0 && d.addr > ds[0].addr {
      InsertMembers(ds[1..], d, x);
      HasAddrCons(ds[0], ds[1..]);
      assert ds == [ds[0]] + ds[1..];
    }
  }

  lemma {:induction false} InsertListed(ds: seq<Dest>, d: Dest)
    requires Ascending(ds)
    ensures (exists x :: x in ds && x.addr == d.addr) ==> Insert(ds, d) == ds
  {
    if x :| x in ds && x.addr == d.addr {
      InsertHere(ds, d, x);
    }
  }

  lemma {:induction false} InsertHere(ds: seq<Dest>, d: Dest, x: Dest)
    requires Ascending(ds) && x in ds && x.addr == d.addr
    ensures Insert(ds, d) == ds
  {
    assert d.addr >= ds[0].addr;
    if d.addr > ds[0].addr {
      assert ds == [ds[0]] + ds[1..];
      InsertHere(ds[1..], d, x);
    }
  }

  class RerrHeader {
    var flag: byte
    var reserved: byte
    var dests: seq<Dest>

    constructor ()
      ensures flag == 0 && reserved == 0 && dests == []
    {
      flag, reserved, dests := 0, 0, [];
    }

    function Value(): Rerr
      reads this
    {
      Rerr(flag, reserved, dests)
    }

    method Serialize(buf: array<byte>, start: nat)
      requires start + 3 + 8 * |dests| <= buf.Length
      modifies buf
      ensures buf[..start + 3 + 8 * |dests|] == old(buf[..start]) + RerrBytes(Value())
      ensures Untouched(buf, start + 3 + 8 * |dests|)
    {
      hide Hton;
      var i := WriteHead(buf, start, flag, reserved, DestCount(dests));
      ghost var head := buf[..i];
      assert dests[..0] == [];
      for j := 0 to |dests|
        invariant i == start + 3 + 8 * j && buf[..i] == head + DestsBytes(dests[..j]) && Untouched(buf, i)
      {
        i := WriteTwo(buf, i, dests[j].addr, dests[j].seqNo);
        assert dests[..j + 1][..j] == dests[..j];
      }
      assert dests[..|dests|] == dests;
    }

    method Deserialize(buf: array<byte>, start: nat) returns (dist: nat)
      requires start <= buf.Length && Readable(buf[start..])
      modifies this
      ensures Value() == RerrOf(buf[start..]) && dist == 3 + 8 * CountIn(buf[start..])
      // the closing assertion
      ensures dist == RerrSize(Value()) <==> DistinctAddrs(Records(buf[start..][3..], CountIn(buf[start..])))
    {
      flag := buf[start];
      reserved := buf[start + 1];
      var dest := buf[start + 2];
      SizeAssertionIff(buf[start..]);
      hide Records, InsertAll, DistinctAddrs;
      assert buf[start + 3..] == buf[start..][3..];
      dests, dist := ReadRecords(buf, start, dest as nat, buf[start + 3..]);
    }

    method ReadRecords(buf: array<byte>, start: nat, n: nat, ghost b: seq<byte>) returns (ds: seq<Dest>, dist: nat)
      requires start + 3 + 8 * n <= buf.Length && b == buf[start + 3..]
      ensures ds == InsertAll(Records(b, n)) && dist == 3 + 8 * n
    {
      ds := [];
      var i := start + 3;
      assert InsertAll(Records(b, 0)) == [];
      hide Ntoh, Insert, InsertAll, Records;
      for k := 0 to n
        invariant i == start + 3 + 8 * k && ds == InsertAll(Records(b, k))
      {
        var d;
        d, i := ReadRecord(buf, i, b[8 * k..]) by {
          assert b[8 * k..] == buf[i..];
        }
        RecordsStep(b, k);
        ds := Insert(ds, d);
      }
      dist := i - start;
    }

    method ReadRecord(buf: array<byte>, start: nat, ghost b: seq<byte>) returns (d: Dest, i: nat)
      requires start + 8 <= buf.Length && b == buf[start..]
      ensures d == Dest(Ntoh(b), Ntoh(b[4..])) && i == start + 8
    {
      var address, seqNo;
      i := start;
      assert b[4..] == buf[start + 4..];
      address, i := ReadNtohU32(buf, i);
      seqNo, i := ReadNtohU32(buf, i);
      d := Dest(address, seqNo);
    }

    lemma {:induction false} RecordsStep(b: seq<byte>, k: nat)
      requires |b| >= 8 * (k + 1)
      ensures InsertAll(Records(b, k + 1))
              == Insert(InsertAll(Records(b, k)), Dest(Ntoh(b[8 * k..]), Ntoh(b[8 * k..][4..])))
    {
      assert Records(b, k + 1)[..k] == Records(b, k) && b[8 * k..][4..] == b[8 * k + 4..];
    }

    // operator==
    method Equals(o: RerrHeader) returns (same: bool)
      ensures same <==> SameRerr(Value(), o.Value())
    {
      if flag != o.flag || reserved != o.reserved || DestCount(dests) != DestCount(o.dests) {
        return false;
      }
      for i := 0 to DestCount(dests)
        invariant forall k :: 0 <= k < i ==> dests[k] == o.dests[k]
      {
        if dests[i].addr != o.dests[i].addr || dests[i].seqNo != o.dests[i].seqNo {
          return false;
        }
      }
      same := true;
    }

    // AddUnDestination: an address already listed keeps its sequence number.
    method AddUnDestination(dst: uint32, seqNo: uint32) returns (ok: bool)
      requires Ascending(dests) && (DestCount(dests) < 255 || exists d :: d in dests && d.addr == dst)
      modifies `dests
      ensures ok && Ascending(dests) && dests == Insert(old(dests), Dest(dst, seqNo))
      ensures (exists d :: d in old(dests) && d.addr == dst) ==> dests == old(dests)
      ensures (forall d :: d in old(dests) ==> d.addr != dst) ==>
                forall x :: x in dests <==> x in old(dests) || x == Dest(dst, seqNo)
    {
      InsertListed(dests, Dest(dst, seqNo));
      forall x ensures x in Insert(dests, Dest(dst, seqNo)) <==>
                         x in dests || (x == Dest(dst, seqNo) && !HasAddr(dests, dst))
      {
        InsertMembers(dests, Dest(dst, seqNo), x);
      }
      hide Insert;
      InsertAscending(dests, Dest(dst, seqNo));
      dests := Insert(dests, Dest(dst, seqNo));
      ok := true;
    }

    // RemoveUnDestination: takes the destination with the smallest address.
    method RemoveUnDestination() returns (un: Option<Dest>)
      requires Ascending(dests)
      modifies `dests
      ensures Ascending(dests)
      ensures un.None? <==> old(dests) == []
      ensures un.Some? ==> old(dests) == [un.value] + dests && forall d :: d in dests ==> un.value.addr < d.addr
    {
      if |dests| == 0 {
        return None;
      }
      un := Some(dests[0]);
      dests := dests[1..];
    }
  }
}
