/**
 The 320-byte record that the device emits for one connection: its layout, how the kernel fills it, and the proof
 that cutting the bytes at the same widths gives back every field.

 A record is the list of its 58 fields, each a little-endian number or an array of bytes.
 */
module Record {
  import opened Cidr
  import opened Ipv4
  import opened Ipv6
  import opened Matching
  import opened Text

  const TCP_STATS_VERSION: nat := 1
  const TCP_STATS_RECORD_SIZE: nat := 320
  const TSR_F_IPV6: nat := 1
  const TSR_F_LISTEN: nat := 2
  const AF_INET: nat := 2
  const AF_INET6: nat := 28
  const TCPS_LISTEN: nat := 1

  // Field numbers, in the order of the C struct.
  const VERSION: nat := 0
  const FLAGS: nat := 2
  const AF: nat := 4
  const LOCAL_PORT: nat := 6
  const REMOTE_PORT: nat := 7
  const LOCAL_ADDR: nat := 8
  const REMOTE_ADDR: nat := 9
  const STATE: nat := 10
  const TIMERS: nat := 44
  const SO_ADDR: nat := 54
  const UID: nat := 55
  const GENCNT: nat := 56

  // Widths in bytes, one group of the struct after the other.
  const HEADER: seq<nat> := [4, 4, 4, 4]
  const IDENTITY: seq<nat> := [1, 3, 2, 2, 16, 16]
  const CONGESTION: seq<nat> := [4, 4, 4, 4, 4, 16, 16]
  const RTT: seq<nat> := [4, 4, 4, 4]
  const OPTIONS: seq<nat> := [1, 1, 1, 1]
  const SEQUENCES: seq<nat> := [4, 4, 4, 4, 4]
  const COUNTERS: seq<nat> := [4, 4, 4, 4, 4]
  const ECN: seq<nat> := [4, 4, 4, 4, 4]
  const TLP: seq<nat> := [4, 8]
  const TIMER_GROUP: seq<nat> := [4, 4, 4, 4, 4, 4]
  const BUFFERS: seq<nat> := [4, 4, 4, 4]
  const METADATA: seq<nat> := [8, 4, 8]
  const SPARE: seq<nat> := [52]

  /** The groups between the state and the socket metadata: what the kernel reads from the TCP control block. */
  const TCB_WIDTHS: seq<nat> :=
    [4] + CONGESTION + RTT + OPTIONS + SEQUENCES + COUNTERS + ECN + TLP + TIMER_GROUP + BUFFERS

  const WIDTHS: seq<nat> := HEADER + IDENTITY + [4] + TCB_WIDTHS + METADATA + SPARE

  // ---------------------------------------------------------------- little-endian numbers

  function Le(v: nat, n: nat): (bs: seq<nat>)
    ensures |bs| == n && IsBytes(bs)
  {
    if n == 0 then [] else [v % 256] + Le(v / 256, n - 1)
  }

  function FromLe(bs: seq<nat>): nat {
    if bs == [] then 0 else bs[0] + 256 * FromLe(bs[1..])
  }

  function Bound(n: nat): nat { if n == 0 then 1 else 256 * Bound(n - 1) }

  lemma {:induction false} LeRoundTrip(v: nat, n: nat)
    requires v < Bound(n)
    ensures FromLe(Le(v, n)) == v
  {
    if n > 0 {
      LeRoundTrip(v / 256, n - 1);
      assert Le(v, n)[1..] == Le(v / 256, n - 1);
    }
  }

  lemma FourBytes(bs: seq<nat>)
    requires |bs| >= 4
    ensures FromLe(bs) ==
      bs[0] + 0x100 * bs[1] + 0x1_0000 * bs[2] + 0x100_0000 * bs[3] + 0x1_0000_0000 * FromLe(bs[4..])
  {
    assert bs[1..][1..] == bs[2..] && bs[2..][1..] == bs[3..] && bs[3..][1..] == bs[4..];
    assert FromLe(bs[3..]) == bs[3] + 256 * FromLe(bs[4..]);
    assert FromLe(bs[2..]) == bs[2] + 256 * FromLe(bs[3..]);
    assert FromLe(bs[1..]) == bs[1] + 256 * FromLe(bs[2..]);
  }

  /** Low byte first: what two and four bytes, and two halves of eight bytes, are worth. */
  lemma LowByteFirst(bs: seq<nat>)
    ensures |bs| == 2 ==> FromLe(bs) == bs[0] + 0x100 * bs[1]
    ensures |bs| == 4 ==> FromLe(bs) == bs[0] + 0x100 * bs[1] + 0x1_0000 * bs[2] + 0x100_0000 * bs[3]
    ensures |bs| == 8 ==> FromLe(bs) == FromLe(bs[..4]) + 0x1_0000_0000 * FromLe(bs[4..])
  {
    if |bs| == 2 {
      assert bs[1..][1..] == [] && FromLe(bs[1..]) == bs[1];
    } else if |bs| == 4 || |bs| == 8 {
      FourBytes(bs);
      FourBytes(bs[..4]);
      assert bs[..4][4..] == [];
    }
  }

  lemma {:induction false} FromLeRoundTrip(bs: seq<nat>)
    requires IsBytes(bs)
    ensures FromLe(bs) < Bound(|bs|) && Le(FromLe(bs), |bs|) == bs
  {
    if bs != [] {
      FromLeRoundTrip(bs[1..]);
      assert bs == [bs[0]] + bs[1..];
    }
  }

  // ---------------------------------------------------------------- fields and bytes

  function Sum(ws: seq<nat>): nat { if ws == [] then 0 else ws[0] + Sum(ws[1..]) }

  lemma {:induction false} SumAdd(a: seq<nat>, b: seq<nat>)
    ensures Sum(a + b) == Sum(a) + Sum(b)
  {
    if a == [] {
      assert a + b == b;
    } else {
      SumAdd(a[1..], b);
      assert (a + b)[1..] == a[1..] + b;
    }
  }

  /** Fields laid out one after the other. */
  function Concat(fields: seq<seq<nat>>): seq<nat> {
    if fields == [] then [] else fields[0] + Concat(fields[1..])
  }

  /** Bytes cut at the given widths. */
  function Cut(b: seq<nat>, ws: seq<nat>): (fields: seq<seq<nat>>)
    requires |b| == Sum(ws)
  {
    if ws == [] then [] else [b[..ws[0]]] + Cut(b[ws[0]..], ws[1..])
  }

  predicate HasWidths(fields: seq<seq<nat>>, ws: seq<nat>) {
    |fields| == |ws| && forall i | 0 <= i < |ws| :: |fields[i]| == ws[i] && IsBytes(fields[i])
  }

  lemma {:induction false} ConcatLength(fields: seq<seq<nat>>, ws: seq<nat>)
    requires HasWidths(fields, ws)
    ensures |Concat(fields)| == Sum(ws) && IsBytes(Concat(fields))
  {
    if ws != [] { ConcatLength(fields[1..], ws[1..]); }
  }

  /** Whatever is laid out is cut into the same fields. */
  lemma {:induction false} CutConcat(fields: seq<seq<nat>>, ws: seq<nat>)
    requires HasWidths(fields, ws)
    ensures |Concat(fields)| == Sum(ws) && Cut(Concat(fields), ws) == fields
  {
    ConcatLength(fields, ws);
    if ws != [] {
      var b := Concat(fields);
      CutConcat(fields[1..], ws[1..]);
      assert b[..ws[0]] == fields[0] && b[ws[0]..] == Concat(fields[1..]);
      assert fields == [fields[0]] + fields[1..];
    }
  }

  lemma ConcatCons(f: seq<nat>, rest: seq<seq<nat>>)
    ensures Concat([f] + rest) == f + Concat(rest)
  {
    assert ([f] + rest)[1..] == rest;
  }

  lemma WidthsCons(f: seq<nat>, rest: seq<seq<nat>>, ws: seq<nat>)
    requires ws != [] && |f| == ws[0] && IsBytes(f) && HasWidths(rest, ws[1..])
    ensures HasWidths([f] + rest, ws)
  {
  }

  /** And any bytes of the right length are some record. */
  lemma {:induction false} ConcatCut(b: seq<nat>, ws: seq<nat>)
    requires |b| == Sum(ws) && IsBytes(b)
    ensures HasWidths(Cut(b, ws), ws) && Concat(Cut(b, ws)) == b
  {
    if ws != [] {
      hide Concat, HasWidths;
      var head, rest := b[..ws[0]], b[ws[0]..];
      ConcatCut(rest, ws[1..]);
      ConcatCons(head, Cut(rest, ws[1..]));
      WidthsCons(head, Cut(rest, ws[1..]), ws);
      assert b == head + rest;
    }
  }

  lemma GroupWidths()
    ensures Sum(HEADER) == 16 && Sum(IDENTITY) == 40 && Sum(CONGESTION) == 52 && Sum(RTT) == 16 && Sum(OPTIONS) == 4
    ensures Sum(SEQUENCES) == 20 && Sum(COUNTERS) == 20 && Sum(ECN) == 20 && Sum(TLP) == 12
    ensures Sum(TIMER_GROUP) == 24 && Sum(BUFFERS) == 16 && Sum(METADATA) == 20 && Sum(SPARE) == 52
  {
  }

  lemma RecordSize()
    ensures Sum(WIDTHS) == TCP_STATS_RECORD_SIZE && |TCB_WIDTHS| == 43 && |WIDTHS| == 58
  {
    hide Sum;
    GroupWidths();
    var a := [4] + CONGESTION;
    SumAdd([4], CONGESTION);
    SumAdd(a, RTT);
    SumAdd(a + RTT, OPTIONS);
    SumAdd(a + RTT + OPTIONS, SEQUENCES);
    var b := a + RTT + OPTIONS + SEQUENCES;
    SumAdd(b, COUNTERS);
    SumAdd(b + COUNTERS, ECN);
    SumAdd(b + COUNTERS + ECN, TLP);
    SumAdd(b + COUNTERS + ECN + TLP, TIMER_GROUP);
    SumAdd(b + COUNTERS + ECN + TLP + TIMER_GROUP, BUFFERS);
    SumAdd(HEADER, IDENTITY);
    SumAdd(HEADER + IDENTITY, [4]);
    SumAdd(HEADER + IDENTITY + [4], TCB_WIDTHS);
    SumAdd(HEADER + IDENTITY + [4] + TCB_WIDTHS, METADATA);
    SumAdd(HEADER + IDENTITY + [4] + TCB_WIDTHS + METADATA, SPARE);
    OneWidth(4);
  }

  lemma OneWidth(w: nat)
    ensures Sum([w]) == w
  {
    assert [w][1..] == [];
  }

  // ---------------------------------------------------------------- filling a record

  /** What the kernel adds from the TCP control block and the socket's owner: the fields no filter looks at. */
  datatype Details = Details(tcb: seq<seq<nat>>, uid: nat)

  predicate IsDetails(d: Details) { HasWidths(d.tcb, TCB_WIDTHS) }

  /** The filler tests the IPv6 bit first, unlike the address filter, which tests the IPv4 bit first. */
  function RecordAddr(s: Socket, e: End): (bs: seq<nat>)
    requires IsEnd(e)
    ensures |bs| == 16 && IsBytes(bs)
  {
    if s.ipv6 then e.addr6 else Bytes(e.addr4, 4) + Zeros(12)
  }

  function StateNumber(s: Socket): nat { if s.state.Some? then s.state.value else 0 }

  function RecordFlags(s: Socket): nat {
    (if s.ipv6 then TSR_F_IPV6 else 0) + (if s.state == Option.Some(TCPS_LISTEN) then TSR_F_LISTEN else 0)
  }

  function HeaderFields(s: Socket): (fields: seq<seq<nat>>)
    ensures HasWidths(fields, HEADER)
  {
    [Le(TCP_STATS_VERSION, 4), Le(TCP_STATS_RECORD_SIZE, 4), Le(RecordFlags(s), 4), Zeros(4)]
  }

  function IdentityFields(s: Socket): (fields: seq<seq<nat>>)
    requires IsSocket(s)
    ensures HasWidths(fields, IDENTITY)
  {
    [[if s.ipv6 then AF_INET6 else AF_INET], Zeros(3), Le(s.near.port, 2), Le(s.far.port, 2),
     RecordAddr(s, s.near), RecordAddr(s, s.far)]
  }

  function MetadataFields(s: Socket, d: Details): (fields: seq<seq<nat>>)
    ensures HasWidths(fields, METADATA + SPARE)
  {
    [Le(s.id, 8), Le(d.uid, 4), Le(s.gencnt, 8), Zeros(52)]
  }

  /** `tcpstats_fill_record`. */
  function Fill(s: Socket, d: Details): (fields: seq<seq<nat>>)
    requires IsSocket(s)
  {
    HeaderFields(s) + IdentityFields(s) + [Le(StateNumber(s), 4)] + d.tcb + MetadataFields(s, d)
  }

  lemma WidthsAdd(a: seq<seq<nat>>, b: seq<seq<nat>>, v: seq<nat>, w: seq<nat>)
    requires HasWidths(a, v) && HasWidths(b, w)
    ensures HasWidths(a + b, v + w)
  {
  }

  lemma FillWidths(s: Socket, d: Details)
    requires IsSocket(s) && IsDetails(d)
    ensures HasWidths(Fill(s, d), WIDTHS)
  {
    hide Le, HasWidths, HeaderFields, IdentityFields, MetadataFields;
    var h, i, n := HeaderFields(s), IdentityFields(s), [Le(StateNumber(s), 4)];
    OneField(n[0]);
    WidthsAdd(h, i, HEADER, IDENTITY);
    WidthsAdd(h + i, n, HEADER + IDENTITY, [4]);
    WidthsAdd(h + i + n, d.tcb, HEADER + IDENTITY + [4], TCB_WIDTHS);
    WidthsAdd(h + i + n + d.tcb, MetadataFields(s, d), HEADER + IDENTITY + [4] + TCB_WIDTHS, METADATA + SPARE);
    Assoc(HEADER + IDENTITY + [4] + TCB_WIDTHS, METADATA, SPARE);
  }

  lemma OneField(f: seq<nat>)
    requires IsBytes(f)
    ensures HasWidths([f], [|f|])
  {
  }
}
