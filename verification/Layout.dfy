/**
 Where each field of an emitted record lies, byte by byte; the C struct has no gaps between its fields.
 */
module Layout {
  import opened Text
  import opened Bits
  import opened Cidr
  import opened Ipv4
  import opened Ipv6
  import opened Matching
  import opened Record
  import opened Kld

  lemma {:induction false} ConcatAdd(a: seq<seq<nat>>, b: seq<seq<nat>>)
    ensures Concat(a + b) == Concat(a) + Concat(b)
  {
    hide Concat;
    if a == [] {
      assert a + b == b;
      NoFields(Concat(b));
    } else {
      var head, tail := a[0], a[1..];
      ConcatAdd(tail, b);
      assert a == [head] + tail && a + b == [head] + (tail + b);
      ConcatCons(head, tail);
      ConcatCons(head, tail + b);
      Assoc(head, Concat(tail), Concat(b));
    }
  }

  lemma NoFields(rest: seq<nat>)
    ensures Concat([]) + rest == rest
  {
  }

  lemma ShortLe(v: nat)
    requires v < 0x1_0000
    ensures Le(v, 2) == [v % 256, v / 256] && Le(v, 4) == [v % 256, v / 256, 0, 0]
  {
    assert Le(0, 2) == [0] + Le(0, 1) && Le(0, 1) == [0] + Le(0, 0);
    assert Le(v / 256, 3) == [v / 256] + Le(0, 2) && Le(v / 256, 1) == [v / 256] + Le(0, 0);
  }

  lemma ConcatFour(a: seq<nat>, b: seq<nat>, c: seq<nat>, d: seq<nat>)
    ensures Concat([a, b, c, d]) == a + b + c + d
  {
    hide Concat;
    OneFieldConcat(a);
    OneFieldConcat(b);
    OneFieldConcat(c);
    OneFieldConcat(d);
    ConcatAdd([a], [b]);
    ConcatAdd([a] + [b], [c]);
    ConcatAdd([a] + [b] + [c], [d]);
    assert [a, b, c, d] == [a] + [b] + [c] + [d];
  }

  lemma ConcatSix(a: seq<nat>, b: seq<nat>, c: seq<nat>, d: seq<nat>, e: seq<nat>, f: seq<nat>)
    ensures Concat([a, b, c, d, e, f]) == a + b + c + d + e + f
  {
    hide Concat;
    ConcatFour(a, b, c, d);
    OneFieldConcat(e);
    OneFieldConcat(f);
    ConcatAdd([a, b, c, d], [e]);
    ConcatAdd([a, b, c, d] + [e], [f]);
    assert [a, b, c, d, e, f] == [a, b, c, d] + [e] + [f];
  }

  /** The record is its header, identity and state, then what comes from the TCP control block, then the metadata. */
  lemma Parts(s: Socket, d: Details)
    requires IsSocket(s) && IsDetails(d)
    ensures Emitted(s, d) ==
      Concat(HeaderFields(s)) + Concat(IdentityFields(s)) + Le(StateNumber(s), 4) + Concat(d.tcb)
      + Concat(MetadataFields(s, d))
    ensures |Concat(HeaderFields(s))| == 16 && |Concat(IdentityFields(s))| == 40 && |Concat(d.tcb)| == 188
    ensures |Concat(MetadataFields(s, d))| == 72
  {
    hide Concat, HeaderFields, IdentityFields, MetadataFields, HasWidths, Sum, Le;
    var h, i, n, m := HeaderFields(s), IdentityFields(s), [Le(StateNumber(s), 4)], MetadataFields(s, d);
    ConcatAdd(h, i);
    ConcatAdd(h + i, n);
    ConcatAdd(h + i + n, d.tcb);
    ConcatAdd(h + i + n + d.tcb, m);
    OneFieldConcat(n[0]);
    GroupWidths();
    SumAdd(METADATA, SPARE);
    ConcatLength(h, HEADER);
    ConcatLength(i, IDENTITY);
    ConcatLength(m, METADATA + SPARE);
    ConcatLength(d.tcb, TCB_WIDTHS);
  }

  lemma OneFieldConcat(f: seq<nat>)
    ensures Concat([f]) == f
  {
    assert [f][1..] == [];
  }

  lemma HeaderBytes(s: Socket, d: Details)
    requires IsSocket(s) && IsDetails(d)
    ensures var b := Emitted(s, d);
      b[..16] == [1, 0, 0, 0, 64, 1, 0, 0, RecordFlags(s), 0, 0, 0, 0, 0, 0, 0]
  {
    hide Emitted, Le, Concat;
    Parts(s, d);
    ShortLe(1);
    ShortLe(320);
    ShortLe(RecordFlags(s));
    ConcatFour(Le(1, 4), Le(320, 4), Le(RecordFlags(s), 4), Zeros(4));
    assert Emitted(s, d)[..16] == Concat(HeaderFields(s));
  }

  lemma IdentityBytes(s: Socket, d: Details)
    requires IsSocket(s) && IsDetails(d)
    ensures var b := Emitted(s, d);
      && b[16..20] == [if s.ipv6 then 28 else 2, 0, 0, 0]
      && b[20..24] == [s.near.port % 256, s.near.port / 256, s.far.port % 256, s.far.port / 256]
      && b[24..40] == RecordAddr(s, s.near) && b[40..56] == RecordAddr(s, s.far)
  {
    hide Emitted, Le, Concat, RecordAddr;
    Parts(s, d);
    ShortLe(s.near.port);
    ShortLe(s.far.port);
    var fs := IdentityFields(s);
    ConcatSix(fs[0], fs[1], fs[2], fs[3], fs[4], fs[5]);
    var b, i := Emitted(s, d), Concat(fs);
    assert b[16..56] == i;
    assert b[16..20] == i[..4] && b[20..24] == i[4..8] && b[24..40] == i[8..24] && b[40..56] == i[24..40];
  }

  lemma AddressBytes(s: Socket, e: End)
    requires IsSocket(s) && IsEnd(e)
    ensures var a := RecordAddr(s, e);
      if s.ipv6 then a == e.addr6 else Value(a[..4]) == e.addr4 && a[4..] == Zeros(12)
  {
    hide Bytes;
    Pow2Facts();
    ValueOfBytes(e.addr4, 4);
  }

  lemma FourPieces(b: seq<nat>, p: nat, w: seq<nat>, x: seq<nat>, y: seq<nat>, z: seq<nat>)
    requires p <= |b| && b[p..] == w + x + y + z
    ensures var q := p + |w|; var r := q + |x|; var t := r + |y|;
      t <= |b| && b[p..q] == w && b[q..r] == x && b[r..t] == y && b[t..] == z
  {
    var m := b[p..];
    assert |b| == p + |m| && forall i | 0 <= i < |m| :: b[p + i] == m[i];
  }

  lemma MetadataBytes(s: Socket, d: Details)
    requires IsSocket(s) && IsDetails(d) && d.uid < 0x1_0000_0000
    ensures var b := Emitted(s, d);
      && FromLe(b[248..256]) == s.id && FromLe(b[256..260]) == d.uid && FromLe(b[260..268]) == s.gencnt
      && b[268..] == Zeros(52)
  {
    hide Emitted, Le, FromLe, Concat;
    Parts(s, d);
    var fs := MetadataFields(s, d);
    ConcatFour(fs[0], fs[1], fs[2], fs[3]);
    var b := Emitted(s, d);
    assert b[248..] == Concat(fs);
    FourPieces(b, 248, Le(s.id, 8), Le(d.uid, 4), Le(s.gencnt, 8), Zeros(52));
    Bounds();
    LeRoundTrip(s.id, 8);
    LeRoundTrip(d.uid, 4);
    LeRoundTrip(s.gencnt, 8);
  }

  lemma ControlBlockBytes(s: Socket, d: Details)
    requires IsSocket(s) && IsDetails(d)
    ensures var b := Emitted(s, d);
      b[56..60] == [if s.state.Some? then s.state.value else 0, 0, 0, 0] && b[60..248] == Concat(d.tcb)
  {
    hide Emitted, Le, Concat;
    Parts(s, d);
    ShortLe(StateNumber(s));
    assert Emitted(s, d)[56..60] == Le(StateNumber(s), 4);
  }

  /** The bytes of an emitted record, place by place: version and length, flags, address family, ports low byte first,
      the two addresses, the state, the fields of the control block, and the socket's owner. */
  lemma EmittedBytes(s: Socket, d: Details)
    requires IsSocket(s) && IsDetails(d) && d.uid < 0x1_0000_0000
    ensures var b := Emitted(s, d);
      && b[..8] == [1, 0, 0, 0, 64, 1, 0, 0]
      && b[8] == (if s.ipv6 then 1 else 0) + (if s.state == Option.Some(1) then 2 else 0)
      && b[9..16] == [0, 0, 0, 0, 0, 0, 0]
      && b[16..20] == [if s.ipv6 then 28 else 2, 0, 0, 0]
      && b[20] + 256 * b[21] == s.near.port && b[22] + 256 * b[23] == s.far.port
      && (s.ipv6 ==> b[24..40] == s.near.addr6 && b[40..56] == s.far.addr6)
      && (!s.ipv6 ==> Value(b[24..28]) == s.near.addr4 && Value(b[40..44]) == s.far.addr4)
      && (!s.ipv6 ==> b[28..40] == Zeros(12) && b[44..56] == Zeros(12))
      && b[56..60] == [if s.state.Some? then s.state.value else 0, 0, 0, 0]
      && b[60..248] == Concat(d.tcb)
      && FromLe(b[248..256]) == s.id && FromLe(b[256..260]) == d.uid && FromLe(b[260..268]) == s.gencnt
      && b[268..] == Zeros(52)
  {
    hide Emitted, FromLe, Concat, Value, RecordAddr, HasWidths;
    HeaderBytes(s, d);
    IdentityBytes(s, d);
    ControlBlockBytes(s, d);
    MetadataBytes(s, d);
    AddressBytes(s, s.near);
    AddressBytes(s, s.far);
    var b := Emitted(s, d);
    var near, far := b[24..40], b[40..56];
    assert near[..4] == b[24..28] && near[4..] == b[28..40] && far[..4] == b[40..44] && far[4..] == b[44..56];
    var head, ports := b[..16], b[20..24];
    assert b[..8] == head[..8] && b[8] == head[8] && b[9..16] == head[9..];
    assert b[20] == ports[0] && b[21] == ports[1] && b[22] == ports[2] && b[23] == ports[3];
  }

  // ---------------------------------------------------------------- the reader

  lemma {:induction false} CutAt(b: seq<nat>, ws: seq<nat>, k: nat)
    requires |b| == Sum(ws) && k < |ws|
    ensures Sum(ws[..k]) + ws[k] <= |b| && |Cut(b, ws)| == |ws|
    ensures Cut(b, ws)[k] == b[Sum(ws[..k])..Sum(ws[..k]) + ws[k]]
  {
    CutLength(b, ws);
    if k > 0 {
      var w, rest := ws[0], ws[1..];
      CutAt(b[w..], rest, k - 1);
      assert ws[..k][0] == w && ws[..k][1..] == rest[..k - 1];
    }
  }

  lemma {:induction false} CutLength(b: seq<nat>, ws: seq<nat>)
    requires |b| == Sum(ws)
    ensures |Cut(b, ws)| == |ws|
  {
    if ws != [] { CutLength(b[ws[0]..], ws[1..]); }
  }

  const TO_IDENTITY: seq<nat> := HEADER + IDENTITY
  const TO_TIMERS: seq<nat> :=
    TO_IDENTITY + [4] + ([4] + CONGESTION + RTT + OPTIONS + SEQUENCES + COUNTERS + ECN + TLP)

  lemma TimersOffset()
    ensures |TO_TIMERS| == 44 && WIDTHS[..44] == TO_TIMERS && Sum(WIDTHS[..44]) == 208
  {
    hide Sum;
    GroupWidths();
    OneWidth(4);
    var a := [4] + CONGESTION;
    SumAdd([4], CONGESTION);
    SumAdd(a, RTT);
    SumAdd(a + RTT, OPTIONS);
    SumAdd(a + RTT + OPTIONS, SEQUENCES);
    var b := a + RTT + OPTIONS + SEQUENCES;
    SumAdd(b, COUNTERS);
    SumAdd(b + COUNTERS, ECN);
    SumAdd(b + COUNTERS + ECN, TLP);
    SumAdd(HEADER, IDENTITY);
    SumAdd(TO_IDENTITY, [4]);
    SumAdd(TO_IDENTITY + [4], b + COUNTERS + ECN + TLP);
  }

  /** The first byte of the k-th field. */
  function Offset(k: nat): nat
    requires k <= |WIDTHS|
  {
    Sum(WIDTHS[..k])
  }

  lemma NextOffset(k: nat)
    requires k < |WIDTHS|
    ensures Offset(k + 1) == Offset(k) + WIDTHS[k]
  {
    hide Sum;
    SumAdd(WIDTHS[..k], [WIDTHS[k]]);
    OneWidth(WIDTHS[k]);
    assert WIDTHS[..k + 1] == WIDTHS[..k] + [WIDTHS[k]];
  }

  lemma FrontWidths()
    ensures |WIDTHS| == 58 && WIDTHS[..11] == [4, 4, 4, 4, 1, 3, 2, 2, 16, 16, 4] && Offset(0) == 0
  {
    RecordSize();
  }

  lemma BackWidths()
    ensures |WIDTHS| == 58 && WIDTHS[44..57] == [4, 4, 4, 4, 4, 4, 4, 4, 4, 4, 8, 4, 8]
  {
    RecordSize();
  }

  lemma FrontOffsets()
    ensures |WIDTHS| == 58 && Offset(0) == 0 && Offset(2) == 8 && Offset(4) == 16 && Offset(6) == 20 && Offset(7) == 22
    ensures Offset(8) == 24 && Offset(9) == 40 && Offset(10) == 56
    ensures forall k | 0 <= k < 11 :: WIDTHS[k] == [4, 4, 4, 4, 1, 3, 2, 2, 16, 16, 4][k]
  {
    hide Offset;
    FrontWidths();
    assert forall k | 0 <= k < 11 :: WIDTHS[k] == WIDTHS[..11][k];
    NextOffset(0); NextOffset(1); NextOffset(2); NextOffset(3); NextOffset(4);
    NextOffset(5); NextOffset(6); NextOffset(7); NextOffset(8); NextOffset(9);
  }

  lemma BackOffsets()
    ensures |WIDTHS| == 58 && forall i | 0 <= i < 6 :: Offset(44 + i) == 208 + 4 * i && WIDTHS[44 + i] == 4
    ensures Offset(54) == 248 && Offset(55) == 256 && Offset(56) == 260
    ensures WIDTHS[54] == 8 && WIDTHS[55] == 4 && WIDTHS[56] == 8
  {
    BackWidths();
    TimersOffset();
    assert Offset(44) == 208;
    hide Offset;
    assert forall k | 44 <= k < 57 :: WIDTHS[k] == WIDTHS[44..57][k - 44];
    NextOffset(44); NextOffset(45); NextOffset(46); NextOffset(47); NextOffset(48); NextOffset(49);
    NextOffset(50); NextOffset(51); NextOffset(52); NextOffset(53); NextOffset(54); NextOffset(55);
  }

  lemma FieldBytes(b: seq<nat>, i: nat, k: nat)
    requires (i + 1) * 320 <= |b| && IsBytes(b) && k < |WIDTHS|
    ensures Offset(k) + WIDTHS[k] <= 320 && |FieldsAt(b, i)| == |WIDTHS|
    ensures FieldsAt(b, i)[k] == Chunk(b, i)[Offset(k)..Offset(k) + WIDTHS[k]]
  {
    RecordSize();
    CutAt(Chunk(b, i), WIDTHS, k);
  }

  /** What the reader makes of any 320 bytes, place by place. */
  lemma ReadBytes(b: seq<nat>, i: nat)
    requires (i + 1) * 320 <= |b| && IsBytes(b)
    ensures var c, r := b[i * 320..(i + 1) * 320], RecordAt(b, i);
      var v6 := c[8] % 2 == 1 || c[16] == 28;
      && |c| == 320 && VersionAt(b, i) == FromLe(c[..4])
      && r.localPort == c[20] + 256 * c[21] && r.remotePort == c[22] + 256 * c[23]
      && (v6 ==> r.ipVersion == 6 && r.localAddr == V6(c[24..40]) && r.remoteAddr == V6(c[40..56]))
      && (!v6 ==> r.ipVersion == 4 && r.localAddr == V4(c[24..28]) && r.remoteAddr == V4(c[40..44]))
      && r.state == Signed(c[56..60])
      && |r.timers| == 6 && (forall k | 0 <= k < 6 :: r.timers[k] == Timer(c[208 + 4 * k..212 + 4 * k]))
      && r.socketId == FromLe(c[248..256]) && r.uid == FromLe(c[256..260]) && r.gencnt == FromLe(c[260..268])
  {
    hide FieldsAt, Offset, FromLe, Signed, Timer;
    FrontOffsets();
    BackOffsets();
    forall k: nat | k < 58
      ensures Offset(k) + WIDTHS[k] <= 320
      ensures FieldsAt(b, i)[k] == Chunk(b, i)[Offset(k)..Offset(k) + WIDTHS[k]]
    {
      FieldBytes(b, i, k);
    }
    var c := Chunk(b, i);
    LowByteFirst(c[20..22]);
    LowByteFirst(c[22..24]);
    LowBit(c[8..12]);
  }

  lemma LowBit(bs: seq<nat>)
    requires bs != []
    ensures FromLe(bs) % 2 == bs[0] % 2
  {
  }
}
