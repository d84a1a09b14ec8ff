/**
 From written values to read connections: whatever values the kernel writes into the record bodies of `pcblist_n`, at
 the offsets and in the byte order of its structs, the reader returns exactly those values.
 */
module Written {
  import opened Bits
  import opened Cidr
  import opened Record
  import opened Kld
  import opened Pcblist

  datatype Ends = Ends4(local: seq<nat>, remote: seq<nat>) | Ends6(local: seq<nat>, remote: seq<nat>) | NoEnds

  /** The values of one connection; the round-trip times are raw ticks, the first two shifted as the kernel does. */
  datatype Conn = Conn(
    id: nat, uid: nat, pid: int, epid: int,
    rcvUsed: nat, rcvHiwat: nat, sndUsed: nat, sndHiwat: nat,
    ends: Ends, localPort: nat, remotePort: nat, gencnt: nat,
    state: int, rxtShift: nat, flags: nat, cwnd: nat, ssthresh: nat, maxseg: nat, srtt: nat, rttvar: nat, rto: nat,
    sndNxt: nat, sndUna: nat, sndMax: nat, rcvNxt: nat, rcvAdv: nat, sndWnd: nat, rcvWnd: nat,
    sndScale: nat, rcvScale: nat, dupacks: nat, started: nat)

  predicate Is32(v: nat) { v < 0x1_0000_0000 }

  predicate IsConn(c: Conn) {
    && c.id < 0x1_0000_0000_0000_0000 && c.gencnt < 0x1_0000_0000_0000_0000
    && Is32(c.uid) && IsInt32(c.pid) && IsInt32(c.epid)
    && Is32(c.rcvUsed) && Is32(c.rcvHiwat) && Is32(c.sndUsed) && Is32(c.sndHiwat)
    && c.localPort < 0x1_0000 && c.remotePort < 0x1_0000
    && IsInt32(c.state) && Is32(c.rxtShift) && Is32(c.flags) && Is32(c.cwnd) && Is32(c.ssthresh) && Is32(c.maxseg)
    && Is32(c.srtt) && Is32(c.rttvar) && Is32(c.rto)
    && Is32(c.sndNxt) && Is32(c.sndUna) && Is32(c.sndMax) && Is32(c.rcvNxt) && Is32(c.rcvAdv)
    && Is32(c.sndWnd) && Is32(c.rcvWnd) && c.sndScale < 256 && c.rcvScale < 256 && Is32(c.dupacks) && Is32(c.started)
  }

  predicate HasInt32(b: seq<nat>, off: nat, v: int) {
    IsInt32(v) && off + 4 <= |b| && (Bounds(); b[off..off + 4] == SignedLe(v, 4))
  }

  predicate HasU32(b: seq<nat>, off: nat, v: nat) { off + 4 <= |b| && b[off..off + 4] == Le(v, 4) }

  predicate HasU64(b: seq<nat>, off: nat, v: nat) { off + 8 <= |b| && b[off..off + 8] == Le(v, 8) }

  /** A port, high byte first. */
  predicate HasPort(b: seq<nat>, off: nat, v: nat) {
    off + 2 <= |b| && b[off] == v / 256 && b[off + 1] == v % 256
  }

  predicate SocketBody(b: seq<nat>, c: Conn) {
    |b| > 76 && HasU64(b, 8, c.id) && HasU32(b, 36, c.uid) && HasInt32(b, 68, c.pid) && HasInt32(b, 72, c.epid)
  }

  predicate BufferBody(b: seq<nat>, used: nat, hiwat: nat) { |b| > 8 && HasU32(b, 0, used) && HasU32(b, 4, hiwat) }

  /** The byte at 44 has the two version bits. */
  predicate AddressBody(b: seq<nat>, e: Ends) {
    |b| > 112 &&
    match e
    case Ends4(l, r) => b[44] / 2 % 2 == 0 && b[44] % 2 == 1 && b[84..88] == l && b[80..84] == r
    case Ends6(l, r) => b[44] / 2 % 2 == 1 && b[48..64] == l && b[32..48] == r
    case NoEnds => b[44] / 2 % 2 == 0 && b[44] % 2 == 0
  }

  predicate InpcbBody(b: seq<nat>, c: Conn) {
    AddressBody(b, c.ends) && HasPort(b, 72, c.localPort) && HasPort(b, 70, c.remotePort) && HasU64(b, 104, c.gencnt)
  }

  predicate TcpcbBody(b: seq<nat>, c: Conn) {
    && |b| > 76
    && HasInt32(b, 0, c.state) && HasU32(b, 4, c.rxtShift) && HasU32(b, 8, c.flags) && HasU32(b, 12, c.cwnd)
    && HasU32(b, 16, c.ssthresh) && HasU32(b, 20, c.maxseg)
    && HasU32(b, 24, c.srtt) && HasU32(b, 28, c.rttvar) && HasU32(b, 72, c.rto)
    && HasU32(b, 32, c.sndNxt) && HasU32(b, 36, c.sndUna) && HasU32(b, 40, c.sndMax) && HasU32(b, 44, c.rcvNxt)
    && HasU32(b, 48, c.rcvAdv) && HasU32(b, 52, c.sndWnd) && HasU32(b, 56, c.rcvWnd)
    && b[60] == c.sndScale && b[61] == c.rcvScale && HasU32(b, 64, c.dupacks) && HasU32(b, 68, c.started)
  }

  /** The five records of one connection, with the numbers of their kinds. */
  predicate Holds(items: seq<Item>, c: Conn) {
    && |items| == 5
    && items[0].kind == 1 && SocketBody(items[0].body, c)
    && items[1].kind == 2 && BufferBody(items[1].body, c.rcvUsed, c.rcvHiwat)
    && items[2].kind == 4 && BufferBody(items[2].body, c.sndUsed, c.sndHiwat)
    && items[3].kind == 16 && InpcbBody(items[3].body, c)
    && items[4].kind == 32 && TcpcbBody(items[4].body, c)
  }

  // ---------------------------------------------------------------- what is read

  predicate Is(m: Fields, x: Field, v: FieldValue) { x in m && m[x] == v }

  predicate SocketIs(m: Fields, c: Conn) {
    && Is(m, SocketId, Num(c.id)) && Is(m, Uid, Num(c.uid)) && Is(m, Pid, Num(c.pid))
    && Is(m, EffectivePid, Num(c.epid))
  }

  predicate RcvIs(m: Fields, c: Conn) { Is(m, RcvBufUsed, Num(c.rcvUsed)) && Is(m, RcvBufHiwat, Num(c.rcvHiwat)) }

  predicate SndIs(m: Fields, c: Conn) { Is(m, SndBufUsed, Num(c.sndUsed)) && Is(m, SndBufHiwat, Num(c.sndHiwat)) }

  predicate EndsAre(m: Fields, e: Ends) {
    match e
    case Ends4(l, r) => Is(m, IpVersion, Num(4)) && Is(m, LocalAddr, Octets(l)) && Is(m, RemoteAddr, Octets(r))
    case Ends6(l, r) => Is(m, IpVersion, Num(6)) && Is(m, LocalAddr, Octets(l)) && Is(m, RemoteAddr, Octets(r))
    case NoEnds => IpVersion !in m && LocalAddr !in m && RemoteAddr !in m
  }

  predicate PortsAre(m: Fields, c: Conn) {
    Is(m, LocalPort, Num(c.localPort)) && Is(m, RemotePort, Num(c.remotePort)) && Is(m, InpGencnt, Num(c.gencnt))
  }

  predicate StateIs(m: Fields, c: Conn) {
    && Is(m, State, Num(c.state)) && Is(m, RxtShift, Num(c.rxtShift)) && Is(m, TcpFlags, Num(c.flags))
    && Is(m, SndCwnd, Num(c.cwnd)) && Is(m, SndSsthresh, Num(c.ssthresh)) && Is(m, Maxseg, Num(c.maxseg))
  }

  /** Ticks become microseconds, cut to 32 bits; without a clock rate there are none. */
  predicate TimesAre(m: Fields, c: Conn, hz: int) {
    if hz > 0 then
      && Is(m, RttUs, Num(c.srtt / 8 * 1_000_000 / hz % 0x1_0000_0000))
      && Is(m, RttvarUs, Num(c.rttvar / 4 * 1_000_000 / hz % 0x1_0000_0000))
      && Is(m, RtoUs, Num(c.rto * 1_000_000 / hz % 0x1_0000_0000))
    else RttUs !in m && RttvarUs !in m && RtoUs !in m
  }

  predicate SequencesAre(m: Fields, c: Conn) {
    && Is(m, SndNxt, Num(c.sndNxt)) && Is(m, SndUna, Num(c.sndUna)) && Is(m, SndMax, Num(c.sndMax))
    && Is(m, RcvNxt, Num(c.rcvNxt)) && Is(m, RcvAdv, Num(c.rcvAdv)) && Is(m, SndWnd, Num(c.sndWnd))
    && Is(m, RcvWnd, Num(c.rcvWnd))
  }

  predicate OthersAre(m: Fields, c: Conn) {
    && Is(m, SndWscale, Num(c.sndScale)) && Is(m, RcvWscale, Num(c.rcvScale)) && Is(m, Dupacks, Num(c.dupacks))
    && Is(m, StartTimeSecs, Num(c.started))
  }

  /** All thirty-four fields of the connection. */
  predicate Reads(m: Fields, c: Conn, hz: int) {
    && SocketIs(m, c) && RcvIs(m, c) && SndIs(m, c) && EndsAre(m, c.ends) && PortsAre(m, c)
    && StateIs(m, c) && TimesAre(m, c, hz) && SequencesAre(m, c) && OthersAre(m, c)
  }

  // ---------------------------------------------------------------- one field

  lemma Sets(rules: seq<Rule>, rec: Fields, body: seq<nat>, hz: int, i: nat)
    requires i < |rules| && Applies(rules[i], body, hz) && NoneFrom(rules, i + 1, rules[i].field)
    ensures Is(ApplyRules(rules, rec, body, hz), rules[i].field, ReadField(rules[i], body, hz))
  {
    RuleSets(rules, rec, body, hz, i);
  }

  lemma ReadU32(r: Rule, body: seq<nat>, hz: int, v: nat)
    requires r.width == 4 && r.how == Unsigned && HasU32(body, r.off, v) && Is32(v) && Applies(r, body, hz)
    ensures ReadField(r, body, hz) == Num(v)
  {
    Bounds();
    LeRoundTrip(v, 4);
  }

  lemma ReadU64(r: Rule, body: seq<nat>, hz: int, v: nat)
    requires r.width == 8 && r.how == Unsigned && HasU64(body, r.off, v) && v < 0x1_0000_0000_0000_0000
    requires Applies(r, body, hz)
    ensures ReadField(r, body, hz) == Num(v)
  {
    Bounds();
    LeRoundTrip(v, 8);
  }

  lemma ReadInt32(r: Rule, body: seq<nat>, hz: int, v: int)
    requires r.width == 4 && r.how == SignedInt && HasInt32(body, r.off, v) && Applies(r, body, hz)
    ensures ReadField(r, body, hz) == Num(v)
  {
    Bounds();
    SignedRoundTrip(v, 4);
  }

  lemma TwoBytes(hi: nat, lo: nat)
    ensures Value([hi, lo]) == hi * 256 + lo
  {
    assert [hi, lo][..1] == [hi] && [hi][..0] == [];
    assert Value([hi]) == hi;
  }

  lemma ReadPort(r: Rule, body: seq<nat>, hz: int, v: nat)
    requires r.width == 2 && r.how == BigEndian && HasPort(body, r.off, v) && Applies(r, body, hz)
    ensures ReadField(r, body, hz) == Num(v)
  {
    var bs := body[r.off..r.off + r.width];
    assert bs == [v / 256, v % 256];
    TwoBytes(v / 256, v % 256);
    assert Value(bs) == v / 256 * 256 + v % 256 == v;
  }

  lemma ReadByte(r: Rule, body: seq<nat>, hz: int, v: nat)
    requires r.width == 1 && r.how == Unsigned && r.off < |body| && body[r.off] == v && Applies(r, body, hz)
    ensures ReadField(r, body, hz) == Num(v)
  {
    var bs := body[r.off..r.off + r.width];
    assert bs == [v] && bs[1..] == [];
    assert FromLe(bs) == v + 256 * FromLe([]);
  }

  lemma ReadTicks(r: Rule, body: seq<nat>, hz: int, v: nat, shifted: nat)
    requires r.width == 4 && r.how.Ticks? && HasU32(body, r.off, v) && Is32(v) && Applies(r, body, hz)
    requires shifted == Shr(v, r.how.shift)
    ensures ReadField(r, body, hz) == Num(shifted * 1_000_000 / hz % 0x1_0000_0000)
  {
    Bounds();
    LeRoundTrip(v, 4);
  }

  lemma Shifts(v: nat)
    ensures Shr(v, 3) == v / 8 && Shr(v, 2) == v / 4 && Shr(v, 0) == v
  {
    assert Shr(v, 3) == Shr(v / 2 / 2 / 2, 0) && Shr(v, 2) == Shr(v / 2 / 2, 0);
  }

  // ---------------------------------------------------------------- what a table leaves alone

  /** Which table a field belongs to. */
  function Part(x: Field): nat {
    match x
    case SocketId => 0 case Uid => 0 case Pid => 0 case EffectivePid => 0
    case RcvBufUsed => 1 case RcvBufHiwat => 1
    case SndBufUsed => 2 case SndBufHiwat => 2
    case LocalAddr => 3 case RemoteAddr => 3 case IpVersion => 3
    case LocalPort => 4 case RemotePort => 4 case InpGencnt => 4
    case State => 5 case RxtShift => 5 case TcpFlags => 5 case SndCwnd => 5 case SndSsthresh => 5 case Maxseg => 5
    case RttUs => 6 case RttvarUs => 6 case RtoUs => 6
    case SndWscale => 8 case RcvWscale => 8 case Dupacks => 8 case StartTimeSecs => 8
    case _ => 7
  }

  /** Only fields of that table differ. */
  predicate OnlyPart(k: nat, m: Fields, out: Fields) {
    forall x: Field | Part(x) != k :: (x in out <==> x in m) && (x in m ==> out[x] == m[x])
  }

  lemma TableKeeps(rules: seq<Rule>, k: nat, m: Fields, body: seq<nat>, hz: int)
    requires forall i | 0 <= i < |rules| :: Part(rules[i].field) == k
    ensures OnlyPart(k, m, ApplyRules(rules, m, body, hz))
  {
    hide Part, ApplyRules, Applies;
    forall x: Field | Part(x) != k
      ensures var out := ApplyRules(rules, m, body, hz); (x in out <==> x in m) && (x in m ==> out[x] == m[x])
    {
      RuleKeeps(rules, m, body, hz, x);
    }
  }

  lemma SocketRead(m: Fields, b: seq<nat>, hz: int, c: Conn)
    requires IsConn(c) && SocketBody(b, c)
    ensures var out := ApplyRules(SOCKET_RULES, m, b, hz); SocketIs(out, c) && OnlyPart(0, m, out)
  {
    hide ApplyRules, ReadField, HasU32, HasU64, HasInt32;
    var rs := SOCKET_RULES;
    TableKeeps(rs, 0, m, b, hz);
    forall i | 0 <= i < 4 ensures Is(ApplyRules(rs, m, b, hz), rs[i].field, ReadField(rs[i], b, hz)) {
      Sets(rs, m, b, hz, i);
    }
    ReadU64(rs[0], b, hz, c.id);
    ReadU32(rs[1], b, hz, c.uid);
    ReadInt32(rs[2], b, hz, c.pid);
    ReadInt32(rs[3], b, hz, c.epid);
  }

  lemma BuffersRead(rules: seq<Rule>, x: Field, y: Field, m: Fields, b: seq<nat>, hz: int, used: nat, hiwat: nat)
    requires rules == [Rule(x, 0, 4, Unsigned), Rule(y, 4, 4, Unsigned)] && x != y
    requires Is32(used) && Is32(hiwat) && BufferBody(b, used, hiwat)
    ensures var out := ApplyRules(rules, m, b, hz); Is(out, x, Num(used)) && Is(out, y, Num(hiwat))
  {
    hide ApplyRules, ReadField, HasU32;
    Sets(rules, m, b, hz, 0);
    Sets(rules, m, b, hz, 1);
    ReadU32(rules[0], b, hz, used);
    ReadU32(rules[1], b, hz, hiwat);
  }

  lemma AddressesRead(rules: seq<Rule>, near: nat, far: nat, w: nat, m: Fields, b: seq<nat>, hz: int)
    requires rules == [Rule(LocalAddr, near, w, Array), Rule(RemoteAddr, far, w, Array)] && w > 1
    requires near + w < |b| && far + w < |b|
    ensures var out := ApplyRules(rules, m, b, hz);
      && Is(out, LocalAddr, Octets(b[near..near + w])) && Is(out, RemoteAddr, Octets(b[far..far + w]))
      && OnlyPart(3, m, out)
      && (IpVersion in out <==> IpVersion in m) && (IpVersion in m ==> out[IpVersion] == m[IpVersion])
  {
    hide ApplyRules;
    TableKeeps(rules, 3, m, b, hz);
    RuleKeeps(rules, m, b, hz, IpVersion);
    Sets(rules, m, b, hz, 0);
    Sets(rules, m, b, hz, 1);
  }

  lemma EndsRead(m: Fields, b: seq<nat>, hz: int, e: Ends)
    requires AddressBody(b, e) && IpVersion !in m && LocalAddr !in m && RemoteAddr !in m
    ensures EndsAre(VersionFields(m, b, hz), e) && OnlyPart(3, m, VersionFields(m, b, hz))
  {
    hide ApplyRules;
    AddressesRead(V6_RULES, 48, 32, 16, m[IpVersion := Num(6)], b, hz);
    AddressesRead(V4_RULES, 84, 80, 4, m[IpVersion := Num(4)], b, hz);
  }

  lemma PortsRead(m: Fields, b: seq<nat>, hz: int, c: Conn)
    requires IsConn(c) && InpcbBody(b, c)
    ensures var out := ApplyRules(INPCB_RULES, m, b, hz); PortsAre(out, c) && OnlyPart(4, m, out)
  {
    hide ApplyRules, ReadField, HasU64, HasPort;
    var rs := INPCB_RULES;
    TableKeeps(rs, 4, m, b, hz);
    forall i | 0 <= i < 3 ensures Is(ApplyRules(rs, m, b, hz), rs[i].field, ReadField(rs[i], b, hz)) {
      Sets(rs, m, b, hz, i);
    }
    ReadPort(rs[0], b, hz, c.localPort);
    ReadPort(rs[1], b, hz, c.remotePort);
    ReadU64(rs[2], b, hz, c.gencnt);
  }

  lemma StateRead(m: Fields, b: seq<nat>, hz: int, c: Conn)
    requires IsConn(c) && TcpcbBody(b, c)
    ensures var out := ApplyRules(TCB_STATE_RULES, m, b, hz); StateIs(out, c) && OnlyPart(5, m, out)
  {
    hide ApplyRules, ReadField, HasU32, HasInt32;
    var rs := TCB_STATE_RULES;
    TableKeeps(rs, 5, m, b, hz);
    forall i | 0 <= i < 6 ensures Is(ApplyRules(rs, m, b, hz), rs[i].field, ReadField(rs[i], b, hz)) {
      Sets(rs, m, b, hz, i);
    }
    ReadInt32(rs[0], b, hz, c.state);
    ReadU32(rs[1], b, hz, c.rxtShift);
    ReadU32(rs[2], b, hz, c.flags);
    ReadU32(rs[3], b, hz, c.cwnd);
    ReadU32(rs[4], b, hz, c.ssthresh);
    ReadU32(rs[5], b, hz, c.maxseg);
  }

  lemma TimesRead(m: Fields, b: seq<nat>, hz: int, c: Conn)
    requires IsConn(c) && TcpcbBody(b, c) && RttUs !in m && RttvarUs !in m && RtoUs !in m
    ensures var out := ApplyRules(TCB_TIME_RULES, m, b, hz); TimesAre(out, c, hz) && OnlyPart(6, m, out)
  {
    hide ApplyRules, ReadField, HasU32, Shr;
    var rs := TCB_TIME_RULES;
    TableKeeps(rs, 6, m, b, hz);
    if hz > 0 {
      forall i | 0 <= i < 3 ensures Is(ApplyRules(rs, m, b, hz), rs[i].field, ReadField(rs[i], b, hz)) {
        Sets(rs, m, b, hz, i);
      }
      Shifts(c.srtt);
      Shifts(c.rttvar);
      Shifts(c.rto);
      ReadTicks(rs[0], b, hz, c.srtt, c.srtt / 8);
      ReadTicks(rs[1], b, hz, c.rttvar, c.rttvar / 4);
      ReadTicks(rs[2], b, hz, c.rto, c.rto);
    } else {
      RuleKeeps(rs, m, b, hz, RttUs);
      RuleKeeps(rs, m, b, hz, RttvarUs);
      RuleKeeps(rs, m, b, hz, RtoUs);
    }
  }

  lemma SequencesRead(m: Fields, b: seq<nat>, hz: int, c: Conn)
    requires IsConn(c) && TcpcbBody(b, c)
    ensures SequencesAre(ApplyRules(TCB_SEQUENCE_RULES, m, b, hz), c)
  {
    hide ApplyRules, ReadField, HasU32;
    var rs := TCB_SEQUENCE_RULES;
    forall i | 0 <= i < 7 ensures Is(ApplyRules(rs, m, b, hz), rs[i].field, ReadField(rs[i], b, hz)) {
      Sets(rs, m, b, hz, i);
    }
    ReadU32(rs[0], b, hz, c.sndNxt);
    ReadU32(rs[1], b, hz, c.sndUna);
    ReadU32(rs[2], b, hz, c.sndMax);
    ReadU32(rs[3], b, hz, c.rcvNxt);
    ReadU32(rs[4], b, hz, c.rcvAdv);
    ReadU32(rs[5], b, hz, c.sndWnd);
    ReadU32(rs[6], b, hz, c.rcvWnd);
  }

  lemma SequenceTable(m: Fields, b: seq<nat>, hz: int)
    ensures OnlyPart(7, m, ApplyRules(TCB_SEQUENCE_RULES, m, b, hz))
  {
    hide ApplyRules, OnlyPart;
    TableKeeps(TCB_SEQUENCE_RULES, 7, m, b, hz);
  }

  lemma OthersRead(m: Fields, b: seq<nat>, hz: int, c: Conn)
    requires IsConn(c) && TcpcbBody(b, c)
    ensures var out := ApplyRules(TCB_OTHER_RULES, m, b, hz); OthersAre(out, c) && OnlyPart(8, m, out)
  {
    hide ApplyRules, ReadField, HasU32;
    var rs := TCB_OTHER_RULES;
    TableKeeps(rs, 8, m, b, hz);
    forall i | 0 <= i < 4 ensures Is(ApplyRules(rs, m, b, hz), rs[i].field, ReadField(rs[i], b, hz)) {
      Sets(rs, m, b, hz, i);
    }
    ReadByte(rs[0], b, hz, c.sndScale);
    ReadByte(rs[1], b, hz, c.rcvScale);
    ReadU32(rs[2], b, hz, c.dupacks);
    ReadU32(rs[3], b, hz, c.started);
  }

  // ---------------------------------------------------------------- one connection

  predicate BlockIs(k: nat, m: Fields, c: Conn, hz: int) {
    match k
    case 0 => SocketIs(m, c)
    case 1 => RcvIs(m, c)
    case 2 => SndIs(m, c)
    case 3 => EndsAre(m, c.ends)
    case 4 => PortsAre(m, c)
    case 5 => StateIs(m, c)
    case 6 => TimesAre(m, c, hz)
    case 7 => SequencesAre(m, c)
    case 8 => OthersAre(m, c)
    case _ => true
  }

  /** The tables before `k` have been read, the others have not. */
  ghost predicate ReadUpTo(k: nat, m: Fields, c: Conn, hz: int) {
    && (forall j: nat | j < k :: BlockIs(j, m, c, hz))
    && (forall x: Field | Part(x) >= k :: x !in m)
  }

  /** A field of another table is as it was. */
  lemma Same(x: Field, k: nat, m: Fields, out: Fields)
    requires OnlyPart(k, m, out) && Part(x) != k
    ensures x in out <==> x in m
    ensures forall v | Is(m, x, v) :: Is(out, x, v)
  {
  }

  lemma SocketBlockKept(j: nat, k: nat, m: Fields, out: Fields, c: Conn, hz: int)
    requires OnlyPart(k, m, out) && j < 3 && j != k && BlockIs(j, m, c, hz)
    ensures BlockIs(j, out, c, hz)
  {
    hide Is, OnlyPart, EndsAre, PortsAre, StateIs, TimesAre, SequencesAre, OthersAre;
    match j
    case 0 =>
      Same(SocketId, k, m, out); Same(Uid, k, m, out); Same(Pid, k, m, out); Same(EffectivePid, k, m, out);
    case 1 =>
      Same(RcvBufUsed, k, m, out); Same(RcvBufHiwat, k, m, out);
    case _ =>
      Same(SndBufUsed, k, m, out); Same(SndBufHiwat, k, m, out);
  }

  lemma InpcbBlockKept(j: nat, k: nat, m: Fields, out: Fields, c: Conn, hz: int)
    requires OnlyPart(k, m, out) && 3 <= j < 5 && j != k && BlockIs(j, m, c, hz)
    ensures BlockIs(j, out, c, hz)
  {
    hide Is, OnlyPart, SocketIs, RcvIs, SndIs, StateIs, TimesAre, SequencesAre, OthersAre;
    match j
    case 3 =>
      Same(IpVersion, k, m, out); Same(LocalAddr, k, m, out); Same(RemoteAddr, k, m, out);
    case _ =>
      Same(LocalPort, k, m, out); Same(RemotePort, k, m, out); Same(InpGencnt, k, m, out);
  }

  lemma StateBlockKept(j: nat, k: nat, m: Fields, out: Fields, c: Conn, hz: int)
    requires OnlyPart(k, m, out) && 5 <= j < 7 && j != k && BlockIs(j, m, c, hz)
    ensures BlockIs(j, out, c, hz)
  {
    hide Is, OnlyPart, SocketIs, RcvIs, SndIs, EndsAre, PortsAre, SequencesAre, OthersAre;
    match j
    case 5 =>
      Same(State, k, m, out); Same(RxtShift, k, m, out); Same(TcpFlags, k, m, out); Same(SndCwnd, k, m, out);
      Same(SndSsthresh, k, m, out); Same(Maxseg, k, m, out);
    case _ =>
      Same(RttUs, k, m, out); Same(RttvarUs, k, m, out); Same(RtoUs, k, m, out);
  }

  lemma SequencesKept(k: nat, m: Fields, out: Fields, c: Conn)
    requires OnlyPart(k, m, out) && k != 7 && SequencesAre(m, c)
    ensures SequencesAre(out, c)
  {
    hide Is, OnlyPart;
    Same(SndNxt, k, m, out); Same(SndUna, k, m, out); Same(SndMax, k, m, out); Same(RcvNxt, k, m, out);
    Same(RcvAdv, k, m, out); Same(SndWnd, k, m, out); Same(RcvWnd, k, m, out);
  }

  lemma OthersKept(k: nat, m: Fields, out: Fields, c: Conn)
    requires OnlyPart(k, m, out) && k != 8 && OthersAre(m, c)
    ensures OthersAre(out, c)
  {
    hide Is, OnlyPart;
    Same(SndWscale, k, m, out); Same(RcvWscale, k, m, out); Same(Dupacks, k, m, out);
    Same(StartTimeSecs, k, m, out);
  }

  lemma BlockKept(j: nat, k: nat, m: Fields, out: Fields, c: Conn, hz: int)
    requires OnlyPart(k, m, out) && j < 9 && j != k && BlockIs(j, m, c, hz)
    ensures BlockIs(j, out, c, hz)
  {
    hide OnlyPart, SocketIs, RcvIs, SndIs, EndsAre, PortsAre, StateIs, TimesAre, SequencesAre, OthersAre;
    if j < 3 {
      SocketBlockKept(j, k, m, out, c, hz);
    } else if j < 5 {
      InpcbBlockKept(j, k, m, out, c, hz);
    } else if j < 7 {
      StateBlockKept(j, k, m, out, c, hz);
    } else if j == 7 {
      SequencesKept(k, m, out, c);
    } else {
      OthersKept(k, m, out, c);
    }
  }

  lemma ReadNext(k: nat, m: Fields, out: Fields, c: Conn, hz: int)
    requires k < 9 && ReadUpTo(k, m, c, hz) && OnlyPart(k, m, out) && BlockIs(k, out, c, hz)
    ensures ReadUpTo(k + 1, out, c, hz)
  {
    hide BlockIs, Part;
    forall j: nat | j < k + 1 ensures BlockIs(j, out, c, hz) {
      if j < k { BlockKept(j, k, m, out, c, hz); }
    }
  }

  lemma Unread(k: nat, m: Fields, c: Conn, hz: int)
    requires ReadUpTo(k, m, c, hz)
    ensures k <= 3 ==> IpVersion !in m && LocalAddr !in m && RemoteAddr !in m
    ensures k <= 6 ==> RttUs !in m && RttvarUs !in m && RtoUs !in m
  {
    hide BlockIs;
    assert Part(IpVersion) == Part(LocalAddr) == Part(RemoteAddr) == 3;
    assert Part(RttUs) == Part(RttvarUs) == Part(RtoUs) == 6;
  }

  lemma ReadAll(m: Fields, c: Conn, hz: int)
    requires ReadUpTo(9, m, c, hz)
    ensures Reads(m, c, hz)
  {
    hide SocketIs, RcvIs, SndIs, EndsAre, PortsAre, StateIs, TimesAre, SequencesAre, OthersAre, Part;
    assert forall j: nat | j < 9 :: BlockIs(j, m, c, hz);
    assert BlockIs(0, m, c, hz) && BlockIs(1, m, c, hz) && BlockIs(2, m, c, hz) && BlockIs(3, m, c, hz);
    assert BlockIs(4, m, c, hz) && BlockIs(5, m, c, hz) && BlockIs(6, m, c, hz) && BlockIs(7, m, c, hz);
    assert BlockIs(8, m, c, hz);
  }

  lemma {:induction false} RulesAdd(a: seq<Rule>, b: seq<Rule>, m: Fields, body: seq<nat>, hz: int)
    ensures ApplyRules(a + b, m, body, hz) == ApplyRules(b, ApplyRules(a, m, body, hz), body, hz)
  {
    hide ApplyRule;
    if b == [] {
      assert a + b == a;
    } else {
      var n := |b| - 1;
      assert (a + b)[..|a + b| - 1] == a + b[..n];
      RulesAdd(a, b[..n], m, body, hz);
    }
  }

  lemma SocketStep(m: Fields, x: Item, hz: int, c: Conn)
    requires IsConn(c) && x.kind == 1 && SocketBody(x.body, c) && ReadUpTo(0, m, c, hz)
    ensures ReadUpTo(1, Absorb(m, x, hz), c, hz)
  {
    hide ApplyRules, ReadUpTo, OnlyPart, SocketBody, IsConn, SocketIs;
    SocketRead(m, x.body, hz, c);
    ReadNext(0, m, Absorb(m, x, hz), c, hz);
  }

  lemma BufferStep(m: Fields, x: Item, hz: int, c: Conn)
    requires IsConn(c)
    requires x.kind == 2 ==> BufferBody(x.body, c.rcvUsed, c.rcvHiwat) && ReadUpTo(1, m, c, hz)
    requires x.kind == 4 ==> BufferBody(x.body, c.sndUsed, c.sndHiwat) && ReadUpTo(2, m, c, hz)
    ensures x.kind == 2 ==> ReadUpTo(2, Absorb(m, x, hz), c, hz)
    ensures x.kind == 4 ==> ReadUpTo(3, Absorb(m, x, hz), c, hz)
  {
    hide ApplyRules, ReadUpTo, OnlyPart, BufferBody;
    if x.kind == 2 {
      BuffersRead(RCVBUF_RULES, RcvBufUsed, RcvBufHiwat, m, x.body, hz, c.rcvUsed, c.rcvHiwat);
      TableKeeps(RCVBUF_RULES, 1, m, x.body, hz);
      ReadNext(1, m, Absorb(m, x, hz), c, hz);
    } else if x.kind == 4 {
      BuffersRead(SNDBUF_RULES, SndBufUsed, SndBufHiwat, m, x.body, hz, c.sndUsed, c.sndHiwat);
      TableKeeps(SNDBUF_RULES, 2, m, x.body, hz);
      ReadNext(2, m, Absorb(m, x, hz), c, hz);
    }
  }

  lemma InpcbStep(m: Fields, x: Item, hz: int, c: Conn)
    requires IsConn(c) && x.kind == 16 && InpcbBody(x.body, c) && ReadUpTo(3, m, c, hz)
    ensures ReadUpTo(5, Absorb(m, x, hz), c, hz)
  {
    hide ApplyRules, ReadUpTo, OnlyPart, IsConn, EndsAre, PortsAre, VersionFields, HasPort, HasU64;
    Unread(3, m, c, hz);
    EndsRead(m, x.body, hz, c.ends);
    var n := VersionFields(m, x.body, hz);
    ReadNext(3, m, n, c, hz);
    PortsRead(n, x.body, hz, c);
    ReadNext(4, n, Absorb(m, x, hz), c, hz);
  }

  lemma TcpcbStep(m: Fields, x: Item, hz: int, c: Conn)
    requires IsConn(c) && x.kind == 32 && TcpcbBody(x.body, c) && ReadUpTo(5, m, c, hz)
    ensures ReadUpTo(9, Absorb(m, x, hz), c, hz)
  {
    hide ApplyRules, ReadUpTo, OnlyPart, IsConn, StateIs, TimesAre, SequencesAre, OthersAre, TcpcbBody;
    var b := x.body;
    var m1 := ApplyRules(TCB_STATE_RULES, m, b, hz);
    StateRead(m, b, hz, c);
    ReadNext(5, m, m1, c, hz);
    var m2 := ApplyRules(TCB_TIME_RULES, m1, b, hz);
    Unread(6, m1, c, hz);
    TimesRead(m1, b, hz, c);
    ReadNext(6, m1, m2, c, hz);
    var m3 := ApplyRules(TCB_SEQUENCE_RULES, m2, b, hz);
    SequencesRead(m2, b, hz, c);
    SequenceTable(m2, b, hz);
    ReadNext(7, m2, m3, c, hz);
    var m4 := ApplyRules(TCB_OTHER_RULES, m3, b, hz);
    OthersRead(m3, b, hz, c);
    ReadNext(8, m3, m4, c, hz);
    RulesAdd(TCB_STATE_RULES, TCB_TIME_RULES, m, b, hz);
    RulesAdd(TCB_STATE_RULES + TCB_TIME_RULES, TCB_SEQUENCE_RULES, m, b, hz);
    RulesAdd(TCB_STATE_RULES + TCB_TIME_RULES + TCB_SEQUENCE_RULES, TCB_OTHER_RULES, m, b, hz);
  }

  lemma FoldFive(g: seq<Item>, hz: int)
    requires |g| == 5
    ensures var m := Absorb(Absorb(map[], g[0], hz), g[1], hz);
      Fold(g, hz) == Absorb(Absorb(Absorb(m, g[2], hz), g[3], hz), g[4], hz)
  {
    hide Absorb;
    assert g[..4][..3] == g[..3] && g[..3][..2] == g[..2] && g[..2][..1] == g[..1] && g[..1][..0] == [];
    assert Fold(g[..1], hz) == Absorb(map[], g[0], hz);
    assert Fold(g[..2], hz) == Absorb(Fold(g[..1], hz), g[1], hz);
    assert Fold(g[..3], hz) == Absorb(Fold(g[..2], hz), g[2], hz);
    assert Fold(g[..4], hz) == Absorb(Fold(g[..3], hz), g[3], hz);
  }

  /** The five records of a connection are read as that connection. */
  lemma GroupRead(g: seq<Item>, hz: int, c: Conn)
    requires IsConn(c) && Holds(g, c)
    ensures Reads(Fold(g, hz), c, hz)
  {
    hide Absorb, ReadUpTo, Reads, IsConn, SocketBody, BufferBody, InpcbBody, TcpcbBody, Fold;
    FoldFive(g, hz);
    NothingRead(c, hz);
    var m1 := Absorb(map[], g[0], hz);
    SocketStep(map[], g[0], hz, c);
    var m2 := Absorb(m1, g[1], hz);
    BufferStep(m1, g[1], hz, c);
    var m3 := Absorb(m2, g[2], hz);
    BufferStep(m2, g[2], hz, c);
    var m4 := Absorb(m3, g[3], hz);
    InpcbStep(m3, g[3], hz, c);
    TcpcbStep(m4, g[4], hz, c);
    ReadAll(Absorb(m4, g[4], hz), c, hz);
  }

  lemma NothingRead(c: Conn, hz: int)
    ensures ReadUpTo(0, map[], c, hz)
  {
  }

  // ---------------------------------------------------------------- the whole stream

  lemma {:induction false} GroupGrows(items: seq<Item>, g: seq<Item>)
    requires IsGroup(g)
    ensures Groups(items + g) == Groups(items) + [g]
    decreases |g|
  {
    var n := |g| - 1;
    assert (items + g)[..|items + g| - 1] == items + g[..n];
    if n == 0 {
      assert items + g[..0] == items && g == [g[0]];
    } else {
      GroupGrows(items, g[..n]);
      assert g == g[..n] + [g[n]];
    }
  }

  /** Cutting the records of several groups, one group after the other, gives those groups. */
  lemma {:induction false} GroupsOfFlat(gs: seq<seq<Item>>)
    requires forall i | 0 <= i < |gs| :: IsGroup(gs[i])
    ensures Groups(Flat(gs)) == gs
  {
    hide IsGroup, Groups;
    if gs == [] {
      NoGroups();
    } else {
      var n := |gs| - 1;
      GroupsOfFlat(gs[..n]);
      GroupGrows(Flat(gs[..n]), gs[n]);
    }
  }

  lemma NoGroups()
    ensures Groups([]) == []
  {
  }

  /** Whatever connections are written, five records each, are the connections that are read, in order, with every
      field as it was written. */
  lemma ConnectionsRoundTrip(header: seq<nat>, gs: seq<seq<Item>>, trailer: seq<nat>, cs: seq<Conn>, hz: int)
    requires IsHeader(header) && IsTrailer(trailer) && |gs| == |cs|
    requires forall i | 0 <= i < |cs| :: IsConn(cs[i]) && Holds(gs[i], cs[i])
    requires forall i | 0 <= i < |Flat(gs)| :: IsItem(Flat(gs)[i])
    ensures var r := ParsePcblist(header + EncodeAll(Flat(gs)) + trailer, hz);
      r.Decoded? && |r.connections| == |cs| && forall i | 0 <= i < |cs| :: Reads(r.connections[i], cs[i], hz)
  {
    hide IsConn, Reads, Holds, Fold, ParsePcblist, Flat, EncodeAll, IsTrailer, IsHeader, IsItem, Groups, IsGroup;
    ReadsWhatWasWritten(header, Flat(gs), trailer, hz);
    forall i | 0 <= i < |gs| ensures IsGroup(gs[i]) { HeldIsGroup(gs[i], cs[i]); }
    GroupsOfFlat(gs);
    forall i | 0 <= i < |cs| ensures Reads(Connections(Flat(gs), hz)[i], cs[i], hz) {
      GroupRead(gs[i], hz, cs[i]);
    }
  }

  lemma HeldIsGroup(g: seq<Item>, c: Conn)
    requires Holds(g, c)
    ensures IsGroup(g)
  {
    hide SocketBody, BufferBody, InpcbBody, TcpcbBody;
  }

  // ---------------------------------------------------------------- the overlap

  /** The bytes read as the remote IPv6 address contain the version byte: exactly the addresses whose thirteenth byte
      has the IPv6 bit can be read back. */
  lemma RemoteOverlapsVersion(l: seq<nat>, r: seq<nat>)
    requires |l| == |r| == 16
    ensures (exists b :: AddressBody(b, Ends6(l, r))) <==> r[12] / 2 % 2 == 1
  {
    var b := seq(32, i => 0) + r + l + seq(49, i => 0);
    assert b[48..64] == l && b[32..48] == r && b[44] == r[12];
    assert r[12] / 2 % 2 == 1 ==> AddressBody(b, Ends6(l, r));
    forall b: seq<nat> | AddressBody(b, Ends6(l, r)) ensures r[12] / 2 % 2 == 1 {
      assert b[32..48][12] == b[44];
    }
  }
}
