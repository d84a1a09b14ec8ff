/**
 The FreeBSD consumer: the parser of the 320-byte records, the `kern.file` reader and the join of the two, and the
 proof that what the kernel emits is always accepted and shows the sockets it was filled from.
 */
module Kld {
  import opened Text
  import opened Cidr
  import opened Ipv4
  import opened Matching
  import opened Record

  datatype IpAddr = V4(bytes: seq<nat>) | V6(bytes: seq<nat>)

  const DATA_SOURCE_FREEBSD_KLD: nat := 5
  const DATA_SOURCE_KERN_FILE: nat := 6
  const DTYPE_SOCKET: nat := 2

  /** `RawSocketRecord`, without the statistics that are copied one for one. */
  datatype Raw = Raw(
    localAddr: IpAddr, remoteAddr: IpAddr, ipVersion: nat, localPort: nat, remotePort: nat, socketId: nat,
    state: int, timers: seq<nat>, uid: nat, gencnt: nat, pid: Option<int>, fd: Option<int>, sources: seq<nat>)

  datatype Parse = Parsed(records: seq<Raw>) | BadSize | VersionMismatch(got: nat)

  /** A little-endian two's complement number. */
  function Signed(bs: seq<nat>): int {
    if FromLe(bs) < Bound(|bs|) / 2 then FromLe(bs) else FromLe(bs) - Bound(|bs|)
  }

  /** Negative timers become 0. */
  function Timer(bs: seq<nat>): nat { if Signed(bs) < 0 then 0 else Signed(bs) }

  function AddrOf(isV6: bool, field: seq<nat>): IpAddr
    requires |field| == 16
  {
    if isV6 then V6(field) else V4(field[..4])
  }

  /** `kld_record_to_raw`. */
  function ToRaw(f: seq<seq<nat>>): Raw
    requires |f| == 58 && |f[AF]| == 1 && |f[LOCAL_ADDR]| == |f[REMOTE_ADDR]| == 16
  {
    var isV6 := FromLe(f[FLAGS]) % 2 == TSR_F_IPV6 || f[AF] == [AF_INET6];
    Raw(AddrOf(isV6, f[LOCAL_ADDR]), AddrOf(isV6, f[REMOTE_ADDR]), if isV6 then 6 else 4,
        FromLe(f[LOCAL_PORT]), FromLe(f[REMOTE_PORT]), FromLe(f[SO_ADDR]), Signed(f[STATE]),
        [Timer(f[TIMERS]), Timer(f[TIMERS + 1]), Timer(f[TIMERS + 2]), Timer(f[TIMERS + 3]), Timer(f[TIMERS + 4]),
         Timer(f[TIMERS + 5])],
        FromLe(f[UID]), FromLe(f[GENCNT]), None, None, [DATA_SOURCE_FREEBSD_KLD])
  }

  function Chunk(b: seq<nat>, i: nat): (c: seq<nat>)
    requires (i + 1) * 320 <= |b|
    ensures |c| == 320
  {
    b[i * 320..(i + 1) * 320]
  }

  function FieldsAt(b: seq<nat>, i: nat): (fields: seq<seq<nat>>)
    requires (i + 1) * 320 <= |b| && IsBytes(b)
    ensures HasWidths(fields, WIDTHS)
  {
    RecordSize();
    ConcatCut(Chunk(b, i), WIDTHS);
    Cut(Chunk(b, i), WIDTHS)
  }

  function VersionAt(b: seq<nat>, i: nat): nat
    requires (i + 1) * 320 <= |b| && IsBytes(b)
  {
    RecordSize();
    FromLe(FieldsAt(b, i)[VERSION])
  }

  lemma KeyWidths()
    ensures |WIDTHS| == 58 && WIDTHS[AF] == 1 && WIDTHS[LOCAL_ADDR] == WIDTHS[REMOTE_ADDR] == 16
  {
    RecordSize();
  }

  function RecordAt(b: seq<nat>, i: nat): Raw
    requires (i + 1) * 320 <= |b| && IsBytes(b)
  {
    KeyWidths();
    ToRaw(FieldsAt(b, i))
  }

  /** `parse_kld_records`: all the records or none; the first wrong version is the one reported. */
  method ParseKldRecords(buf: seq<nat>) returns (r: Parse)
    requires IsBytes(buf)
    ensures r.BadSize? <==> |buf| % 320 != 0
    ensures r.Parsed? <==> |buf| % 320 == 0 && forall i | 0 <= i < |buf| / 320 :: VersionAt(buf, i) == TCP_STATS_VERSION
    ensures r.Parsed? ==>
      |r.records| == |buf| / 320 && forall i | 0 <= i < |buf| / 320 :: r.records[i] == RecordAt(buf, i)
    ensures r.VersionMismatch? ==>
      exists i | 0 <= i < |buf| / 320 ::
        && VersionAt(buf, i) == r.got != TCP_STATS_VERSION
        && forall j | 0 <= j < i :: VersionAt(buf, j) == TCP_STATS_VERSION
  {
    hide RecordAt, VersionAt;
    if |buf| == 0 { return Parsed([]); }
    if |buf| % TCP_STATS_RECORD_SIZE != 0 { return BadSize; }
    var count := |buf| / TCP_STATS_RECORD_SIZE;
    var records := [];
    var i := 0;
    while i < count
      invariant i <= count && |records| == i
      invariant forall j | 0 <= j < i :: VersionAt(buf, j) == TCP_STATS_VERSION && records[j] == RecordAt(buf, j)
    {
      var version := VersionAt(buf, i);
      if version != TCP_STATS_VERSION { return VersionMismatch(version); }
      records := records + [RecordAt(buf, i)];
      i := i + 1;
    }
    r := Parsed(records);
  }

  // ---------------------------------------------------------------- producer and consumer agree

  /** The record shows the socket, by the version bit the filler looks at. */
  predicate Shows(r: Raw, s: Socket)
    requires IsSocket(s)
  {
    && r.localPort == s.near.port && r.remotePort == s.far.port
    && r.state == StateNumber(s) && r.socketId == s.id && r.gencnt == s.gencnt
    && r.ipVersion == (if s.ipv6 then 6 else 4)
    && r.localAddr == (if s.ipv6 then V6(s.near.addr6) else V4(Bytes(s.near.addr4, 4)))
    && r.remoteAddr == (if s.ipv6 then V6(s.far.addr6) else V4(Bytes(s.far.addr4, 4)))
    && r.pid == None && r.fd == None && r.sources == [DATA_SOURCE_FREEBSD_KLD]
  }

  lemma Bounds()
    ensures Bound(1) == 256 && Bound(2) == 65536 && Bound(4) == 0x1_0000_0000 && Bound(8) == 0x1_0000_0000_0000_0000
  {
    assert Bound(3) == 256 * Bound(2) && Bound(5) == 256 * Bound(4);
    assert Bound(6) == 256 * Bound(5) && Bound(7) == 256 * Bound(6);
  }

  lemma FilledNumbers(s: Socket)
    requires IsSocket(s)
    ensures FromLe(Le(s.near.port, 2)) == s.near.port && FromLe(Le(s.far.port, 2)) == s.far.port
    ensures FromLe(Le(s.id, 8)) == s.id && FromLe(Le(s.gencnt, 8)) == s.gencnt
    ensures Signed(Le(StateNumber(s), 4)) == StateNumber(s)
    ensures FromLe(Le(RecordFlags(s), 4)) % 2 == if s.ipv6 then 1 else 0
    ensures FromLe(Le(TCP_STATS_VERSION, 4)) == TCP_STATS_VERSION
  {
    hide Bound, FromLe, Le;
    Bounds();
    LeRoundTrip(s.near.port, 2);
    LeRoundTrip(s.far.port, 2);
    LeRoundTrip(s.id, 8);
    LeRoundTrip(s.gencnt, 8);
    LeRoundTrip(StateNumber(s), 4);
    LeRoundTrip(RecordFlags(s), 4);
    LeRoundTrip(TCP_STATS_VERSION, 4);
  }

  lemma FilledFields(s: Socket, d: Details)
    requires IsSocket(s) && IsDetails(d)
    ensures |Fill(s, d)| == 58
    ensures Fill(s, d)[..11] == HeaderFields(s) + IdentityFields(s) + [Le(StateNumber(s), 4)]
    ensures Fill(s, d)[54..] == MetadataFields(s, d)
  {
    hide HeaderFields, IdentityFields, MetadataFields;
    RecordSize();
  }

  lemma FilledShows(s: Socket, d: Details)
    requires IsSocket(s) && IsDetails(d)
    ensures var f := Fill(s, d);
      && |f| == 58 && |f[AF]| == 1 && |f[LOCAL_ADDR]| == |f[REMOTE_ADDR]| == 16
      && FromLe(f[VERSION]) == TCP_STATS_VERSION && Shows(ToRaw(f), s)
  {
    hide FromLe, Le, Fill, Signed, Timer;
    var f := Fill(s, d);
    FilledFields(s, d);
    FilledNumbers(s);
    var front, back := f[..11], f[54..];
    assert forall i | 0 <= i < 11 :: f[i] == front[i];
    assert f[54] == back[0] && f[56] == back[2];
  }

  /** What the other fields say: the length and the two flag bits, the owner, and the timers, negative ones as 0. */
  lemma FilledDetails(s: Socket, d: Details, timers: seq<int>)
    requires IsSocket(s) && IsDetails(d) && d.uid < 0x1_0000_0000 && |timers| == 6
    requires forall i | 0 <= i < 6 ::
      IsInt32(timers[i]) && 0 <= timers[i] + Bound(4) && d.tcb[33 + i] == SignedLe(timers[i], 4)
    ensures var f := Fill(s, d);
      && |f| == 58 && |f[AF]| == 1 && |f[LOCAL_ADDR]| == |f[REMOTE_ADDR]| == 16
      && FromLe(f[1]) == 320 && FromLe(f[2]) == (if s.ipv6 then 1 else 0) + (if s.state == Option.Some(1) then 2 else 0)
      && ToRaw(f).uid == d.uid && |ToRaw(f).timers| == 6
      && forall i | 0 <= i < 6 :: ToRaw(f).timers[i] == if timers[i] < 0 then 0 else timers[i]
  {
    hide FromLe, Le, Fill, Signed, SignedLe, Bound;
    var f := Fill(s, d);
    FilledFields(s, d);
    FilledTcb(s, d);
    Bounds();
    LeRoundTrip(320, 4);
    LeRoundTrip(RecordFlags(s), 4);
    LeRoundTrip(d.uid, 4);
    forall i | 0 <= i < 6 ensures Signed(f[TIMERS + i]) == timers[i] {
      assert f[TIMERS + i] == d.tcb[33 + i];
      SignedRoundTrip(timers[i], 4);
    }
    var front, back := f[..11], f[54..];
    assert forall i | 0 <= i < 11 :: f[i] == front[i];
    assert f[55] == back[1];
    TimersOf(f);
  }

  lemma TimersOf(f: seq<seq<nat>>)
    requires |f| == 58 && |f[AF]| == 1 && |f[LOCAL_ADDR]| == |f[REMOTE_ADDR]| == 16
    ensures |ToRaw(f).timers| == 6 && forall i | 0 <= i < 6 :: ToRaw(f).timers[i] == Timer(f[TIMERS + i])
  {
    hide FromLe, Signed, Timer;
  }

  lemma FilledTcb(s: Socket, d: Details)
    requires IsSocket(s) && IsDetails(d)
    ensures |Fill(s, d)| == 58 && |d.tcb| == 43 && Fill(s, d)[11..54] == d.tcb
  {
    hide HeaderFields, IdentityFields, MetadataFields;
    RecordSize();
  }

  /** The bytes of one emitted record. */
  function Emitted(s: Socket, d: Details): (chunk: seq<nat>)
    requires IsSocket(s) && IsDetails(d)
    ensures |chunk| == TCP_STATS_RECORD_SIZE && IsBytes(chunk)
  {
    RecordSize();
    FillWidths(s, d);
    ConcatLength(Fill(s, d), WIDTHS);
    Concat(Fill(s, d))
  }

  predicate AreChunks(chunks: seq<seq<nat>>) {
    forall i | 0 <= i < |chunks| :: |chunks[i]| == TCP_STATS_RECORD_SIZE && IsBytes(chunks[i])
  }

  lemma {:induction false} ChunkOfConcat(chunks: seq<seq<nat>>, k: nat)
    requires AreChunks(chunks)
    ensures |Concat(chunks)| == 320 * |chunks| && IsBytes(Concat(chunks))
    ensures k < |chunks| ==> Chunk(Concat(chunks), k) == chunks[k]
  {
    if chunks != [] {
      ChunkOfConcat(chunks[1..], if k == 0 then 0 else k - 1);
      var b, rest := Concat(chunks), Concat(chunks[1..]);
      if k == 0 {
        assert b[0..320] == chunks[0];
      } else if k < |chunks| {
        assert b[k * 320..(k + 1) * 320] == rest[(k - 1) * 320..k * 320];
      }
    }
  }

  lemma EmittedFields(b: seq<nat>, i: nat, s: Socket, d: Details)
    requires IsSocket(s) && IsDetails(d) && IsBytes(b)
    requires (i + 1) * 320 <= |b| && Chunk(b, i) == Emitted(s, d)
    ensures VersionAt(b, i) == TCP_STATS_VERSION && Shows(RecordAt(b, i), s)
  {
    hide Fill, FromLe, Shows, ToRaw, Chunk;
    RecordSize();
    KeyWidths();
    FillWidths(s, d);
    CutConcat(Fill(s, d), WIDTHS);
    assert FieldsAt(b, i) == Fill(s, d);
    FilledShows(s, d);
  }

  /** Whatever the kernel emits is accepted: one record per socket, in order, showing that socket. */
  lemma EmittedIsAccepted(ss: seq<Socket>, ds: seq<Details>, b: seq<nat>, chunks: seq<seq<nat>>)
    requires |ss| == |ds| == |chunks| && b == Concat(chunks)
    requires forall i | 0 <= i < |ss| :: IsSocket(ss[i]) && IsDetails(ds[i]) && chunks[i] == Emitted(ss[i], ds[i])
    ensures |b| == 320 * |ss| && IsBytes(b)
    ensures forall i | 0 <= i < |ss| :: VersionAt(b, i) == TCP_STATS_VERSION && Shows(RecordAt(b, i), ss[i])
  {
    hide Shows, RecordAt, VersionAt, Emitted;
    ChunkOfConcat(chunks, 0);
    forall i | 0 <= i < |ss| ensures VersionAt(b, i) == TCP_STATS_VERSION && Shows(RecordAt(b, i), ss[i]) {
      ChunkOfConcat(chunks, i);
      EmittedFields(b, i, ss[i], ds[i]);
    }
  }

  // ---------------------------------------------------------------- kern.file and the join

  datatype Entry = Entry(kind: nat, pid: int, fd: int, data: nat)

  predicate HasEntry(n: nat, stride: nat, i: nat) { (i + 1) * stride <= n }

  /** One `struct xfile`. */
  function EntryAt(b: seq<nat>, stride: nat, i: nat): Entry
    requires 48 <= stride && HasEntry(|b|, stride, i)
  {
    StrideFits(stride, i);
    var e := b[i * stride..(i + 1) * stride];
    Entry(FromLe(e[24..26]), Signed(e[8..12]), Signed(e[16..20]), FromLe(e[40..48]))
  }

  lemma StrideFits(stride: nat, i: nat)
    ensures 0 <= i * stride <= (i + 1) * stride == i * stride + stride
  {
  }

  /** The entries of a `kern.file` buffer; the first entry says how long each one is. */
  function Entries(b: seq<nat>): (es: seq<Entry>) {
    if |b| < 8 then []
    else
      var stride := FromLe(b[..8]);
      if stride == 0 || stride > |b| || stride < 48 then []
      else
        seq(|b| / stride, i requires 0 <= i < |b| / stride => Fits(|b|, stride, i); EntryAt(b, stride, i))
  }

  lemma Fits(n: nat, stride: nat, i: nat)
    requires stride > 0 && i < n / stride
    ensures (i + 1) * stride <= n
  {
    assert (i + 1) * stride <= n / stride * stride <= n;
  }

  /** Entry `i` is the first socket entry with that address. */
  predicate IsFirst(es: seq<Entry>, i: nat, id: nat) {
    && i < |es| && es[i].kind == DTYPE_SOCKET && es[i].data == id
    && forall j | 0 <= j < i :: !(es[j].kind == DTYPE_SOCKET && es[j].data == id)
  }

  /** The map holds, for every socket address among the entries, the owner of the first entry. */
  ghost predicate FirstWins(es: seq<Entry>, m: map<nat, (int, int)>) {
    && (forall i | 0 <= i < |es| :: es[i].kind == DTYPE_SOCKET ==> es[i].data in m)
    && (forall id | id in m :: exists i: nat :: IsFirst(es, i, id) && m[id] == (es[i].pid, es[i].fd))
  }

  lemma FirstWinsStep(es: seq<Entry>, m: map<nat, (int, int)>, e: Entry)
    requires FirstWins(es, m)
    ensures FirstWins(es + [e], if e.kind == DTYPE_SOCKET && e.data !in m then m[e.data := (e.pid, e.fd)] else m)
  {
    var all := es + [e];
    var n := if e.kind == DTYPE_SOCKET && e.data !in m then m[e.data := (e.pid, e.fd)] else m;
    forall id | id in n ensures exists i: nat :: IsFirst(all, i, id) && n[id] == (all[i].pid, all[i].fd) {
      if id in m {
        var i: nat :| IsFirst(es, i, id) && m[id] == (es[i].pid, es[i].fd);
        assert IsFirst(all, i, id);
      } else {
        assert IsFirst(all, |es|, id);
      }
    }
  }

  lemma WholeEntry(n: nat, stride: nat, i: nat)
    requires stride > 0 && (i + 1) * stride <= n
    ensures i < n / stride
  {
    if n / stride <= i { Scaled(n / stride, i, stride); }
  }

  lemma Scaled(q: nat, i: nat, stride: nat)
    requires q <= i
    ensures (q + 1) * stride <= (i + 1) * stride
  {
  }

  /** The walk stands at the i-th of the entries in `n` bytes. */
  predicate AtEntry(n: nat, stride: nat, pos: nat, i: nat) {
    stride > 0 && pos == i * stride && pos <= n && i <= n / stride
  }

  lemma FirstEntry(n: nat, stride: nat)
    requires stride > 0
    ensures AtEntry(n, stride, 0, 0)
  {
  }

  lemma NextEntry(n: nat, stride: nat, pos: nat, i: nat)
    requires AtEntry(n, stride, pos, i) && pos + stride <= n
    ensures HasEntry(n, stride, i) && i < n / stride && AtEntry(n, stride, pos + stride, i + 1)
  {
    StrideFits(stride, i);
    WholeEntry(n, stride, i);
  }

  lemma NoMore(n: nat, stride: nat, pos: nat, i: nat)
    requires AtEntry(n, stride, pos, i) && pos + stride > n
    ensures i == n / stride
  {
    if i < n / stride {
      Fits(n, stride, i);
      StrideFits(stride, i);
    }
  }

  // ---------------------------------------------------------------- written entries

  /** A two's complement number of `n` bytes, low byte first. */
  function SignedLe(v: int, n: nat): (bs: seq<nat>)
    requires 0 <= v + Bound(n)
    ensures |bs| == n && IsBytes(bs)
  {
    Le(if v < 0 then v + Bound(n) else v, n)
  }

  lemma SignedRoundTrip(v: int, n: nat)
    requires n > 0 && 0 <= 2 * v + Bound(n) && 2 * v < Bound(n)
    ensures 0 <= v + Bound(n) && Signed(SignedLe(v, n)) == v
  {
    assert Bound(n) % 2 == 0;
    LeRoundTrip(if v < 0 then v + Bound(n) else v, n);
  }

  /** One `struct xfile` as the kernel writes it; `pad` and `tail` are the fields that are not read. */
  datatype XFile = XFile(
    pid: int, uid: nat, fd: int, fileFlags: nat, kind: nat, pad: seq<nat>, data: nat, tail: seq<nat>)

  predicate IsInt32(v: int) { -0x8000_0000 <= v < 0x8000_0000 }

  predicate IsXFile(x: XFile, stride: nat) {
    && IsInt32(x.pid) && IsInt32(x.fd) && x.kind < 0x1_0000 && x.data < 0x1_0000_0000_0000_0000
    && |x.pad| == 14 && 48 + |x.tail| == stride
  }

  predicate AreXFiles(xs: seq<XFile>, stride: nat) {
    stride < 0x1_0000_0000_0000_0000 && forall i | 0 <= i < |xs| :: IsXFile(xs[i], stride)
  }

  /** Size, pid, uid, fd, flags, type, unread bytes, socket address, unread bytes up to the stride. */
  function WriteXFile(x: XFile, stride: nat): (b: seq<nat>)
    requires IsXFile(x, stride)
    ensures |b| == stride
  {
    Bounds();
    Le(stride, 8) + SignedLe(x.pid, 4) + Le(x.uid, 4) + SignedLe(x.fd, 4) + Le(x.fileFlags, 4) + Le(x.kind, 2) + x.pad
    + Le(x.data, 8) + x.tail
  }

  function WriteXFiles(xs: seq<XFile>, stride: nat): (b: seq<nat>)
    requires AreXFiles(xs, stride)
    ensures |b| == |xs| * stride
  {
    if xs == [] then []
    else
      StrideFits(stride, |xs| - 1);
      WriteXFile(xs[0], stride) + WriteXFiles(xs[1..], stride)
  }

  /** The map has, for every socket address that was written, the pid and fd of the first socket entry with it. */
  ghost predicate FirstOwners(xs: seq<XFile>, m: map<nat, (int, int)>) {
    && (forall i | 0 <= i < |xs| :: xs[i].kind == 2 ==> xs[i].data in m)
    && (forall id | id in m :: exists i ::
          && 0 <= i < |xs| && xs[i].kind == 2 && xs[i].data == id && m[id] == (xs[i].pid, xs[i].fd)
          && forall j | 0 <= j < i :: !(xs[j].kind == 2 && xs[j].data == id))
  }

  lemma EntryOfBytes(x: XFile, stride: nat)
    requires IsXFile(x, stride) && stride < 0x1_0000_0000_0000_0000
    ensures var e := WriteXFile(x, stride);
      && FromLe(e[..8]) == stride && FromLe(e[24..26]) == x.kind && Signed(e[8..12]) == x.pid
      && Signed(e[16..20]) == x.fd && FromLe(e[40..48]) == x.data
  {
    hide Le, FromLe, Signed, SignedLe, Bound;
    Bounds();
    var e := WriteXFile(x, stride);
    assert e[..8] == Le(stride, 8) && e[8..12] == SignedLe(x.pid, 4) && e[16..20] == SignedLe(x.fd, 4);
    assert e[24..26] == Le(x.kind, 2) && e[40..48] == Le(x.data, 8);
    LeRoundTrip(stride, 8);
    LeRoundTrip(x.kind, 2);
    LeRoundTrip(x.data, 8);
    SignedRoundTrip(x.pid, 4);
    SignedRoundTrip(x.fd, 4);
  }

  lemma {:induction false} SliceOfWritten(xs: seq<XFile>, stride: nat, i: nat)
    requires AreXFiles(xs, stride) && i < |xs|
    ensures 0 <= i * stride <= (i + 1) * stride <= |WriteXFiles(xs, stride)|
    ensures WriteXFiles(xs, stride)[i * stride..(i + 1) * stride] == WriteXFile(xs[i], stride)
  {
    hide WriteXFile, IsXFile;
    var b, rest := WriteXFiles(xs, stride), WriteXFiles(xs[1..], stride);
    StrideFits(stride, i);
    Scaled(i, |xs| - 1, stride);
    if i > 0 {
      StrideFits(stride, i - 1);
      SliceOfWritten(xs[1..], stride, i - 1);
      assert b[i * stride..(i + 1) * stride] == rest[(i - 1) * stride..i * stride];
    }
  }

  lemma WrittenEntries(xs: seq<XFile>, stride: nat)
    requires AreXFiles(xs, stride) && xs != []
    ensures var es := Entries(WriteXFiles(xs, stride));
      && |es| == |xs|
      && forall i | 0 <= i < |xs| :: es[i] == Entry(xs[i].kind, xs[i].pid, xs[i].fd, xs[i].data)
  {
    hide WriteXFile, WriteXFiles, FromLe, Signed;
    var b := WriteXFiles(xs, stride);
    SliceOfWritten(xs, stride, 0);
    EntryOfBytes(xs[0], stride);
    assert b[..8] == b[0 * stride..(0 + 1) * stride][..8];
    Quotient(|xs|, stride);
    forall i | 0 <= i < |xs| ensures Entries(b)[i] == Entry(xs[i].kind, xs[i].pid, xs[i].fd, xs[i].data) {
      SliceOfWritten(xs, stride, i);
      EntryOfBytes(xs[i], stride);
    }
  }

  lemma Quotient(n: nat, stride: nat)
    requires n > 0 && stride > 0
    ensures n * stride >= stride && n * stride / stride == n
  {
    Scaled(0, n - 1, stride);
    StrideFits(stride, n);
    WholeEntry(n * stride, stride, n - 1);
    if n * stride / stride > n { Fits(n * stride, stride, n); }
  }

  lemma WrittenOwners(buf: seq<nat>, m: map<nat, (int, int)>)
    requires FirstWins(Entries(buf), m)
    ensures forall xs: seq<XFile>, stride: nat ::
      AreXFiles(xs, stride) && buf == WriteXFiles(xs, stride) ==> FirstOwners(xs, m)
  {
    hide WriteXFile, WriteXFiles, Entries;
    forall xs: seq<XFile>, stride: nat | AreXFiles(xs, stride) && buf == WriteXFiles(xs, stride)
      ensures FirstOwners(xs, m)
    {
      if xs == [] { NothingWritten(stride); } else { WrittenEntries(xs, stride); }
      OwnersOf(Entries(buf), xs, m);
    }
  }

  lemma NothingWritten(stride: nat)
    requires AreXFiles([], stride)
    ensures Entries(WriteXFiles([], stride)) == []
  {
  }

  lemma OwnersOf(es: seq<Entry>, xs: seq<XFile>, m: map<nat, (int, int)>)
    requires FirstWins(es, m) && |es| == |xs|
    requires forall i | 0 <= i < |xs| :: es[i] == Entry(xs[i].kind, xs[i].pid, xs[i].fd, xs[i].data)
    ensures FirstOwners(xs, m)
  {
    forall i | 0 <= i < |xs| && xs[i].kind == 2 ensures xs[i].data in m { assert es[i].data in m; }
    forall id | id in m
      ensures exists i ::
        && 0 <= i < |xs| && xs[i].kind == 2 && xs[i].data == id && m[id] == (xs[i].pid, xs[i].fd)
        && forall j | 0 <= j < i :: !(xs[j].kind == 2 && xs[j].data == id)
    {
      var i: nat :| IsFirst(es, i, id) && m[id] == (es[i].pid, es[i].fd);
      assert 0 <= i < |xs| && xs[i].kind == 2;
    }
  }

  /** The walk over the entries. */
  method ReadKernFile(buf: seq<nat>) returns (m: map<nat, (int, int)>)
    ensures FirstWins(Entries(buf), m)
  {
    hide FirstWins, EntryAt, HasEntry, AtEntry;
    m := map[];
    NoOwners();
    if |buf| < 8 { return; }
    var stride := FromLe(buf[..8]);
    if stride == 0 || stride > |buf| { return; }
    if stride < 48 { return; }
    var pos, i := 0, 0;
    ghost var es := Entries(buf);
    FirstEntry(|buf|, stride);
    while pos + stride <= |buf|
      invariant 0 <= i <= |es| && 0 <= pos <= |buf| && AtEntry(|buf|, stride, pos, i)
      invariant FirstWins(es[..i], m)
      decreases |buf| - pos
    {
      NextEntry(|buf|, stride, pos, i);
      var entry := EntryAt(buf, stride, i);
      FirstWinsStep(es[..i], m, entry);
      if entry.kind == DTYPE_SOCKET && entry.data !in m { m := m[entry.data := (entry.pid, entry.fd)]; }
      assert es[..i + 1] == es[..i] + [entry];
      pos := pos + stride;
      i := i + 1;
    }
    NoMore(|buf|, stride, pos, i);
    assert es[..i] == es;
  }

  lemma NoOwners()
    ensures FirstWins([], map[])
  {
  }

  /** `parse_kern_file`. */
  method ParseKernFile(buf: seq<nat>) returns (m: map<nat, (int, int)>)
    ensures FirstWins(Entries(buf), m)
    ensures forall xs: seq<XFile>, stride: nat ::
      AreXFiles(xs, stride) && buf == WriteXFiles(xs, stride) ==> FirstOwners(xs, m)
  {
    m := ReadKernFile(buf);
    WrittenOwners(buf, m);
  }

  /** What the join does to one record. */
  function Joined(r: Raw, m: map<nat, (int, int)>): Raw {
    if r.socketId in m then
      r.(pid := Some(m[r.socketId].0), fd := Some(m[r.socketId].1),
         sources := if DATA_SOURCE_KERN_FILE in r.sources then r.sources else r.sources + [DATA_SOURCE_KERN_FILE])
    else r
  }

  /** `enrich_with_pid_mapping`, in place. */
  method EnrichWithPidMapping(records: array<Raw>, m: map<nat, (int, int)>)
    modifies records
    ensures forall i | 0 <= i < records.Length :: records[i] == Joined(old(records[i]), m)
  {
    var k := 0;
    while k < records.Length
      invariant k <= records.Length
      invariant forall i | 0 <= i < k :: records[i] == Joined(old(records[i]), m)
      invariant forall i | k <= i < records.Length :: records[i] == old(records[i])
    {
      var r := records[k];
      if r.socketId in m {
        var (pid, fd) := m[r.socketId];
        r := r.(pid := Some(pid), fd := Some(fd));
        if DATA_SOURCE_KERN_FILE !in r.sources { r := r.(sources := r.sources + [DATA_SOURCE_KERN_FILE]); }
        records[k] := r;
      }
      k := k + 1;
    }
  }

  /** The join over the whole pipeline: a record gets the owner of the first socket entry with its id, and only then. */
  lemma JoinIsFirstEntry(es: seq<Entry>, m: map<nat, (int, int)>, r: Raw)
    requires FirstWins(es, m) && r.pid == None && r.fd == None && r.sources == [DATA_SOURCE_FREEBSD_KLD]
    ensures forall i: nat :: IsFirst(es, i, r.socketId) ==>
      Joined(r, m) == r.(pid := Some(es[i].pid), fd := Some(es[i].fd),
                         sources := [DATA_SOURCE_FREEBSD_KLD, DATA_SOURCE_KERN_FILE])
    ensures (forall i: nat :: !IsFirst(es, i, r.socketId)) ==> Joined(r, m) == r
  {
    forall i: nat | IsFirst(es, i, r.socketId)
      ensures Joined(r, m) == r.(pid := Some(es[i].pid), fd := Some(es[i].fd),
                                 sources := [DATA_SOURCE_FREEBSD_KLD, DATA_SOURCE_KERN_FILE])
    {
      assert r.socketId in m;
      var j: nat :| IsFirst(es, j, r.socketId) && m[r.socketId] == (es[j].pid, es[j].fd);
      assert i == j;
    }
  }
}
