/**
 The character device around the scan: the per-fd state, `read` with its reader slot and throttle, the ioctls, the
 life cycle of a descriptor, and the whole path from a filter string to the records a client decodes.
 */
module Device {
  import opened Cidr
  import opened Text
  import opened Filter
  import opened Matching
  import opened Meaning
  import opened Record
  import opened Kld
  import opened Scan
  import opened Flush

  const SBT_1S: nat := 0x1_0000_0000
  const SBT_1MS: nat := SBT_1S / 1000

  datatype Error = EBUSY | EINTR | EFAULT | ENOTSUP | ENOTTY

  datatype Reply = Reply(error: Option<Error>, records: seq<seq<nat>>)

  datatype Call = ReadCall | SetFilter(filter: Filter) | Reset | VersionCall | OtherCall

  datatype FdState = FdState(done: bool, lastRead: int, filter: Filter)

  /** What a call may do to a descriptor.  A read on a finished descriptor is empty; a refused read changes nothing; a
      read that scans finishes the descriptor however it ends. */
  predicate FdStep(s: FdState, c: Call, t: FdState, r: Reply) {
    match c
    case ReadCall =>
      if s.done then t == s && r == Reply(None, [])
      else
        || (t == s && r == Reply(Some(EBUSY), []))
        || (t.done && t.filter == s.filter && (r.error == None || r.error == Some(EINTR) || r.error == Some(EFAULT)))
    case SetFilter(f) =>
      if f.version != TSF_VERSION then t == s && r == Reply(Some(ENOTSUP), [])
      else t == s.(filter := f) && r == Reply(None, [])
    case Reset => t == s.(done := false) && r == Reply(None, [])
    case VersionCall => t == s && r == Reply(None, [])
    case OtherCall => t == s && r == Reply(Some(ENOTTY), [])
  }

  /** `struct tcpstats_softc`. */
  class Softc {
    var done: bool
    var lastRead: int
    var filter: Filter

    function View(): FdState
      reads this
    {
      FdState(done, lastRead, filter)
    }

    constructor ()
      ensures View() == FdState(false, 0, DEFAULT_FILTER)
    {
      done, lastRead, filter := false, 0, DEFAULT_FILTER;
    }
  }

  function Plus(a: Counters, b: Counters): Counters {
    Counters(a.emitted + b.emitted, a.visited + b.visited, a.gencnt + b.gencnt, a.cred + b.cred, a.ipver + b.ipver,
             a.state + b.state, a.port + b.port, a.addr + b.addr, a.copyErrors + b.copyErrors, a.timedOut + b.timedOut,
             a.interrupted + b.interrupted)
  }

  /** Counters are added field by field. */
  lemma PlusFields(a: Counters, b: Counters, k: nat)
    requires k < FIELDS
    ensures AsFields(Plus(a, b))[k] == AsFields(a)[k] + AsFields(b)[k] && AsCounters(AsFields(a)) == a
  {
  }

  /** Running into the deadline is no error. */
  function ErrorOf(e: Ending): Option<Error> {
    match e
    case Interrupted => Some(EINTR)
    case CopyFailed => Some(EFAULT)
    case _ => None
  }

  /** More than the time limit has gone by at the n-th visit; a limit of 0 ms is no limit.  The clock counts in units of
      2^-32 seconds, so a millisecond is 4294967 units. */
  predicate Overdue(w: World, limitMs: nat, start: int, n: nat) {
    limitMs > 0 && w.clock(n) - start > limitMs * 4_294_967
  }

  /** A visit at which signals and the clock are looked at. */
  predicate Checked(n: nat) { n > 0 && n % 1024 == 0 }

  /** How a scan ends, in terms of the signals, the clock and the time limit: while there are sockets and room, it goes
      on until a checked visit finds a signal or the limit passed, or a copy fails. */
  ghost predicate EndsFor(
    r: Result, error: Option<Error>, ss: seq<Socket>, resid: nat, w: World, limitMs: nat, start: int)
  {
    var n := r.judged + 1;
    && (forall k | 1 <= k <= r.judged && Checked(k) :: !w.pending(k) && !Overdue(w, limitMs, start, k))
    && (if !Room(r, ss, resid) then error == None && r.ending != TimedOut
        else if Checked(n) && w.pending(n) then error == Some(EINTR)
        else if Checked(n) && Overdue(w, limitMs, start, n) then error == None && r.ending == TimedOut
        else error == Some(EFAULT) && w.copyFails(|r.records|))
  }

  lemma ScanEndsFor(r: Result, f: Filter, gencnt: nat, ss: seq<Socket>, resid: nat, deadline: Option<int>, w: World,
                    limitMs: nat, start: int)
    requires IsFilter(f) && AreSockets(ss) && IsWorld(w) && IsScan(r, f, gencnt, ss, resid, deadline, w)
    requires deadline == if limitMs > 0 then Some(start + limitMs * SBT_1MS) else None
    ensures EndsFor(r, ErrorOf(r.ending), ss, resid, w, limitMs, start)
  {
    hide IsFilter, IsWorld, IsSocket, Judge, Emitted, Selected, Tallies;
    forall k: nat ensures Late(w, deadline, k) <==> Overdue(w, limitMs, start, k) {}
    forall k | 1 <= k <= r.judged && Checked(k) ensures !w.pending(k) && !Overdue(w, limitMs, start, k) {
      assert !Stops(w, deadline, k);
    }
  }

  /** The module's global state and tunables; 0 means no limit for the two durations. */
  class Globals {
    var activeReaders: nat
    var readsTotal: nat
    var stats: Counters
    var maxReaders: nat
    var maxDurationMs: nat
    var minIntervalMs: nat

    function Deadline(now: int): Option<int>
      reads this
    {
      if maxDurationMs > 0 then Some(now + maxDurationMs * SBT_1MS) else None
    }

    /** `TSF_STAT_FLUSH`, with no other reader at work. */
    method Flush(batch: Counters)
      modifies this`stats
      ensures stats == Plus(old(stats), batch)
    {
      stats := Plus(stats, batch);
    }

    /** `tcpstats_read`.  On every way out the reader slot is given back and no socket is locked. */
    method Read(sc: Softc, it: PcbIterator, gencnt: nat, resid: nat, now: int, w: World)
      returns (r: Reply, ghost scan: Option<Result>)
      requires it.Valid() && it.next == 0 && it.locked == None
      requires IsFilter(sc.filter) && AreSockets(it.sockets) && IsWorld(w)
      modifies this`activeReaders, this`readsTotal, this`stats, sc, it
      ensures FdStep(old(sc.View()), ReadCall, sc.View(), r)
      ensures activeReaders == old(activeReaders) && it.locked == None
      ensures scan.None? <==>
        || old(sc.done)
        || old(activeReaders) >= old(maxReaders)
        || (old(minIntervalMs) > 0 && old(sc.lastRead) != 0 && now - old(sc.lastRead) < old(minIntervalMs) * 4_294_967)
      ensures scan.None? ==> unchanged(this) && unchanged(sc)
      ensures scan.None? ==> r == Reply(if old(sc.done) then None else Some(EBUSY), [])
      ensures scan.Some? ==>
        && IsScan(scan.value, old(sc.filter), gencnt, it.sockets, resid, old(Deadline(now)), w)
        && r.records == scan.value.records
        && EndsFor(scan.value, r.error, it.sockets, resid, w, old(maxDurationMs), now)
        && stats == Plus(old(stats), scan.value.batch)
        && sc.lastRead == now && readsTotal == old(readsTotal) + 1
      ensures Balanced(old(stats)) ==> Balanced(stats)
    {
      hide IsScan, IsFilter, IsSocket, IsWorld, EndsFor;
      scan := None;
      if sc.done { return Reply(None, []), None; }
      var before := activeReaders;
      activeReaders := activeReaders + 1;
      if before >= maxReaders {
        activeReaders := activeReaders - 1;
        return Reply(Some(EBUSY), []), None;
      }
      if minIntervalMs > 0 && sc.lastRead != 0 {
        if now - sc.lastRead < minIntervalMs * SBT_1MS {
          activeReaders := activeReaders - 1;
          return Reply(Some(EBUSY), []), None;
        }
      }
      sc.lastRead := now;
      readsTotal := readsTotal + 1;
      var result := ScanSockets(it, sc.filter, gencnt, resid, Deadline(now), w);
      ScanEndsFor(result, sc.filter, gencnt, it.sockets, resid, Deadline(now), w, maxDurationMs, now);
      ScanBalanced(result, sc.filter, gencnt, it.sockets, resid, Deadline(now), w);
      var error := ErrorOf(result.ending);
      sc.done := true;
      Flush(result.batch);
      activeReaders := activeReaders - 1;
      r, scan := Reply(error, result.records), Some(result);
    }
  }

  /** `tcpstats_ioctl`. */
  method Ioctl(sc: Softc, c: Call) returns (r: Reply)
    requires c != ReadCall
    modifies sc
    ensures FdStep(old(sc.View()), c, sc.View(), r)
  {
    match c
    case SetFilter(f) =>
      if f.version != TSF_VERSION { return Reply(Some(ENOTSUP), []); }
      sc.filter := f;
      r := Reply(None, []);
    case Reset =>
      sc.done := false;
      r := Reply(None, []);
    case VersionCall => r := Reply(None, []);
    case OtherCall => r := Reply(Some(ENOTTY), []);
  }

  // ---------------------------------------------------------------- the life cycle of a descriptor

  /** A history of one descriptor: states, and the calls and replies between them. */
  predicate IsHistory(states: seq<FdState>, calls: seq<Call>, replies: seq<Reply>) {
    && |calls| == |replies| && |states| == |calls| + 1
    && forall i | 0 <= i < |calls| :: FdStep(states[i], calls[i], states[i + 1], replies[i])
  }

  lemma {:induction false} StaysDone(states: seq<FdState>, calls: seq<Call>, replies: seq<Reply>, i: nat, k: nat)
    requires IsHistory(states, calls, replies) && i <= k <= |calls| && states[i].done
    requires forall j | i <= j < k :: calls[j] != Reset
    ensures states[k].done
    decreases k
  {
    if i < k {
      StaysDone(states, calls, replies, i, k - 1);
      assert FdStep(states[k - 1], calls[k - 1], states[k], replies[k - 1]);
    }
  }

  /** Once a scan has ended, for whatever reason, every later read up to the next reset succeeds and returns nothing. */
  lemma QuietUntilReset(states: seq<FdState>, calls: seq<Call>, replies: seq<Reply>, i: nat, k: nat)
    requires IsHistory(states, calls, replies) && i < k < |calls| && calls[i] == calls[k] == ReadCall
    requires replies[i].error != Some(EBUSY)
    requires forall j | i < j < k :: calls[j] != Reset
    ensures replies[k] == Reply(None, [])
  {
    assert FdStep(states[i], calls[i], states[i + 1], replies[i]);
    StaysDone(states, calls, replies, i + 1, k);
    assert FdStep(states[k], calls[k], states[k + 1], replies[k]);
  }

  /** The filter a read uses is the last one that was set with the right version. */
  lemma {:induction false} FilterIsLastSet(states: seq<FdState>, calls: seq<Call>, replies: seq<Reply>, k: nat)
    requires IsHistory(states, calls, replies) && k <= |calls|
    ensures states[k].filter == LastSet(states[0].filter, calls[..k])
  {
    if k > 0 {
      FilterIsLastSet(states, calls, replies, k - 1);
      assert FdStep(states[k - 1], calls[k - 1], states[k], replies[k - 1]);
      assert calls[..k][..k - 1] == calls[..k - 1];
    }
  }

  function LastSet(f: Filter, calls: seq<Call>): Filter {
    if calls == [] then f
    else
      var c := calls[|calls| - 1];
      if c.SetFilter? && c.filter.version == TSF_VERSION then c.filter else LastSet(f, calls[..|calls| - 1])
  }

  // ---------------------------------------------------------------- from the filter string to the decoded records

  lemma {:induction false} SelectedIn(f: Filter, gencnt: nat, ss: seq<Socket>, s: Socket)
    requires IsFilter(f) && AreSockets(ss)
    ensures s in Selected(f, gencnt, ss) <==> s in ss && IsSocket(s) && Judge(f, gencnt, s) == Emit
  {
    hide Judge, IsSocket, IsFilter;
    if ss != [] {
      var init, last := ss[..|ss| - 1], ss[|ss| - 1];
      SelectedIn(f, gencnt, init, s);
      assert ss == init + [last];
      assert s in ss <==> s in init || s == last;
    }
  }

  /** The sockets a reader asked for: in the snapshot, visible, and every directive of the string holds. */
  ghost predicate Asked(input: string, gencnt: nat, s: Socket) {
    s.gencnt <= gencnt && s.visible && forall tok | tok in Tokens(input) :: Says(tok, s)
  }

  lemma SelectedAreAsked(input: string, gencnt: nat, ss: seq<Socket>, s: Socket)
    requires Compile(input).Compiled? && AreSockets(ss) && s in ss
    ensures s in Selected(FilterOf(input), gencnt, ss) <==> Asked(input, gencnt, s)
  {
    hide Says, Compile, Tokens, IsFilter;
    SelectedIn(FilterOf(input), gencnt, ss, s);
    if s.gencnt <= gencnt && s.visible { CompiledMeaning(input, gencnt, s); }
  }

  lemma NoneSelected(input: string, gencnt: nat, ss: seq<Socket>)
    requires Compile(input).Compiled? && AreSockets(ss)
    ensures Selected(FilterOf(input), gencnt, ss) == [] <==> forall s | s in ss :: !Asked(input, gencnt, s)
  {
    hide Compile, FilterOf, Asked, IsFilter, Judge;
    var all := Selected(FilterOf(input), gencnt, ss);
    forall s | s in ss ensures s in all <==> Asked(input, gencnt, s) { SelectedAreAsked(input, gencnt, ss, s); }
    if all != [] {
      assert all[0] in all;
      SelectedIn(FilterOf(input), gencnt, ss, all[0]);
    }
  }

  /** The client accepts the bytes and decodes them into one record per socket, in order, each showing its socket. */
  predicate DecodesTo(b: seq<nat>, ss: seq<Socket>)
    requires AreSockets(ss)
  {
    && IsBytes(b) && |b| == 320 * |ss|
    && forall i | 0 <= i < |ss| :: VersionAt(b, i) == TCP_STATS_VERSION && Shows(RecordAt(b, i), ss[i])
  }

  /** From end to end: the sockets that were asked for are the selected ones, and whatever a scan emits is decoded by
      the client into one record for each of the first of them, in order, each showing its socket.  The answer is
      complete exactly when the buffer is full or no asked socket is left. */
  lemma EndToEnd(input: string, gencnt: nat, ss: seq<Socket>, resid: nat, deadline: Option<int>, w: World, r: Result)
    requires Compile(input).Compiled? && AreSockets(ss) && IsWorld(w)
    requires IsScan(r, FilterOf(input), gencnt, ss, resid, deadline, w)
    ensures var all, n, b := Selected(FilterOf(input), gencnt, ss), |r.records|, Concat(r.records);
      && (forall s | s in ss :: s in all <==> Asked(input, gencnt, s))
      && n <= Min(|all|, resid / 320) && DecodesTo(b, all[..n])
      && (n == Min(|all|, resid / 320) <==>
            resid < 320 * (n + 1) || forall s | s in ss[r.judged..] :: !Asked(input, gencnt, s))
  {
    hide Compile, FilterOf, Asked, DecodesTo, Emitted, Judge, IsFilter, Tallies, Selected, IsScan, IsWorld, Concat;
    var f := FilterOf(input);
    var all := Selected(f, gencnt, ss);
    forall s | s in ss ensures s in all <==> Asked(input, gencnt, s) { SelectedAreAsked(input, gencnt, ss, s); }
    RecordsAreSelected(r, f, gencnt, ss, resid, deadline, w);
    FirstDecoded(all[..|r.records|], w, r.records);
    Judged(r, f, gencnt, ss, resid, deadline, w);
    CompleteExactly(r, f, gencnt, ss, resid, deadline, w);
    NoneSelected(input, gencnt, ss[r.judged..]);
  }

  lemma Judged(r: Result, f: Filter, gencnt: nat, ss: seq<Socket>, resid: nat, deadline: Option<int>, w: World)
    requires IsFilter(f) && AreSockets(ss) && IsWorld(w) && IsScan(r, f, gencnt, ss, resid, deadline, w)
    ensures r.judged <= |ss|
  {
    hide IsFilter, IsWorld, Tallies, Selected, Emitted, Judge;
  }

  lemma FirstDecoded(first: seq<Socket>, w: World, records: seq<seq<nat>>)
    requires AreSockets(first) && IsWorld(w) && records == Records(w, first)
    ensures DecodesTo(Concat(records), first)
  {
    hide Shows, VersionAt, RecordAt, Emitted, IsSocket;
    var ds := seq(|first|, i requires 0 <= i < |first| => w.details(first[i]));
    EmittedIsAccepted(first, ds, Concat(records), records);
  }

  /** With fewer than 1024 sockets, a buffer for all of them and no copy error, every socket that was asked for is
      decoded. */
  lemma EndToEndShort(input: string, gencnt: nat, ss: seq<Socket>, resid: nat,
                      deadline: Option<int>, w: World, r: Result)
    requires Compile(input).Compiled? && AreSockets(ss) && IsWorld(w)
    requires IsScan(r, FilterOf(input), gencnt, ss, resid, deadline, w)
    requires |ss| < TSF_CHECK_INTERVAL && 320 * |ss| <= resid && forall k: nat :: !w.copyFails(k)
    ensures |r.records| == |Selected(FilterOf(input), gencnt, ss)|
  {
    hide Compile, FilterOf, IsScan, Selected, IsFilter, IsWorld;
    ShortListComplete(r, FilterOf(input), gencnt, ss, resid, deadline, w);
    SelectedFewer(FilterOf(input), gencnt, ss);
  }
}
