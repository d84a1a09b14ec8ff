/**
 The read path: one scan over the sockets with its filter chain, its limits and its batch counters, the per-fd state,
 and the life cycle of a file descriptor.

 The kernel's socket list is the sequence of control blocks the iterator visits; signals, the clock and copy errors
 are oracles that depend on how far the scan has come, and a pending signal stays pending.
 */
module Scan {
  import opened Text
  import opened Filter
  import opened Matching
  import opened Record
  import opened Kld

  const TSF_CHECK_INTERVAL: nat := 1024

  /** The outside of one scan: whether a signal is pending and what the clock says at the n-th visit, whether copying
      the n-th record fails, and the parts of a record that no filter looks at. */
  datatype World = World(
    pending: nat -> bool, clock: nat -> int, copyFails: nat -> bool, details: Socket -> Details)

  ghost predicate IsWorld(w: World) {
    && (forall m: nat, n: nat | m <= n :: w.pending(m) ==> w.pending(n))
    && (forall m: nat, n: nat | m <= n :: w.clock(m) <= w.clock(n))
    && (forall s: Socket :: IsDetails(w.details(s)))
  }

  /** A deadline of `None` is no deadline. */
  predicate Late(w: World, deadline: Option<int>, n: nat) { deadline.Some? && w.clock(n) > deadline.value }

  /** The counters of one scan, or of all of them. */
  datatype Counters = Counters(
    emitted: nat, visited: nat, gencnt: nat, cred: nat, ipver: nat, state: nat, port: nat, addr: nat,
    copyErrors: nat, timedOut: nat, interrupted: nat)

  const NO_COUNTS: Counters := Counters(0, 0, 0, 0, 0, 0, 0, 0, 0, 0, 0)

  datatype Ending = Finished | Full | Interrupted | TimedOut | CopyFailed

  predicate AreSockets(ss: seq<Socket>) { forall i | 0 <= i < |ss| :: IsSocket(ss[i]) }

  /** The sockets the filter lets through, in order. */
  function Selected(f: Filter, gencnt: nat, ss: seq<Socket>): (r: seq<Socket>)
    requires IsFilter(f) && AreSockets(ss)
    ensures AreSockets(r)
  {
    if ss == [] then []
    else Selected(f, gencnt, ss[..|ss| - 1]) + (if Judge(f, gencnt, ss[|ss| - 1]) == Emit then [ss[|ss| - 1]] else [])
  }

  /** How many sockets get a verdict. */
  function Count(f: Filter, gencnt: nat, ss: seq<Socket>, v: Verdict): nat
    requires IsFilter(f) && AreSockets(ss)
  {
    if ss == [] then 0
    else Count(f, gencnt, ss[..|ss| - 1], v) + (if Judge(f, gencnt, ss[|ss| - 1]) == v then 1 else 0)
  }

  /** The batch after judging the sockets `ss`: every counter is the number of sockets with its verdict. */
  predicate Tallies(c: Counters, f: Filter, gencnt: nat, ss: seq<Socket>)
    requires IsFilter(f) && AreSockets(ss)
  {
    && c.emitted == |Selected(f, gencnt, ss)| && c.visited == |ss|
    && c.gencnt == Count(f, gencnt, ss, SkipGencnt) && c.cred == Count(f, gencnt, ss, SkipCred)
    && c.ipver == Count(f, gencnt, ss, SkipIpver) && c.state == Count(f, gencnt, ss, SkipState)
    && c.port == Count(f, gencnt, ss, SkipPort) && c.addr == Count(f, gencnt, ss, SkipAddr)
    && c.copyErrors == c.timedOut == c.interrupted == 0
  }

  function Stopped(c: Counters, e: Ending): Counters {
    match e
    case Interrupted => c.(visited := c.visited + 1, interrupted := 1)
    case TimedOut => c.(visited := c.visited + 1, timedOut := 1)
    case CopyFailed => c.(visited := c.visited + 1, copyErrors := 1)
    case _ => c
  }

  /** One more socket with this verdict. */
  function Bump(c: Counters, v: Verdict): Counters {
    match v
    case SkipGencnt => c.(gencnt := c.gencnt + 1)
    case SkipIpver => c.(ipver := c.ipver + 1)
    case SkipState => c.(state := c.state + 1)
    case SkipCred => c.(cred := c.cred + 1)
    case SkipPort => c.(port := c.port + 1)
    case SkipAddr => c.(addr := c.addr + 1)
    case Emit => c.(emitted := c.emitted + 1)
  }

  lemma TallyStep(c: Counters, f: Filter, gencnt: nat, ss: seq<Socket>, s: Socket)
    requires IsFilter(f) && AreSockets(ss) && IsSocket(s) && Tallies(c, f, gencnt, ss)
    ensures Tallies(Bump(c.(visited := c.visited + 1), Judge(f, gencnt, s)), f, gencnt, ss + [s])
  {
    hide Judge, IsSocket, IsFilter;
    assert (ss + [s])[..|ss|] == ss;
  }

  /** A scan of `ss` that judged the first `judged` sockets. */
  datatype Result = Result(records: seq<seq<nat>>, batch: Counters, ending: Ending, judged: nat)

  /** The bytes of the sockets, as emitted. */
  function Records(w: World, ss: seq<Socket>): (r: seq<seq<nat>>)
    requires AreSockets(ss) && forall i | 0 <= i < |ss| :: IsDetails(w.details(ss[i]))
    ensures |r| == |ss| && forall i | 0 <= i < |ss| :: r[i] == Emitted(ss[i], w.details(ss[i]))
  {
    seq(|ss|, i requires 0 <= i < |ss| => Emitted(ss[i], w.details(ss[i])))
  }

  /** The check at the n-th visit stops the scan. */
  predicate Stops(w: World, deadline: Option<int>, n: nat) {
    n % TSF_CHECK_INTERVAL == 0 && (w.pending(n) || Late(w, deadline, n))
  }

  /** There is another socket, and room for its record. */
  predicate Room(r: Result, ss: seq<Socket>, resid: nat) { r.judged < |ss| && 320 * (|r.records| + 1) <= resid }

  /** What a scan is: the records of the sockets it judged, their tally, and a reason for stopping early. */
  ghost predicate IsScan(r: Result, f: Filter, gencnt: nat, ss: seq<Socket>, resid: nat,
                         deadline: Option<int>, w: World)
    requires IsFilter(f) && AreSockets(ss) && IsWorld(w)
  {
    var n := r.judged + 1;
    && r.judged <= |ss|
    && r.records == Records(w, Selected(f, gencnt, ss[..r.judged]))
    && 320 * |r.records| <= resid
    && (exists c :: Tallies(c, f, gencnt, ss[..r.judged]) && r.batch == Stopped(c, r.ending))
    && (forall k | 1 <= k <= r.judged :: !Stops(w, deadline, k))
    && (forall k | 0 <= k < |r.records| :: !w.copyFails(k))
    && (match r.ending
        case Finished => r.judged == |ss|
        case Full => r.judged < |ss| && resid < 320 * (|r.records| + 1)
        case Interrupted => Room(r, ss, resid) && Stops(w, deadline, n) && w.pending(n)
        case TimedOut => Room(r, ss, resid) && Stops(w, deadline, n) && !w.pending(n) && Late(w, deadline, n)
        case CopyFailed =>
          && Room(r, ss, resid) && !Stops(w, deadline, n)
          && Judge(f, gencnt, ss[r.judged]) == Emit && w.copyFails(|r.records|))
  }

  // ---------------------------------------------------------------- the loop

  /** The kernel's iterator: it holds the read lock of the control block it returned last. */
  class PcbIterator {
    const sockets: seq<Socket>
    var next: nat
    var locked: Option<nat>

    ghost predicate Valid()
      reads this
    {
      next <= |sockets| && (locked.Some? ==> locked.value + 1 == next)
    }

    constructor (ss: seq<Socket>)
      ensures Valid() && sockets == ss && next == 0 && locked == None
    {
      sockets, next, locked := ss, 0, None;
    }

    /** `inp_next`: unlocks the last block and locks the next one. */
    method Next() returns (s: Option<Socket>)
      requires Valid()
      modifies this
      ensures Valid()
      ensures if old(next) < |sockets|
        then s == Some(sockets[old(next)]) && locked == Some(old(next)) && next == old(next) + 1
        else s == None && locked == None && next == old(next)
    {
      locked := None;
      if next == |sockets| { return None; }
      s, locked, next := Some(sockets[next]), Some(next), next + 1;
    }

    /** `INP_RUNLOCK`. */
    method Unlock()
      requires Valid() && locked.Some?
      modifies this`locked
      ensures Valid() && locked == None
    {
      locked := None;
    }
  }

  /** The loop invariant: everything visited has been judged. */
  ghost predicate Going(records: seq<seq<nat>>, batch: Counters, n: nat, f: Filter, gencnt: nat, ss: seq<Socket>,
                        deadline: Option<int>, w: World)
    requires IsFilter(f) && AreSockets(ss) && IsWorld(w)
  {
    && n <= |ss|
    && records == Records(w, Selected(f, gencnt, ss[..n]))
    && Tallies(batch, f, gencnt, ss[..n])
    && (forall k | 1 <= k <= n :: !Stops(w, deadline, k))
    && (forall k | 0 <= k < |records| :: !w.copyFails(k))
  }

  lemma GoingStart(f: Filter, gencnt: nat, ss: seq<Socket>, deadline: Option<int>, w: World)
    requires IsFilter(f) && AreSockets(ss) && IsWorld(w)
    ensures Going([], NO_COUNTS, 0, f, gencnt, ss, deadline, w)
  {
    assert Records(w, []) == [];
  }

  lemma SelectedSnoc(f: Filter, gencnt: nat, ss: seq<Socket>, s: Socket)
    requires IsFilter(f) && AreSockets(ss) && IsSocket(s)
    ensures Selected(f, gencnt, ss + [s]) == Selected(f, gencnt, ss) + (if Judge(f, gencnt, s) == Emit then [s] else [])
  {
    hide Judge, IsSocket, IsFilter;
    assert (ss + [s])[..|ss|] == ss;
  }

  lemma RecordsSnoc(w: World, ss: seq<Socket>, s: Socket)
    requires AreSockets(ss) && IsSocket(s) && IsWorld(w)
    ensures Records(w, ss + [s]) == Records(w, ss) + [Emitted(s, w.details(s))]
  {
    hide Emitted, IsSocket, IsDetails;
  }

  lemma GoingSkip(records: seq<seq<nat>>, batch: Counters, n: nat, f: Filter, gencnt: nat, ss: seq<Socket>,
                  deadline: Option<int>, w: World)
    requires IsFilter(f) && AreSockets(ss) && IsWorld(w) && Going(records, batch, n, f, gencnt, ss, deadline, w)
    requires n < |ss| && !Stops(w, deadline, n + 1) && Judge(f, gencnt, ss[n]) != Emit
    ensures Going(records, Bump(batch.(visited := batch.visited + 1), Judge(f, gencnt, ss[n])), n + 1,
                  f, gencnt, ss, deadline, w)
  {
    hide Judge, IsSocket, IsFilter, Tallies, Records, Stops, Bump;
    assert ss[..n + 1] == ss[..n] + [ss[n]];
    TallyStep(batch, f, gencnt, ss[..n], ss[n]);
    SelectedSnoc(f, gencnt, ss[..n], ss[n]);
  }

  lemma GoingEmit(records: seq<seq<nat>>, batch: Counters, n: nat, f: Filter, gencnt: nat, ss: seq<Socket>,
                  deadline: Option<int>, w: World)
    requires IsFilter(f) && AreSockets(ss) && IsWorld(w) && Going(records, batch, n, f, gencnt, ss, deadline, w)
    requires n < |ss| && !Stops(w, deadline, n + 1) && Judge(f, gencnt, ss[n]) == Emit && !w.copyFails(|records|)
    ensures Going(records + [Emitted(ss[n], w.details(ss[n]))], Bump(batch.(visited := batch.visited + 1), Emit), n + 1,
                  f, gencnt, ss, deadline, w)
  {
    hide Judge, IsSocket, IsFilter, Tallies, Records, Stops, Bump, Emitted;
    assert ss[..n + 1] == ss[..n] + [ss[n]];
    TallyStep(batch, f, gencnt, ss[..n], ss[n]);
    SelectedSnoc(f, gencnt, ss[..n], ss[n]);
    RecordsSnoc(w, Selected(f, gencnt, ss[..n]), ss[n]);
  }

  lemma GoingEnds(records: seq<seq<nat>>, batch: Counters, n: nat, f: Filter, gencnt: nat, ss: seq<Socket>,
                  resid: nat, deadline: Option<int>, w: World, e: Ending)
    requires IsFilter(f) && AreSockets(ss) && IsWorld(w) && Going(records, batch, n, f, gencnt, ss, deadline, w)
    requires 320 * |records| <= resid && (e != Finished && e != Full ==> 320 * (|records| + 1) <= resid)
    requires match e
      case Finished => n == |ss|
      case Full => n < |ss| && resid < 320 * (|records| + 1)
      case Interrupted => n < |ss| && Stops(w, deadline, n + 1) && w.pending(n + 1)
      case TimedOut => n < |ss| && Stops(w, deadline, n + 1) && !w.pending(n + 1) && Late(w, deadline, n + 1)
      case CopyFailed =>
        n < |ss| && !Stops(w, deadline, n + 1) && Judge(f, gencnt, ss[n]) == Emit && w.copyFails(|records|)
    ensures IsScan(Result(records, Stopped(batch, e), e, n), f, gencnt, ss, resid, deadline, w)
  {
    hide Judge, IsSocket, IsFilter, Tallies, Records, Stops, Stopped;
  }

  lemma DetailsFit(w: World, s: Socket)
    requires IsWorld(w)
    ensures IsDetails(w.details(s))
  {
  }

  /** The scan loop of `tcpstats_read`: on every way out no socket is left locked. */
  method ScanSockets(it: PcbIterator, f: Filter, gencnt: nat, resid0: nat, deadline: Option<int>, w: World)
    returns (r: Result)
    requires it.Valid() && it.next == 0 && IsFilter(f) && AreSockets(it.sockets) && IsWorld(w)
    modifies it
    ensures it.locked == None
    ensures IsScan(r, f, gencnt, it.sockets, resid0, deadline, w)
  {
    hide Judge, IsFilter, IsSocket, Going, Emitted, Bump, IsWorld, IsScan;
    var nsockets, resid, batch := 0, resid0, NO_COUNTS;
    var records: seq<seq<nat>> := [];
    ghost var ss := it.sockets;
    GoingStart(f, gencnt, ss, deadline, w);
    while true
      invariant it.Valid() && it.next == nsockets && nsockets <= |ss|
      invariant Going(records, batch, nsockets, f, gencnt, ss, deadline, w)
      invariant 0 <= resid == resid0 - 320 * |records|
      decreases |ss| - nsockets
    {
      var next := it.Next();
      if next.None? {
        GoingEnds(records, batch, nsockets, f, gencnt, ss, resid0, deadline, w, Finished);
        return Result(records, batch, Finished, nsockets);
      }
      if resid < TCP_STATS_RECORD_SIZE {
        it.Unlock();
        GoingEnds(records, batch, nsockets, f, gencnt, ss, resid0, deadline, w, Full);
        return Result(records, batch, Full, nsockets);
      }
      ghost var b := batch;
      nsockets := nsockets + 1;
      batch := batch.(visited := batch.visited + 1);
      if nsockets % TSF_CHECK_INTERVAL == 0 {
        if w.pending(nsockets) {
          it.Unlock();
          GoingEnds(records, b, nsockets - 1, f, gencnt, ss, resid0, deadline, w, Interrupted);
          return Result(records, batch.(interrupted := 1), Interrupted, nsockets - 1);
        }
        if deadline.Some? && w.clock(nsockets) > deadline.value {
          it.Unlock();
          GoingEnds(records, b, nsockets - 1, f, gencnt, ss, resid0, deadline, w, TimedOut);
          return Result(records, batch.(timedOut := 1), TimedOut, nsockets - 1);
        }
      }
      var v := RunChain(f, gencnt, next.value);
      if v != Emit {
        GoingSkip(records, b, nsockets - 1, f, gencnt, ss, deadline, w);
        batch := Bump(batch, v);
        continue;
      }
      if w.copyFails(|records|) {
        it.Unlock();
        GoingEnds(records, b, nsockets - 1, f, gencnt, ss, resid0, deadline, w, CopyFailed);
        return Result(records, batch.(copyErrors := 1), CopyFailed, nsockets - 1);
      }
      GoingEmit(records, b, nsockets - 1, f, gencnt, ss, deadline, w);
      DetailsFit(w, next.value);
      records := records + [Emitted(next.value, w.details(next.value))];
      resid := resid - TCP_STATS_RECORD_SIZE;
      batch := Bump(batch, Emit);
    }
  }

  // ---------------------------------------------------------------- what a scan guarantees

  function Min(a: nat, b: nat): nat { if a < b then a else b }

  lemma {:induction false} SelectedPrefix(f: Filter, gencnt: nat, ss: seq<Socket>, n: nat)
    requires IsFilter(f) && AreSockets(ss) && n <= |ss|
    ensures Selected(f, gencnt, ss[..n]) <= Selected(f, gencnt, ss)
    decreases |ss|
  {
    hide Judge, IsSocket, IsFilter;
    if n == |ss| {
      assert ss[..n] == ss;
    } else {
      SelectedPrefix(f, gencnt, ss[..|ss| - 1], n);
      assert ss[..|ss| - 1][..n] == ss[..n];
    }
  }

  /** The records are a prefix of the selected sockets' records, in order and never more than fit; undisturbed by a
      signal, the deadline or a copy error they are as many as fit. */
  lemma RecordsAreSelected(r: Result, f: Filter, gencnt: nat, ss: seq<Socket>, resid: nat,
                           deadline: Option<int>, w: World)
    requires IsFilter(f) && AreSockets(ss) && IsWorld(w) && IsScan(r, f, gencnt, ss, resid, deadline, w)
    ensures var all := Selected(f, gencnt, ss);
      && |r.records| <= Min(|all|, resid / 320)
      && r.records == Records(w, all[..|r.records|])
      && (r.ending == Finished || r.ending == Full ==> |r.records| == Min(|all|, resid / 320))
  {
    hide Judge, IsSocket, IsFilter, IsWorld, Tallies, Emitted, Stops;
    SelectedPrefix(f, gencnt, ss, r.judged);
    var all := Selected(f, gencnt, ss);
    assert Selected(f, gencnt, ss[..r.judged]) == all[..|r.records|];
    if r.ending == Finished { assert ss[..r.judged] == ss; }
  }

  lemma {:induction false} SelectedAdd(f: Filter, gencnt: nat, a: seq<Socket>, b: seq<Socket>)
    requires IsFilter(f) && AreSockets(a) && AreSockets(b)
    ensures AreSockets(a + b) && Selected(f, gencnt, a + b) == Selected(f, gencnt, a) + Selected(f, gencnt, b)
    decreases |b|
  {
    hide Judge, IsSocket, IsFilter, Selected;
    if b == [] {
      AddEmpty(a);
      NoneToSelect(f, gencnt);
      AddEmpty(Selected(f, gencnt, a));
    } else {
      var init, s := b[..|b| - 1], b[|b| - 1];
      var tail := if Judge(f, gencnt, s) == Emit then [s] else [];
      SelectedAdd(f, gencnt, a, init);
      SelectedSnoc(f, gencnt, init, s);
      SelectedSnoc(f, gencnt, a + init, s);
      assert b == init + [s];
      Assoc(a, init, [s]);
      Assoc(Selected(f, gencnt, a), Selected(f, gencnt, init), tail);
    }
  }

  lemma NoneToSelect(f: Filter, gencnt: nat)
    requires IsFilter(f)
    ensures Selected(f, gencnt, []) == []
  {
  }

  lemma SelectedSplit(f: Filter, gencnt: nat, ss: seq<Socket>, j: nat)
    requires IsFilter(f) && AreSockets(ss) && j <= |ss|
    ensures Selected(f, gencnt, ss) == Selected(f, gencnt, ss[..j]) + Selected(f, gencnt, ss[j..])
  {
    hide Judge, IsSocket, IsFilter, Selected;
    SelectedAdd(f, gencnt, ss[..j], ss[j..]);
    assert ss == ss[..j] + ss[j..];
  }

  /** A scan, however it ended, is complete exactly when the buffer has no room for another record or no selected socket
      is left among those it did not judge. */
  lemma CompleteExactly(r: Result, f: Filter, gencnt: nat, ss: seq<Socket>, resid: nat,
                        deadline: Option<int>, w: World)
    requires IsFilter(f) && AreSockets(ss) && IsWorld(w) && IsScan(r, f, gencnt, ss, resid, deadline, w)
    ensures |r.records| == Min(|Selected(f, gencnt, ss)|, resid / 320) <==>
      resid < 320 * (|r.records| + 1) || Selected(f, gencnt, ss[r.judged..]) == []
  {
    hide Judge, IsSocket, IsFilter, IsWorld, Tallies, Emitted, Stops, Selected;
    SelectedSplit(f, gencnt, ss, r.judged);
  }

  /** A scan that meets no signal, passed deadline or copy error on its way ends by running out of sockets or room. */
  lemma Undisturbed(r: Result, f: Filter, gencnt: nat, ss: seq<Socket>, resid: nat, deadline: Option<int>, w: World)
    requires IsFilter(f) && AreSockets(ss) && IsWorld(w) && IsScan(r, f, gencnt, ss, resid, deadline, w)
    requires forall n | 1 <= n <= |ss| :: !Stops(w, deadline, n)
    requires forall k | 0 <= k < |Selected(f, gencnt, ss)| :: !w.copyFails(k)
    ensures r.ending == Finished || r.ending == Full
  {
    hide Judge, IsSocket, IsFilter, IsWorld, Tallies, Emitted, Selected, Stops;
    if r.ending == CopyFailed {
      SelectedSplit(f, gencnt, ss, r.judged);
      NextSelected(f, gencnt, ss, r.judged);
    }
  }

  lemma NextSelected(f: Filter, gencnt: nat, ss: seq<Socket>, j: nat)
    requires IsFilter(f) && AreSockets(ss) && j < |ss| && Judge(f, gencnt, ss[j]) == Emit
    ensures Selected(f, gencnt, ss[j..]) != []
  {
    hide Judge, IsSocket, IsFilter;
    SelectedSplit(f, gencnt, ss[j..], 1);
    SelectedSnoc(f, gencnt, [], ss[j]);
    assert ss[j..][..1] == [] + [ss[j]];
  }

  /** What a caller can see: fewer than 1024 sockets are never cut short by a signal or the deadline. */
  lemma ShortListComplete(r: Result, f: Filter, gencnt: nat, ss: seq<Socket>, resid: nat,
                          deadline: Option<int>, w: World)
    requires IsFilter(f) && AreSockets(ss) && IsWorld(w) && IsScan(r, f, gencnt, ss, resid, deadline, w)
    requires |ss| < TSF_CHECK_INTERVAL && forall k: nat :: !w.copyFails(k)
    ensures |r.records| == Min(|Selected(f, gencnt, ss)|, resid / 320)
  {
    hide Judge, IsSocket, IsFilter, IsWorld, Emitted, Selected, IsScan;
    Undisturbed(r, f, gencnt, ss, resid, deadline, w);
    RecordsAreSelected(r, f, gencnt, ss, resid, deadline, w);
  }

  /** But a longer list may be: when the deadline has passed by the 1024th visit and a selected socket is still to
      come, the scan ends without an error and with fewer records than it should have. */
  lemma DeadlineCutsShort(r: Result, f: Filter, gencnt: nat, ss: seq<Socket>, resid: nat,
                          deadline: Option<int>, w: World)
    requires IsFilter(f) && AreSockets(ss) && IsWorld(w) && IsScan(r, f, gencnt, ss, resid, deadline, w)
    requires |ss| >= TSF_CHECK_INTERVAL && resid >= 320 * TSF_CHECK_INTERVAL
    requires Late(w, deadline, TSF_CHECK_INTERVAL) && forall n: nat :: !w.pending(n) && !w.copyFails(n)
    requires Selected(f, gencnt, ss[TSF_CHECK_INTERVAL - 1..]) != []
    ensures r.ending == TimedOut && r.judged == TSF_CHECK_INTERVAL - 1
    ensures |r.records| < Min(|Selected(f, gencnt, ss)|, resid / 320)
  {
    hide Judge, IsSocket, IsFilter, IsWorld, Tallies, Emitted, Selected;
    assert Stops(w, deadline, TSF_CHECK_INTERVAL);
    assert |r.records| <= r.judged by { SelectedFewer(f, gencnt, ss[..r.judged]); }
    CompleteExactly(r, f, gencnt, ss, resid, deadline, w);
    RecordsAreSelected(r, f, gencnt, ss, resid, deadline, w);
  }

  lemma {:induction false} SelectedFewer(f: Filter, gencnt: nat, ss: seq<Socket>)
    requires IsFilter(f) && AreSockets(ss)
    ensures |Selected(f, gencnt, ss)| <= |ss|
  {
    hide Judge, IsSocket, IsFilter;
    if ss != [] { SelectedFewer(f, gencnt, ss[..|ss| - 1]); }
  }

  /** Once a signal is pending, or the deadline has passed, at most 1024 more sockets are visited. */
  lemma StopsSoon(r: Result, f: Filter, gencnt: nat, ss: seq<Socket>, resid: nat,
                  deadline: Option<int>, w: World, n: nat)
    requires IsFilter(f) && AreSockets(ss) && IsWorld(w) && IsScan(r, f, gencnt, ss, resid, deadline, w)
    requires w.pending(n) || Late(w, deadline, n)
    ensures r.batch.visited <= n + TSF_CHECK_INTERVAL
  {
    hide Judge, IsSocket, IsFilter, Emitted, Selected, Count;
    var k := (n / TSF_CHECK_INTERVAL + 1) * TSF_CHECK_INTERVAL;
    assert n < k <= n + TSF_CHECK_INTERVAL && k % TSF_CHECK_INTERVAL == 0;
    assert Stops(w, deadline, k);
  }

  /** Everything visited is accounted for. */
  predicate Balanced(c: Counters) {
    c.visited == c.emitted + c.gencnt + c.cred + c.ipver + c.state + c.port + c.addr
                 + c.copyErrors + c.timedOut + c.interrupted
  }

  lemma {:induction false} CountsAdd(f: Filter, gencnt: nat, ss: seq<Socket>)
    requires IsFilter(f) && AreSockets(ss)
    ensures |ss| == |Selected(f, gencnt, ss)| + Count(f, gencnt, ss, SkipGencnt) + Count(f, gencnt, ss, SkipCred)
                    + Count(f, gencnt, ss, SkipIpver) + Count(f, gencnt, ss, SkipState)
                    + Count(f, gencnt, ss, SkipPort) + Count(f, gencnt, ss, SkipAddr)
  {
    hide Judge, IsSocket, IsFilter;
    if ss != [] { CountsAdd(f, gencnt, ss[..|ss| - 1]); }
  }

  lemma ScanBalanced(r: Result, f: Filter, gencnt: nat, ss: seq<Socket>, resid: nat, deadline: Option<int>, w: World)
    requires IsFilter(f) && AreSockets(ss) && IsWorld(w) && IsScan(r, f, gencnt, ss, resid, deadline, w)
    ensures Balanced(r.batch)
    ensures r.batch.copyErrors == (if r.ending == CopyFailed then 1 else 0)
    ensures r.batch.timedOut == (if r.ending == TimedOut then 1 else 0)
    ensures r.batch.interrupted == (if r.ending == Interrupted then 1 else 0)
  {
    hide Judge, IsSocket, IsFilter, Emitted, Stops;
    CountsAdd(f, gencnt, ss[..r.judged]);
  }
}
