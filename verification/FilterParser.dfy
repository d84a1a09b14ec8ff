/**
 The filter parser as it is written: one 512-byte buffer, cut in place at blanks, then inside each token at `=` and
 at commas, with in-place lower-casing, and a struct whose fields the directives update one by one.

 `ParseFilterString` is proved equal to `Compile` for every input.  The frame of every step (`SameOutside`) says that
 it writes only inside the bytes of its own token, which is why the later tokens still read as first cut.
 */
module FilterParser {
  import opened Text
  import opened Numbers
  import opened Cidr
  import opened Ipv4
  import opened Ipv6
  import opened Filter
  import opened Meaning

  // ---------------------------------------------------------------- cutting a string in place

  /** Only the `n` bytes from `p` may differ. */
  predicate SameOutside(b0: seq<char>, b: seq<char>, p: nat, n: nat) {
    |b0| == |b| && forall j | 0 <= j < |b| && !(p <= j < p + n) :: b[j] == b0[j]
  }

  lemma SameTwice(a: seq<char>, b: seq<char>, c: seq<char>, p: nat, n: nat, q: nat, m: nat)
    requires SameOutside(a, b, p, n) && SameOutside(b, c, q, m) && p <= q && q + m <= p + n
    ensures SameOutside(a, c, p, n)
  {
  }

  /** How far the cutting of `t` at `p0` has come: the pieces `done` are cut off, and `u` at `p` is left (nothing when
      `p` is -1, the null pointer). */
  ghost predicate Splitting(b0: seq<char>, b: seq<char>, p0: nat, t: string, delims: set<char>,
                            p: int, u: string, done: seq<string>)
  {
    && SameOutside(b0, b, p0, |t|)
    && -1 <= p
    && (if p == -1 then Items(t, delims) == done
        else p0 <= p && p + |u| == p0 + |t| && IsCStr(b, p, u) && Items(t, delims) == done + Items(u, delims))
  }

  lemma SplittingStart(b: seq<char>, p0: nat, t: string, delims: set<char>)
    requires IsCStr(b, p0, t)
    ensures Splitting(b, b, p0, t, delims, p0, t, [])
  {
    AddEmpty(Items(t, delims));
  }

  /** Work on the piece just cut off leaves the rest of the split as it is. */
  lemma SplittingFrame(b0: seq<char>, b: seq<char>, c: seq<char>, p0: nat, t: string, delims: set<char>,
                       p: int, u: string, done: seq<string>, q: nat, n: nat)
    requires Splitting(b0, b, p0, t, delims, p, u, done)
    requires SameOutside(b, c, q, n) && p0 <= q && q + n <= p0 + |t| && (p == -1 || q + n < p)
    ensures Splitting(b0, c, p0, t, delims, p, u, done)
  {
    hide Items;
    if p != -1 { CStrFrame(b, c, p, u); }
  }

  lemma ItemsCut(t: string, u: string, delims: set<char>, done: seq<string>)
    requires Items(t, delims) == done + Items(u, delims)
    ensures var i := Find(u, delims);
      Items(t, delims) == done + Piece(u[..i]) + (if i == |u| then [] else Items(u[i + 1..], delims))
  {
    FirstPiece(u, delims);
    hide Items, Piece, Find;
    var i := Find(u, delims);
    Assoc(done, Piece(u[..i]), if i == |u| then [] else Items(u[i + 1..], delims));
  }

  /** One `strsep` of a splitting loop. */
  method Cut(buf: array<char>, ghost b0: seq<char>, ghost p0: nat, ghost t: string, delims: set<char>,
             p: nat, ghost u: string, ghost done: seq<string>)
    returns (next: int, ghost w: string, ghost v: string)
    requires Splitting(b0, buf[..], p0, t, delims, p, u, done) && NUL !in delims
    modifies buf
    ensures IsCStr(buf[..], p, w) && p0 <= p && p + |w| <= p0 + |t|
    ensures Splitting(b0, buf[..], p0, t, delims, next, v, done + Piece(w))
    ensures next == -1 || (next == p + |w| + 1 && |v| < |u|)
    ensures SameOutside(old(buf[..]), buf[..], p, |u|)
  {
    hide Items, Find;
    ghost var i := Find(u, delims);
    ItemsCut(t, u, delims, done);
    next := StrSep(buf, p, delims, u);
    w, v := u[..i], if i == |u| then "" else u[i + 1..];
  }

  // ---------------------------------------------------------------- names in tables

  /** `strcmp` against the table entries in order. */
  method LookupName<T>(table: seq<(string, T)>, buf: array<char>, p: nat, ghost t: string) returns (r: Option<T>)
    requires IsCStr(buf[..], p, t) && forall i | 0 <= i < |table| :: NUL !in table[i].0
    ensures r == Lookup(table, t)
  {
    var i := 0;
    while i < |table|
      invariant i <= |table| && Lookup(table, t) == Lookup(table[i..], t)
    {
      var eq := StrEq(buf, p, table[i].0, t);
      if eq { return Some(table[i].1); }
      assert table[i..][1..] == table[i + 1..];
      i := i + 1;
    }
    r := None;
  }

  lemma {:induction false} LookupLong<T>(table: seq<(string, T)>, name: string)
    requires forall i | 0 <= i < |table| :: |table[i].0| < |name|
    ensures Lookup(table, name) == None
  {
    if table != [] { LookupLong(table[1..], name); }
  }

  /** A lower-cased copy of up to 31 characters. */
  method LowerCopy(buf: array<char>, p: nat, ghost t: string) returns (lname: array<char>)
    requires IsCStr(buf[..], p, t)
    ensures fresh(lname) && IsCStr(lname[..], 0, Lower(t)[..if |t| < 31 then |t| else 31])
  {
    lname := new char[32];
    var i := 0;
    CStrAt(buf[..], p, t, 0);
    while i < 31 && buf[p + i] != NUL
      invariant i <= 31 && i <= |t|
      invariant forall k | 0 <= k < i :: lname[k] == ToLower(t[k])
      invariant p + i < buf.Length && buf[p + i] == if i < |t| then t[i] else NUL
    {
      lname[i] := ToLower(buf[p + i]);
      i := i + 1;
      CStrAt(buf[..], p, t, i);
    }
    lname[i] := NUL;
    assert lname[..][0..0 + i] == Lower(t)[..i];
  }

  /** `tsf_lookup_state`: 31 characters are enough, because every name is shorter. */
  method LookupState(buf: array<char>, p: nat, ghost t: string) returns (state: Option<nat>)
    requires IsCStr(buf[..], p, t)
    ensures state == StateOf(t)
  {
    hide Lookup, Lower;
    var lname := LowerCopy(buf, p, t);
    ghost var name := Lower(t)[..if |t| < 31 then |t| else 31];
    state := LookupName(STATE_NAMES, lname, 0, name);
    if |t| < 31 {
      WholeSlice(Lower(t));
    } else {
      LookupLong(STATE_NAMES, name);
      LookupLong(STATE_NAMES, Lower(t));
    }
  }

  // ---------------------------------------------------------------- lists of values

  lemma ReadAllSnoc(done: seq<string>, w: string, read: string -> Option<nat>)
    ensures ReadAll(done + [w], read) ==
      var init, last := ReadAll(done, read), read(w);
      if init.None? || last.None? || last.value in init.value then None else Some(init.value + [last.value])
  {
    assert (done + [w])[..|done|] == done;
  }

  /** A list that cannot be read so far cannot be read at all. */
  lemma {:induction false} ReadAllFails(done: seq<string>, rest: seq<string>, read: string -> Option<nat>)
    requires ReadAll(done, read).None?
    ensures ReadAll(done + rest, read).None?
    decreases |rest|
  {
    if rest == [] {
      AddEmpty(done);
    } else {
      var init := rest[..|rest| - 1];
      ReadAllFails(done, init, read);
      assert done + rest == done + init + [rest[|rest| - 1]];
      ReadAllSnoc(done + init, rest[|rest| - 1], read);
    }
  }

  lemma FieldBitsSnoc(done: seq<string>, w: string)
    ensures FieldBits(done + [w]) ==
      var init, last := FieldBits(done), Lookup(FIELD_GROUPS, Lower(w));
      if init.None? || last.None? then None else Some(init.value + last.value)
  {
    hide Lookup;
    assert (done + [w])[..|done|] == done;
  }

  lemma {:induction false} FieldBitsFails(done: seq<string>, rest: seq<string>)
    requires FieldBits(done).None?
    ensures FieldBits(done + rest).None?
    decreases |rest|
  {
    if rest == [] {
      AddEmpty(done);
    } else {
      var init := rest[..|rest| - 1];
      FieldBitsFails(done, init);
      assert done + rest == done + init + [rest[|rest| - 1]];
      FieldBitsSnoc(done + init, rest[|rest| - 1]);
    }
  }

  /** What a splitting loop still knows about all the pieces when it gives up. */
  lemma AllPieces(b0: seq<char>, b: seq<char>, p0: nat, t: string, delims: set<char>,
                  p: int, u: string, done: seq<string>)
    returns (rest: seq<string>)
    requires Splitting(b0, b, p0, t, delims, p, u, done)
    ensures Items(t, delims) == done + rest
  {
    rest := if p == -1 then [] else Items(u, delims);
  }

  // ---------------------------------------------------------------- ports

  /** The duplicate search of the port list. */
  method Contains(ports: array<nat>, count: nat, port: nat) returns (found: bool)
    requires count <= ports.Length
    ensures found <==> port in ports[..count]
  {
    var i := 0;
    while i < count
      invariant i <= count && port !in ports[..i]
    {
      if ports[i] == port { return true; }
      i := i + 1;
    }
    found := false;
  }

  /** One item: `ports[count++] = port`, unless it is one too many, malformed or a repetition. */
  method AddPort(buf: array<char>, tok: nat, ports: array<nat>, count: nat, ghost w: string, ghost done: seq<string>)
    returns (ok: bool)
    requires IsCStr(buf[..], tok, w) && ports.Length == TSF_MAX_PORTS && count <= 8
    requires ReadAll(done, PortOf) == Some(ports[..count])
    modifies ports
    ensures ok <==> count < 8 && ReadAll(done + [w], PortOf).Some?
    ensures ok ==> ReadAll(done + [w], PortOf) == Some(ports[..count + 1])
    ensures forall k | count < k < 8 :: ports[k] == old(ports[k])
  {
    hide ReadAll, PortOf;
    ReadAllSnoc(done, w, PortOf);
    if count >= TSF_MAX_PORTS { return false; }
    var port := ParsePortNumber(buf, tok, w);
    if port.None? { return false; }
    var dup := Contains(ports, count, port.value);
    if dup { return false; }
    ghost var before := ports[..count];
    ports[count] := port.value;
    assert ports[..count + 1] == before + [port.value];
    ok := true;
  }

  lemma PortsFail(t: string, done: seq<string>, w: string, rest: seq<string>)
    requires Items(t, {','}) == done + [w] + rest
    requires |done| == 8 || ReadAll(done + [w], PortOf).None?
    ensures ReadPorts(t).None?
  {
    hide Items, PortOf;
    if ReadAll(done + [w], PortOf).None? { ReadAllFails(done + [w], rest, PortOf); }
  }

  /** The loop of `tsf_parse_port_list` over an array of unused slots. */
  method ReadPortList(buf: array<char>, p0: nat, ports: array<nat>, ghost t: string) returns (ok: bool)
    requires IsCStr(buf[..], p0, t) && ports.Length == 8 && ports[..] == Zeros(8)
    modifies buf, ports
    ensures SameOutside(old(buf[..]), buf[..], p0, |t|)
    ensures ok <==> ReadPorts(t).Some?
    ensures ok ==> ports[..] == Pad(ReadPorts(t).value)
  {
    hide Items, PortOf, IsCStr, ReadAll;
    var count, p := 0, p0 as int;
    ghost var b0, u, done: seq<string>, w := buf[..], t, [], "";
    SplittingStart(b0, p0, t, {','});
    EmptyList();
    while p != -1
      invariant Splitting(b0, buf[..], p0, t, {','}, p, u, done)
      invariant count <= 8 && |done| == count && ReadAll(done, PortOf) == Some(ports[..count])
      invariant forall k | count <= k < 8 :: ports[k] == 0
      decreases if p == -1 then 0 else |u| + 1
    {
      var tok: nat := p;
      p, w, u := Cut(buf, b0, p0, t, {','}, p, u, done);
      CStrAt(buf[..], tok, w, 0);
      if buf[tok] == NUL { AddEmpty(done); continue; }
      var good := AddPort(buf, tok, ports, count, w, done);
      if !good {
        ghost var rest := AllPieces(b0, buf[..], p0, t, {','}, p, u, done + [w]);
        PortsFail(t, done, w, rest);
        return false;
      }
      done := done + [w];
      count := count + 1;
    }
    ok := count != 0;
    assert ports[..] == ports[..count] + Zeros(8 - count);
  }

  lemma EmptyList()
    ensures ReadAll([], PortOf) == Some([]) && ReadAll([], StateOf) == Some([])
  {
  }

  // ---------------------------------------------------------------- field groups

  /** Lower-cases one item in place and looks it up; the rest of the list is not touched. */
  method LookupGroup(buf: array<char>, ghost b0: seq<char>, ghost p0: nat, ghost t: string, tok: nat, ghost w: string,
                     ghost p: int, ghost u: string, ghost done: seq<string>)
    returns (group: Option<set<nat>>)
    requires Splitting(b0, buf[..], p0, t, {','}, p, u, done) && IsCStr(buf[..], tok, w)
    requires p0 <= tok && tok + |w| <= p0 + |t| && (p == -1 || tok + |w| < p)
    modifies buf
    ensures group == Lookup(FIELD_GROUPS, Lower(w)) && Splitting(b0, buf[..], p0, t, {','}, p, u, done)
  {
    hide IsCStr, Lookup, Lower, Splitting;
    ghost var b := buf[..];
    LowerInPlace(buf, tok, w);
    SplittingFrame(b0, b, buf[..], p0, t, {','}, p, u, done, tok, |w|);
    group := LookupName(FIELD_GROUPS, buf, tok, Lower(w));
  }

  // ---------------------------------------------------------------- state lists

  /** One item of a state list; `seen` has the bits of the states before it. */
  method AddState(buf: array<char>, tok: nat, seen: set<nat>,
                  ghost w: string, ghost done: seq<string>, ghost states: seq<nat>)
    returns (ok: bool, state: nat)
    requires IsCStr(buf[..], tok, w) && ReadAll(done, StateOf) == Some(states) && seen == StateBits(states)
    ensures ok <==> ReadAll(done + [w], StateOf).Some?
    ensures ok ==> ReadAll(done + [w], StateOf) == Some(states + [state])
    ensures ok ==> seen + {state} == StateBits(states + [state])
  {
    hide ReadAll, StateOf;
    ReadAllSnoc(done, w, StateOf);
    var r := LookupState(buf, tok, w);
    if r.None? { return false, 0; }
    if r.value in seen { return false, 0; }
    ok, state := true, r.value;
  }

  /** The struct the directives update. */
  class FilterStruct {
    var version: nat
    var stateMask: set<nat>
    var flags: set<nat>
    const localPorts: array<nat>
    const remotePorts: array<nat>
    var localAddr4: nat
    var localMask4: nat
    var remoteAddr4: nat
    var remoteMask4: nat
    var localAddr6: seq<nat>
    var localPrefix6: nat
    var remoteAddr6: seq<nat>
    var remotePrefix6: nat
    var fieldMask: set<nat>
    var format: nat

    predicate Valid() { localPorts.Length == remotePorts.Length == TSF_MAX_PORTS && localPorts != remotePorts }

    function PortsOf(dir: Direction): array<nat> { if dir == Local then localPorts else remotePorts }

    function View(): Filter
      reads this, localPorts, remotePorts
    {
      Filter(version, stateMask, flags,
             Side(localPorts[..], localAddr4, localMask4, localAddr6, localPrefix6),
             Side(remotePorts[..], remoteAddr4, remoteMask4, remoteAddr6, remotePrefix6),
             fieldMask, format)
    }

    /** A zeroed struct with the version, state mask and field mask set. */
    constructor ()
      ensures Valid() && fresh(localPorts) && fresh(remotePorts) && View() == DEFAULT_FILTER
    {
      version, stateMask, flags := TSF_VERSION, ALL_STATES, {};
      fieldMask, format := TSR_FIELDS_DEFAULT, TSF_FORMAT_COMPACT;
      localPorts, remotePorts := new nat[8](_ => 0), new nat[8](_ => 0);
      localAddr4, localMask4, remoteAddr4, remoteMask4 := 0, 0, 0, 0;
      localAddr6, localPrefix6, remoteAddr6, remotePrefix6 := Zeros(16), 0, Zeros(16), 0;
      new;
      assert localPorts[..] == Zeros(8) && remotePorts[..] == Zeros(8);
    }

    method CopyPorts(from: array<nat>, to: array<nat>)
      requires from.Length == to.Length && from != to
      modifies to
      ensures to[..] == from[..]
    {
      forall i | 0 <= i < to.Length { to[i] := from[i]; }
    }

    /** The structure copy of the parser's result. */
    method CopyFrom(src: FilterStruct)
      requires Valid() && src.Valid() && src != this
      requires localPorts != src.localPorts && localPorts != src.remotePorts
      requires remotePorts != src.localPorts && remotePorts != src.remotePorts
      modifies this, localPorts, remotePorts
      ensures View() == src.View()
    {
      CopyPorts(src.localPorts, localPorts);
      CopyPorts(src.remotePorts, remotePorts);
      CopyGeneral(src);
      CopyAddr4(src);
      CopyAddr6(src);
    }

    method CopyGeneral(src: FilterStruct)
      modifies this`version, this`stateMask, this`flags, this`fieldMask, this`format
      ensures version == src.version && stateMask == src.stateMask && flags == src.flags
      ensures fieldMask == src.fieldMask && format == src.format
    {
      version, stateMask, flags := src.version, src.stateMask, src.flags;
      fieldMask, format := src.fieldMask, src.format;
    }

    method CopyAddr4(src: FilterStruct)
      modifies this`localAddr4, this`localMask4, this`remoteAddr4, this`remoteMask4
      ensures localAddr4 == src.localAddr4 && localMask4 == src.localMask4
      ensures remoteAddr4 == src.remoteAddr4 && remoteMask4 == src.remoteMask4
    {
      localAddr4, localMask4, remoteAddr4, remoteMask4 :=
        src.localAddr4, src.localMask4, src.remoteAddr4, src.remoteMask4;
    }

    method CopyAddr6(src: FilterStruct)
      modifies this`localAddr6, this`localPrefix6, this`remoteAddr6, this`remotePrefix6
      ensures localAddr6 == src.localAddr6 && localPrefix6 == src.localPrefix6
      ensures remoteAddr6 == src.remoteAddr6 && remotePrefix6 == src.remotePrefix6
    {
      localAddr6, localPrefix6, remoteAddr6, remotePrefix6 :=
        src.localAddr6, src.localPrefix6, src.remoteAddr6, src.remotePrefix6;
    }

    /** `tsf_parse_port_list` for one direction. */
    method ParsePortList(buf: array<char>, p: nat, dir: Direction, ghost t: string) returns (ok: bool)
      requires Valid() && IsCStr(buf[..], p, t) && Building(View())
      modifies this`flags, PortsOf(dir), buf
      ensures SameOutside(old(buf[..]), buf[..], p, |t|)
      ensures Did(ok, View(), Want(ReadKeyValue(PortKey(dir), t), old(View())))
    {
      hide IsCStr, Items, ReadAll, PortOf, ReadKeyValue, ReadPorts;
      PortKeyMeans(dir, t);
      KeyValueIsDirective(PortKey(dir), t);
      if PortFlag(dir) in flags { return false; }
      ok := ReadPortList(buf, p, PortsOf(dir), t);
      if ok { flags := flags + {PortFlag(dir)}; }
    }

    /** `tsf_parse_exclude_list`: clears the bits one state at a time. */
    method ParseExcludeList(buf: array<char>, p0: nat, ghost t: string) returns (ok: bool)
      requires Valid() && IsCStr(buf[..], p0, t)
      modifies this`stateMask, buf
      ensures SameOutside(old(buf[..]), buf[..], p0, |t|)
      ensures Did(ok, View(), Want(ReadKeyValue("exclude", t), old(View())))
    {
      hide Items, StateOf, IsCStr, ReadAll, ReadKeyValue;
      StateKeysMean(t);
      KeyValueIsDirective("exclude", t);
      if TSF_STATE_INCLUDE_MODE in flags { return false; }
      var seen: set<nat>, p := {}, p0 as int;
      ghost var b0, u, done: seq<string>, states: seq<nat>, w := buf[..], t, [], [], "";
      SplittingStart(b0, p0, t, {','});
      EmptyList();
      while p != -1
        invariant Splitting(b0, buf[..], p0, t, {','}, p, u, done)
        invariant ReadAll(done, StateOf) == Some(states) && seen == StateBits(states)
        invariant stateMask == old(stateMask) - seen
        decreases if p == -1 then 0 else |u| + 1
      {
        var tok: nat := p;
        p, w, u := Cut(buf, b0, p0, t, {','}, p, u, done);
        CStrAt(buf[..], tok, w, 0);
        if buf[tok] == NUL { AddEmpty(done); continue; }
        var good, state := AddState(buf, tok, seen, w, done, states);
        if !good {
          ghost var rest := AllPieces(b0, buf[..], p0, t, {','}, p, u, done + [w]);
          ReadAllFails(done + [w], rest, StateOf);
          return false;
        }
        done, states := done + [w], states + [state];
        seen := seen + {state};
        stateMask := stateMask - {state};
      }
      ok := true;
    }

    /** `tsf_parse_include_state_list`: collects a mask and stores it at the end. */
    method ParseIncludeStateList(buf: array<char>, p0: nat, ghost t: string) returns (ok: bool)
      requires Valid() && IsCStr(buf[..], p0, t)
      modifies this`stateMask, this`flags, buf
      ensures SameOutside(old(buf[..]), buf[..], p0, |t|)
      ensures Did(ok, View(), Want(ReadKeyValue("include_state", t), old(View())))
    {
      hide Items, StateOf, IsCStr, ReadAll, ReadKeyValue;
      StateKeysMean(t);
      KeyValueIsDirective("include_state", t);
      if stateMask != ALL_STATES { return false; }
      if TSF_STATE_INCLUDE_MODE in flags { return false; }
      var mask: set<nat>, seen: set<nat>, p := {}, {}, p0 as int;
      ghost var b0, u, done: seq<string>, states: seq<nat>, w := buf[..], t, [], [], "";
      SplittingStart(b0, p0, t, {','});
      EmptyList();
      while p != -1
        invariant Splitting(b0, buf[..], p0, t, {','}, p, u, done)
        invariant ReadAll(done, StateOf) == Some(states) && seen == mask == StateBits(states)
        invariant stateMask == old(stateMask) && flags == old(flags)
        decreases if p == -1 then 0 else |u| + 1
      {
        var tok: nat := p;
        p, w, u := Cut(buf, b0, p0, t, {','}, p, u, done);
        CStrAt(buf[..], tok, w, 0);
        if buf[tok] == NUL { AddEmpty(done); continue; }
        var good, state := AddState(buf, tok, seen, w, done, states);
        if !good {
          ghost var rest := AllPieces(b0, buf[..], p0, t, {','}, p, u, done + [w]);
          ReadAllFails(done + [w], rest, StateOf);
          return false;
        }
        done, states := done + [w], states + [state];
        seen := seen + {state};
        mask := mask + {state};
      }
      NoBits(states);
      if mask == {} { return false; }
      stateMask := mask;
      flags := flags + {TSF_STATE_INCLUDE_MODE};
      ok := true;
    }

    /** `tsf_parse_format`. */
    method ParseFormat(buf: array<char>, p: nat, ghost t: string) returns (ok: bool)
      requires Valid() && IsCStr(buf[..], p, t)
      modifies this`format, buf
      ensures SameOutside(old(buf[..]), buf[..], p, |t|)
      ensures Did(ok, View(), Want(ReadKeyValue("format", t), old(View())))
    {
      hide IsCStr, Lower;
      LowerInPlace(buf, p, t);
      var compact := StrEq(buf, p, "compact", Lower(t));
      if compact {
        format := TSF_FORMAT_COMPACT;
      } else {
        var full := StrEq(buf, p, "full", Lower(t));
        if !full { return false; }
        format := TSF_FORMAT_FULL;
      }
      ok := true;
    }

    method StoreAddr6(dir: Direction, addr: seq<nat>, prefix: nat)
      modifies this
      ensures View() == WithSide(old(View()).(flags := old(flags) + {AddrFlag(dir)}), dir,
                                 SideOf(old(View()), dir).(addr6 := addr, prefix6 := prefix))
    {
      if dir == Local { localAddr6, localPrefix6 := addr, prefix; } else { remoteAddr6, remotePrefix6 := addr, prefix; }
      flags := flags + {AddrFlag(dir)};
    }

    method StoreAddr4(dir: Direction, addr: nat, mask: nat)
      modifies this
      ensures View() == WithSide(old(View()).(flags := old(flags) + {AddrFlag(dir)}), dir,
                                 SideOf(old(View()), dir).(addr4 := addr, mask4 := mask))
    {
      if dir == Local { localAddr4, localMask4 := addr, mask; } else { remoteAddr4, remoteMask4 := addr, mask; }
      flags := flags + {AddrFlag(dir)};
    }

    /** `tsf_parse_addr` for one direction. */
    method ParseAddr(buf: array<char>, p: nat, dir: Direction, ghost t: string) returns (ok: bool)
      requires Valid() && IsCStr(buf[..], p, t)
      modifies this
      ensures Did(ok, View(), Want(ReadKeyValue(AddrKey(dir), t), old(View())))
    {
      hide IsCStr, ParseV4, ParseV6, Mask4, IsNet4, IsNet6, ReadKeyValue, WithSide, SideOf;
      AddrKeyMeans(dir, t);
      KeyValueIsDirective(AddrKey(dir), t);
      if AddrFlag(dir) in flags { return false; }
      var colon := StrChr(buf, p, ':', t);
      assert colon != -1 <==> ':' in t;
      if colon != -1 {
        var good, addr, prefix := ParseIpv6Addr(buf, p, t);
        if !good { return false; }
        StoreAddr6(dir, addr, prefix);
      } else {
        var good, addr, mask := ParseIpv4Addr(buf, p, t);
        if !good { return false; }
        StoreAddr4(dir, addr, mask);
      }
      ok := true;
    }

    /** `tsf_parse_field_list`: lower-cases each item in place and ors the groups together. */
    method ParseFieldList(buf: array<char>, p0: nat, ghost t: string) returns (ok: bool)
      requires Valid() && IsCStr(buf[..], p0, t)
      modifies this`fieldMask, buf
      ensures SameOutside(old(buf[..]), buf[..], p0, |t|)
      ensures Did(ok, View(), Want(ReadKeyValue("fields", t), old(View())))
    {
      hide IsCStr, Items, FieldBits, Lookup, Lower, ReadKeyValue, Splitting;
      FieldsKeyMeans(t);
      KeyValueIsDirective("fields", t);
      var mask: set<nat>, p := {}, p0 as int;
      ghost var b0, u, done: seq<string>, w := buf[..], t, [], "";
      SplittingStart(b0, p0, t, {','});
      NoFields();
      SplittingSame(b0, buf[..], p0, t, {','}, p, u, done);
      while p != -1
        invariant -1 <= p && Splitting(b0, buf[..], p0, t, {','}, p, u, done)
        invariant FieldBits(done) == Some(mask)
        invariant fieldMask == old(fieldMask)
        decreases if p == -1 then 0 else |u| + 1
      {
        var tok: nat := p;
        p, w, u := Cut(buf, b0, p0, t, {','}, p, u, done);
        CStrAt(buf[..], tok, w, 0);
        if buf[tok] == NUL { AddEmpty(done); continue; }
        var group := LookupGroup(buf, b0, p0, t, tok, w, p, u, done + [w]);
        FieldBitsSnoc(done, w);
        SplittingSame(b0, buf[..], p0, t, {','}, p, u, done + [w]);
        if group.None? {
          ghost var rest := AllPieces(b0, buf[..], p0, t, {','}, p, u, done + [w]);
          FieldBitsFails(done + [w], rest);
          return false;
        }
        mask := mask + group.value;
        done := done + [w];
      }
      SplittingEnd(b0, buf[..], p0, t, {','}, u, done);
      if mask == {} { return false; }
      fieldMask := mask;
      ok := true;
    }

    /** `tsf_validate_filter`. */
    method ValidateFilter() returns (ok: bool)
      ensures ok <==> Compatible(View())
    {
      if TSF_IPV4_ONLY in flags && TSF_IPV6_ONLY in flags { return false; }
      if TSF_LOCAL_ADDR_MATCH in flags && localAddr4 != 0 && TSF_IPV6_ONLY in flags { return false; }
      if TSF_REMOTE_ADDR_MATCH in flags && remoteAddr4 != 0 && TSF_IPV6_ONLY in flags { return false; }
      if TSF_LOCAL_ADDR_MATCH in flags && localAddr6 != Zeros(16) && TSF_IPV4_ONLY in flags { return false; }
      if TSF_REMOTE_ADDR_MATCH in flags && remoteAddr6 != Zeros(16) && TSF_IPV4_ONLY in flags { return false; }
      ok := true;
    }

    /** The dispatch on the first character of the key, then on the whole key.  `value` is -1 without a `=`. */
    method Dispatch(buf: array<char>, key: nat, value: int, ghost k: string, ghost v: string) returns (ok: bool)
      requires Valid() && Building(View()) && IsCStr(buf[..], key, k)
      requires value >= -1 && (value >= 0 ==> IsCStr(buf[..], value, v) && v != "")
      modifies this, localPorts, remotePorts, buf
      ensures Did(ok, View(), Want(ReadKey(k, value >= 0, v), old(View())))
      ensures value >= 0 ==> SameOutside(old(buf[..]), buf[..], value, |v|)
      ensures value < 0 ==> buf[..] == old(buf[..])
    {
      hide IsCStr, ReadKeyValue, Apply, IsDirective, Fresh;
      CStrAt(buf[..], key, k, 0);
      ok := false;
      var eq;
      if buf[key] == 'e' {
        if value < 0 { NotAFlag(k); return false; }
        eq := StrEq(buf, key, "exclude", k);
        if eq { ok := ParseExcludeList(buf, value, v); return; }
      } else if buf[key] == 'f' {
        if value < 0 { NotAFlag(k); return false; }
        eq := StrEq(buf, key, "format", k);
        if eq { ok := ParseFormat(buf, value, v); return; }
        eq := StrEq(buf, key, "fields", k);
        if eq { ok := ParseFieldList(buf, value, v); return; }
      } else if buf[key] == 'i' {
        eq := StrEq(buf, key, "ipv4_only", k);
        if eq { ok := SetFlag(TSF_IPV4_ONLY, value, k, v); return; }
        eq := StrEq(buf, key, "ipv6_only", k);
        if eq { ok := SetFlag(TSF_IPV6_ONLY, value, k, v); return; }
        if value < 0 { return false; }
        eq := StrEq(buf, key, "include_state", k);
        if eq { ok := ParseIncludeStateList(buf, value, v); return; }
      } else if buf[key] == 'l' || buf[key] == 'r' {
        var dir := if buf[key] == 'l' then Local else Remote;
        if value < 0 { NotAFlag(k); return false; }
        eq := StrEq(buf, key, PortKey(dir), k);
        if eq { ok := ParsePortList(buf, value, dir, v); return; }
        eq := StrEq(buf, key, AddrKey(dir), k);
        if eq { ok := ParseAddr(buf, value, dir, v); return; }
      }
      UnknownKey(k, value >= 0, v);
    }

    /** The two flags, which take no value. */
    method SetFlag(flag: nat, value: int, ghost k: string, ghost v: string) returns (ok: bool)
      requires (k == "ipv4_only" && flag == TSF_IPV4_ONLY) || (k == "ipv6_only" && flag == TSF_IPV6_ONLY)
      modifies this`flags
      ensures Did(ok, View(), Want(ReadKey(k, value >= 0, v), old(View())))
    {
      if value >= 0 { return false; }
      flags := flags + {flag};
      ok := true;
    }

    /** `tsf_parse_directive`: one token, in place. */
    method ParseDirective(buf: array<char>, p: nat, ghost t: string) returns (ok: bool)
      requires Valid() && Building(View()) && IsCStr(buf[..], p, t)
      modifies this, localPorts, remotePorts, buf
      ensures SameOutside(old(buf[..]), buf[..], p, |t|)
      ensures Did(ok, View(), Step(t, old(View())))
    {
      hide IsCStr, ReadKeyValue, Apply, IsDirective, Fresh, KeyOf, ValueOf, HasValue;
      ParsedIsDirective(t);
      TokenIsKey(t);
      var value;
      ghost var b0 := buf[..];
      ok, value := SplitKey(buf, p, t);
      if !ok { return; }
      ghost var b := buf[..];
      ghost var v := if value >= 0 then ValueOf(t) else "";
      ok := Dispatch(buf, p, value, KeyOf(t), v);
      if value >= 0 { SameTwice(b0, b, buf[..], p, |t|, value, |v|); }
    }
  }

  /** A token as a key with or without a value. */
  function ReadKey(k: string, hasValue: bool, v: string): Option<Directive> {
    if hasValue then ReadKeyValue(k, v)
    else if k == "ipv4_only" then Some(Ipv4Only)
    else if k == "ipv6_only" then Some(Ipv6Only)
    else None
  }

  lemma TokenIsKey(t: string)
    ensures ParseToken(t) ==
      if HasValue(t) && ValueOf(t) == "" then None
      else ReadKey(KeyOf(t), HasValue(t), if HasValue(t) then ValueOf(t) else "")
  {
    hide ReadKeyValue, KeyOf, Find;
  }

  lemma NotAFlag(k: string)
    requires k != "" && k[0] != 'i'
    ensures ReadKey(k, false, "") == None
  {
    hide ReadKeyValue;
  }

  /** A key that matches none of the names its first character leaves. */
  lemma UnknownKey(k: string, hasValue: bool, v: string)
    requires k !in {"exclude", "format", "fields", "ipv4_only", "ipv6_only", "include_state"}
    requires k !in {"local_port", "remote_port", "local_addr", "remote_addr"}
    ensures ReadKey(k, hasValue, v) == None
  {
  }

  /** Cuts the token at its first `=`, refuses an empty value, and lower-cases the key. */
  method SplitKey(buf: array<char>, p: nat, ghost t: string) returns (ok: bool, value: int)
    requires IsCStr(buf[..], p, t)
    modifies buf
    ensures SameOutside(old(buf[..]), buf[..], p, |t|)
    ensures ok <==> !(HasValue(t) && ValueOf(t) == "")
    ensures ok ==> IsCStr(buf[..], p, KeyOf(t)) && (value >= 0 <==> HasValue(t)) && value >= -1
    ensures ok && HasValue(t) ==> p <= value && value + |ValueOf(t)| == p + |t| && IsCStr(buf[..], value, ValueOf(t))
  {
    hide IsCStr, Find, Lower;
    ghost var i := Find(t, {'='});
    value := StrChr(buf, p, '=', t);
    WholeSlice(t);
    if value != -1 {
      CStrAt(buf[..], p, t, i);
      CStrCut(buf[..], p, t, i);
      buf[value] := NUL;
      value := value + 1;
      CStrAt(buf[..], value, ValueOf(t), 0);
      if buf[value] == NUL { return false, value; }
    }
    ghost var b := buf[..];
    LowerInPlace(buf, p, t[..i]);
    if value != -1 { CStrFrame(b, buf[..], value, ValueOf(t)); }
    ok := true;
  }

  lemma SplittingSame(b0: seq<char>, b: seq<char>, p0: nat, t: string, delims: set<char>,
                      p: int, u: string, done: seq<string>)
    requires Splitting(b0, b, p0, t, delims, p, u, done)
    ensures -1 <= p && SameOutside(b0, b, p0, |t|)
  {
  }

  lemma SplittingEnd(b0: seq<char>, b: seq<char>, p0: nat, t: string, delims: set<char>, u: string, done: seq<string>)
    requires Splitting(b0, b, p0, t, delims, -1, u, done)
    ensures Items(t, delims) == done && SameOutside(b0, b, p0, |t|)
  {
  }

  lemma NoFields()
    ensures FieldBits([]) == Some({})
  {
  }

  lemma NoBits(states: seq<nat>)
    ensures StateBits(states) == {} <==> states == []
  {
    if states != [] { assert states[0] in StateBits(states); }
  }

  /** What a directive makes of a filter. */
  function Want(d: Option<Directive>, f: Filter): Option<Filter> {
    if d.Some? && IsDirective(d.value) then Apply(d.value, f) else None
  }

  /** A step succeeds exactly when it should, and then with the filter it should. */
  predicate Did(ok: bool, f: Filter, want: Option<Filter>) { if ok then want == Some(f) else want == None }

  // ---------------------------------------------------------------- whole strings

  /** The tokens from number `i` on still read as they were cut, and each ends before the next one starts. */
  ghost predicate Laid(b: seq<char>, starts: seq<nat>, toks: seq<string>, i: nat) {
    && |starts| == |toks|
    && (forall k | i <= k < |toks| :: IsCStr(b, starts[k], toks[k]))
    && (forall j, k | 0 <= j < k < |toks| :: starts[j] + |toks[j]| < starts[k])
  }

  /** Non-interference: work inside one token leaves the later tokens as first cut. */
  lemma LaterTokensStay(b: seq<char>, c: seq<char>, starts: seq<nat>, toks: seq<string>, i: nat)
    requires Laid(b, starts, toks, i) && i < |toks| && SameOutside(b, c, starts[i], |toks[i]|)
    ensures Laid(c, starts, toks, i + 1)
  {
    forall k | i + 1 <= k < |toks| ensures IsCStr(c, starts[k], toks[k]) { CStrFrame(b, c, starts[k], toks[k]); }
  }

  lemma EarlierTokensStay(b: seq<char>, c: seq<char>, starts: seq<nat>, toks: seq<string>, p: nat, n: nat)
    requires Laid(b, starts, toks, 0) && SameOutside(b, c, p, n)
    requires forall k | 0 <= k < |toks| :: starts[k] + |toks[k]| < p
    ensures Laid(c, starts, toks, 0)
  {
    forall k | 0 <= k < |toks| ensures IsCStr(c, starts[k], toks[k]) { CStrFrame(b, c, starts[k], toks[k]); }
  }

  lemma LaidSnoc(b: seq<char>, starts: seq<nat>, toks: seq<string>, p: nat, w: string)
    requires Laid(b, starts, toks, 0) && IsCStr(b, p, w)
    requires forall k | 0 <= k < |toks| :: starts[k] + |toks[k]| < p
    ensures Laid(b, starts + [p], toks + [w], 0)
  {
    hide IsCStr;
  }

  /** How far pass 1 has come: the tokens so far, laid out before what is left. */
  ghost predicate Cutting(b0: seq<char>, b: seq<char>, t: string, p: int, u: string,
                          starts: seq<nat>, toks: seq<string>)
  {
    && Splitting(b0, b, 0, t, BLANKS, p, u, toks) && Laid(b, starts, toks, 0)
    && (p == -1 || forall k | 0 <= k < |toks| :: starts[k] + |toks[k]| < p)
  }

  lemma CuttingStart(b: seq<char>, t: string)
    requires IsCStr(b, 0, t)
    ensures Cutting(b, b, t, 0, t, [], [])
  {
    SplittingStart(b, 0, t, BLANKS);
  }

  /** One `strsep` of pass 1: an empty piece is dropped, another one is the next token. */
  method NextToken(buf: array<char>, ghost b0: seq<char>, ghost t: string, p: nat, ghost u: string,
                   ghost starts: seq<nat>, ghost toks: seq<string>)
    returns (next: int, ghost w: string, ghost v: string)
    requires Cutting(b0, buf[..], t, p, u, starts, toks)
    modifies buf
    ensures IsCStr(buf[..], p, w) && -1 <= next && (next == -1 || |v| < |u|)
    ensures if w == "" then Cutting(b0, buf[..], t, next, v, starts, toks)
      else Cutting(b0, buf[..], t, next, v, starts + [p], toks + [w])
  {
    hide IsCStr, Items, Splitting, Laid;
    ghost var b := buf[..];
    LaidLength(b, starts, toks, 0);
    next, w, v := Cut(buf, b0, 0, t, BLANKS, p, u, toks);
    EarlierTokensStay(b, buf[..], starts, toks, p, |u|);
    SplittingSame(b0, buf[..], 0, t, BLANKS, next, v, toks + Piece(w));
    if w == "" {
      AddEmpty(toks);
    } else {
      LaidSnoc(buf[..], starts, toks, p, w);
    }
  }

  lemma CuttingEnd(b0: seq<char>, b: seq<char>, t: string, p: int, u: string, starts: seq<nat>, toks: seq<string>)
    requires Cutting(b0, b, t, p, u, starts, toks)
    ensures |starts| == |toks| && Laid(b, starts, toks, 0)
    ensures exists rest: seq<string> :: Items(t, BLANKS) == toks + rest && (p == -1 ==> rest == [])
  {
    hide Items;
    if p == -1 { AddEmpty(toks); }
    assert Items(t, BLANKS) == toks + (if p == -1 then [] else Items(u, BLANKS));
  }

  /** Pass 1: cuts the buffer into at most sixteen tokens. */
  method Tokenize(buf: array<char>, tokens: array<nat>, ghost t: string)
    returns (ok: bool, ntokens: nat, ghost toks: seq<string>)
    requires IsCStr(buf[..], 0, t) && tokens.Length == TSF_PARSE_MAXDIRECTIVES
    modifies buf, tokens
    ensures ok <==> |Items(t, BLANKS)| <= 16
    ensures ok ==> toks == Items(t, BLANKS) && ntokens == |toks| && Laid(buf[..], tokens[..ntokens], toks, 0)
  {
    hide IsCStr, Items, Laid, Cutting;
    var p := 0;
    ghost var b0, u, w := buf[..], t, "";
    ntokens, toks := 0, [];
    CuttingStart(b0, t);
    while p != -1
      invariant -1 <= p && ntokens == |toks| <= 16
      invariant Cutting(b0, buf[..], t, p, u, tokens[..ntokens], toks)
      decreases if p == -1 then 0 else |u| + 1
    {
      var tok: nat := p;
      ghost var starts := tokens[..ntokens];
      p, w, u := NextToken(buf, b0, t, p, u, starts, toks);
      CStrAt(buf[..], tok, w, 0);
      if buf[tok] == NUL { continue; }
      if ntokens >= TSF_PARSE_MAXDIRECTIVES {
        CuttingEnd(b0, buf[..], t, p, u, starts + [tok], toks + [w]);
        return false, ntokens, toks;
      }
      tokens[ntokens] := tok;
      assert tokens[..ntokens + 1] == starts + [tok];
      toks := toks + [w];
      ntokens := ntokens + 1;
    }
    CuttingEnd(b0, buf[..], t, p, u, tokens[..ntokens], toks);
    AddEmpty(toks);
    ok := true;
  }

  lemma BuildingToken(tok: string, f: Filter)
    requires Building(f) && Step(tok, f).Some?
    ensures Building(Step(tok, f).value)
  {
    hide Fresh, Apply, ParseToken, IsDirective;
    ParsedIsDirective(tok);
    BuildingStep(ParseToken(tok).value, f);
  }

  lemma DefaultBuilds()
    ensures Building(DEFAULT_FILTER) && Compatible(DEFAULT_FILTER) && Run([], DEFAULT_FILTER) == Some(DEFAULT_FILTER)
  {
  }

  /** Pass 2: the tokens in order, stopping at the first error. */
  method ParseTokens(f: FilterStruct, buf: array<char>, tokens: array<nat>, ntokens: nat, ghost toks: seq<string>)
    returns (ok: bool)
    requires f.Valid() && ntokens <= tokens.Length && tokens != f.localPorts && tokens != f.remotePorts
    requires Laid(buf[..], tokens[..ntokens], toks, 0) && Building(f.View())
    modifies f, f.localPorts, f.remotePorts, buf
    ensures Did(ok, f.View(), Run(toks, old(f.View())))
  {
    hide IsCStr, Laid, Fresh, Step;
    var i := 0;
    LaidLength(buf[..], tokens[..ntokens], toks, 0);
    ghost var starts := tokens[..ntokens];
    while i < ntokens
      invariant i <= ntokens && Building(f.View())
      invariant Laid(buf[..], starts, toks, i) && starts == tokens[..ntokens]
      invariant Run(toks, old(f.View())) == Run(toks[i..], f.View())
    {
      LaidAt(buf[..], starts, toks, i);
      ghost var b, g := buf[..], f.View();
      ok := f.ParseDirective(buf, tokens[i], toks[i]);
      if !ok { return; }
      BuildingToken(toks[i], g);
      LaterTokensStay(b, buf[..], starts, toks, i);
      assert toks[i..][1..] == toks[i + 1..];
      i := i + 1;
    }
    ok := true;
  }

  lemma LaidLength(b: seq<char>, starts: seq<nat>, toks: seq<string>, i: nat)
    requires Laid(b, starts, toks, i)
    ensures |starts| == |toks|
  {
  }

  lemma LaidAt(b: seq<char>, starts: seq<nat>, toks: seq<string>, i: nat)
    requires Laid(b, starts, toks, i) && i < |toks|
    ensures |starts| == |toks| && IsCStr(b, starts[i], toks[i])
  {
  }

  /** Checks for printable characters and copies, one character at a time. */
  method CopyInput(input: string, buf: array<char>) returns (ok: bool)
    requires |input| < buf.Length
    modifies buf
    ensures ok <==> Printable(input)
    ensures ok ==> IsCStr(buf[..], 0, Until(input))
  {
    var i := 0;
    while i < |input|
      invariant i <= |input| && Printable(input[..i])
      invariant forall k | 0 <= k < i :: buf[k] == input[k]
    {
      if input[i] != NUL && (input[i] < ' ' || input[i] > '~') { return false; }
      buf[i] := input[i];
      i := i + 1;
    }
    buf[|input|] := NUL;
    ghost var t := Until(input);
    assert buf[..][0..0 + |t|] == t;
    ok := true;
  }

  /** `tsf_parse_filter_string`: for every input it does what `Compile` says, and on an error it leaves `out` as it
      was. */
  method ParseFilterString(input: string, out: FilterStruct) returns (error: Option<Errno>)
    requires out.Valid()
    modifies out, out.localPorts, out.remotePorts
    ensures error == if Compile(input).Compiled? then None else Some(Compile(input).errno)
    ensures out.View() == if Compile(input).Compiled? then Compile(input).filter else old(out.View())
  {
    hide Items, Run, Printable, Compatible, Fresh, IsCStr, Laid;
    var tmp := new FilterStruct();
    if |input| == 0 || input[0] == NUL {
      out.CopyFrom(tmp);
      return None;
    }
    if |input| > TSF_PARSE_MAXLEN - 1 { return Some(ENAMETOOLONG); }
    var buf := new char[TSF_PARSE_MAXLEN];
    var ok := CopyInput(input, buf);
    if !ok { return Some(EINVAL); }
    var tokens := new nat[TSF_PARSE_MAXDIRECTIVES];
    var ntokens;
    ghost var toks;
    ok, ntokens, toks := Tokenize(buf, tokens, Until(input));
    if !ok { return Some(EINVAL); }
    DefaultBuilds();
    if ntokens == 0 {
      out.CopyFrom(tmp);
      return None;
    }
    ok := ParseTokens(tmp, buf, tokens, ntokens, toks);
    if !ok { return Some(EINVAL); }
    ok := tmp.ValidateFilter();
    if !ok { return Some(EINVAL); }
    out.CopyFrom(tmp);
    error := None;
  }
}
