/**
 The filter language: the struct a filter string is compiled into, the directives, and what a whole string means
 to the compiler.

 `ParseToken` reads one directive, `Apply` adds it to the struct, `Compile` does a whole string.  They are the
 specification that the in-place parser of `FilterParser` is proved against; `Meaning`, `Reordering` and
 `CaseFolding` prove what they promise.
 */
module Filter {
  import opened Text
  import opened Numbers
  import opened Cidr
  import opened Ipv4
  import opened Ipv6

  const TSF_VERSION: nat := 2
  const TSF_MAX_PORTS: nat := 8
  const TSF_PARSE_MAXLEN: nat := 512
  const TSF_PARSE_MAXDIRECTIVES: nat := 16

  // A C bit mask is the set of the numbers of its one bits: 0x1000 is bit 12.

  const TSF_STATE_INCLUDE_MODE: nat := 12
  const TSF_LOCAL_PORT_MATCH: nat := 13
  const TSF_REMOTE_PORT_MATCH: nat := 14
  const TSF_LOCAL_ADDR_MATCH: nat := 15
  const TSF_REMOTE_ADDR_MATCH: nat := 16
  const TSF_IPV4_ONLY: nat := 17
  const TSF_IPV6_ONLY: nat := 18

  /** 0x08F: identity, state, congestion, rtt, buffers. */
  const TSR_FIELDS_DEFAULT: set<nat> := {0, 1, 2, 3, 7}

  /** 0x3FF: bits 0 to 9. */
  const TSR_FIELDS_ALL: set<nat> := set b: nat | b < 10

  const TSF_FORMAT_COMPACT: nat := 0
  const TSF_FORMAT_FULL: nat := 1

  /** 0xFFFF: all sixteen bits of a state mask, of which the states 0 to 10 use eleven. */
  const ALL_STATES: set<nat> := set b: nat | b < 16

  /** State names and their `TCPS_*` numbers, aliases last. */
  const STATE_NAMES: seq<(string, nat)> := [
    ("closed", 0), ("listen", 1), ("syn_sent", 2), ("syn_received", 3), ("established", 4), ("close_wait", 5),
    ("fin_wait_1", 6), ("closing", 7), ("last_ack", 8), ("fin_wait_2", 9), ("time_wait", 10),
    ("timewait", 10), ("closewait", 5), ("syn_rcvd", 3)]

  const FIELD_GROUPS: seq<(string, set<nat>)> := [
    ("identity", {0}), ("state", {1}), ("congestion", {2}), ("rtt", {3}), ("sequences", {4}),
    ("counters", {5}), ("timers", {6}), ("buffers", {7}), ("ecn", {8}), ("names", {9}),
    ("all", TSR_FIELDS_ALL), ("default", TSR_FIELDS_DEFAULT)]

  datatype Direction = Local | Remote

  /** The conditions on one end of a connection. */
  datatype Side = Side(ports: seq<nat>, addr4: nat, mask4: nat, addr6: seq<nat>, prefix6: nat)

  /** `struct tcpstats_filter`.  Ports and IPv4 addresses are host-order numbers; a port slot of 0 is unused. */
  datatype Filter = Filter(
    version: nat, stateMask: set<nat>, flags: set<nat>, local: Side, remote: Side, fieldMask: set<nat>, format: nat)

  datatype Directive =
    | Ipv4Only
    | Ipv6Only
    | Ports(dir: Direction, ports: seq<nat>)
    | Exclude(states: seq<nat>)
    | Include(states: seq<nat>)
    | Addr4(dir: Direction, net4: Net4)
    | Addr6(dir: Direction, net6: Net6)
    | Format(format: nat)
    | FieldList(mask: set<nat>)

  datatype Errno = EINVAL | ENAMETOOLONG

  datatype Outcome = Compiled(filter: Filter) | Rejected(errno: Errno)

  function PortFlag(dir: Direction): nat {
    if dir == Local then TSF_LOCAL_PORT_MATCH else TSF_REMOTE_PORT_MATCH
  }

  function AddrFlag(dir: Direction): nat {
    if dir == Local then TSF_LOCAL_ADDR_MATCH else TSF_REMOTE_ADDR_MATCH
  }

  function SideOf(f: Filter, dir: Direction): Side { if dir == Local then f.local else f.remote }

  function WithSide(f: Filter, dir: Direction, s: Side): Filter {
    if dir == Local then f.(local := s) else f.(remote := s)
  }

  const EMPTY_SIDE: Side := Side(Zeros(8), 0, 0, Zeros(16), 0)

  /** The filter that lets everything through. */
  const DEFAULT_FILTER: Filter :=
    Filter(TSF_VERSION, ALL_STATES, {}, EMPTY_SIDE, EMPTY_SIDE, TSR_FIELDS_DEFAULT, TSF_FORMAT_COMPACT)

  // ---------------------------------------------------------------- reading one directive

  /** The first entry with that name. */
  function Lookup<T>(table: seq<(string, T)>, name: string): (r: Option<T>)
  {
    if table == [] then None
    else if table[0].0 == name then Some(table[0].1)
    else Lookup(table[1..], name)
  }

  function StateOf(name: string): (r: Option<nat>)
  {
    Lookup(STATE_NAMES, Lower(name))
  }

  predicate AreStates(states: seq<nat>) { forall i | 0 <= i < |states| :: states[i] <= 10 }

  /** The bits of a list of states, or-ed together. */
  function StateBits(states: seq<nat>): set<nat> { set s | s in states }

  predicate Distinct(s: seq<nat>) { forall i, j | 0 <= i < j < |s| :: s[i] != s[j] }

  /** The values of a list of items, if every item has one and no value occurs twice. */
  function ReadAll(items: seq<string>, read: string -> Option<nat>): (r: Option<seq<nat>>)
    ensures r.Some? ==> |r.value| == |items| && Distinct(r.value)
    ensures r.Some? ==> forall i | 0 <= i < |items| :: read(items[i]) == Some(r.value[i])
  {
    if items == [] then Some([])
    else
      var init := ReadAll(items[..|items| - 1], read);
      var last := read(items[|items| - 1]);
      if init.None? || last.None? || last.value in init.value then None
      else
        assert forall i | 0 <= i < |items| - 1 :: items[..|items| - 1][i] == items[i];
        Some(init.value + [last.value])
  }

  function ReadPorts(value: string): (r: Option<seq<nat>>)
    ensures r.Some? ==> 1 <= |r.value| <= 8
  {
    var r := ReadAll(Items(value, {','}), PortOf);
    if r.Some? && 1 <= |r.value| <= TSF_MAX_PORTS then r else None
  }

  function ReadStates(value: string): (r: Option<seq<nat>>)
  {
    ReadAll(Items(value, {','}), StateOf)
  }

  /** The field groups of a list of items, or-ed together. */
  function FieldBits(items: seq<string>): (r: Option<set<nat>>)
  {
    if items == [] then Some({})
    else
      var init := FieldBits(items[..|items| - 1]);
      var last := Lookup(FIELD_GROUPS, Lower(items[|items| - 1]));
      if init.None? || last.None? then None else Some(init.value + last.value)
  }

  function ReadFormat(value: string): (r: Option<nat>)
  {
    if Lower(value) == "compact" then Some(TSF_FORMAT_COMPACT)
    else if Lower(value) == "full" then Some(TSF_FORMAT_FULL)
    else None
  }

  function ReadAddr(dir: Direction, value: string): (r: Option<Directive>)
  {
    if ':' in value then
      var n := ParseV6(value);
      if n.None? then None else Some(Addr6(dir, n.value))
    else
      var n := ParseV4(value);
      if n.None? then None else Some(Addr4(dir, n.value))
  }

  /** A directive with a value. */
  function ReadKeyValue(key: string, value: string): (r: Option<Directive>)
  {
    if key == "exclude" then
      var ss := ReadStates(value);
      if ss.None? then None else Some(Exclude(ss.value))
    else if key == "include_state" then
      var ss := ReadStates(value);
      if ss.None? || ss.value == [] then None else Some(Include(ss.value))
    else if key == "local_port" || key == "remote_port" then
      var ps := ReadPorts(value);
      if ps.None? then None else Some(Ports(if key == "local_port" then Local else Remote, ps.value))
    else if key == "local_addr" || key == "remote_addr" then
      ReadAddr(if key == "local_addr" then Local else Remote, value)
    else if key == "format" then
      var n := ReadFormat(value);
      if n.None? then None else Some(Format(n.value))
    else if key == "fields" then
      var m := FieldBits(Items(value, {','}));
      if m.None? || m.value == {} then None else Some(FieldList(m.value))
    else None
  }

  function KeyOf(tok: string): string { Lower(tok[..Find(tok, {'='})]) }

  predicate HasValue(tok: string) { Find(tok, {'='}) < |tok| }

  function ValueOf(tok: string): string
    requires HasValue(tok)
  {
    tok[Find(tok, {'='}) + 1..]
  }

  /** One token as a directive. */
  function ParseToken(tok: string): (r: Option<Directive>)
  {
    if HasValue(tok) then
      (if ValueOf(tok) == "" then None else ReadKeyValue(KeyOf(tok), ValueOf(tok)))
    else if KeyOf(tok) == "ipv4_only" then Some(Ipv4Only)
    else if KeyOf(tok) == "ipv6_only" then Some(Ipv6Only)
    else None
  }

  // ---------------------------------------------------------------- adding a directive to the filter

  function Pad(ports: seq<nat>): (r: seq<nat>)
    requires |ports| <= 8
    ensures |r| == 8
  {
    ports + Zeros(8 - |ports|)
  }

  predicate IsDirective(d: Directive) {
    match d
    case Ports(_, ports) =>
      1 <= |ports| <= 8 && Distinct(ports) && forall i | 0 <= i < |ports| :: 1 <= ports[i] <= 65535
    case Exclude(states) => AreStates(states)
    case Include(states) => AreStates(states) && states != []
    case Addr4(_, n) => IsNet4(n)
    case Addr6(_, n) => IsNet6(n)
    case Format(n) => n <= 1
    case FieldList(m) => m != {} && m <= TSR_FIELDS_ALL
    case _ => true
  }

  /** Adds one directive; `None` when it clashes with what is already there. */
  function Apply(d: Directive, f: Filter): (r: Option<Filter>)
    requires IsDirective(d)
  {
    match d
    case Ipv4Only => Some(f.(flags := f.flags + {TSF_IPV4_ONLY}))
    case Ipv6Only => Some(f.(flags := f.flags + {TSF_IPV6_ONLY}))
    case Ports(dir, ports) =>
      if PortFlag(dir) in f.flags then None
      else Some(WithSide(f.(flags := f.flags + {PortFlag(dir)}), dir, SideOf(f, dir).(ports := Pad(ports))))
    case Exclude(states) =>
      if TSF_STATE_INCLUDE_MODE in f.flags then None
      else Some(f.(stateMask := f.stateMask - StateBits(states)))
    case Include(states) =>
      if f.stateMask != ALL_STATES || TSF_STATE_INCLUDE_MODE in f.flags then None
      else Some(f.(stateMask := StateBits(states), flags := f.flags + {TSF_STATE_INCLUDE_MODE}))
    case Addr4(dir, n) =>
      if AddrFlag(dir) in f.flags then None
      else Some(WithSide(f.(flags := f.flags + {AddrFlag(dir)}), dir,
                         SideOf(f, dir).(addr4 := n.addr, mask4 := Mask4(n.prefix))))
    case Addr6(dir, n) =>
      if AddrFlag(dir) in f.flags then None
      else Some(WithSide(f.(flags := f.flags + {AddrFlag(dir)}), dir,
                         SideOf(f, dir).(addr6 := n.addr, prefix6 := n.prefix)))
    case Format(n) => Some(f.(format := n))
    case FieldList(m) => Some(f.(fieldMask := m))
  }

  /** Reads a token and adds its directive. */
  function Step(tok: string, f: Filter): (r: Option<Filter>)
  {
    var d := ParseToken(tok);
    if d.None? then None
    else
      ParsedIsDirective(tok);
      Apply(d.value, f)
  }

  function Run(toks: seq<string>, f: Filter): (r: Option<Filter>)
  {
    if toks == [] then Some(f)
    else
      var g := Step(toks[0], f);
      if g.None? then None else Run(toks[1..], g.value)
  }

  /** The cross-directive check. */
  predicate Compatible(f: Filter) {
    && !(TSF_IPV4_ONLY in f.flags && TSF_IPV6_ONLY in f.flags)
    && !(TSF_LOCAL_ADDR_MATCH in f.flags && f.local.addr4 != 0 && TSF_IPV6_ONLY in f.flags)
    && !(TSF_REMOTE_ADDR_MATCH in f.flags && f.remote.addr4 != 0 && TSF_IPV6_ONLY in f.flags)
    && !(TSF_LOCAL_ADDR_MATCH in f.flags && f.local.addr6 != Zeros(16) && TSF_IPV4_ONLY in f.flags)
    && !(TSF_REMOTE_ADDR_MATCH in f.flags && f.remote.addr6 != Zeros(16) && TSF_IPV4_ONLY in f.flags)
  }

  predicate Printable(s: string) { forall i | 0 <= i < |s| :: s[i] == NUL || ' ' <= s[i] <= '~' }

  const BLANKS: set<char> := {' ', '\t'}

  /** The directives of a filter string: its pieces between blanks, up to the first NUL. */
  function Tokens(input: string): seq<string> { Items(Until(input), BLANKS) }

  /** What `tsf_parse_filter_string` makes of the first `len` bytes of its input. */
  function Compile(input: string): (r: Outcome)
  {
    if input == "" || input[0] == NUL then Compiled(DEFAULT_FILTER)
    else if |input| > TSF_PARSE_MAXLEN - 1 then Rejected(ENAMETOOLONG)
    else if !Printable(input) || |Tokens(input)| > TSF_PARSE_MAXDIRECTIVES then Rejected(EINVAL)
    else
      var f := Run(Tokens(input), DEFAULT_FILTER);
      if f.Some? && Compatible(f.value) then Compiled(f.value) else Rejected(EINVAL)
  }

  // ---------------------------------------------------------------- the keys

  function PortKey(dir: Direction): string { if dir == Local then "local_port" else "remote_port" }

  function AddrKey(dir: Direction): string { if dir == Local then "local_addr" else "remote_addr" }

  lemma PortKeyMeans(dir: Direction, value: string)
    ensures ReadKeyValue(PortKey(dir), value) ==
      var ps := ReadPorts(value); if ps.None? then None else Some(Ports(dir, ps.value))
  {
    hide ReadPorts;
  }

  lemma AddrKeyMeans(dir: Direction, value: string)
    ensures ReadKeyValue(AddrKey(dir), value) == ReadAddr(dir, value)
  {
    hide ReadAddr;
  }

  lemma StateKeysMean(value: string)
    ensures ReadKeyValue("exclude", value) ==
      var ss := ReadStates(value); if ss.None? then None else Some(Exclude(ss.value))
    ensures ReadKeyValue("include_state", value) ==
      var ss := ReadStates(value); if ss.None? || ss.value == [] then None else Some(Include(ss.value))
  {
    hide ReadStates;
  }

  lemma FieldsKeyMeans(value: string)
    ensures ReadKeyValue("fields", value) ==
      var m := FieldBits(Items(value, {','})); if m.None? || m.value == {} then None else Some(FieldList(m.value))
  {
    hide Items, FieldBits;
  }

  // ---------------------------------------------------------------- parsed directives are well formed

  lemma {:induction false} LookupIn<T>(table: seq<(string, T)>, name: string)
    ensures Lookup(table, name).Some? ==>
      exists i | 0 <= i < |table| :: table[i] == (name, Lookup(table, name).value)
  {
    if table != [] && table[0].0 != name {
      LookupIn(table[1..], name);
      if Lookup(table, name).Some? {
        var i :| 0 <= i < |table| - 1 && table[1..][i] == (name, Lookup(table, name).value);
        assert table[i + 1] == table[1..][i];
      }
    } else if table != [] {
      assert table[0] == (name, table[0].1);
    }
  }

  lemma StateInRange(name: string)
    ensures StateOf(name).Some? ==> StateOf(name).value <= 10
  {
    LookupIn(STATE_NAMES, Lower(name));
    assert forall i | 0 <= i < |STATE_NAMES| :: STATE_NAMES[i].1 <= 10;
  }

  lemma GroupInRange(name: string)
    ensures Lookup(FIELD_GROUPS, name).Some? ==> Lookup(FIELD_GROUPS, name).value <= TSR_FIELDS_ALL
  {
    LookupIn(FIELD_GROUPS, name);
    assert forall i | 0 <= i < |FIELD_GROUPS| :: FIELD_GROUPS[i].1 <= TSR_FIELDS_ALL;
  }

  lemma {:induction false} FieldBitsInRange(items: seq<string>)
    ensures FieldBits(items).Some? ==> FieldBits(items).value <= TSR_FIELDS_ALL
  {
    if items != [] {
      FieldBitsInRange(items[..|items| - 1]);
      GroupInRange(Lower(items[|items| - 1]));
    }
  }

  lemma ReadStatesInRange(value: string)
    ensures ReadStates(value).Some? ==> AreStates(ReadStates(value).value)
  {
    var items := Items(value, {','});
    forall i | 0 <= i < |items| ensures StateOf(items[i]).Some? ==> StateOf(items[i]).value <= 10 {
      StateInRange(items[i]);
    }
  }

  lemma KeyValueIsDirective(key: string, value: string)
    ensures ReadKeyValue(key, value).Some? ==> IsDirective(ReadKeyValue(key, value).value)
  {
    if key == "exclude" || key == "include_state" {
      ReadStatesInRange(value);
    } else if key == "fields" {
      FieldBitsInRange(Items(value, {','}));
    } else if key == "local_addr" || key == "remote_addr" {
      AddrIsDirective(if key == "local_addr" then Local else Remote, value);
    }
  }

  lemma ParsedIsDirective(tok: string)
    ensures ParseToken(tok).Some? ==> IsDirective(ParseToken(tok).value)
  {
    hide ReadKeyValue;
    if HasValue(tok) { KeyValueIsDirective(KeyOf(tok), ValueOf(tok)); }
  }

  lemma AddrIsDirective(dir: Direction, value: string)
    ensures ReadAddr(dir, value).Some? ==> IsDirective(ReadAddr(dir, value).value)
  {
    if ParseV4(value).Some? { V4Exact(value, ParseV4(value).value); }
  }
}
