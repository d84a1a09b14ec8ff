/**
 The macOS reader of `pcblist_n`: a stream of tagged records, grouped into one connection per socket record.
 */
module Pcblist {
  import opened Text
  import opened Bits
  import opened Cidr
  import opened Ipv6
  import opened Record
  import opened Kld

  const XSO_SOCKET: nat := 0x001
  const XSO_RCVBUF: nat := 0x002
  const XSO_SNDBUF: nat := 0x004
  const XSO_STATS: nat := 0x008
  const XSO_INPCB: nat := 0x010
  const XSO_TCPCB: nat := 0x020

  const TAG_HEADER_SIZE: nat := 8
  const VFLAG_OFFSET: nat := 44
  // ---------------------------------------------------------------- the fields of a record body

  /** How the bytes of a field are read; ticks are shifted and converted to microseconds. */
  datatype How = Unsigned | SignedInt | BigEndian | Array | Ticks(shift: nat)

  datatype Field =
    | SocketId | Uid | Pid | EffectivePid | RcvBufUsed | RcvBufHiwat | SndBufUsed | SndBufHiwat | LocalAddr
    | RemoteAddr | LocalPort | RemotePort | InpGencnt | State | RxtShift | TcpFlags | SndCwnd | SndSsthresh
    | Maxseg | RttUs | RttvarUs | RtoUs | SndNxt | SndUna | SndMax | RcvNxt | RcvAdv | SndWnd | RcvWnd
    | SndWscale | RcvWscale | Dupacks | StartTimeSecs | IpVersion

  datatype Rule = Rule(field: Field, off: nat, width: nat, how: How)

  datatype FieldValue = Num(n: int) | Octets(bytes: seq<nat>)

  /** The fields that have been read. */
  type Fields = map<Field, FieldValue>

  const SOCKET_RULES: seq<Rule> := [
    Rule(SocketId, 8, 8, Unsigned), Rule(Uid, 36, 4, Unsigned), Rule(Pid, 68, 4, SignedInt),
    Rule(EffectivePid, 72, 4, SignedInt)]

  const RCVBUF_RULES: seq<Rule> := [Rule(RcvBufUsed, 0, 4, Unsigned), Rule(RcvBufHiwat, 4, 4, Unsigned)]

  const SNDBUF_RULES: seq<Rule> := [Rule(SndBufUsed, 0, 4, Unsigned), Rule(SndBufHiwat, 4, 4, Unsigned)]

  const V6_RULES: seq<Rule> := [Rule(LocalAddr, 48, 16, Array), Rule(RemoteAddr, 32, 16, Array)]

  const V4_RULES: seq<Rule> := [Rule(LocalAddr, 84, 4, Array), Rule(RemoteAddr, 80, 4, Array)]

  const INPCB_RULES: seq<Rule> := [
    Rule(LocalPort, 72, 2, BigEndian), Rule(RemotePort, 70, 2, BigEndian), Rule(InpGencnt, 104, 8, Unsigned)]

  const TCB_STATE_RULES: seq<Rule> := [
    Rule(State, 0, 4, SignedInt), Rule(RxtShift, 4, 4, Unsigned), Rule(TcpFlags, 8, 4, Unsigned),
    Rule(SndCwnd, 12, 4, Unsigned), Rule(SndSsthresh, 16, 4, Unsigned), Rule(Maxseg, 20, 4, Unsigned)]

  const TCB_TIME_RULES: seq<Rule> := [
    Rule(RttUs, 24, 4, Ticks(3)), Rule(RttvarUs, 28, 4, Ticks(2)), Rule(RtoUs, 72, 4, Ticks(0))]

  const TCB_SEQUENCE_RULES: seq<Rule> := [
    Rule(SndNxt, 32, 4, Unsigned), Rule(SndUna, 36, 4, Unsigned), Rule(SndMax, 40, 4, Unsigned),
    Rule(RcvNxt, 44, 4, Unsigned), Rule(RcvAdv, 48, 4, Unsigned), Rule(SndWnd, 52, 4, Unsigned),
    Rule(RcvWnd, 56, 4, Unsigned)]

  const TCB_OTHER_RULES: seq<Rule> := [
    Rule(SndWscale, 60, 1, Unsigned), Rule(RcvWscale, 61, 1, Unsigned), Rule(Dupacks, 64, 4, Unsigned),
    Rule(StartTimeSecs, 68, 4, Unsigned)]

  const TCPCB_RULES: seq<Rule> := TCB_STATE_RULES + TCB_TIME_RULES + TCB_SEQUENCE_RULES + TCB_OTHER_RULES

  /** The length test of a rule.  A field of more than one byte is read only if at least one byte follows it. */
  predicate Applies(r: Rule, body: seq<nat>, hz: int) {
    |body| > r.off + (if r.width == 1 then 0 else r.width) && (r.how.Ticks? ==> hz > 0)
  }

  function ReadField(r: Rule, body: seq<nat>, hz: int): FieldValue
    requires Applies(r, body, hz)
  {
    var bs := body[r.off..r.off + r.width];
    match r.how
    case Unsigned => Num(FromLe(bs))
    case SignedInt => Num(Signed(bs))
    case BigEndian => Num(Value(bs))
    case Array => Octets(bs)
    case Ticks(k) => Num(Shr(FromLe(bs), k) * 1_000_000 / hz % 0x1_0000_0000)
  }

  function ApplyRule(r: Rule, rec: Fields, body: seq<nat>, hz: int): Fields {
    if Applies(r, body, hz) then rec[r.field := ReadField(r, body, hz)] else rec
  }

  function ApplyRules(rules: seq<Rule>, rec: Fields, body: seq<nat>, hz: int): Fields {
    if rules == [] then rec
    else ApplyRule(rules[|rules| - 1], ApplyRules(rules[..|rules| - 1], rec, body, hz), body, hz)
  }

  function VersionFields(rec: Fields, body: seq<nat>, hz: int): Fields
    requires |body| > VFLAG_OFFSET
  {
    var vflag := body[VFLAG_OFFSET];
    if vflag / 2 % 2 == 1 then ApplyRules(V6_RULES, rec[IpVersion := Num(6)], body, hz)
    else if vflag % 2 == 1 then ApplyRules(V4_RULES, rec[IpVersion := Num(4)], body, hz)
    else rec
  }

  datatype Item = Item(kind: nat, body: seq<nat>)

  /** What one tagged record adds to the connection it belongs to. */
  function Absorb(rec: Fields, x: Item, hz: int): Fields {
    if x.kind == XSO_SOCKET then ApplyRules(SOCKET_RULES, rec, x.body, hz)
    else if x.kind == XSO_RCVBUF then ApplyRules(RCVBUF_RULES, rec, x.body, hz)
    else if x.kind == XSO_SNDBUF then ApplyRules(SNDBUF_RULES, rec, x.body, hz)
    else if x.kind == XSO_INPCB then
      if |x.body| <= VFLAG_OFFSET then rec
      else ApplyRules(INPCB_RULES, VersionFields(rec, x.body, hz), x.body, hz)
    else if x.kind == XSO_TCPCB then ApplyRules(TCPCB_RULES, rec, x.body, hz)
    else rec
  }

  // ---------------------------------------------------------------- grouping

  /** A group starts at each socket record; records before the first one belong to none. */
  function Groups(items: seq<Item>): (gs: seq<seq<Item>>)
  {
    if items == [] then []
    else
      var gs, x := Groups(items[..|items| - 1]), items[|items| - 1];
      if x.kind == XSO_SOCKET then gs + [[x]]
      else if gs == [] then []
      else gs[|gs| - 1 := gs[|gs| - 1] + [x]]
  }

  function Fold(group: seq<Item>, hz: int): Fields {
    if group == [] then map[] else Absorb(Fold(group[..|group| - 1], hz), group[|group| - 1], hz)
  }

  /** One connection per group. */
  function Connections(items: seq<Item>, hz: int): (r: seq<Fields>)
    ensures |r| == |Groups(items)|
  {
    seq(|Groups(items)|, i requires 0 <= i < |Groups(items)| => Fold(Groups(items)[i], hz))
  }

  function Flat(gs: seq<seq<Item>>): seq<Item> { if gs == [] then [] else Flat(gs[..|gs| - 1]) + gs[|gs| - 1] }

  function FirstSocket(items: seq<Item>): (i: nat)
    ensures i <= |items| && (i < |items| ==> items[i].kind == XSO_SOCKET)
    ensures forall k | 0 <= k < i :: items[k].kind != XSO_SOCKET
  {
    if items == [] || items[0].kind == XSO_SOCKET then 0 else 1 + FirstSocket(items[1..])
  }

  predicate IsGroup(g: seq<Item>) {
    g != [] && g[0].kind == XSO_SOCKET && forall k | 0 < k < |g| :: g[k].kind != XSO_SOCKET
  }

  lemma FlatSnoc(gs: seq<seq<Item>>, g: seq<Item>)
    ensures Flat(gs + [g]) == Flat(gs) + g
  {
    assert (gs + [g])[..|gs|] == gs;
  }

  lemma FlatLast(gs: seq<seq<Item>>, x: Item)
    requires gs != []
    ensures Flat(gs[|gs| - 1 := gs[|gs| - 1] + [x]]) == Flat(gs) + [x]
  {
    var n := |gs| - 1;
    assert gs[n := gs[n] + [x]][..n] == gs[..n];
    Assoc(Flat(gs[..n]), gs[n], [x]);
  }

  lemma FirstUnique(items: seq<Item>, i: nat)
    requires i <= |items| && (i < |items| ==> items[i].kind == XSO_SOCKET)
    requires forall k | 0 <= k < i :: items[k].kind != XSO_SOCKET
    ensures FirstSocket(items) == i
  {
    hide FirstSocket;
  }

  lemma FirstSocketSnoc(init: seq<Item>, x: Item)
    ensures FirstSocket(init + [x]) ==
      if FirstSocket(init) < |init| || x.kind == XSO_SOCKET then FirstSocket(init) else |init| + 1
  {
    hide FirstSocket;
    var found := FirstSocket(init) < |init| || x.kind == XSO_SOCKET;
    FirstUnique(init + [x], if found then FirstSocket(init) else |init| + 1);
  }

  /** The groups are the stream from its first socket record on, cut before every socket record. */
  lemma GroupsCut(items: seq<Item>)
    ensures Flat(Groups(items)) == items[FirstSocket(items)..]
    ensures forall i | 0 <= i < |Groups(items)| :: IsGroup(Groups(items)[i])
  {
    GroupsFlat(items);
    GroupsAreGroups(items);
  }

  lemma {:induction false} GroupsAreGroups(items: seq<Item>)
    ensures forall i | 0 <= i < |Groups(items)| :: IsGroup(Groups(items)[i])
  {
    if items != [] { GroupsAreGroups(items[..|items| - 1]); }
  }

  lemma {:induction false} GroupsFlat(items: seq<Item>)
    ensures Flat(Groups(items)) == items[FirstSocket(items)..]
  {
    hide FirstSocket, Flat;
    if items == [] {
      NoItems();
    } else {
      var init, x := items[..|items| - 1], items[|items| - 1];
      GroupsFlat(init);
      FirstSocketSnoc(init, x);
      assert items == init + [x];
      var gs := Groups(init);
      if x.kind == XSO_SOCKET {
        FlatSnoc(gs, [x]);
      } else if gs != [] {
        FlatLast(gs, x);
        GroupsSome(init);
      } else {
        NoItems();
      }
    }
  }

  lemma NoItems()
    ensures Flat([]) == []
  {
  }

  lemma {:induction false} GroupsSome(items: seq<Item>)
    ensures Groups(items) != [] <==> FirstSocket(items) < |items|
  {
    hide FirstSocket;
    if items != [] {
      var init, x := items[..|items| - 1], items[|items| - 1];
      GroupsSome(init);
      FirstSocketSnoc(init, x);
      assert items == init + [x];
    }
  }

  /** One connection for every socket record. */
  function Sockets(items: seq<Item>): nat {
    if items == [] then 0 else Sockets(items[..|items| - 1]) + (if items[|items| - 1].kind == XSO_SOCKET then 1 else 0)
  }

  lemma {:induction false} OnePerSocket(items: seq<Item>, hz: int)
    ensures |Connections(items, hz)| == Sockets(items)
  {
    if items != [] {
      OnePerSocket(items[..|items| - 1], hz);
      NoSocketNoGroup(items[..|items| - 1]);
    }
  }

  lemma {:induction false} NoSocketNoGroup(items: seq<Item>)
    ensures |Groups(items)| == Sockets(items)
  {
    if items != [] { NoSocketNoGroup(items[..|items| - 1]); }
  }

  /** How one more record changes the connections. */
  lemma ConnectionsSnoc(items: seq<Item>, x: Item, hz: int)
    ensures var cs := Connections(items, hz);
      Connections(items + [x], hz) ==
        if x.kind == XSO_SOCKET then cs + [Absorb(map[], x, hz)]
        else if cs == [] then []
        else cs[|cs| - 1 := Absorb(cs[|cs| - 1], x, hz)]
  {
    hide Absorb;
    var gs, hs := Groups(items), Groups(items + [x]);
    assert (items + [x])[..|items|] == items;
    if x.kind == XSO_SOCKET {
      assert hs == gs + [[x]] && [x][..0] == [];
      assert Fold([x], hz) == Absorb(map[], x, hz);
    } else if gs != [] {
      var g := gs[|gs| - 1];
      assert (g + [x])[..|g|] == g;
    }
  }

  predicate Unknown(kind: nat) {
    kind !in {XSO_SOCKET, XSO_RCVBUF, XSO_SNDBUF, XSO_INPCB, XSO_TCPCB}
  }

  /** Records of an unknown kind may stand anywhere in the stream without changing anything. */
  lemma {:induction false} UnknownIgnored(before: seq<Item>, x: Item, after: seq<Item>, hz: int)
    requires Unknown(x.kind)
    ensures Connections(before + [x] + after, hz) == Connections(before + after, hz)
    decreases |after|
  {
    hide Connections;
    if after == [] {
      ConnectionsSnoc(before, x, hz);
      assert before + [x] + after == before + [x] && before + after == before;
    } else {
      var init, y := after[..|after| - 1], after[|after| - 1];
      UnknownIgnored(before, x, init, hz);
      assert before + [x] + after == before + [x] + init + [y] && before + after == before + init + [y];
      ConnectionsSnoc(before + [x] + init, y, hz);
      ConnectionsSnoc(before + init, y, hz);
    }
  }

  // ---------------------------------------------------------------- the meaning of a length test

  /** No rule from `i` on is about that field. */
  predicate NoneFrom(rules: seq<Rule>, i: nat, x: Field) { forall j | i <= j < |rules| :: rules[j].field != x }

  lemma {:induction false} RuleSets(rules: seq<Rule>, rec: Fields, body: seq<nat>, hz: int, i: nat)
    requires i < |rules| && Applies(rules[i], body, hz) && NoneFrom(rules, i + 1, rules[i].field)
    ensures var out := ApplyRules(rules, rec, body, hz);
      rules[i].field in out && out[rules[i].field] == ReadField(rules[i], body, hz)
  {
    hide Applies, ReadField;
    var n := |rules| - 1;
    if i < n {
      assert rules[n].field != rules[i].field;
      RuleSets(rules[..n], rec, body, hz, i);
    }
  }

  lemma {:induction false} RuleKeeps(rules: seq<Rule>, rec: Fields, body: seq<nat>, hz: int, x: Field)
    requires forall i | 0 <= i < |rules| :: rules[i].field == x ==> !Applies(rules[i], body, hz)
    ensures var out := ApplyRules(rules, rec, body, hz);
      (x in out <==> x in rec) && (x in rec ==> out[x] == rec[x])
  {
    hide Applies, ReadField;
    if rules != [] { RuleKeeps(rules[..|rules| - 1], rec, body, hz, x); }
  }

  /** A body sets exactly the fields whose length test it passes, each to what its bytes say; the other fields stay. */
  lemma RuleEffect(rules: seq<Rule>, rec: Fields, body: seq<nat>, hz: int)
    ensures var out := ApplyRules(rules, rec, body, hz);
      && (forall i | 0 <= i < |rules| && Applies(rules[i], body, hz) && NoneFrom(rules, i + 1, rules[i].field) ::
            rules[i].field in out && out[rules[i].field] == ReadField(rules[i], body, hz))
      && (forall x | (forall i | 0 <= i < |rules| :: rules[i].field == x ==> !Applies(rules[i], body, hz)) ::
            (x in out <==> x in rec) && (x in rec ==> out[x] == rec[x]))
  {
    hide Applies, ReadField, ApplyRules, NoneFrom;
    var out := ApplyRules(rules, rec, body, hz);
    forall i | 0 <= i < |rules| && Applies(rules[i], body, hz) && NoneFrom(rules, i + 1, rules[i].field)
      ensures rules[i].field in out && out[rules[i].field] == ReadField(rules[i], body, hz)
    {
      RuleSets(rules, rec, body, hz, i);
    }
    forall x | (forall i | 0 <= i < |rules| :: rules[i].field == x ==> !Applies(rules[i], body, hz))
      ensures (x in out <==> x in rec) && (x in rec ==> out[x] == rec[x])
    {
      RuleKeeps(rules, rec, body, hz, x);
    }
  }

  /** A body that ends with the last byte of a field of several bytes does not set it, although it has all its bytes. */
  lemma StrictLength(r: Rule, body: seq<nat>, hz: int)
    requires hz > 0
    ensures (Applies(r, body, hz) <==> |body| >= r.off + r.width) <==> r.width == 1 || |body| != r.off + r.width
  {
  }

  // ---------------------------------------------------------------- the byte stream

  function Round8(n: nat): (m: nat)
    ensures n <= m < n + 8 && m % 8 == 0
  {
    (n + 7) / 8 * 8
  }

  /** The bytes from `pos` on, none beyond the end. */
  function From(buf: seq<nat>, pos: nat): seq<nat> { if pos <= |buf| then buf[pos..] else [] }

  datatype End = Clean | CutShort | TooSmall

  /** The tagged records of a buffer, and how it ends: at a zero length or kind or too few bytes for a header; at a
      record that reaches beyond the buffer; or at one shorter than its own header, where slicing its body panics. */
  function Stream(b: seq<nat>): (r: (seq<Item>, End))
    decreases |b|
  {
    if |b| < TAG_HEADER_SIZE then ([], Clean)
    else
      var len, kind := FromLe(b[..4]), FromLe(b[4..8]);
      if len == 0 || kind == 0 then ([], Clean)
      else if len > |b| then ([], CutShort)
      else if len < TAG_HEADER_SIZE then ([], TooSmall)
      else
        var rest := Stream(From(b, Round8(len)));
        ([Item(kind, b[8..len])] + rest.0, rest.1)
  }

  datatype Outcome = Decoded(connections: seq<Fields>) | Truncated | BadHeader | Panicked

  /** `parse_pcblist_n`: the header is skipped, and any bad record spoils the whole result. */
  function ParsePcblist(buf: seq<nat>, hz: int): (r: Outcome)
  {
    if |buf| < 4 then Truncated
    else
      var header := FromLe(buf[..4]);
      if header == 0 || header > |buf| then BadHeader
      else
        var s := Stream(From(buf, Round8(header)));
        match s.1
        case Clean => Decoded(Connections(s.0, hz))
        case CutShort => Truncated
        case TooSmall => Panicked
  }

  /** One tagged record as the kernel writes it, padded to eight bytes. */
  function Encode(x: Item): (b: seq<nat>) {
    var len := TAG_HEADER_SIZE + |x.body|;
    Le(len, 4) + Le(x.kind, 4) + x.body + Zeros(Round8(len) - len)
  }

  function EncodeAll(items: seq<Item>): seq<nat> {
    if items == [] then [] else Encode(items[0]) + EncodeAll(items[1..])
  }

  predicate IsItem(x: Item) { 1 <= x.kind < 0x1_0000_0000 && TAG_HEADER_SIZE + |x.body| < 0x1_0000_0000 }

  /** What ends a stream: too few bytes for a header, or a zero length or kind. */
  predicate IsTrailer(t: seq<nat>) {
    |t| < TAG_HEADER_SIZE || FromLe(t[..4]) == 0 || FromLe(t[4..8]) == 0
  }

  lemma StreamOfItem(x: Item, rest: seq<nat>)
    requires IsItem(x)
    ensures Stream(Encode(x) + rest) == ([x] + Stream(rest).0, Stream(rest).1)
  {
    hide FromLe, Le, Stream;
    var len := TAG_HEADER_SIZE + |x.body|;
    var b := Encode(x) + rest;
    Bounds();
    LeRoundTrip(len, 4);
    LeRoundTrip(x.kind, 4);
    assert b[..4] == Le(len, 4) && b[4..8] == Le(x.kind, 4) && b[8..len] == x.body;
    assert |Encode(x)| == Round8(len) && b[Round8(len)..] == rest;
    StreamStep(b);
  }

  lemma StreamStep(b: seq<nat>)
    requires |b| >= TAG_HEADER_SIZE && FromLe(b[4..8]) != 0 && TAG_HEADER_SIZE <= FromLe(b[..4]) <= |b|
    requires Round8(FromLe(b[..4])) <= |b|
    ensures var len := FromLe(b[..4]); var rest := Stream(b[Round8(len)..]);
      Stream(b) == ([Item(FromLe(b[4..8]), b[8..len])] + rest.0, rest.1)
  {
    hide FromLe, Round8;
  }

  /** Whatever records are written, they are read as those records, and then the rest is read. */
  lemma {:induction false} StreamOfItems(items: seq<Item>, rest: seq<nat>)
    requires forall i | 0 <= i < |items| :: IsItem(items[i])
    ensures Stream(EncodeAll(items) + rest) == (items + Stream(rest).0, Stream(rest).1)
  {
    hide Encode, Stream;
    if items == [] {
      assert [] + rest == rest && [] + Stream(rest).0 == Stream(rest).0;
    } else {
      StreamOfItems(items[1..], rest);
      assert EncodeAll(items) + rest == Encode(items[0]) + (EncodeAll(items[1..]) + rest);
      StreamOfItem(items[0], EncodeAll(items[1..]) + rest);
      assert items == [items[0]] + items[1..];
      Assoc([items[0]], items[1..], Stream(rest).0);
    }
  }

  predicate IsHeader(header: seq<nat>) {
    |header| % 8 == 0 && |header| >= 4 && 1 <= FromLe(header[..4]) && Round8(FromLe(header[..4])) == |header|
  }

  /** What the reader makes of a header, some records and a rest. */
  lemma ReadsRecordsThenRest(header: seq<nat>, items: seq<Item>, rest: seq<nat>, hz: int)
    requires (forall i | 0 <= i < |items| :: IsItem(items[i])) && IsHeader(header)
    ensures ParsePcblist(header + EncodeAll(items) + rest, hz) ==
      match Stream(rest).1
      case Clean => Decoded(Connections(items + Stream(rest).0, hz))
      case CutShort => Truncated
      case TooSmall => Panicked
  {
    hide FromLe, Stream, Connections, EncodeAll, IsItem;
    var tail := EncodeAll(items) + rest;
    var buf := header + EncodeAll(items) + rest;
    StreamOfItems(items, rest);
    assert buf == header + tail;
    assert buf[..4] == header[..4] && buf[|header|..] == tail;
  }

  /** One bad record after any records spoils the whole result: one that is said to be longer than what is left of the
      buffer is an error, and one that is said to be shorter than its own header makes the reader panic. */
  lemma BadRecordSpoils(header: seq<nat>, items: seq<Item>, bad: seq<nat>, hz: int)
    requires (forall i | 0 <= i < |items| :: IsItem(items[i])) && IsHeader(header)
    requires |bad| >= 8 && FromLe(bad[4..8]) != 0
    ensures FromLe(bad[..4]) > |bad| ==> ParsePcblist(header + EncodeAll(items) + bad, hz) == Truncated
    ensures 1 <= FromLe(bad[..4]) <= 7 ==> ParsePcblist(header + EncodeAll(items) + bad, hz) == Panicked
  {
    hide FromLe, Connections, EncodeAll, IsItem, IsHeader, ParsePcblist;
    ReadsRecordsThenRest(header, items, bad, hz);
  }

  /** The reader returns one connection per group of the records that were written. */
  lemma ReadsWhatWasWritten(header: seq<nat>, items: seq<Item>, trailer: seq<nat>, hz: int)
    requires (forall i | 0 <= i < |items| :: IsItem(items[i])) && IsTrailer(trailer) && IsHeader(header)
    ensures ParsePcblist(header + EncodeAll(items) + trailer, hz) == Decoded(Connections(items, hz))
  {
    hide FromLe, Connections, EncodeAll, IsItem, IsHeader, ParsePcblist;
    ReadsRecordsThenRest(header, items, trailer, hz);
    assert items + [] == items;
  }

  // ---------------------------------------------------------------- the reader

  /** `ConnectionAccumulator`. */
  class Accumulator {
    var rec: Fields
    var hasSocket: bool

    constructor ()
      ensures rec == map[] && !hasSocket
    {
      rec, hasSocket := map[], false;
    }

    /** The length-guarded reads of one record body, one rule after the other. */
    method Read(rules: seq<Rule>, body: seq<nat>, hz: int)
      modifies this`rec
      ensures rec == ApplyRules(rules, old(rec), body, hz)
    {
      var i := 0;
      while i < |rules|
        invariant i <= |rules| && rec == ApplyRules(rules[..i], old(rec), body, hz)
      {
        var r := rules[i];
        assert rules[..i + 1][..i] == rules[..i];
        if Applies(r, body, hz) { rec := rec[r.field := ReadField(r, body, hz)]; }
        i := i + 1;
      }
      assert rules[..i] == rules;
    }

    method ParseXInpcb(body: seq<nat>, hz: int)
      modifies this`rec
      ensures rec == Absorb(old(rec), Item(XSO_INPCB, body), hz)
    {
      if |body| <= VFLAG_OFFSET { return; }
      var vflag := body[VFLAG_OFFSET];
      if vflag / 2 % 2 == 1 {
        rec := rec[IpVersion := Num(6)];
        Read(V6_RULES, body, hz);
      } else if vflag % 2 == 1 {
        rec := rec[IpVersion := Num(4)];
        Read(V4_RULES, body, hz);
      }
      Read(INPCB_RULES, body, hz);
    }

    /** The dispatch on the kind, except that of a socket record. */
    method Take(x: Item, hz: int)
      requires x.kind != XSO_SOCKET
      modifies this`rec
      ensures rec == Absorb(old(rec), x, hz)
    {
      if x.kind == XSO_RCVBUF {
        Read(RCVBUF_RULES, x.body, hz);
      } else if x.kind == XSO_SNDBUF {
        Read(SNDBUF_RULES, x.body, hz);
      } else if x.kind == XSO_INPCB {
        ParseXInpcb(x.body, hz);
      } else if x.kind == XSO_TCPCB {
        Read(TCPCB_RULES, x.body, hz);
      }
    }

    method ParseXSocket(body: seq<nat>, hz: int)
      requires rec == map[]
      modifies this
      ensures hasSocket && rec == Absorb(map[], Item(XSO_SOCKET, body), hz)
    {
      hasSocket := true;
      Read(SOCKET_RULES, body, hz);
    }

    /** `build`: nothing without a socket record. */
    function Build(): seq<Fields>
      reads this
    {
      if hasSocket then [rec] else []
    }
  }

  /** The loop invariant: the finished connections and the one being accumulated are those of the records so far. */
  predicate Collected(records: seq<Fields>, last: seq<Fields>, items: seq<Item>, hz: int) {
    records + last == Connections(items, hz) && |last| <= 1 && (last == [] ==> records == [])
  }

  /** One tagged record: a socket record starts a new connection, any other adds to the current one. */
  method Dispatch(records: seq<Fields>, acc: Accumulator, x: Item, hz: int, ghost items: seq<Item>)
    returns (records': seq<Fields>, acc': Accumulator)
    requires Collected(records, acc.Build(), items, hz)
    modifies acc
    ensures Collected(records', acc'.Build(), items + [x], hz)
    ensures acc' == acc || fresh(acc')
  {
    hide Connections, Absorb;
    ConnectionsSnoc(items, x, hz);
    if x.kind == XSO_SOCKET {
      records' := records + acc.Build();
      acc' := new Accumulator();
      acc'.ParseXSocket(x.body, hz);
    } else {
      acc.Take(x, hz);
      records', acc' := records, acc;
    }
  }

  lemma HeadAt(buf: seq<nat>, pos: nat)
    requires pos + TAG_HEADER_SIZE <= |buf|
    ensures var b := buf[pos..]; b[..4] == buf[pos..pos + 4] && b[4..8] == buf[pos + 4..pos + 8]
  {
  }

  /** The loop over the tagged records.  It ends for every buffer. */
  method ReadStream(buf: seq<nat>, start: nat, hz: int) returns (end: End, connections: seq<Fields>)
    ensures end == Stream(From(buf, start)).1
    ensures end == Clean ==> connections == Connections(Stream(From(buf, start)).0, hz)
  {
    hide FromLe, Connections, Absorb, Stream, Collected, Round8, Groups;
    var records: seq<Fields> := [];
    var pos := start;
    var acc := new Accumulator();
    ghost var items: seq<Item> := [];
    ghost var whole, rest := Stream(From(buf, start)), Stream(From(buf, start));
    NoConnections(hz);
    AddEmpty(rest.0);
    while pos + TAG_HEADER_SIZE <= |buf|
      invariant Collected(records, acc.Build(), items, hz)
      invariant rest == Stream(From(buf, pos)) && whole.0 == items + rest.0 && whole.1 == rest.1
      invariant fresh(acc)
      decreases |buf| - pos
    {
      ghost var b := buf[pos..];
      HeadAt(buf, pos);
      var recLen, recKind := FromLe(buf[pos..pos + 4]), FromLe(buf[pos + 4..pos + 8]);
      StreamHead(b);
      if recLen == 0 || recKind == 0 { break; }
      var recEnd := pos + recLen;
      if recEnd > |buf| { return CutShort, []; }
      if recLen < TAG_HEADER_SIZE { return TooSmall, []; }
      var x := Item(recKind, buf[pos + TAG_HEADER_SIZE..recEnd]);
      assert b[8..recLen] == x.body;
      records, acc := Dispatch(records, acc, x, hz, items);
      rest := Stream(From(b, Round8(recLen)));
      Assoc(items, [x], rest.0);
      assert From(b, Round8(recLen)) == From(buf, pos + Round8(recLen));
      items := items + [x];
      pos := pos + Round8(recLen);
    }
    if pos + TAG_HEADER_SIZE > |buf| { StreamTooShort(From(buf, pos)); }
    AddEmpty(items);
    CollectedAll(records, acc.Build(), items, hz);
    end, connections := Clean, records + acc.Build();
  }

  /** The parser. */
  method ParsePcblistN(buf: seq<nat>, hz: int) returns (r: Outcome)
    ensures r == ParsePcblist(buf, hz)
  {
    hide FromLe, Connections, Stream, Round8;
    if |buf| < 4 { return Truncated; }
    var headerLen := FromLe(buf[..4]);
    if headerLen == 0 || headerLen > |buf| { return BadHeader; }
    var end, connections := ReadStream(buf, Round8(headerLen), hz);
    match end
    case Clean => r := Decoded(connections);
    case CutShort => r := Truncated;
    case TooSmall => r := Panicked;
  }

  lemma NoConnections(hz: int)
    ensures Connections([], hz) == [] && Collected([], [], [], hz)
  {
  }

  lemma CollectedAll(records: seq<Fields>, last: seq<Fields>, items: seq<Item>, hz: int)
    requires Collected(records, last, items, hz)
    ensures records + last == Connections(items, hz)
  {
  }

  lemma StreamTooShort(b: seq<nat>)
    requires |b| < TAG_HEADER_SIZE
    ensures Stream(b) == ([], Clean)
  {
  }

  /** The first record of a stream. */
  lemma StreamHead(b: seq<nat>)
    requires |b| >= TAG_HEADER_SIZE
    ensures var len, kind := FromLe(b[..4]), FromLe(b[4..8]);
      Stream(b) ==
        if len == 0 || kind == 0 then ([], Clean)
        else if len > |b| then ([], CutShort)
        else if len < TAG_HEADER_SIZE then ([], TooSmall)
        else
          var rest := Stream(From(b, Round8(len)));
          ([Item(kind, b[8..len])] + rest.0, rest.1)
  {
  }
}
