/**
 IPv6 text: `tsf_parse_ipv6_addr` with its in-place expansion of `::`.

 Every text of form 1 (eight groups) and form 2 (`pre::post`) of section 2.2 of RFC 4291 is read as exactly its
 128-bit value.  The parser also accepts texts that are neither; `Ipv6Exact` says exactly when it reads one of the two.
 */
module Ipv6 {
  import opened Text
  import opened Numbers
  import opened Bits
  import opened Cidr
  import opened Ipv4

  datatype Net6 = Net6(addr: seq<nat>, prefix: nat)

  predicate IsNet6(n: Net6) {
    IsAddr6(n.addr) && n.prefix <= 128 && (n.prefix == 0 || Low(Value(n.addr), 128 - n.prefix) == 0)
  }

  predicate IsHex(c: char) { var l := ToLower(c); IsDigit(l) || 'a' <= l <= 'f' }

  function HexDigit(c: char): (d: nat)
    requires IsHex(c)
    ensures d < 16
  {
    var l := ToLower(c);
    if IsDigit(l) then DigitVal(l) else l as int - 'a' as int + 10
  }

  predicate AllHex(s: string) { forall i | 0 <= i < |s| :: IsHex(s[i]) }

  function HexVal(s: string): nat
    requires AllHex(s)
  {
    if s == "" then 0 else HexVal(s[..|s| - 1]) * 16 + HexDigit(s[|s| - 1])
  }

  /** A group text: one to four hexadecimal digits, of either case. */
  predicate IsGroup(g: string) { 1 <= |g| <= 4 && AllHex(g) }

  /** How far the group loop reads: to a colon, a slash or the end, and no more than four characters. */
  function RunLength(s: string): (k: nat)
    ensures k <= |s| && k <= 4
  {
    var i := Find(s, {':', '/'});
    if i < 4 then i else 4
  }

  /** The groups read from `s` after those in `groups`, and the group index of `::` if there is one. */
  function Scan(s: string, groups: seq<nat>, gap: Option<nat>): (r: Option<(seq<nat>, Option<nat>)>)
    decreases |s|
  {
    if s == "" || |groups| >= 8 then Some((groups, gap))
    else if |s| >= 2 && s[0] == ':' && s[1] == ':' then
      if gap.Some? then None else Scan(s[2..], groups, Some(|groups|))
    else if s[0] == ':' && groups == [] && gap.None? then None
    else
      var rest := if s[0] == ':' then s[1..] else s;
      var k := RunLength(rest);
      if IsGroup(rest[..k]) then Scan(rest[k..], groups + [HexVal(rest[..k])], gap) else None
  }

  function Zeros(n: nat): (z: seq<nat>)
    ensures |z| == n && forall i | 0 <= i < n :: z[i] == 0
  {
    seq(n, i => 0)
  }

  /** Fills the gap with zero groups; without a gap there must be eight groups. */
  function Expand(groups: seq<nat>, gap: Option<nat>): (r: Option<seq<nat>>)
    requires gap.Some? ==> gap.value <= |groups|
    ensures r.Some? ==> |r.value| == 8
  {
    match gap
    case None => if |groups| == 8 then Some(groups) else None
    case Some(d) => if |groups| > 7 then None else Some(groups[..d] + Zeros(8 - |groups|) + groups[d..])
  }

  function GroupBytes(gs: seq<nat>): (bs: seq<nat>)
    ensures |bs| == 2 * |gs| && IsBytes(bs)
  {
    if gs == [] then [] else GroupBytes(gs[..|gs| - 1]) + [gs[|gs| - 1] / 256 % 256, gs[|gs| - 1] % 256]
  }

  lemma {:induction false} ScanGap(s: string, groups: seq<nat>, gap: Option<nat>)
    requires Scan(s, groups, gap).Some? && (gap.Some? ==> gap.value <= |groups|)
    ensures var (gs, d) := Scan(s, groups, gap).value; d.Some? ==> d.value <= |gs|
    decreases |s|
  {
    hide HexVal, AllHex, Find;
    if s == "" || |groups| >= 8 {
    } else if |s| >= 2 && s[0] == ':' && s[1] == ':' {
      ScanGap(s[2..], groups, Some(|groups|));
    } else {
      var rest := if s[0] == ':' then s[1..] else s;
      var k := RunLength(rest);
      ScanGap(rest[k..], groups + [HexVal(rest[..k])], gap);
    }
  }

  /** The 16 bytes an IPv6 address text stands for. */
  function Address6(s: string): (r: Option<seq<nat>>)
    ensures r.Some? ==> IsAddr6(r.value)
  {
    var scan := Scan(s, [], None);
    if scan.None? then None
    else
      ScanGap(s, [], None);
      var gs := Expand(scan.value.0, scan.value.1);
      if gs.None? then None else Some(GroupBytes(gs.value))
  }

  /** An address and a prefix length as a network, unless host bits are set; prefix length 0 is not checked. */
  function Network6(addr: seq<nat>, prefix: nat): (r: Option<Net6>)
    requires IsAddr6(addr) && prefix <= 128
    ensures r.Some? ==> IsNet6(r.value)
  {
    if prefix > 0 && Low(Value(addr), 128 - prefix) != 0 then None else Some(Net6(addr, prefix))
  }

  /** The network an IPv6 text stands for.  Only an address before a slash has a length limit. */
  function ParseV6(s: string): (r: Option<Net6>)
    ensures r.Some? ==> IsNet6(r.value)
  {
    if Find(s, {'/'}) < |s| && |AddrPart(s)| >= 48 then None
    else
      var addr, prefix := Address6(AddrPart(s)), PrefixPart(s, 128);
      if addr.None? || prefix.None? then None else Network6(addr.value, prefix.value)
  }

  // ---------------------------------------------------------------- the texts of RFC 4291

  predicate AllGroups(gs: seq<string>) { forall i | 0 <= i < |gs| :: IsGroup(gs[i]) }

  function GroupVals(gs: seq<string>): (vs: seq<nat>)
    requires AllGroups(gs)
    ensures |vs| == |gs| && forall i | 0 <= i < |gs| :: vs[i] == HexVal(gs[i])
  {
    seq(|gs|, i requires 0 <= i < |gs| && IsGroup(gs[i]) => HexVal(gs[i]))
  }

  /** Groups joined by colons; no groups give no text. */
  function Colons(gs: seq<string>): string {
    if gs == [] then "" else Join(gs, ':')
  }

  /** Groups each with a colon before it. */
  function Tail(gs: seq<string>): string {
    if gs == [] then "" else ":" + gs[0] + Tail(gs[1..])
  }

  lemma {:induction false} ColonsTail(gs: seq<string>)
    requires gs != []
    ensures Colons(gs) == gs[0] + Tail(gs[1..])
  {
    if |gs| > 1 { ColonsTail(gs[1..]); }
  }

  lemma GroupRun(g: string, rest: string)
    requires IsGroup(g) && (rest == "" || rest[0] == ':')
    ensures RunLength(g + rest) == |g| && (g + rest)[..|g|] == g && (g + rest)[|g|..] == rest
    ensures g[0] != ':'
  {
    var s := g + rest;
    forall k | 0 <= k < |g| ensures s[k] !in {':', '/'} { assert IsHex(g[k]); }
    FindUnique(s, {':', '/'}, |g|);
    assert IsHex(g[0]);
  }

  lemma ScanPlainGroup(g: string, rest: string, acc: seq<nat>, gap: Option<nat>)
    requires IsGroup(g) && (rest == "" || rest[0] == ':') && |acc| < 8
    ensures Scan(g + rest, acc, gap) == Scan(rest, acc + [HexVal(g)], gap)
  {
    hide HexVal, AllHex, Find;
    GroupRun(g, rest);
  }

  /** A single colon before a field is skipped. */
  lemma ColonSkipped(u: string, acc: seq<nat>, gap: Option<nat>)
    requires u != "" && u[0] != ':' && |acc| < 8 && (acc != [] || gap.Some?)
    ensures Scan(":" + u, acc, gap) == Scan(u, acc, gap)
  {
    hide HexVal, AllHex, Find;
    var s := ":" + u;
    assert s[1..] == u && s[1] == u[0];
  }

  lemma ScanColonGroup(g: string, rest: string, acc: seq<nat>, gap: Option<nat>)
    requires IsGroup(g) && (rest == "" || rest[0] == ':') && |acc| < 8 && (acc != [] || gap.Some?)
    ensures Scan(":" + g + rest, acc, gap) == Scan(rest, acc + [HexVal(g)], gap)
  {
    hide HexVal, AllHex, Scan;
    GroupRun(g, rest);
    assert ":" + g + rest == ":" + (g + rest) && (g + rest)[0] == g[0];
    ColonSkipped(g + rest, acc, gap);
    ScanPlainGroup(g, rest, acc, gap);
  }

  /** One group, with or without the colon before it, is read as its value. */
  lemma ScanGroup(g: string, rest: string, acc: seq<nat>, gap: Option<nat>)
    requires IsGroup(g) && (rest == "" || rest[0] == ':') && |acc| < 8
    ensures Scan(g + rest, acc, gap) == Scan(rest, acc + [HexVal(g)], gap)
    ensures acc != [] || gap.Some? ==> Scan(":" + g + rest, acc, gap) == Scan(rest, acc + [HexVal(g)], gap)
  {
    hide Scan, IsGroup, HexVal;
    ScanPlainGroup(g, rest, acc, gap);
    if acc != [] || gap.Some? { ScanColonGroup(g, rest, acc, gap); }
  }

  lemma GroupValsCons(gs: seq<string>, acc: seq<nat>)
    requires gs != [] && AllGroups(gs)
    ensures acc + [HexVal(gs[0])] + GroupVals(gs[1..]) == acc + GroupVals(gs)
  {
  }

  lemma {:induction false} ScanTail(gs: seq<string>, rest: string, acc: seq<nat>, gap: Option<nat>)
    requires AllGroups(gs) && acc != [] && |acc| + |gs| <= 8
    requires rest == "" || rest[0] == ':'
    ensures Scan(Tail(gs) + rest, acc, gap) == Scan(rest, acc + GroupVals(gs), gap)
    decreases |gs|
  {
    hide Scan, HexVal;
    if gs == [] {
      AddEmpty(rest);
      AddEmpty(acc);
      assert GroupVals(gs) == [];
    } else {
      var more := Tail(gs[1..]) + rest;
      ScanGroup(gs[0], more, acc, gap);
      Assoc(":" + gs[0], Tail(gs[1..]), rest);
      ScanTail(gs[1..], rest, acc + [HexVal(gs[0])], gap);
      GroupValsCons(gs, acc);
    }
  }

  /** A colon-separated list of groups is read group by group. */
  lemma ScanColons(gs: seq<string>, rest: string, acc: seq<nat>, gap: Option<nat>)
    requires AllGroups(gs) && |acc| + |gs| <= 8
    requires rest == "" || rest[0] == ':'
    ensures Scan(Colons(gs) + rest, acc, gap) == Scan(rest, acc + GroupVals(gs), gap)
  {
    hide Scan, HexVal;
    if gs == [] {
      AddEmpty(rest);
      AddEmpty(acc);
      assert GroupVals(gs) == [];
    } else {
      var more := Tail(gs[1..]) + rest;
      ColonsTail(gs);
      Assoc(gs[0], Tail(gs[1..]), rest);
      ScanGroup(gs[0], more, acc, gap);
      ScanTail(gs[1..], rest, acc + [HexVal(gs[0])], gap);
      GroupValsCons(gs, acc);
    }
  }

  /** From the start: the groups before a gap or the end. */
  lemma ScanFirst(gs: seq<string>, rest: string)
    requires AllGroups(gs) && |gs| <= 8 && (rest == "" || rest[0] == ':')
    ensures Scan(Colons(gs) + rest, [], None) == Scan(rest, GroupVals(gs), None)
  {
    hide Scan;
    ScanColons(gs, rest, [], None);
    AddEmpty(GroupVals(gs));
  }

  lemma ScanDoubleColon(rest: string, acc: seq<nat>)
    requires |acc| < 8
    ensures Scan("::" + rest, acc, None) == Scan(rest, acc, Some(|acc|))
  {
    assert ("::" + rest)[2..] == rest;
  }

  /** To the end: the groups after a gap. */
  lemma ScanLast(gs: seq<string>, acc: seq<nat>, gap: Option<nat>)
    requires AllGroups(gs) && |acc| + |gs| <= 8
    ensures Scan(Colons(gs), acc, gap) == Some((acc + GroupVals(gs), gap))
  {
    ScanColons(gs, "", acc, gap);
    AddEmpty(Colons(gs));
  }

  /** Form 1: eight groups are read as those groups. */
  lemma EightGroups(gs: seq<string>)
    requires |gs| == 8 && AllGroups(gs)
    ensures Address6(Colons(gs)) == Some(GroupBytes(GroupVals(gs)))
  {
    hide Scan, GroupBytes;
    ScanLast(gs, [], None);
    AddEmpty(GroupVals(gs));
  }

  lemma ScanCompressed(pre: seq<string>, post: seq<string>)
    requires AllGroups(pre) && AllGroups(post) && |pre| + |post| <= 7
    ensures Scan(Colons(pre) + "::" + Colons(post), [], None)
         == Some((GroupVals(pre) + GroupVals(post), Some(|pre|)))
  {
    hide Scan;
    Assoc(Colons(pre), "::", Colons(post));
    ScanFirst(pre, "::" + Colons(post));
    ScanDoubleColon(Colons(post), GroupVals(pre));
    ScanLast(post, GroupVals(pre), Some(|pre|));
  }

  /** Form 2: `pre::post` is read as `pre`, zero groups up to eight in all, and `post`. */
  lemma CompressedGroups(pre: seq<string>, post: seq<string>)
    requires AllGroups(pre) && AllGroups(post) && |pre| + |post| <= 7
    ensures Address6(Colons(pre) + "::" + Colons(post))
         == Some(GroupBytes(GroupVals(pre) + Zeros(8 - |pre| - |post|) + GroupVals(post)))
  {
    hide Scan, GroupBytes;
    var a, b := GroupVals(pre), GroupVals(post);
    ScanCompressed(pre, post);
    assert (a + b)[..|a|] == a && (a + b)[|a|..] == b;
  }

  /** Groups in base 65536. */
  function GroupsValue(gs: seq<nat>): nat {
    if gs == [] then 0 else GroupsValue(gs[..|gs| - 1]) * 0x1_0000 + gs[|gs| - 1]
  }

  /** The 16 bytes are the same 128-bit number as the eight groups. */
  lemma {:induction false} GroupBytesValue(gs: seq<nat>)
    requires forall i | 0 <= i < |gs| :: gs[i] < 0x1_0000
    ensures Value(GroupBytes(gs)) == GroupsValue(gs)
  {
    if gs != [] {
      var init, g := gs[..|gs| - 1], gs[|gs| - 1];
      GroupBytesValue(init);
      var bs := GroupBytes(gs);
      assert bs[..|bs| - 1][..|bs| - 2] == GroupBytes(init);
      assert Value(bs[..|bs| - 1]) == Value(GroupBytes(init)) * 256 + g / 256 % 256;
    }
  }

  /** A group is a 16-bit number. */
  lemma GroupBound(g: string)
    requires IsGroup(g)
    ensures HexVal(g) < 0x1_0000
  {
    if |g| > 1 { HexStep(g); }
    if |g| > 2 { HexStep(g[..|g| - 1]); }
    if |g| > 3 { HexStep(g[..|g| - 2]); assert g[..3] == g[..|g| - 1] && g[..|g| - 1][..2] == g[..|g| - 2]; }
  }

  lemma HexStep(s: string)
    requires AllHex(s) && s != ""
    ensures HexVal(s) < HexVal(s[..|s| - 1]) * 16 + 16
  {
  }

  // ---------------------------------------------------------------- whole texts, with and without a prefix length

  /** `t` is an RFC 4291 text (form 1 or 2) of the eight groups `gs`. */
  ghost predicate Spells6(t: string, gs: seq<nat>) {
    || (exists all: seq<string> :: AllGroups(all) && |all| == 8 && t == Colons(all) && gs == GroupVals(all))
    || (exists pre: seq<string>, post: seq<string> ::
          && AllGroups(pre) && AllGroups(post) && |pre| + |post| <= 7
          && t == Colons(pre) + "::" + Colons(post)
          && gs == GroupVals(pre) + Zeros(8 - |pre| - |post|) + GroupVals(post))
  }

  lemma {:induction false} ColonsShape(gs: seq<string>)
    requires AllGroups(gs)
    ensures |Colons(gs)| <= 5 * |gs| && '/' !in Colons(gs)
  {
    if gs != [] {
      forall k | 0 <= k < |gs[0]| ensures gs[0][k] != '/' { assert IsHex(gs[0][k]); }
      if |gs| > 1 { ColonsShape(gs[1..]); }
    }
  }

  lemma SpelledAddress(t: string, gs: seq<nat>)
    requires Spells6(t, gs)
    ensures |gs| == 8 && Address6(t) == Some(GroupBytes(gs)) && |t| < 48 && '/' !in t
  {
    hide Scan, GroupBytes;
    if all: seq<string> :| AllGroups(all) && |all| == 8 && t == Colons(all) && gs == GroupVals(all) {
      EightGroups(all);
      ColonsShape(all);
    } else {
      var pre: seq<string>, post: seq<string> :|
        && AllGroups(pre) && AllGroups(post) && |pre| + |post| <= 7
        && t == Colons(pre) + "::" + Colons(post)
        && gs == GroupVals(pre) + Zeros(8 - |pre| - |post|) + GroupVals(post);
      CompressedGroups(pre, post);
      ColonsShape(pre);
      ColonsShape(post);
    }
  }

  /** Every RFC 4291 text of form 1 or 2, followed by `/p` or (for 128) by nothing, is read as exactly its address
      and prefix length; it is refused only for host bits under a prefix length other than 0. */
  lemma V6TextExact(s: string, t: string, gs: seq<nat>, p: nat)
    requires Spells6(t, gs) && p <= 128 && Writes(s, t, p, 128)
    ensures |gs| == 8
    ensures ParseV6(s) ==
      if p > 0 && Low(Value(GroupBytes(gs)), 128 - p) != 0 then None else Some(Net6(GroupBytes(gs), p))
  {
    hide Spells6, Scan, GroupBytes, Writes, Low, Value, Address6;
    SpelledAddress(t, gs);
    PartsExact(s, t, p, 128);
  }

  // ---------------------------------------------------------------- the parser

  /** The hexadecimal loop: up to four digits from `p`. */
  method ParseGroup(buf: array<char>, p: nat, ghost u: string) returns (ok: bool, val: nat, seen: nat)
    requires IsCStr(buf[..], p, u)
    ensures ok <==> IsGroup(u[..RunLength(u)])
    ensures ok ==> seen == RunLength(u) && val == HexVal(u[..seen])
  {
    val, seen := 0, 0;
    CStrAt(buf[..], p, u, 0);
    while buf[p + seen] != NUL && buf[p + seen] != ':' && buf[p + seen] != '/' && seen < 4
      invariant seen <= 4 && seen <= |u|
      invariant forall k | 0 <= k < seen :: u[k] !in {':', '/'}
      invariant AllHex(u[..seen]) && val == HexVal(u[..seen])
      invariant p + seen < buf.Length && buf[p + seen] == if seen < |u| then u[seen] else NUL
      decreases 4 - seen
    {
      if !IsHex(buf[p + seen]) {
        assert seen < RunLength(u) && u[..RunLength(u)][seen] == u[seen];
        return false, 0, 0;
      }
      assert u[..seen + 1][..seen] == u[..seen];
      val := val * 16 + HexDigit(buf[p + seen]);
      seen := seen + 1;
      CStrAt(buf[..], p, u, seen);
    }
    if seen < 4 { FindUnique(u, {':', '/'}, seen); }
    ok := seen != 0;
  }

  /** The in-place expansion of `::`: the groups after the gap move to the end, last one first, and zeros fill in. */
  method ExpandGap(groups: array<nat>, before: nat, gi: nat)
    requires groups.Length == 8 && before <= gi <= 7
    modifies groups
    ensures Expand(old(groups[..gi]), Some(before)) == Some(groups[..])
  {
    var after, zeroFill := gi - before, 8 - gi;
    ghost var g0 := groups[..];
    var i := after - 1;
    while i >= 0
      invariant -1 <= i < after
      invariant forall k | 0 <= k <= before + i :: groups[k] == g0[k]
      invariant forall k | before + zeroFill + i < k < 8 :: groups[k] == g0[k - zeroFill]
    {
      groups[before + zeroFill + i] := groups[before + i];
      i := i - 1;
    }
    i := 0;
    while i < zeroFill
      invariant 0 <= i <= zeroFill
      invariant forall k | 0 <= k < before :: groups[k] == g0[k]
      invariant forall k | before <= k < before + i :: groups[k] == 0
      invariant forall k | before + zeroFill <= k < 8 :: groups[k] == g0[k - zeroFill]
    {
      groups[before + i] := 0;
      i := i + 1;
    }
    GapFilled(g0, groups[..], before, gi);
  }

  lemma GapFilled(g0: seq<nat>, g: seq<nat>, before: nat, gi: nat)
    requires |g0| == |g| == 8 && before <= gi <= 7
    requires forall k | 0 <= k < before :: g[k] == g0[k]
    requires forall k | before <= k < before + 8 - gi :: g[k] == 0
    requires forall k | before + 8 - gi <= k < 8 :: g[k] == g0[k - (8 - gi)]
    ensures Expand(g0[..gi], Some(before)) == Some(g)
  {
    var want := g0[..gi][..before] + Zeros(8 - gi) + g0[..gi][before..];
    assert |want| == 8;
    forall k | 0 <= k < 8 ensures g[k] == want[k] {}
    assert g == want;
  }

  function GapOf(doubleColon: int): Option<nat> {
    if doubleColon >= 0 then Some(doubleColon) else None
  }

  /** What one turn of the group loop does to the text `u` that is left: nothing when it is refused. */
  function Turn(u: string, groups: seq<nat>, gap: Option<nat>): Option<(string, seq<nat>, Option<nat>)>
    requires u != "" && |groups| < 8
  {
    if |u| >= 2 && u[0] == ':' && u[1] == ':' then
      if gap.Some? then None else Some((u[2..], groups, Some(|groups|)))
    else if u[0] == ':' && groups == [] && gap.None? then None
    else
      var rest := if u[0] == ':' then u[1..] else u;
      var k := RunLength(rest);
      if IsGroup(rest[..k]) then Some((rest[k..], groups + [HexVal(rest[..k])], gap)) else None
  }

  lemma ScanTurn(u: string, groups: seq<nat>, gap: Option<nat>)
    requires u != "" && |groups| < 8
    ensures Turn(u, groups, gap).None? ==> Scan(u, groups, gap) == None
    ensures Turn(u, groups, gap).Some? ==>
      var (v, gs, d) := Turn(u, groups, gap).value; |v| < |u| && Scan(u, groups, gap) == Scan(v, gs, d)
  {
  }

  /** Reads the group at `p` into `groups[gi++]`. */
  method ReadGroup(buf: array<char>, p: nat, groups: array<nat>, gi: nat, ghost u: string)
    returns (ok: bool, next: nat)
    requires IsCStr(buf[..], p, u) && gi < groups.Length
    modifies groups
    ensures ok <==> IsGroup(u[..RunLength(u)])
    ensures ok ==> groups[..gi + 1] == old(groups[..gi]) + [HexVal(u[..RunLength(u)])]
    ensures ok ==> IsCStr(buf[..], next, u[RunLength(u)..])
  {
    var val, seen;
    ok, val, seen := ParseGroup(buf, p, u);
    next := p + seen;
    if ok {
      groups[gi] := val;
      CStrSuffix(buf[..], p, u, seen);
    }
  }

  /** One turn of the group loop. */
  method GroupTurn(buf: array<char>, p: nat, groups: array<nat>, gi: nat, doubleColon: int,
                   ghost u: string, ghost acc: seq<nat>)
    returns (ok: bool, next: nat, gi': nat, doubleColon': int, ghost v: string)
    requires IsCStr(buf[..], p, u) && u != "" && groups.Length == 8 && gi < 8 && -1 <= doubleColon <= gi
    requires acc == groups[..gi]
    modifies groups
    ensures ok <==> Turn(u, acc, GapOf(doubleColon)).Some?
    ensures ok ==> gi' <= 8 && -1 <= doubleColon' <= gi' && IsCStr(buf[..], next, v)
    ensures ok ==> Turn(u, acc, GapOf(doubleColon)) == Some((v, groups[..gi'], GapOf(doubleColon')))
  {
    hide IsCStr, HexVal, AllHex, RunLength;
    CStrAt(buf[..], p, u, 0);
    CStrAt(buf[..], p, u, 1);
    next, gi', doubleColon', v := p, gi, doubleColon, u;
    if buf[p] == ':' && buf[p + 1] == ':' {
      if doubleColon >= 0 { return false, p, gi, doubleColon, u; }
      CStrSuffix(buf[..], p, u, 2);
      return true, p + 2, gi, gi, u[2..];
    }
    if buf[p] == ':' {
      if gi == 0 && doubleColon < 0 { return false, p, gi, doubleColon, u; }
      CStrSuffix(buf[..], p, u, 1);
      next, v := p + 1, u[1..];
    }
    ok, next := ReadGroup(buf, next, groups, gi, v);
    gi', v := gi + 1, v[RunLength(v)..];
  }

  /** The group loop. */
  method ScanGroups(buf: array<char>, p0: nat, groups: array<nat>, ghost t: string)
    returns (ok: bool, gi: nat, doubleColon: int)
    requires IsCStr(buf[..], p0, t) && groups.Length == 8
    modifies groups
    ensures ok <==> Scan(t, [], None).Some?
    ensures ok ==> gi <= 8 && -1 <= doubleColon <= gi && Scan(t, [], None) == Some((groups[..gi], GapOf(doubleColon)))
  {
    hide Turn;
    gi, doubleColon := 0, -1;
    var p: nat := p0;
    ghost var u := t;
    CStrAt(buf[..], p, u, 0);
    while buf[p] != NUL && gi < 8
      invariant gi <= 8 && -1 <= doubleColon <= gi
      invariant IsCStr(buf[..], p, u)
      invariant Scan(t, [], None) == Scan(u, groups[..gi], GapOf(doubleColon))
      decreases |u|
    {
      CStrAt(buf[..], p, u, 0);
      ScanTurn(u, groups[..gi], GapOf(doubleColon));
      ok, p, gi, doubleColon, u := GroupTurn(buf, p, groups, gi, doubleColon, u, groups[..gi]);
      if !ok { return false, 0, -1; }
    }
    CStrAt(buf[..], p, u, 0);
    ok := true;
  }

  /** Eight groups as sixteen bytes, high byte first. */
  method ToBytes(groups: array<nat>) returns (addr: seq<nat>)
    requires groups.Length == 8
    ensures addr == GroupBytes(groups[..])
  {
    addr := [];
    var i := 0;
    while i < 8
      invariant i <= 8 && addr == GroupBytes(groups[..i])
    {
      assert groups[..i + 1][..i] == groups[..i];
      addr := addr + [groups[i] / 256 % 256, groups[i] % 256];
      i := i + 1;
    }
    assert groups[..8] == groups[..];
  }

  /** Address text to bytes. */
  method ParseAddress6(buf: array<char>, p: nat, ghost t: string) returns (ok: bool, addr: seq<nat>)
    requires IsCStr(buf[..], p, t)
    ensures ok <==> Address6(t).Some?
    ensures ok ==> addr == Address6(t).value
  {
    var groups := new nat[8](_ => 0);
    var good, gi, doubleColon := ScanGroups(buf, p, groups, t);
    if !good { return false, []; }
    if doubleColon >= 0 {
      if gi > 7 { return false, []; }
      ExpandGap(groups, doubleColon, gi);
    } else {
      if gi != 8 { return false, []; }
      assert groups[..gi] == groups[..];
    }
    addr := ToBytes(groups);
    ok := true;
  }

  /** `tsf_parse_ipv6_addr`: the address and prefix length, or an error. */
  method ParseIpv6Addr(buf: array<char>, p: nat, ghost t: string) returns (ok: bool, addr: seq<nat>, prefix: nat)
    requires IsCStr(buf[..], p, t)
    ensures ok <==> ParseV6(t).Some?
    ensures ok ==> Net6(addr, prefix) == ParseV6(t).value
  {
    hide Address6;
    var addrbuf := new char[48];
    var good;
    var slash := StrChr(buf, p, '/', t);
    if slash != -1 {
      if slash - p >= 48 { return false, [], 0; }
      StrLCpy(addrbuf, buf, p, slash - p + 1, t);
      good, addr := ParseAddress6(addrbuf, 0, AddrPart(t));
    } else {
      WholeSlice(t);
      good, addr := ParseAddress6(buf, p, t);
    }
    if !good { return false, [], 0; }
    var r := ReadPrefix(buf, p, slash, 128, t);
    if r.None? { return false, [], 0; }
    prefix := r.value;
    if slash != -1 {
      var valid := ValidateV6Cidr(addr, prefix);
      if !valid { return false, [], 0; }
    }
    ok := true;
  }
}
