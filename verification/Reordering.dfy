/**
 Order independence: which directives may change places, and the proof that any reordering of a string whose
 directives all may gives the same result, accepted or not.
 */
module Reordering {
  import opened Text
  import opened Cidr
  import opened Ipv4
  import opened Ipv6
  import opened Filter

  /** Adds `d`, then `e`. */
  function Both(d: Directive, e: Directive, f: Filter): (r: Option<Filter>)
    requires IsDirective(d) && IsDirective(e)
  {
    var g := Apply(d, f);
    if g.None? then None else Apply(e, g.value)
  }

  /** Two directives may change places unless one overwrites the other or an empty `exclude` meets `include_state`. */
  predicate Commute(d: Directive, e: Directive) {
    && (d.Format? && e.Format? ==> d == e)
    && (d.FieldList? && e.FieldList? ==> d == e)
    && !(d.Exclude? && d.states == [] && e.Include?)
    && !(e.Exclude? && e.states == [] && d.Include?)
  }

  lemma ExcludeThenInclude(d: Directive, e: Directive, f: Filter)
    requires IsDirective(d) && IsDirective(e) && d.Exclude? && d.states != [] && e.Include?
    ensures Both(d, e, f) == None && Both(e, d, f) == None
  {
    var s := d.states[0];
    assert s in StateBits(d.states) && s in ALL_STATES;
    assert s !in f.stateMask - StateBits(d.states);
  }

  predicate SameSlot(d: Directive, e: Directive) {
    || (d.Ports? && e.Ports?)
    || (d.Exclude? && e.Exclude?)
    || ((d.Addr4? || d.Addr6?) && (e.Addr4? || e.Addr6?))
  }

  lemma SameKind(d: Directive, e: Directive, f: Filter)
    requires IsDirective(d) && IsDirective(e) && Commute(d, e)
    requires SameSlot(d, e)
    ensures Both(d, e, f) == Both(e, d, f)
  {
    hide Pad, Mask4, IsNet4, IsNet6;
    if d.Exclude? {
      var a, b := StateBits(d.states), StateBits(e.states);
      assert f.stateMask - a - b == f.stateMask - b - a;
    } else {
      var a := if d.Ports? then PortFlag(d.dir) else AddrFlag(d.dir);
      var b := if e.Ports? then PortFlag(e.dir) else AddrFlag(e.dir);
      assert f.flags + {a} + {b} == f.flags + {b} + {a};
    }
  }

  /** The flags a directive sets. */
  function FlagsOf(d: Directive): set<nat> {
    match d
    case Ipv4Only => {TSF_IPV4_ONLY}
    case Ipv6Only => {TSF_IPV6_ONLY}
    case Ports(dir, _) => {PortFlag(dir)}
    case Include(_) => {TSF_STATE_INCLUDE_MODE}
    case Addr4(dir, _) => {AddrFlag(dir)}
    case Addr6(dir, _) => {AddrFlag(dir)}
    case _ => {}
  }

  predicate OnSide(d: Directive) { d.Ports? || d.Addr4? || d.Addr6? }

  lemma SideAndOther(d: Directive, e: Directive, f: Filter)
    requires IsDirective(d) && IsDirective(e) && OnSide(d) && !SameSlot(d, e)
    ensures Both(d, e, f) == Both(e, d, f)
  {
    hide Pad, Mask4, IsNet4, IsNet6, StateBits;
    assert f.flags + FlagsOf(d) + FlagsOf(e) == f.flags + FlagsOf(e) + FlagsOf(d);
  }

  lemma PlainKinds(d: Directive, e: Directive, f: Filter)
    requires IsDirective(d) && IsDirective(e) && Commute(d, e) && !OnSide(d) && !OnSide(e)
    requires !d.Exclude? && !e.Exclude?
    ensures Both(d, e, f) == Both(e, d, f)
  {
    hide StateBits;
    assert f.flags + FlagsOf(d) + FlagsOf(e) == f.flags + FlagsOf(e) + FlagsOf(d);
  }

  lemma ExcludeAndOther(d: Directive, e: Directive, f: Filter)
    requires IsDirective(d) && IsDirective(e) && d.Exclude? && !e.Include? && !OnSide(e)
    ensures Both(d, e, f) == Both(e, d, f)
  {
    if e.Exclude? { SameKind(d, e, f); }
  }

  lemma Swap(d: Directive, e: Directive, f: Filter)
    requires IsDirective(d) && IsDirective(e) && Commute(d, e)
    ensures Both(d, e, f) == Both(e, d, f)
  {
    if d.Exclude? && e.Include? {
      ExcludeThenInclude(d, e, f);
    } else if d.Include? && e.Exclude? {
      ExcludeThenInclude(e, d, f);
    } else if SameSlot(d, e) {
      SameKind(d, e, f);
    } else if OnSide(d) {
      SideAndOther(d, e, f);
    } else if OnSide(e) {
      SideAndOther(e, d, f);
    } else if d.Exclude? {
      ExcludeAndOther(d, e, f);
    } else if e.Exclude? {
      ExcludeAndOther(e, d, f);
    } else {
      PlainKinds(d, e, f);
    }
  }

  /** The condition is exact: two directives give the same filter in either order, from every filter, if and only if
      they commute. */
  lemma SwapExactly(d: Directive, e: Directive)
    requires IsDirective(d) && IsDirective(e)
    ensures Commute(d, e) <==> forall f: Filter :: Both(d, e, f) == Both(e, d, f)
  {
    if Commute(d, e) {
      forall f: Filter ensures Both(d, e, f) == Both(e, d, f) { Swap(d, e, f); }
    } else {
      assert Both(d, e, DEFAULT_FILTER) != Both(e, d, DEFAULT_FILTER) by {
        if d.Exclude? && e.Include? { EmptyExclude(d, e); }
        if e.Exclude? && d.Include? { EmptyExclude(e, d); }
      }
    }
  }

  lemma EmptyExclude(d: Directive, e: Directive)
    requires IsDirective(d) && IsDirective(e) && d.Exclude? && d.states == [] && e.Include?
    ensures Both(d, e, DEFAULT_FILTER).Some? && Both(e, d, DEFAULT_FILTER).None?
  {
    assert ALL_STATES - StateBits(d.states) == ALL_STATES;
  }

  // ---------------------------------------------------------------- tokens

  predicate TokensCommute(t: string, u: string) {
    ParseToken(t).Some? && ParseToken(u).Some? ==> Commute(ParseToken(t).value, ParseToken(u).value)
  }

  /** Every two of the tokens commute; a token that occurs twice commutes with itself anyway. */
  ghost predicate Reorderable(toks: multiset<string>) {
    forall t, u | t in toks && u in toks && t != u :: TokensCommute(t, u)
  }

  lemma SwapTokens(t: string, u: string, rest: seq<string>, f: Filter)
    requires TokensCommute(t, u)
    ensures Run([t, u] + rest, f) == Run([u, t] + rest, f)
  {
    hide Apply, ParseToken, Commute, IsDirective;
    RunTwo(t, u, rest, f);
    RunTwo(u, t, rest, f);
    ParsedIsDirective(t);
    ParsedIsDirective(u);
    if ParseToken(t).Some? && ParseToken(u).Some? { Swap(ParseToken(t).value, ParseToken(u).value, f); }
  }

  lemma RunTwo(t: string, u: string, rest: seq<string>, f: Filter)
    ensures Run([t, u] + rest, f) ==
      var g := Step(t, f);
      if g.None? then None else var h := Step(u, g.value); if h.None? then None else Run(rest, h.value)
  {
    hide Step;
    var all := [t, u] + rest;
    assert all[1..] == [u] + rest && all[1..][1..] == rest;
  }

  lemma RunHead(t: string, rest: seq<string>, f: Filter)
    ensures Run([t] + rest, f) == var g := Step(t, f); if g.None? then None else Run(rest, g.value)
  {
    hide Step;
    assert ([t] + rest)[1..] == rest;
  }

  /** A token may move to the front past tokens it commutes with. */
  lemma {:induction false} MoveToFront(before: seq<string>, t: string, after: seq<string>, f: Filter)
    requires forall u | u in before :: TokensCommute(u, t)
    ensures Run(before + [t] + after, f) == Run([t] + before + after, f)
    decreases |before|
  {
    hide Step, TokensCommute, Run;
    if before == [] {
      AddEmpty([t]);
    } else {
      var u, rest := before[0], before[1..];
      assert before + [t] + after == [u] + (rest + [t] + after);
      RunHead(u, rest + [t] + after, f);
      RunHead(u, [t] + rest + after, f);
      if Step(u, f).Some? { MoveToFront(rest, t, after, Step(u, f).value); }
      assert [u] + ([t] + rest + after) == [u, t] + (rest + after);
      SwapTokens(u, t, rest + after, f);
      assert [t, u] + (rest + after) == [t] + before + after;
    }
  }

  lemma PickOut(us: seq<string>, t: string, rest: seq<string>) returns (before: seq<string>, after: seq<string>)
    requires multiset(us) == multiset{t} + multiset(rest)
    ensures us == before + [t] + after && multiset(before + after) == multiset(rest)
  {
    assert t in multiset(us);
    var i :| 0 <= i < |us| && us[i] == t;
    before, after := us[..i], us[i + 1..];
    assert us == before + [t] + after;
    Cancel(before, t, after, multiset(rest));
  }

  lemma Cancel(before: seq<string>, t: string, after: seq<string>, rest: multiset<string>)
    requires multiset(before + [t] + after) == multiset{t} + rest
    ensures multiset(before + after) == rest
  {
    assert multiset(before + [t] + after) == multiset(before) + multiset{t} + multiset(after);
    assert multiset(before + after) == multiset(before) + multiset(after);
    assert multiset(before) + multiset(after) == multiset(before) + multiset{t} + multiset(after) - multiset{t};
  }

  lemma FewerReorderable(all: multiset<string>, some: multiset<string>)
    requires Reorderable(all) && some <= all
    ensures Reorderable(some)
  {
    forall t, u | t in some && u in some && t != u ensures TokensCommute(t, u) { assert t in all && u in all; }
  }

  lemma AllCommuteWith(before: seq<string>, t: string, all: multiset<string>)
    requires Reorderable(all) && t in all && multiset(before) <= all
    ensures forall u | u in before :: TokensCommute(u, t)
  {
    forall u | u in before ensures TokensCommute(u, t) {
      assert u in multiset(before);
      if u == t { SelfCommutes(t); }
    }
  }

  /** Any two arrangements of the same commuting tokens run to the same result. */
  lemma {:induction false} Rearrange(ts: seq<string>, us: seq<string>, f: Filter)
    requires multiset(ts) == multiset(us) && Reorderable(multiset(ts))
    ensures Run(ts, f) == Run(us, f)
    decreases |ts|
  {
    hide Step, TokensCommute, Run, Reorderable;
    if ts == [] {
      assert |multiset(ts)| == |ts| && |multiset(us)| == |us|;
    } else {
      var t, rest := ts[0], ts[1..];
      assert ts == [t] + rest;
      var before, after := PickOut(us, t, rest);
      AllCommuteWith(before, t, multiset(us));
      MoveToFront(before, t, after, f);
      FewerReorderable(multiset(ts), multiset(rest));
      RunHead(t, rest, f);
      Assoc([t], before, after);
      RunHead(t, before + after, f);
      if Step(t, f).Some? { Rearrange(rest, before + after, Step(t, f).value); }
    }
  }

  lemma SelfCommutes(t: string)
    ensures TokensCommute(t, t)
  {
  }

  /** Order independence of whole strings: two printable strings with the same directives in any order, none of which
      overwrite each other, are both rejected or compile to the identical filter. */
  lemma OrderIndependent(a: string, b: string)
    requires |a| < TSF_PARSE_MAXLEN && |b| < TSF_PARSE_MAXLEN && Printable(a) && Printable(b)
    requires multiset(Tokens(a)) == multiset(Tokens(b)) && Reorderable(multiset(Tokens(a)))
    ensures Compile(a) == Compile(b)
  {
    hide Printable, Reorderable;
    Rearrange(Tokens(a), Tokens(b), DEFAULT_FILTER);
    assert |multiset(Tokens(a))| == |Tokens(a)| && |multiset(Tokens(b))| == |Tokens(b)|;
    if a == "" || a[0] == NUL { EmptyCompiles(a); }
    if b == "" || b[0] == NUL { EmptyCompiles(b); }
  }

  /** No two tokens have that key. */
  predicate AtMostOne(toks: seq<string>, key: string) {
    forall i, j | 0 <= i < j < |toks| :: !(KeyOf(toks[i]) == key && KeyOf(toks[j]) == key)
  }

  /** Every `exclude` list has at least one item. */
  predicate ExcludesNamed(toks: seq<string>) {
    forall i | 0 <= i < |toks| ::
      KeyOf(toks[i]) == "exclude" && HasValue(toks[i]) ==> Items(ValueOf(toks[i]), {','}) != []
  }

  lemma KeyOfKind(tok: string)
    requires ParseToken(tok).Some?
    ensures var d := ParseToken(tok).value;
      && (d.Format? ==> KeyOf(tok) == "format")
      && (d.FieldList? ==> KeyOf(tok) == "fields")
      && (d.Exclude? && d.states == [] ==>
            KeyOf(tok) == "exclude" && HasValue(tok) && Items(ValueOf(tok), {','}) == [])
  {
    hide KeyOf, FieldBits, ParseV4, ParseV6, ReadPorts, ReadFormat, Items;
  }

  /** With `format` and `fields` at most once and no empty `exclude`, every two tokens commute. */
  lemma PlainReorderable(toks: seq<string>)
    requires AtMostOne(toks, "format") && AtMostOne(toks, "fields") && ExcludesNamed(toks)
    ensures Reorderable(multiset(toks))
  {
    hide ParseToken, KeyOf, Items;
    forall t, u | t in multiset(toks) && u in multiset(toks) && t != u ensures TokensCommute(t, u) {
      var i :| 0 <= i < |toks| && toks[i] == t;
      var j :| 0 <= j < |toks| && toks[j] == u;
      if ParseToken(t).Some? && ParseToken(u).Some? {
        KeyOfKind(t);
        KeyOfKind(u);
      }
    }
  }

  /** Order independence in the terms of a caller: with `format` and `fields` at most once and no empty `exclude`, any
      reordering of the directives has the same outcome. */
  lemma PlainOrderIndependent(a: string, b: string)
    requires |a| < TSF_PARSE_MAXLEN && |b| < TSF_PARSE_MAXLEN && Printable(a) && Printable(b)
    requires multiset(Tokens(a)) == multiset(Tokens(b))
    requires AtMostOne(Tokens(a), "format") && AtMostOne(Tokens(a), "fields") && ExcludesNamed(Tokens(a))
    ensures Compile(a) == Compile(b)
  {
    hide Compile, Tokens, Printable, AtMostOne, ExcludesNamed, Reorderable;
    PlainReorderable(Tokens(a));
    OrderIndependent(a, b);
  }

  lemma EmptyCompiles(a: string)
    requires a == "" || a[0] == NUL
    ensures Tokens(a) == [] && Run(Tokens(a), DEFAULT_FILTER) == Some(DEFAULT_FILTER) && Compatible(DEFAULT_FILTER)
  {
  }
}
