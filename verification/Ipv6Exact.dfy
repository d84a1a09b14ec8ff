/**
 Which texts are read as IPv6 addresses: among the accepted texts, the RFC 4291 texts of forms 1 and 2 are exactly
 the tidy ones, and embedded dotted quads (form 3) are never accepted.
 */
module Ipv6Exact {
  import opened Text
  import opened Numbers
  import opened Ipv4
  import opened Ipv6

  const COLON: set<char> := {':'}

  /** No three colons in a row. */
  predicate NoTriple(s: string) { forall i | 0 <= i < |s| - 2 :: !(s[i] == s[i + 1] == s[i + 2] == ':') }

  predicate ShortItems(s: string) { forall i | 0 <= i < |Items(s, COLON)| :: |Items(s, COLON)[i]| <= 4 }

  /** What a caller can check before the call: no slash, no `:::`, no field of more than four characters, and at most
      seven non-empty fields or exactly eight fields. */
  predicate Tidy(s: string) {
    && '/' !in s && NoTriple(s) && ShortItems(s)
    && (|Items(s, COLON)| <= 7 || |Fields(s, ':')| == 8)
  }

  // ---------------------------------------------------------------- RFC texts are tidy

  /** No two colons in a row, none at an end. */
  predicate Apart(s: string) {
    && (forall i | 0 <= i < |s| - 1 :: !(s[i] == s[i + 1] == ':'))
    && (s != "" ==> s[0] != ':' && s[|s| - 1] != ':')
  }

  lemma GroupHasNoColon(g: string)
    requires Ipv6.IsGroup(g)
    ensures (forall i | 0 <= i < |g| :: g[i] != ':') && forall c | c in g :: c !in COLON
  {
    forall i | 0 <= i < |g| ensures g[i] != ':' { assert IsHex(g[i]); }
  }

  lemma {:induction false} ColonsApart(gs: seq<string>)
    requires AllGroups(gs)
    ensures Apart(Colons(gs)) && (gs != [] ==> Colons(gs) != "")
  {
    if gs != [] {
      GroupHasNoColon(gs[0]);
      if |gs| > 1 {
        ColonsApart(gs[1..]);
        var s, t := Colons(gs), Colons(gs[1..]);
        assert s == gs[0] + [':'] + t;
        forall i | 0 <= i < |s| - 1 ensures !(s[i] == s[i + 1] == ':') {
          if i > |gs[0]| { assert s[i] == t[i - |gs[0]| - 1] && s[i + 1] == t[i - |gs[0]|]; }
        }
      }
    }
  }

  lemma ColonsItems(gs: seq<string>)
    requires AllGroups(gs)
    ensures Items(Colons(gs), COLON) == gs
    ensures gs != [] ==> Fields(Colons(gs), ':') == gs
  {
    if gs != [] {
      forall i | 0 <= i < |gs| ensures gs[i] != "" && (forall c | c in gs[i] :: c !in COLON) && ':' !in gs[i] {
        GroupHasNoColon(gs[i]);
      }
      ItemsOfJoin(gs, ':', COLON);
      FieldsOfJoin(gs, ':');
    }
  }

  lemma AroundGap(a: string, b: string)
    requires Apart(a) && Apart(b)
    ensures NoTriple(a + "::" + b)
  {
    var s := a + "::" + b;
    forall i | 0 <= i < |s| - 2 ensures !(s[i] == s[i + 1] == s[i + 2] == ':') {
      if i + 1 < |a| {
        assert s[i] == a[i] && s[i + 1] == a[i + 1];
      } else if i + 1 == |a| {
        assert s[i] == a[|a| - 1];
      } else if i == |a| {
        assert s[i + 2] == b[0];
      } else if i > |a| + 1 {
        assert s[i] == b[i - |a| - 2] && s[i + 1] == b[i - |a| - 1];
      } else {
        assert s[i + 1] == b[0];
      }
    }
  }

  lemma GapItems(pre: seq<string>, post: seq<string>)
    requires AllGroups(pre) && AllGroups(post)
    ensures Items(Colons(pre) + "::" + Colons(post), COLON) == pre + post
  {
    hide Items, Colons;
    var a, b := Colons(pre), Colons(post);
    ColonsItems(pre);
    ColonsItems(post);
    ItemsAdd("", ':', b, COLON);
    ItemsAdd(a, ':', "" + [':'] + b, COLON);
    NoItems();
    assert a + "::" + b == a + [':'] + ("" + [':'] + b);
    AddEmpty(post);
  }

  lemma NoItems()
    ensures Items("", COLON) == []
  {
  }

  lemma EightAreTidy(gs: seq<string>)
    requires AllGroups(gs) && |gs| == 8
    ensures Tidy(Colons(gs))
  {
    hide Items, Colons, Fields;
    ColonsShape(gs);
    ColonsApart(gs);
    ColonsItems(gs);
  }

  lemma CompressedIsTidy(pre: seq<string>, post: seq<string>)
    requires AllGroups(pre) && AllGroups(post) && |pre| + |post| <= 7
    ensures Tidy(Colons(pre) + "::" + Colons(post))
  {
    hide Items, Colons, Fields;
    ColonsShape(pre);
    ColonsShape(post);
    ColonsApart(pre);
    ColonsApart(post);
    AroundGap(Colons(pre), Colons(post));
    GapItems(pre, post);
  }

  lemma SpelledIsTidy(s: string, gs: seq<nat>)
    requires Spells6(s, gs)
    ensures Tidy(s)
  {
    hide Tidy, HexVal;
    if all: seq<string> :| AllGroups(all) && |all| == 8 && s == Colons(all) && gs == GroupVals(all) {
      EightAreTidy(all);
    } else {
      var pre: seq<string>, post: seq<string> :|
        && AllGroups(pre) && AllGroups(post) && |pre| + |post| <= 7
        && s == Colons(pre) + "::" + Colons(post)
        && gs == GroupVals(pre) + Zeros(8 - |pre| - |post|) + GroupVals(post);
      CompressedIsTidy(pre, post);
    }
  }

  // ---------------------------------------------------------------- what is read of a tidy text

  /** A field: some characters, four at most, without colon or slash. */
  predicate IsField(p: string) { 1 <= |p| <= 4 && forall c | c in p :: c != ':' && c != '/' }

  lemma FieldRun(p: string, rest: string)
    requires IsField(p) && (rest == "" || rest[0] == ':')
    ensures RunLength(p + rest) == |p| && (p + rest)[..|p|] == p && (p + rest)[|p|..] == rest
  {
    var s := p + rest;
    forall k | 0 <= k < |p| ensures s[k] !in {':', '/'} { assert p[k] in p; }
    FindUnique(s, {':', '/'}, |p|);
  }

  /** A whole field is read as one group, or nothing is read. */
  lemma FieldStep(p: string, rest: string, acc: seq<nat>, gap: Option<nat>)
    requires IsField(p) && (rest == "" || rest[0] == ':') && |acc| < 8
    ensures Scan(p + rest, acc, gap) ==
      if Ipv6.IsGroup(p) then Scan(rest, acc + [HexVal(p)], gap) else None
  {
    hide HexVal, AllHex, Find;
    FieldRun(p, rest);
    assert p[0] in p && (p + rest)[0] == p[0];
  }

  lemma LoneColon(acc: seq<nat>, gap: Option<nat>)
    requires |acc| < 8
    ensures Scan(":", acc, gap) == None
  {
    hide HexVal;
    assert ":"[1..] == "";
  }

  lemma SecondGap(s: string, acc: seq<nat>, k: nat)
    requires |s| >= 2 && s[0] == s[1] == ':' && |acc| < 8
    ensures Scan(s, acc, Some(k)) == None
  {
  }

  /** The first field of a text and the rest, which is empty or starts with a colon. */
  lemma FirstField(s: string) returns (p: string, rest: string)
    requires s != "" && s[0] != ':' && '/' !in s && ShortItems(s)
    ensures s == p + rest && IsField(p) && (rest == "" || rest[0] == ':')
    ensures Items(s, COLON) == [p] + Items(rest, COLON) && '/' !in rest && ShortItems(rest)
  {
    hide Items, Find;
    var i := Find(s, COLON);
    p, rest := s[..i], s[i..];
    assert s == p + rest;
    FirstPiece(s, COLON);
    RestItems(s, i);
    assert Items(s, COLON)[0] == p;
    forall c | c in p ensures c != ':' && c != '/' { assert c in s; }
    assert forall c | c in rest :: c in s;
    assert forall k | 0 <= k < |Items(rest, COLON)| :: Items(rest, COLON)[k] == Items(s, COLON)[k + 1];
  }

  lemma RestItems(s: string, i: nat)
    requires i <= |s| && (i < |s| ==> s[i] == ':')
    ensures Items(s[i..], COLON) == if i == |s| then [] else Items(s[i + 1..], COLON)
  {
    if i < |s| {
      assert s[i..][1..] == s[i + 1..];
      assert Find(s[i..], COLON) == 0;
    }
  }

  lemma ColonItems(u: string)
    ensures Items(":" + u, COLON) == Items(u, COLON) && Items("::" + u, COLON) == Items(u, COLON)
  {
    var a, b := ":" + u, "::" + u;
    assert a[1..] == u && b[1..] == a && Find(a, COLON) == 0 && Find(b, COLON) == 0;
  }

  lemma TripleSuffix(s: string, i: nat)
    requires NoTriple(s) && i <= |s|
    ensures NoTriple(s[i..])
  {
    var t := s[i..];
    forall j | 0 <= j < |t| - 2 ensures !(t[j] == t[j + 1] == t[j + 2] == ':') {
      assert t[j] == s[i + j] && t[j + 1] == s[i + j + 1] && t[j + 2] == s[i + j + 2];
    }
  }

  /** A text after `::` that is read to the end is the groups that were read, joined by colons. */
  lemma {:induction false} AfterGap(s: string, acc: seq<nat>, k: nat) returns (post: seq<string>)
    requires (s == "" || s[0] != ':') && '/' !in s && ShortItems(s)
    requires |acc| + |Items(s, COLON)| <= 7 && Scan(s, acc, Some(k)).Some?
    ensures AllGroups(post) && |post| == |Items(s, COLON)| && s == Colons(post)
    ensures Scan(s, acc, Some(k)) == Some((acc + GroupVals(post), Some(k)))
    decreases |s|
  {
    hide HexVal, AllHex, Items, ShortItems;
    post := [];
    if s == "" {
      NoItems();
      AddEmpty(acc);
      ScanNothing(acc, Some(k));
    } else {
      var p, rest := FirstField(s);
      FieldStep(p, rest, acc, Some(k));
      var next := acc + [HexVal(p)];
      post := [p];
      if rest == "" {
        NoItems();
        ScanNothing(next, Some(k));
        assert GroupVals(post) == [HexVal(p)];
        AddEmpty(p);
      } else {
        post := AfterField(rest, next, k);
        GroupValsCons([p] + post, acc);
        post := [p] + post;
        ColonsTail(post);
      }
    }
  }

  lemma ScanNothing(acc: seq<nat>, gap: Option<nat>)
    ensures Scan("", acc, gap) == Some((acc, gap))
  {
  }

  /** The same after a field. */
  lemma {:induction false} AfterField(s: string, acc: seq<nat>, k: nat) returns (post: seq<string>)
    requires s != "" && s[0] == ':' && '/' !in s && ShortItems(s)
    requires |acc| + |Items(s, COLON)| <= 7 && Scan(s, acc, Some(k)).Some?
    ensures post != [] && AllGroups(post) && |post| == |Items(s, COLON)| && s == Tail(post)
    ensures Scan(s, acc, Some(k)) == Some((acc + GroupVals(post), Some(k)))
    decreases |s|
  {
    hide HexVal, AllHex, Items, Scan;
    var u := s[1..];
    assert s == ":" + u;
    ColonItems(u);
    if u == "" {
      assert s == ":";
      LoneColon(acc, Some(k));
    }
    if |s| >= 2 && s[1] == ':' { SecondGap(s, acc, k); }
    ColonSkipped(u, acc, Some(k));
    assert forall c | c in u :: c in s;
    post := AfterGap(u, acc, k);
    ColonsTail(post);
  }

  /** The text `s`, after the groups `acc` and with no gap so far, is read to its end as the groups `more`, and then
      perhaps a gap and the groups `post`. */
  ghost predicate ReadAs(s: string, acc: seq<nat>, more: seq<string>, post: seq<string>, gapped: bool) {
    && AllGroups(more) && AllGroups(post) && |more| + |post| == |Items(s, COLON)| && (!gapped ==> post == [])
    && s == Tail(more) + (if gapped then "::" + Colons(post) else "")
    && Scan(s, acc, None) ==
       Some((acc + GroupVals(more) + GroupVals(post), if gapped then Some(|acc| + |more|) else None))
  }

  lemma EndHere(acc: seq<nat>)
    ensures ReadAs("", acc, [], [], false)
  {
    hide Items;
    NoItems();
    ScanNothing(acc, None);
    AddEmpty(acc);
  }

  lemma GapHere(u: string, acc: seq<nat>) returns (post: seq<string>)
    requires (u == "" || u[0] != ':') && '/' !in u && ShortItems("::" + u)
    requires |acc| + |Items("::" + u, COLON)| <= 7 && Scan("::" + u, acc, None).Some?
    ensures ReadAs("::" + u, acc, [], post, true)
  {
    hide HexVal, AllHex, Items, ShortItems, Scan, Colons;
    ColonItems(u);
    SameItems("::" + u, u);
    ScanDoubleColon(u, acc);
    post := AfterGap(u, acc, |acc|);
    AddEmpty(acc);
    AddEmpty("::" + Colons(post));
  }

  lemma FieldHere(p: string, rest: string, acc: seq<nat>, more: seq<string>, post: seq<string>, gapped: bool)
    requires IsField(p) && Ipv6.IsGroup(p) && (rest == "" || rest[0] == ':') && acc != [] && |acc| < 8
    requires Items(p + rest, COLON) == [p] + Items(rest, COLON)
    requires ReadAs(rest, acc + [HexVal(p)], more, post, gapped)
    ensures ReadAs(":" + (p + rest), acc, [p] + more, post, gapped)
  {
    hide HexVal, AllHex, Items, Scan, Colons, Ipv6.IsGroup, Tail;
    ColonItems(p + rest);
    FieldStart(p, rest);
    ColonSkipped(p + rest, acc, None);
    FieldStep(p, rest, acc, None);
    OneMore(p, more, acc, rest, if gapped then "::" + Colons(post) else "");
  }

  lemma FieldStart(p: string, rest: string)
    requires IsField(p)
    ensures p + rest != "" && (p + rest)[0] != ':'
  {
    assert p[0] in p;
  }

  /** A tidy text after some groups is read as more groups, with at most one gap. */
  lemma {:induction false} BeforeGap(s: string, acc: seq<nat>)
    returns (more: seq<string>, post: seq<string>, gapped: bool)
    requires acc != [] && (s == "" || s[0] == ':') && '/' !in s && NoTriple(s) && ShortItems(s)
    requires |acc| + |Items(s, COLON)| <= 7 && Scan(s, acc, None).Some?
    ensures ReadAs(s, acc, more, post, gapped)
    decreases |s|
  {
    hide HexVal, AllHex, Items, ShortItems, Scan, NoTriple, Colons, ReadAs;
    if s == "" {
      EndHere(acc);
      return [], [], false;
    }
    assert forall i | 0 < i < |s| :: s[i] in s;
    if |s| >= 2 && s[1] == ':' {
      assert s == "::" + s[2..];
      NoThird(s);
      more, gapped := [], true;
      post := GapHere(s[2..], acc);
    } else {
      var u := s[1..];
      assert s == ":" + u;
      if u == "" {
        assert s == ":";
        LoneColon(acc, None);
      }
      ColonItems(u);
      SameItems(s, u);
      ColonSkipped(u, acc, None);
      var p, rest := FirstField(u);
      FieldStep(p, rest, acc, None);
      TripleSuffix(s, 1 + |p|);
      assert s[1 + |p|..] == rest;
      more, post, gapped := BeforeGap(rest, acc + [HexVal(p)]);
      FieldHere(p, rest, acc, more, post, gapped);
      more := [p] + more;
    }
  }

  lemma NoThird(s: string)
    requires NoTriple(s) && |s| >= 2 && s[0] == s[1] == ':'
    ensures |s| > 2 ==> s[2] != ':'
  {
  }

  lemma SameItems(s: string, u: string)
    requires ShortItems(s) && Items(s, COLON) == Items(u, COLON)
    ensures ShortItems(u)
  {
  }

  lemma OneMore(p: string, more: seq<string>, acc: seq<nat>, rest: string, end: string)
    requires Ipv6.IsGroup(p) && AllGroups(more) && rest == Tail(more) + end
    ensures AllGroups([p] + more) && ":" + (p + rest) == Tail([p] + more) + end
    ensures acc + [HexVal(p)] + GroupVals(more) == acc + GroupVals([p] + more)
  {
    hide HexVal, AllHex;
    GroupValsCons([p] + more, acc);
    assert ([p] + more)[1..] == more;
  }

  // ---------------------------------------------------------------- exactly eight fields

  /** There are at most as many pieces as fields, and if as many, no field is empty. */
  lemma {:induction false} ItemsAndFields(s: string)
    ensures |Items(s, COLON)| <= |Fields(s, ':')|
    ensures |Items(s, COLON)| == |Fields(s, ':')| ==> Items(s, COLON) == Fields(s, ':')
    decreases |s|
  {
    hide Items, Find;
    var i := Find(s, COLON);
    FirstPiece(s, COLON);
    if i < |s| { ItemsAndFields(s[i + 1..]); } else { WholeSlice(s); }
  }

  predicate AllFields(ps: seq<string>) { forall i | 0 <= i < |ps| :: IsField(ps[i]) }

  /** The pieces of a text without slashes are fields, if they are short enough. */
  lemma {:induction false} PiecesAreFields(s: string)
    requires '/' !in s && ShortItems(s)
    ensures AllFields(Items(s, COLON))
    decreases |s|
  {
    if s != "" {
      hide Items, ShortItems;
      assert forall c | c in s[1..] :: c in s;
      if s[0] == ':' {
        assert s == ":" + s[1..];
        ColonItems(s[1..]);
        SameItems(s, s[1..]);
        PiecesAreFields(s[1..]);
      } else {
        var p, rest := FirstField(s);
        PiecesAreFields(rest);
      }
    }
  }

  lemma {:induction false} FieldsRead(ps: seq<string>, acc: seq<nat>)
    requires AllFields(ps) && acc != [] && |acc| + |ps| <= 8 && Scan(Tail(ps), acc, None).Some?
    ensures AllGroups(ps)
  {
    hide HexVal, AllHex, Scan;
    if ps != [] {
      var p, rest := ps[0], Tail(ps[1..]);
      FieldStart(p, rest);
      assert Tail(ps) == ":" + (p + rest);
      ColonSkipped(p + rest, acc, None);
      FieldStep(p, rest, acc, None);
      FieldsRead(ps[1..], acc + [HexVal(p)]);
      assert forall i | 1 <= i < |ps| :: ps[i] == ps[1..][i - 1];
    }
  }

  lemma AllFieldsRead(ps: seq<string>)
    requires AllFields(ps) && 1 <= |ps| <= 8 && Scan(Colons(ps), [], None).Some?
    ensures AllGroups(ps)
  {
    hide HexVal, AllHex, Scan;
    var p, rest := ps[0], Tail(ps[1..]);
    ColonsTail(ps);
    FieldStep(p, rest, [], None);
    FieldsRead(ps[1..], [] + [HexVal(p)]);
    assert forall i | 1 <= i < |ps| :: ps[i] == ps[1..][i - 1];
  }

  lemma EightFieldsRead(s: string)
    requires Address6(s).Some? && '/' !in s && ShortItems(s)
    requires |Fields(s, ':')| == 8 && |Items(s, COLON)| > 7
    ensures exists gs :: Spells6(s, gs)
  {
    hide HexVal, AllHex, Scan, Items, Fields, ShortItems;
    var ps := Items(s, COLON);
    ItemsAndFields(s);
    PiecesAreFields(s);
    JoinOfFields(s, ':');
    AllFieldsRead(ps);
    assert Spells6(s, GroupVals(ps));
  }

  // ---------------------------------------------------------------- at most seven fields with something in them

  lemma GapSpells(pre: seq<string>, post: seq<string>)
    requires AllGroups(pre) && AllGroups(post) && |pre| + |post| <= 7
    ensures exists gs :: Spells6(Colons(pre) + "::" + Colons(post), gs)
  {
    hide HexVal, Colons, AllGroups;
    assert Spells6(Colons(pre) + "::" + Colons(post), GroupVals(pre) + Zeros(8 - |pre| - |post|) + GroupVals(post));
  }

  lemma ReadFromGap(s: string)
    requires Scan(s, [], None).Some? && '/' !in s && NoTriple(s) && ShortItems(s) && |Items(s, COLON)| <= 7
    requires s != "" && s[0] == ':'
    ensures exists gs :: Spells6(s, gs)
  {
    hide HexVal, AllHex, Items, ShortItems, Colons, NoTriple, Spells6;
    LeadingColon(s);
    var u := s[2..];
    assert s == "::" + u;
    NoThird(s);
    assert forall c | c in u :: c in s;
    var post := GapHere(u, []);
    GapSpells([], post);
    assert Colons([]) + "::" + Colons(post) == s by { NoGroups(); }
  }

  lemma LeadingColon(s: string)
    requires Scan(s, [], None).Some? && s != "" && s[0] == ':'
    ensures |s| >= 2 && s[1] == ':'
  {
  }

  lemma NoGroups()
    ensures Colons([]) == "" && Tail([]) == ""
  {
  }

  lemma FirstFieldSpells(p: string, rest: string, more: seq<string>, post: seq<string>, gapped: bool)
    requires Ipv6.IsGroup(p) && ReadAs(rest, [HexVal(p)], more, post, gapped) && 1 + |more| + |post| <= 7
    requires Address6(p + rest).Some? && Scan(p + rest, [], None) == Scan(rest, [HexVal(p)], None)
    ensures exists gs :: Spells6(p + rest, gs)
  {
    hide HexVal, AllHex, Items, Spells6, Scan, Ipv6.IsGroup, GroupBytes, Colons;
    var pre := [p] + more;
    ColonsTail(pre);
    assert pre[1..] == more;
    assert gapped;
    GapSpells(pre, post);
    assert p + rest == Colons(pre) + "::" + Colons(post);
  }

  lemma ReadFromField(s: string)
    requires Address6(s).Some? && '/' !in s && NoTriple(s) && ShortItems(s) && |Items(s, COLON)| <= 7
    requires s != "" && s[0] != ':'
    ensures exists gs :: Spells6(s, gs)
  {
    hide HexVal, AllHex, Items, ShortItems, NoTriple, Spells6, Scan, ReadAs, GroupBytes;
    var p, rest := FirstField(s);
    FieldStep(p, rest, [], None);
    AddEmpty([HexVal(p)]);
    TripleSuffix(s, |p|);
    assert s[|p|..] == rest;
    var more, post, gapped := BeforeGap(rest, [HexVal(p)]);
    ReadAsCount(rest, [HexVal(p)], more, post, gapped);
    FirstFieldSpells(p, rest, more, post, gapped);
  }

  lemma ReadAsCount(s: string, acc: seq<nat>, more: seq<string>, post: seq<string>, gapped: bool)
    requires ReadAs(s, acc, more, post, gapped)
    ensures |more| + |post| == |Items(s, COLON)|
  {
    hide Items;
  }

  lemma EmptyIsRefused()
    ensures Address6("") == None
  {
  }

  lemma TidyIsSpelled(s: string)
    requires Address6(s).Some? && Tidy(s)
    ensures exists gs :: Spells6(s, gs)
  {
    hide Items, Fields, ShortItems, NoTriple, Spells6, Scan, GroupBytes;
    EmptyIsRefused();
    if |Items(s, COLON)| > 7 {
      EightFieldsRead(s);
    } else if s[0] == ':' {
      ReadFromGap(s);
    } else {
      ReadFromField(s);
    }
  }

  /** A text is one of forms 1 and 2 of section 2.2 of RFC 4291 if and only if it is accepted and tidy. */
  lemma RfcExactly(s: string)
    ensures (exists gs :: Spells6(s, gs)) <==> Address6(s).Some? && Tidy(s)
  {
    hide Tidy, Spells6, Address6;
    forall gs | Spells6(s, gs) ensures Address6(s).Some? && Tidy(s) {
      SpelledAddress(s, gs);
      SpelledIsTidy(s, gs);
    }
    if Address6(s).Some? && Tidy(s) { TidyIsSpelled(s); }
  }

  /** The same with a prefix length: a text with a tidy address is read as a network exactly when it is a written form
      of it. */
  lemma V6Exact(s: string, n: Net6)
    ensures ParseV6(s) == Some(n) && Tidy(AddrPart(s)) <==>
      && IsNet6(n)
      && exists t: string, gs: seq<nat> ::
           Spells6(t, gs) && GroupBytes(gs) == n.addr && Writes(s, t, n.prefix, 128)
  {
    hide Tidy, Spells6, Address6, GroupBytes, IsNet6, Writes;
    if ParseV6(s) == Some(n) && Tidy(AddrPart(s)) {
      var t := AddrPart(s);
      RfcExactly(t);
      var gs :| Spells6(t, gs);
      SpelledAddress(t, gs);
      NoSlash(t);
      PartsExact(s, t, n.prefix, 128);
    }
    forall t: string, gs: seq<nat> |
      IsNet6(n) && Spells6(t, gs) && GroupBytes(gs) == n.addr && Writes(s, t, n.prefix, 128)
      ensures ParseV6(s) == Some(n) && Tidy(AddrPart(s))
    {
      WrittenIsRead(s, n, t, gs);
    }
  }

  lemma NoSlash(t: string)
    requires Tidy(t)
    ensures '/' !in t
  {
  }

  lemma WrittenIsRead(s: string, n: Net6, t: string, gs: seq<nat>)
    requires IsNet6(n) && Spells6(t, gs) && GroupBytes(gs) == n.addr && Writes(s, t, n.prefix, 128)
    ensures ParseV6(s) == Some(n) && Tidy(AddrPart(s))
  {
    hide Tidy, Spells6, Address6, GroupBytes, Writes;
    V6TextExact(s, t, gs, n.prefix);
    SpelledAddress(t, gs);
    SpelledIsTidy(t, gs);
    PartsExact(s, t, n.prefix, 128);
  }

  // ---------------------------------------------------------------- embedded dotted quads

  /** The run of a dotted quad has a dot in its first four characters. */
  lemma QuadIsNoGroup(quad: string)
    requires Octets(quad).Some?
    ensures quad != "" && quad[0] != ':' && !Ipv6.IsGroup(quad[..RunLength(quad)])
  {
    var first := Fields(quad, '.')[0];
    assert IsOctet(first);
    LongIsLarge(first);
    var i := Find(quad, {'.'});
    assert i <= 3 && i < |quad|;
    forall k | 0 <= k < i ensures IsDigit(quad[k]) { assert quad[k] == first[k]; }
    assert RunLength(quad) > i && quad[..RunLength(quad)][i] == '.';
  }

  lemma QuadStops(quad: string, acc: seq<nat>, gap: Option<nat>)
    requires Octets(quad).Some? && |acc| < 8
    ensures Scan(quad, acc, gap) == None
    ensures acc != [] || gap.Some? ==> Scan(":" + quad, acc, gap) == None
  {
    hide Octets, HexVal, AllHex;
    QuadIsNoGroup(quad);
    if acc != [] || gap.Some? { ColonSkipped(quad, acc, gap); }
  }

  /** Form 3 is refused, with and without `::`: the documentation lists `::ffff:192.168.1.1` as handled. */
  lemma EmbeddedQuadRefused(pre: seq<string>, post: seq<string>, quad: string)
    requires AllGroups(pre) && AllGroups(post) && |pre| + |post| <= 7 && Octets(quad).Some?
    ensures pre != [] ==> Address6(Colons(pre) + (":" + quad)) == None
    ensures Address6(Colons(pre) + "::" + (if post == [] then quad else Colons(post) + (":" + quad))) == None
  {
    hide Scan, Octets;
    if pre != [] {
      ScanFirst(pre, ":" + quad);
      QuadStops(quad, GroupVals(pre), None);
    }
    var end := if post == [] then quad else Colons(post) + (":" + quad);
    Assoc(Colons(pre), "::", end);
    ScanFirst(pre, "::" + end);
    ScanDoubleColon(end, GroupVals(pre));
    if post == [] {
      QuadStops(quad, GroupVals(pre), Some(|pre|));
    } else {
      ScanColons(post, ":" + quad, GroupVals(pre), Some(|pre|));
      QuadStops(quad, GroupVals(pre) + GroupVals(post), Some(|pre|));
    }
  }

  // ---------------------------------------------------------------- texts that are accepted although they are not tidy

  /** Whatever follows the eighth group is ignored if the group has four digits or a colon or slash comes next. */
  lemma TrailingTextIgnored(gs: seq<string>, junk: string)
    requires AllGroups(gs) && |gs| == 8
    requires junk == "" || junk[0] == ':' || junk[0] == '/' || |gs[7]| == 4
    ensures Address6(Colons(gs) + junk) == Address6(Colons(gs)) && Address6(Colons(gs)).Some?
  {
    hide Scan, HexVal, AllHex, Tail;
    EightGroups(gs);
    var init, last := gs[..7], gs[7];
    assert gs == init + [last];
    ColonsSnoc(init, last);
    Assoc(Colons(init), ":" + last, junk);
    ScanFirst(init, ":" + last + junk);
    ScanFirst(init, ":" + last);
    EighthGroup(last, junk, GroupVals(init));
    EighthGroup(last, "", GroupVals(init));
    AddEmpty(":" + last);
  }

  lemma {:induction false} ColonsSnoc(gs: seq<string>, g: string)
    requires gs != []
    ensures Colons(gs + [g]) == Colons(gs) + (":" + g)
  {
    var all := gs + [g];
    assert all[0] == gs[0] && all[1..] == gs[1..] + [g];
    if |gs| > 1 {
      ColonsSnoc(gs[1..], g);
      Assoc(gs[0] + ":", Colons(gs[1..]), ":" + g);
    } else {
      assert all[1..] == [g] && Colons([g]) == g;
      Assoc(gs[0], ":", g);
    }
  }

  lemma EighthGroup(g: string, junk: string, acc: seq<nat>)
    requires Ipv6.IsGroup(g) && |acc| == 7 && (junk == "" || junk[0] == ':' || junk[0] == '/' || |g| == 4)
    ensures Scan(":" + g + junk, acc, None) == Some((acc + [HexVal(g)], None))
  {
    hide HexVal, AllHex, Find;
    RunOfGroup(g, junk);
    assert ":" + g + junk == ":" + (g + junk);
    ColonSkipped(g + junk, acc, None);
  }

  lemma RunOfGroup(g: string, rest: string)
    requires Ipv6.IsGroup(g) && (rest == "" || rest[0] == ':' || rest[0] == '/' || |g| == 4)
    ensures RunLength(g + rest) == |g| && (g + rest)[..|g|] == g && (g + rest)[|g|..] == rest
    ensures (g + rest)[0] == g[0] != ':'
  {
    var s := g + rest;
    forall k | 0 <= k < |g| ensures s[k] !in {':', '/'} { assert IsHex(g[k]); }
    if rest == "" || rest[0] == ':' || rest[0] == '/' { FindUnique(s, {':', '/'}, |g|); }
  }

  /** One colon too many after `::` is skipped. */
  lemma ExtraColonSkipped(pre: seq<string>, post: seq<string>)
    requires AllGroups(pre) && AllGroups(post) && post != [] && |pre| + |post| <= 7
    ensures Address6(Colons(pre) + "::" + (":" + Colons(post))) == Address6(Colons(pre) + "::" + Colons(post))
    ensures Address6(Colons(pre) + "::" + Colons(post)).Some?
  {
    hide Scan;
    CompressedGroups(pre, post);
    ScanCompressed(pre, post);
    Assoc(Colons(pre), "::", ":" + Colons(post));
    ScanFirst(pre, "::" + (":" + Colons(post)));
    ScanDoubleColon(":" + Colons(post), GroupVals(pre));
    ColonsTail(post);
    Assoc(":", post[0], Tail(post[1..]));
    ScanAllTail(post, GroupVals(pre), Some(|pre|));
  }

  lemma ScanAllTail(gs: seq<string>, acc: seq<nat>, gap: Option<nat>)
    requires AllGroups(gs) && gs != [] && gap.Some? && |acc| + |gs| <= 8
    ensures Scan(Tail(gs), acc, gap) == Some((acc + GroupVals(gs), gap))
  {
    var more := Tail(gs[1..]);
    ScanGroup(gs[0], more, acc, gap);
    ScanTail(gs[1..], "", acc + [HexVal(gs[0])], gap);
    GroupValsCons(gs, acc);
    AddEmpty(more);
  }

  /** A run of hexadecimal digits is cut after every fourth one: the cut acts like a colon, whatever follows it and
      whether or not a colon comes before it. */
  lemma LongRunSplit(g: string, rest: string, acc: seq<nat>, gap: Option<nat>)
    requires Ipv6.IsGroup(g) && |g| == 4 && rest != "" && rest[0] != ':' && |acc| < 8
    ensures Scan(g + rest, acc, gap) == Scan(g + (":" + rest), acc, gap)
    ensures acc != [] || gap.Some? ==> Scan(":" + (g + rest), acc, gap) == Scan(":" + (g + (":" + rest)), acc, gap)
  {
    hide HexVal, AllHex, Find;
    RunOfGroup(g, rest);
    RunOfGroup(g, ":" + rest);
    var next := acc + [HexVal(g)];
    assert Scan(g + rest, acc, gap) == Scan(rest, next, gap);
    assert Scan(g + (":" + rest), acc, gap) == Scan(":" + rest, next, gap);
    if |next| < 8 { ColonSkipped(rest, next, gap); }
    if acc != [] || gap.Some? {
      ColonSkipped(g + rest, acc, gap);
      ColonSkipped(g + (":" + rest), acc, gap);
    }
  }
}
