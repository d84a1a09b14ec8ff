/**
 Printing: every well-formed directive has a text that is read as that directive, and every well-shaped filter is the
 filter of some string.
 */
module Printing {
  import opened Text
  import opened Numbers
  import opened Cidr
  import opened Ipv4
  import opened Ipv6
  import opened Filter
  import opened Meaning
  import opened Shape

  // ---------------------------------------------------------------- characters

  predicate WordChar(c: char) { 'a' <= c <= 'z' || '0' <= c <= '9' || c == '_' }

  predicate IsWord(s: string) { s != "" && forall c | c in s :: WordChar(c) }

  /** The characters of a token: printable, and no blank. */
  predicate IsToken(s: string) { s != "" && forall c | c in s :: '!' <= c <= '~' }

  lemma WordLower(s: string)
    requires IsWord(s)
    ensures Lower(s) == s
  {
    forall i | 0 <= i < |s| ensures ToLower(s[i]) == s[i] { assert s[i] in s; }
  }

  lemma DecimalWord(n: nat)
    ensures IsWord(Decimal(n))
  {
    DecimalIsCanonical(n);
    forall c | c in Decimal(n) ensures WordChar(c) {
      var i :| 0 <= i < |Decimal(n)| && Decimal(n)[i] == c;
      assert IsDigit(Decimal(n)[i]);
    }
  }

  // ---------------------------------------------------------------- lists

  function Texts(xs: seq<nat>, text: nat -> string): (r: seq<string>)
    ensures |r| == |xs| && forall i | 0 <= i < |xs| :: r[i] == text(xs[i])
  {
    seq(|xs|, i requires 0 <= i < |xs| => text(xs[i]))
  }

  /** The text of a list; the empty list is a lone comma. */
  function ListText(parts: seq<string>): string { if parts == [] then "," else Join(parts, ',') }

  lemma ItemsOfList(parts: seq<string>)
    requires Clean(parts, {','})
    ensures Items(ListText(parts), {','}) == parts
  {
    if parts == [] {
      FirstPiece(",", {','});
      FirstPiece("", {','});
    } else {
      ItemsOfJoin(parts, ',', {','});
    }
  }

  /** The length of the parts, with a separator each. */
  function Total(parts: seq<string>): nat {
    if parts == [] then 0 else Total(parts[..|parts| - 1]) + |parts[|parts| - 1]| + 1
  }

  lemma {:induction false} TotalCons(p: string, rest: seq<string>)
    ensures Total([p] + rest) == |p| + 1 + Total(rest)
    decreases |rest|
  {
    if rest == [] {
      assert [p] + rest == [p] && [p][..0] == [];
    } else {
      TotalCons(p, rest[..|rest| - 1]);
      assert ([p] + rest)[..|rest|] == [p] + rest[..|rest| - 1];
    }
  }

  lemma {:induction false} JoinLength(parts: seq<string>, c: char)
    requires parts != []
    ensures |Join(parts, c)| == Total(parts) - 1
  {
    assert parts == [parts[0]] + parts[1..];
    TotalCons(parts[0], parts[1..]);
    if |parts| > 1 { JoinLength(parts[1..], c); }
  }

  /** Texts of distinct values are read back as those values. */
  lemma {:induction false} ReadAllOfTexts(xs: seq<nat>, text: nat -> string, read: string -> Option<nat>)
    requires Distinct(xs) && forall i | 0 <= i < |xs| :: read(text(xs[i])) == Some(xs[i])
    ensures ReadAll(Texts(xs, text), read) == Some(xs)
  {
    if xs != [] {
      var n := |xs| - 1;
      assert Texts(xs, text)[..n] == Texts(xs[..n], text);
      ReadAllOfTexts(xs[..n], text, read);
      assert xs == xs[..n] + [xs[n]];
    }
  }

  // ---------------------------------------------------------------- names

  function StateName(s: nat): string { if s <= 10 then STATE_NAMES[s].0 else "" }

  function GroupName(b: nat): string { if b < 10 then FIELD_GROUPS[b].0 else "" }

  lemma StateNameRead(s: nat)
    requires s <= 10
    ensures IsWord(StateName(s)) && StateOf(StateName(s)) == Some(s)
  {
    StateWord(s);
    WordLower(StateName(s));
    StateFound(s);
  }

  lemma FirstStateWord(s: nat)
    requires s <= 2
    ensures IsWord(StateName(s))
  {
  }

  lemma EarlyStateWord(s: nat)
    requires 3 <= s <= 5
    ensures IsWord(StateName(s))
  {
  }

  lemma LateStateWord(s: nat)
    requires 6 <= s <= 10
    ensures IsWord(StateName(s))
  {
  }

  lemma StateWord(s: nat)
    requires s <= 10
    ensures IsWord(StateName(s))
  {
    hide IsWord, StateName;
    if s <= 2 { FirstStateWord(s); } else if s <= 5 { EarlyStateWord(s); } else { LateStateWord(s); }
  }

  /** A name that no earlier entry has is found at its own entry. */
  lemma {:induction false} LookupAt<T>(table: seq<(string, T)>, i: nat)
    requires i < |table| && forall j | 0 <= j < i :: table[j].0 != table[i].0
    ensures Lookup(table, table[i].0) == Some(table[i].1)
  {
    if i > 0 {
      LookupAt(table[1..], i - 1);
    }
  }

  /** Length and last character tell the names apart. */
  function Mark(s: string): nat
    requires s != ""
  {
    |s| * 256 + s[|s| - 1] as nat
  }

  const STATE_MARKS: seq<nat> := [1636, 1646, 2164, 3172, 2916, 2676, 2609, 1895, 2155, 2610, 2420]

  lemma StateMarked(s: nat)
    requires s <= 10
    ensures StateName(s) != "" && Mark(StateName(s)) == STATE_MARKS[s]
  {
  }

  lemma MarksDiffer(j: nat, s: nat)
    requires j < s <= 10
    ensures STATE_MARKS[j] != STATE_MARKS[s]
  {
  }

  lemma NamesDiffer(j: nat, s: nat)
    requires j < s <= 10
    ensures StateName(j) != StateName(s)
  {
    hide StateName;
    StateMarked(j);
    StateMarked(s);
    MarksDiffer(j, s);
  }

  lemma StateEntry(s: nat)
    requires s <= 10
    ensures STATE_NAMES[s] == (StateName(s), s)
  {
  }

  lemma StateFound(s: nat)
    requires s <= 10
    ensures Lookup(STATE_NAMES, StateName(s)) == Some(s)
  {
    hide StateName, Lookup;
    forall j: nat | j < s ensures STATE_NAMES[j].0 != STATE_NAMES[s].0 {
      StateEntry(j);
      StateEntry(s);
      NamesDiffer(j, s);
    }
    StateEntry(s);
    LookupAt(STATE_NAMES, s);
  }

  const GROUP_MARKS: seq<nat> := [2169, 1381, 2670, 884, 2419, 2163, 1651, 1907, 878, 1395]

  lemma GroupMarked(b: nat)
    requires b < 10
    ensures GroupName(b) != "" && Mark(GroupName(b)) == GROUP_MARKS[b] && FIELD_GROUPS[b].1 == {b}
  {
  }

  lemma GroupWord(b: nat)
    requires b < 10
    ensures IsWord(GroupName(b))
  {
  }

  lemma GroupNameRead(b: nat)
    requires b < 10
    ensures IsWord(GroupName(b)) && Lookup(FIELD_GROUPS, Lower(GroupName(b))) == Some({b})
  {
    GroupWord(b);
    WordLower(GroupName(b));
    GroupMarked(b);
    forall j: nat | j < b ensures FIELD_GROUPS[j].0 != FIELD_GROUPS[b].0 {
      GroupMarked(j);
      assert GROUP_MARKS[j] != GROUP_MARKS[b];
    }
    LookupAt(FIELD_GROUPS, b);
  }

  // ---------------------------------------------------------------- masks as lists

  /** The bits below `k` of a mask, in order. */
  function BitsBelow(mask: set<nat>, k: nat): (xs: seq<nat>)
    ensures forall i | 0 <= i < |xs| :: xs[i] < k && xs[i] in mask
    ensures Distinct(xs)
  {
    if k == 0 then [] else BitsBelow(mask, k - 1) + (if k - 1 in mask then [k - 1] else [])
  }

  lemma {:induction false} AllBits(mask: set<nat>, k: nat, b: nat)
    ensures b in BitsBelow(mask, k) <==> b in mask && b < k
  {
    if k > 0 { AllBits(mask, k - 1, b); }
  }

  lemma BitsOfMask(mask: set<nat>, k: nat)
    requires forall b | b in mask :: b < k
    ensures StateBits(BitsBelow(mask, k)) == mask
  {
    forall b ensures b in StateBits(BitsBelow(mask, k)) <==> b in mask { if b >= 0 { AllBits(mask, k, b); } }
  }

  lemma {:induction false} FieldBitsOfTexts(xs: seq<nat>)
    requires forall i | 0 <= i < |xs| :: xs[i] < 10
    ensures FieldBits(Texts(xs, GroupName)) == Some(StateBits(xs))
  {
    hide Lookup, Lower, GroupName;
    if xs != [] {
      var n := |xs| - 1;
      assert Texts(xs, GroupName)[..n] == Texts(xs[..n], GroupName);
      FieldBitsOfTexts(xs[..n]);
      GroupNameRead(xs[n]);
      assert xs == xs[..n] + [xs[n]];
      assert StateBits(xs) == StateBits(xs[..n]) + {xs[n]};
    } else {
      assert StateBits(xs) == {};
    }
  }

  // ---------------------------------------------------------------- IPv6 groups

  function HexChar(d: nat): (c: char)
    requires d < 16
    ensures IsHex(c) && HexDigit(c) == d && WordChar(c)
  {
    if d < 10 then ('0' as int + d) as char else ('a' as int + d - 10) as char
  }

  function HexDigits(n: nat, k: nat): (g: string)
    ensures |g| == k && AllHex(g) && forall i | 0 <= i < k :: WordChar(g[i])
  {
    if k == 0 then "" else HexDigits(n / 16, k - 1) + [HexChar(n % 16)]
  }

  function Pow16(k: nat): nat { if k == 0 then 1 else 16 * Pow16(k - 1) }

  lemma {:induction false} HexDigitsValue(n: nat, k: nat)
    requires n < Pow16(k)
    ensures HexVal(HexDigits(n, k)) == n
  {
    if k > 0 {
      HexDigitsValue(n / 16, k - 1);
      assert HexDigits(n, k)[..k - 1] == HexDigits(n / 16, k - 1);
    }
  }

  /** Four digits, leading zeros included. */
  function HexText(n: nat): (g: string)
    ensures IsGroup(g)
  {
    HexDigits(n, 4)
  }

  lemma HexTextValue(n: nat)
    requires n < 0x1_0000
    ensures HexVal(HexText(n)) == n
  {
    assert Pow16(2) == 256 && Pow16(4) == 0x1_0000;
    HexDigitsValue(n, 4);
  }

  function GroupsOf(a: seq<nat>): (gs: seq<nat>)
    requires IsAddr6(a)
    ensures |gs| == 8 && forall i | 0 <= i < 8 :: gs[i] == a[2 * i] * 256 + a[2 * i + 1] < 0x1_0000
  {
    [a[0] * 256 + a[1], a[2] * 256 + a[3], a[4] * 256 + a[5], a[6] * 256 + a[7],
     a[8] * 256 + a[9], a[10] * 256 + a[11], a[12] * 256 + a[13], a[14] * 256 + a[15]]
  }

  lemma PairBytes(x: nat, y: nat)
    requires x < 256 && y < 256
    ensures (x * 256 + y) / 256 % 256 == x && (x * 256 + y) % 256 == y
  {
  }

  lemma {:induction false} GroupBytesAt(gs: seq<nat>, i: nat)
    requires i < |gs|
    ensures GroupBytes(gs)[2 * i] == gs[i] / 256 % 256 && GroupBytes(gs)[2 * i + 1] == gs[i] % 256
  {
    if i < |gs| - 1 { GroupBytesAt(gs[..|gs| - 1], i); }
  }

  lemma BytesOfGroups(a: seq<nat>)
    requires IsAddr6(a)
    ensures GroupBytes(GroupsOf(a)) == a
  {
    hide GroupBytes, GroupsOf;
    var gs := GroupsOf(a);
    forall k | 0 <= k < 16 ensures GroupBytes(gs)[k] == a[k] {
      var i := k / 2;
      PairBytes(a[2 * i], a[2 * i + 1]);
      GroupBytesAt(gs, i);
    }
  }

  function HexTexts(gs: seq<nat>): (r: seq<string>)
    ensures |r| == |gs| && AllGroups(r) && forall i | 0 <= i < |gs| :: r[i] == HexText(gs[i])
  {
    seq(|gs|, i requires 0 <= i < |gs| => HexText(gs[i]))
  }

  function Text6(a: seq<nat>): string
    requires IsAddr6(a)
  {
    Colons(HexTexts(GroupsOf(a)))
  }

  function Text4(n: Net4): string { Dotted(n.addr) + "/" + Decimal(n.prefix) }

  function TextOf6(n: Net6): string
    requires IsAddr6(n.addr)
  {
    Text6(n.addr) + "/" + Decimal(n.prefix)
  }

  lemma Text6Spells(a: seq<nat>)
    requires IsAddr6(a)
    ensures Spells6(Text6(a), GroupsOf(a)) && GroupBytes(GroupsOf(a)) == a
  {
    hide HexVal;
    BytesOfGroups(a);
    var gs := GroupsOf(a);
    var all := HexTexts(gs);
    forall i | 0 <= i < 8 ensures GroupVals(all)[i] == gs[i] { HexTextValue(gs[i]); }
    assert GroupVals(all) == gs;
  }

  lemma Text6Read(n: Net6)
    requires IsNet6(n)
    ensures ParseV6(TextOf6(n)) == Some(n) && ':' in TextOf6(n)
  {
    hide Spells6, GroupBytes, GroupsOf;
    Text6Spells(n.addr);
    V6TextExact(TextOf6(n), Text6(n.addr), GroupsOf(n.addr), n.prefix);
    SpelledHasColon(Text6(n.addr), GroupsOf(n.addr));
  }

  lemma Text4Read(n: Net4)
    requires IsNet4(n)
    ensures ParseV4(Text4(n)) == Some(n) && ':' !in Text4(n)
  {
    V4Exact(Text4(n), n);
    DottedAvoids(n.addr, ':');
    DecimalHasOnlyDigits(n.prefix, ':');
  }

  // ---------------------------------------------------------------- directives

  /** A directive that can be written: no state is listed twice. */
  predicate Writable(d: Directive) {
    IsDirective(d) && (d.Exclude? || d.Include? ==> Distinct(d.states))
  }

  /** The key and the value of a directive; the two flags have no value. */
  function PrintKey(d: Directive): string {
    match d
    case Ipv4Only => "ipv4_only"
    case Ipv6Only => "ipv6_only"
    case Ports(dir, _) => PortKey(dir)
    case Exclude(_) => "exclude"
    case Include(_) => "include_state"
    case Addr4(dir, _) => AddrKey(dir)
    case Addr6(dir, _) => AddrKey(dir)
    case Format(_) => "format"
    case FieldList(_) => "fields"
  }

  function PrintValue(d: Directive): string
    requires IsDirective(d)
  {
    match d
    case Ports(_, ports) => ListText(Texts(ports, Decimal))
    case Exclude(states) => ListText(Texts(states, StateName))
    case Include(states) => ListText(Texts(states, StateName))
    case Addr4(_, n) => Text4(n)
    case Addr6(_, n) => TextOf6(n)
    case Format(n) => if n == TSF_FORMAT_COMPACT then "compact" else "full"
    case FieldList(m) => ListText(Texts(BitsBelow(m, 10), GroupName))
    case _ => ""
  }

  function Print(d: Directive): string
    requires IsDirective(d)
  {
    if d.Ipv4Only? || d.Ipv6Only? then PrintKey(d) else PrintKey(d) + "=" + PrintValue(d)
  }

  lemma KeyWord(d: Directive)
    ensures IsWord(PrintKey(d))
  {
  }

  lemma KeyValueToken(key: string, value: string)
    requires IsWord(key) && value != ""
    ensures ParseToken(key + "=" + value) == ReadKeyValue(key, value)
  {
    hide ReadKeyValue;
    CleanHead(key, '=', value, {'='});
    WordLower(key);
  }

  lemma FlagToken(key: string)
    requires IsWord(key)
    ensures !HasValue(key) && KeyOf(key) == key
  {
    CleanPart(key, {'='});
    WholeSlice(key);
    WordLower(key);
  }

  /** Words are clean parts of a list. */
  lemma CleanWords(xs: seq<nat>, text: nat -> string)
    requires forall i | 0 <= i < |xs| :: IsWord(text(xs[i]))
    ensures Clean(Texts(xs, text), {','}) && ListText(Texts(xs, text)) != ""
  {
    var parts := Texts(xs, text);
    if parts != [] {
      assert IsWord(text(xs[0]));
      if |parts| == 1 { assert Join(parts, ',') == parts[0]; }
    }
  }

  lemma PortsRead(ports: seq<nat>)
    requires 1 <= |ports| <= 8 && Distinct(ports) && forall i | 0 <= i < |ports| :: 1 <= ports[i] <= 65535
    ensures ReadPorts(ListText(Texts(ports, Decimal))) == Some(ports) && ListText(Texts(ports, Decimal)) != ""
  {
    hide PortOf, Decimal, ListText, Items;
    forall i | 0 <= i < |ports| ensures IsWord(Decimal(ports[i])) && PortOf(Decimal(ports[i])) == Some(ports[i]) {
      DecimalWord(ports[i]);
      PortExact(Decimal(ports[i]), ports[i]);
    }
    CleanWords(ports, Decimal);
    ItemsOfList(Texts(ports, Decimal));
    ReadAllOfTexts(ports, Decimal, PortOf);
  }

  lemma StatesRead(states: seq<nat>)
    requires AreStates(states) && Distinct(states)
    ensures ReadStates(ListText(Texts(states, StateName))) == Some(states) && ListText(Texts(states, StateName)) != ""
  {
    hide StateOf, StateName, ListText, Items;
    forall i | 0 <= i < |states|
      ensures IsWord(StateName(states[i])) && StateOf(StateName(states[i])) == Some(states[i])
    {
      StateNameRead(states[i]);
    }
    CleanWords(states, StateName);
    ItemsOfList(Texts(states, StateName));
    ReadAllOfTexts(states, StateName, StateOf);
  }

  lemma FieldsRead(m: set<nat>)
    requires m <= TSR_FIELDS_ALL
    ensures FieldBits(Items(ListText(Texts(BitsBelow(m, 10), GroupName)), {','})) == Some(m)
    ensures ListText(Texts(BitsBelow(m, 10), GroupName)) != ""
  {
    hide GroupName, ListText, Items, FieldBits;
    var xs := BitsBelow(m, 10);
    forall i | 0 <= i < |xs| ensures IsWord(GroupName(xs[i])) { GroupNameRead(xs[i]); }
    CleanWords(xs, GroupName);
    ItemsOfList(Texts(xs, GroupName));
    FieldBitsOfTexts(xs);
    BitsOfMask(m, 10);
  }

  lemma FormatRead(n: nat)
    requires n <= 1
    ensures ReadFormat(PrintValue(Format(n))) == Some(n)
  {
    WordLower("compact");
    WordLower("full");
  }

  /** Printing and parsing: every directive that can be written is read back from its text. */
  lemma PrintedIsRead(d: Directive)
    requires Writable(d)
    ensures ParseToken(Print(d)) == Some(d)
  {
    hide ReadKeyValue, ListText, Items, FieldBits, ReadStates, ReadPorts, ReadAddr, ReadFormat, KeyOf, HasValue;
    KeyWord(d);
    if d.Ipv4Only? || d.Ipv6Only? {
      FlagToken(PrintKey(d));
    } else {
      ValueRead(d);
      KeyValueToken(PrintKey(d), PrintValue(d));
    }
  }

  lemma ValueRead(d: Directive)
    requires Writable(d) && !d.Ipv4Only? && !d.Ipv6Only?
    ensures PrintValue(d) != "" && ReadKeyValue(PrintKey(d), PrintValue(d)) == Some(d)
  {
    hide ReadKeyValue, ListText, Items, FieldBits, ReadStates, ReadPorts, ReadFormat, ParseV4, ParseV6, IsNet4, IsNet6;
    match d
    case Ports(dir, ports) =>
      PortsRead(ports);
      PortKeyMeans(dir, PrintValue(d));
    case Exclude(states) =>
      StatesRead(states);
      StateKeysMean(PrintValue(d));
    case Include(states) =>
      StatesRead(states);
      StateKeysMean(PrintValue(d));
    case Addr4(dir, n) =>
      Text4Read(n);
      AddrKeyMeans(dir, PrintValue(d));
    case Addr6(dir, n) =>
      Text6Read(n);
      AddrKeyMeans(dir, PrintValue(d));
    case Format(n) =>
      FormatRead(n);
      FormatKeyMeans(PrintValue(d));
    case FieldList(m) =>
      FieldsRead(m);
      FieldsKeyMeans(PrintValue(d));
  }

  lemma FormatKeyMeans(value: string)
    ensures ReadKeyValue("format", value) == var n := ReadFormat(value); if n.None? then None else Some(Format(n.value))
  {
    hide ReadFormat;
  }

  // ---------------------------------------------------------------- the characters and the length of a text

  lemma WordIsToken(s: string)
    requires IsWord(s)
    ensures IsToken(s)
  {
  }

  lemma TokenAdd(a: string, b: string)
    requires IsToken(a) && IsToken(b)
    ensures IsToken(a + b)
  {
  }

  lemma ListIsToken(xs: seq<nat>, text: nat -> string)
    requires forall i | 0 <= i < |xs| :: IsWord(text(xs[i]))
    ensures IsToken(ListText(Texts(xs, text)))
  {
    CleanWords(xs, text);
    var parts := Texts(xs, text);
    if parts != [] {
      forall c | c in Join(parts, ',') ensures '!' <= c <= '~' {
        JoinChars(parts, ',', c);
        if c != ',' {
          var i :| 0 <= i < |parts| && c in parts[i];
          assert IsWord(text(xs[i])) && c in text(xs[i]);
        }
      }
    }
  }

  lemma {:induction false} TotalAtMost(xs: seq<nat>, text: nat -> string, m: nat)
    requires forall i | 0 <= i < |xs| :: |text(xs[i])| <= m
    ensures Total(Texts(xs, text)) <= (m + 1) * |xs|
  {
    if xs != [] {
      var n := |xs| - 1;
      assert Texts(xs, text)[..n] == Texts(xs[..n], text);
      TotalAtMost(xs[..n], text, m);
    }
  }

  /** The length of all names up to `k`, with a separator each. */
  function NameTotal(text: nat -> string, k: nat): nat {
    if k == 0 then 0 else NameTotal(text, k - 1) + |text(k - 1)| + 1
  }

  lemma {:induction false} MaskTotal(mask: set<nat>, k: nat, text: nat -> string)
    ensures Total(Texts(BitsBelow(mask, k), text)) <= NameTotal(text, k)
  {
    if k > 0 {
      MaskTotal(mask, k - 1, text);
      var xs := BitsBelow(mask, k - 1);
      assert Texts(xs + [k - 1], text)[..|xs|] == Texts(xs, text);
      assert xs + [] == xs;
    }
  }

  lemma ListLength(parts: seq<string>)
    ensures |ListText(parts)| <= if Total(parts) == 0 then 1 else Total(parts)
  {
    if parts != [] { JoinLength(parts, ','); }
  }

  lemma AllStateNames()
    ensures NameTotal(StateName, 11) == 108
  {
    assert NameTotal(StateName, 6) == 59;
  }

  lemma AllGroupNames()
    ensures NameTotal(GroupName, 10) == 74
  {
    assert NameTotal(GroupName, 5) == 40;
  }

  lemma DecimalShort(n: nat)
    ensures n < 1000 ==> |Decimal(n)| <= 3
    ensures n < 100000 ==> |Decimal(n)| <= 5
  {
    DecimalIsCanonical(n);
    LongIsLarge(Decimal(n));
  }

  lemma AddrPartOfWritten(addr: string, prefix: string)
    requires '/' !in addr
    ensures AddrPart(addr + "/" + prefix) == addr
  {
    FindAfter(addr, '/', prefix);
  }

  lemma Text4Short(n: Net4)
    requires IsNet4(n)
    ensures |Text4(n)| <= 44 && IsToken(Text4(n))
  {
    Text4Read(n);
    DottedAvoids(n.addr, '/');
    AddrPartOfWritten(Dotted(n.addr), Decimal(n.prefix));
    if |Dotted(n.addr)| >= 16 { LongAddress(Text4(n)); }
    DecimalShort(n.prefix);
    forall c | c in Dotted(n.addr) ensures '!' <= c <= '~' {
      if !IsDigit(c) && c != '.' { DottedAvoids(n.addr, c); }
    }
    DecimalWord(n.prefix);
  }

  lemma Text6Short(n: Net6)
    requires IsNet6(n)
    ensures |TextOf6(n)| <= 44 && IsToken(TextOf6(n))
  {
    var gs := HexTexts(GroupsOf(n.addr));
    ColonsShape(gs);
    DecimalShort(n.prefix);
    DecimalWord(n.prefix);
    forall c | c in Colons(gs) ensures '!' <= c <= '~' {
      JoinChars(gs, ':', c);
      if c != ':' {
        var i :| 0 <= i < 8 && c in gs[i];
        var k :| 0 <= k < 4 && gs[i][k] == c;
        assert IsHex(gs[i][k]);
      }
    }
  }

  lemma PortsShort(ports: seq<nat>)
    requires |ports| <= 8 && forall i | 0 <= i < |ports| :: 1 <= ports[i] <= 65535
    ensures |ListText(Texts(ports, Decimal))| <= 48 && IsToken(ListText(Texts(ports, Decimal)))
  {
    hide Decimal, ListText, Texts;
    forall i | 0 <= i < |ports| ensures IsWord(Decimal(ports[i])) && |Decimal(ports[i])| <= 5 {
      DecimalWord(ports[i]);
      DecimalShort(ports[i]);
    }
    TotalAtMost(ports, Decimal, 5);
    ListLength(Texts(ports, Decimal));
    ListIsToken(ports, Decimal);
  }

  lemma StatesShort(mask: set<nat>)
    ensures |ListText(Texts(BitsBelow(mask, 11), StateName))| <= 108
    ensures IsToken(ListText(Texts(BitsBelow(mask, 11), StateName)))
  {
    hide StateName, ListText, Texts, NameTotal;
    var xs := BitsBelow(mask, 11);
    forall i | 0 <= i < |xs| ensures IsWord(StateName(xs[i])) { StateWord(xs[i]); }
    MaskTotal(mask, 11, StateName);
    AllStateNames();
    ListLength(Texts(xs, StateName));
    ListIsToken(xs, StateName);
  }

  lemma FieldsShort(mask: set<nat>)
    ensures |ListText(Texts(BitsBelow(mask, 10), GroupName))| <= 74
    ensures IsToken(ListText(Texts(BitsBelow(mask, 10), GroupName)))
  {
    hide GroupName, ListText, Texts, NameTotal;
    var xs := BitsBelow(mask, 10);
    forall i | 0 <= i < |xs| ensures IsWord(GroupName(xs[i])) { GroupWord(xs[i]); }
    MaskTotal(mask, 10, GroupName);
    AllGroupNames();
    ListLength(Texts(xs, GroupName));
    ListIsToken(xs, GroupName);
  }

  /** A directive in the form in which a filter is printed: states in ascending order. */
  ghost predicate InOrder(d: Directive) {
    IsDirective(d) && (d.Exclude? || d.Include? ==> exists m: set<nat> :: d.states == BitsBelow(m, 11))
  }

  /** How long the text of a directive can be, with a blank. */
  function Room(d: Directive): nat {
    match d
    case Ipv4Only => 10
    case Ipv6Only => 10
    case Ports(_, _) => 61
    case Exclude(_) => 123
    case Include(_) => 123
    case Addr4(_, _) => 57
    case Addr6(_, _) => 57
    case Format(_) => 15
    case FieldList(_) => 82
  }

  lemma ValueShort(d: Directive)
    requires InOrder(d) && !d.Ipv4Only? && !d.Ipv6Only?
    ensures IsToken(PrintValue(d)) && |PrintKey(d)| + |PrintValue(d)| + 2 <= Room(d)
  {
    hide ListText, Texts, BitsBelow, Text4, TextOf6, IsNet4, IsNet6, IsToken;
    match d
    case Ports(_, ports) => PortsShort(ports);
    case Exclude(states) => var m: set<nat> :| states == BitsBelow(m, 11); StatesShort(m);
    case Include(states) => var m: set<nat> :| states == BitsBelow(m, 11); StatesShort(m);
    case Addr4(_, n) => Text4Short(n);
    case Addr6(_, n) => Text6Short(n);
    case Format(_) => WordIsToken("compact"); WordIsToken("full");
    case FieldList(m) => FieldsShort(m);
  }

  lemma PrintShort(d: Directive)
    requires InOrder(d)
    ensures IsToken(Print(d)) && |Print(d)| + 1 <= Room(d)
  {
    hide IsToken, PrintValue, IsDirective;
    KeyWord(d);
    WordIsToken(PrintKey(d));
    if !d.Ipv4Only? && !d.Ipv6Only? {
      ValueShort(d);
      EqualsToken(PrintKey(d), PrintValue(d));
    }
  }

  lemma EqualsToken(key: string, value: string)
    requires IsToken(key) && IsToken(value)
    ensures IsToken(key + "=" + value)
  {
    TokenAdd(key, "=");
    TokenAdd(key + "=", value);
  }

  // ---------------------------------------------------------------- whole filters

  ghost predicate AllInOrder(ds: seq<Directive>) { forall i | 0 <= i < |ds| :: InOrder(ds[i]) }

  function PrintAll(ds: seq<Directive>): (r: seq<string>)
    requires forall i | 0 <= i < |ds| :: IsDirective(ds[i])
    ensures |r| == |ds| && forall i | 0 <= i < |ds| :: r[i] == Print(ds[i])
  {
    seq(|ds|, i requires 0 <= i < |ds| => Print(ds[i]))
  }

  function ApplyAll(ds: seq<Directive>, f: Filter): Option<Filter>
    requires forall i | 0 <= i < |ds| :: IsDirective(ds[i])
  {
    if ds == [] then Some(f)
    else
      var g := Apply(ds[0], f);
      if g.None? then None else ApplyAll(ds[1..], g.value)
  }

  lemma InOrderWritable(d: Directive)
    requires InOrder(d)
    ensures Writable(d)
  {
  }

  lemma {:induction false} RunPrinted(ds: seq<Directive>, f: Filter)
    requires forall i | 0 <= i < |ds| :: IsDirective(ds[i]) && Writable(ds[i])
    ensures Run(PrintAll(ds), f) == ApplyAll(ds, f)
    decreases |ds|
  {
    hide Print, Apply, ParseToken, IsDirective;
    if ds != [] {
      PrintedIsRead(ds[0]);
      assert PrintAll(ds)[1..] == PrintAll(ds[1..]);
      var g := Apply(ds[0], f);
      if g.Some? { RunPrinted(ds[1..], g.value); }
    }
  }

  lemma {:induction false} ApplyAllAdd(a: seq<Directive>, b: seq<Directive>, f: Filter)
    requires forall i | 0 <= i < |a + b| :: IsDirective((a + b)[i])
    requires (forall i | 0 <= i < |a| :: IsDirective(a[i])) && forall i | 0 <= i < |b| :: IsDirective(b[i])
    ensures ApplyAll(a + b, f) == var g := ApplyAll(a, f); if g.None? then None else ApplyAll(b, g.value)
    decreases |a|
  {
    hide Apply, IsDirective;
    if a == [] {
      AddEmpty(b);
    } else {
      assert (a + b)[1..] == a[1..] + b && (a + b)[0] == a[0];
      var g := Apply(a[0], f);
      if g.Some? { ApplyAllAdd(a[1..], b, g.value); }
    }
  }

  function Rooms(ds: seq<Directive>): nat { if ds == [] then 0 else Rooms(ds[..|ds| - 1]) + Room(ds[|ds| - 1]) }

  lemma {:induction false} RoomsAdd(a: seq<Directive>, b: seq<Directive>)
    ensures Rooms(a + b) == Rooms(a) + Rooms(b)
    decreases |b|
  {
    if b == [] {
      AddEmpty(a);
    } else {
      RoomsAdd(a, b[..|b| - 1]);
      assert (a + b)[..|a + b| - 1] == a + b[..|b| - 1];
    }
  }

  // ---------------------------------------------------------------- a filter, one part after the other

  datatype Part =
    | VersionBits
    | PortList(dir: Direction)
    | StateMask
    | Address(dir: Direction)
    | FormatChoice
    | FieldChoice

  function PartFlags(p: Part): set<nat> {
    match p
    case VersionBits => {TSF_IPV4_ONLY, TSF_IPV6_ONLY}
    case PortList(dir) => {PortFlag(dir)}
    case StateMask => {TSF_STATE_INCLUDE_MODE}
    case Address(dir) => {AddrFlag(dir)}
    case _ => {}
  }

  /** `g` with one part of `f`. */
  function Copy(p: Part, f: Filter, g: Filter): Filter {
    var h := g.(flags := g.flags + f.flags * PartFlags(p));
    match p
    case VersionBits => h
    case PortList(dir) => WithSide(h, dir, SideOf(h, dir).(ports := SideOf(f, dir).ports))
    case StateMask => h.(stateMask := f.stateMask)
    case Address(dir) =>
      var s := SideOf(f, dir);
      WithSide(h, dir, SideOf(h, dir).(addr4 := s.addr4, mask4 := s.mask4, addr6 := s.addr6, prefix6 := s.prefix6))
    case FormatChoice => h.(format := f.format)
    case FieldChoice => h.(fieldMask := f.fieldMask)
  }

  /** The part has not been set in `g`. */
  predicate Blank(p: Part, g: Filter) {
    && (forall b | b in PartFlags(p) :: b !in g.flags)
    && match p
       case PortList(dir) => SideOf(g, dir).ports == Zeros(8)
       case StateMask => g.stateMask == ALL_STATES
       case Address(dir) => NoAddr4(SideOf(g, dir)) && NoAddr6(SideOf(g, dir))
       case _ => true
  }

  function PartRoom(p: Part): nat {
    match p
    case VersionBits => 10
    case PortList(_) => 61
    case StateMask => 123
    case Address(_) => 57
    case FormatChoice => 15
    case FieldChoice => 82
  }

  /** `ds` sets the part and nothing else. */
  ghost predicate Describes(ds: seq<Directive>, p: Part, f: Filter, g: Filter) {
    && |ds| <= 1 && AllInOrder(ds) && Rooms(ds) <= PartRoom(p)
    && (if ds == [] then g == Copy(p, f, g) else Apply(ds[0], g) == Some(Copy(p, f, g)))
  }

  lemma RoomOne(d: Directive)
    ensures Rooms([d]) == Room(d)
  {
    assert [d][..0] == [];
  }

  lemma DescribePorts(dir: Direction, f: Filter, g: Filter) returns (ds: seq<Directive>)
    requires Shaped(f) && Blank(PortList(dir), g)
    ensures Describes(ds, PortList(dir), f, g)
  {
    hide AddrShaped, StatesShaped, IsNet4, IsNet6;
    var ports, flagged := SideOf(f, dir).ports, PortFlag(dir) in f.flags;
    assert PortsShaped(ports, flagged);
    var ps :| |ps| <= 8 && ports == Pad(ps) && Distinct(ps) && (forall i | 0 <= i < |ps| :: 1 <= ps[i] <= 65535)
      && (flagged <==> ps != []);
    if flagged {
      RoomOne(Ports(dir, ps));
      assert f.flags * {PortFlag(dir)} == {PortFlag(dir)};
      return [Ports(dir, ps)];
    }
    assert f.flags * {PortFlag(dir)} == {} && g.flags + {} == g.flags;
    assert Pad(ps) == Zeros(8);
    ds := [];
  }

  lemma DescribeStates(f: Filter, g: Filter) returns (ds: seq<Directive>)
    requires Shaped(f) && Blank(StateMask, g)
    ensures Describes(ds, StateMask, f, g)
  {
    hide AddrShaped, PortsShaped, IsNet4, IsNet6, Pad;
    if TSF_STATE_INCLUDE_MODE in f.flags {
      var states := BitsBelow(f.stateMask, 11);
      BitsOfMask(f.stateMask, 11);
      StatesInOrder(f.stateMask);
      RoomOne(Include(states));
      assert f.flags * {TSF_STATE_INCLUDE_MODE} == {TSF_STATE_INCLUDE_MODE};
      return [Include(states)];
    }
    assert f.flags * {TSF_STATE_INCLUDE_MODE} == {} && g.flags + {} == g.flags;
    if f.stateMask == ALL_STATES { return []; }
    var missing := ALL_STATES - f.stateMask;
    var states := BitsBelow(missing, 11);
    BitsOfMask(missing, 11);
    StatesInOrder(missing);
    RoomOne(Exclude(states));
    assert ALL_STATES - missing == f.stateMask;
    ds := [Exclude(states)];
  }

  lemma StatesInOrder(mask: set<nat>)
    requires forall b | b in mask :: b <= 10
    ensures AreStates(BitsBelow(mask, 11)) && (mask != {} ==> BitsBelow(mask, 11) != [])
  {
    if mask != {} {
      var b :| b in mask;
      AllBits(mask, 11, b);
    }
  }

  lemma DescribeAddr4(dir: Direction, f: Filter, g: Filter, n: Net4)
    requires Blank(Address(dir), g) && AddrFlag(dir) in f.flags && NoAddr6(SideOf(f, dir))
    requires IsNet4(n) && SideOf(f, dir).addr4 == n.addr && SideOf(f, dir).mask4 == Mask4(n.prefix)
    ensures Describes([Addr4(dir, n)], Address(dir), f, g)
  {
    hide Mask4;
    RoomOne(Addr4(dir, n));
    assert f.flags * {AddrFlag(dir)} == {AddrFlag(dir)};
  }

  lemma DescribeAddr6(dir: Direction, f: Filter, g: Filter)
    requires Blank(Address(dir), g) && AddrFlag(dir) in f.flags && NoAddr4(SideOf(f, dir))
    requires IsNet6(Net6(SideOf(f, dir).addr6, SideOf(f, dir).prefix6))
    ensures Describes([Addr6(dir, Net6(SideOf(f, dir).addr6, SideOf(f, dir).prefix6))], Address(dir), f, g)
  {
    hide IsNet6;
    RoomOne(Addr6(dir, Net6(SideOf(f, dir).addr6, SideOf(f, dir).prefix6)));
    assert f.flags * {AddrFlag(dir)} == {AddrFlag(dir)};
  }

  lemma DescribeAddr(dir: Direction, f: Filter, g: Filter) returns (ds: seq<Directive>)
    requires Shaped(f) && Blank(Address(dir), g)
    ensures Describes(ds, Address(dir), f, g)
  {
    hide PortsShaped, StatesShaped, IsNet6, Mask4, Pad;
    var s, flagged := SideOf(f, dir), AddrFlag(dir) in f.flags;
    assert AddrShaped(s, flagged);
    if flagged {
      if NoAddr6(s) && exists n: Net4 :: IsNet4(n) && s.addr4 == n.addr && s.mask4 == Mask4(n.prefix) {
        var n: Net4 :| IsNet4(n) && s.addr4 == n.addr && s.mask4 == Mask4(n.prefix);
        ds := [Addr4(dir, n)];
        DescribeAddr4(dir, f, g, n);
      } else {
        ds := [Addr6(dir, Net6(s.addr6, s.prefix6))];
        DescribeAddr6(dir, f, g);
      }
      return;
    }
    assert f.flags * {AddrFlag(dir)} == {} && g.flags + {} == g.flags;
    ds := [];
  }

  lemma DescribeRest(p: Part, f: Filter, g: Filter) returns (ds: seq<Directive>)
    requires Shaped(f) && Compatible(f) && Blank(p, g) && (p.VersionBits? || p.FormatChoice? || p.FieldChoice?)
    ensures Describes(ds, p, f, g) && (p.FormatChoice? ==> ds != [])
  {
    hide PortsShaped, StatesShaped, AddrShaped, Pad;
    if p.VersionBits? {
      var both := {TSF_IPV4_ONLY, TSF_IPV6_ONLY};
      RoomOne(Ipv4Only);
      RoomOne(Ipv6Only);
      if TSF_IPV4_ONLY in f.flags {
        assert f.flags * both == {TSF_IPV4_ONLY};
        ds := [Ipv4Only];
      } else if TSF_IPV6_ONLY in f.flags {
        assert f.flags * both == {TSF_IPV6_ONLY};
        ds := [Ipv6Only];
      } else {
        assert f.flags * both == {} && g.flags + {} == g.flags;
        ds := [];
      }
    } else {
      assert f.flags * {} == {} && g.flags + {} == g.flags;
      var d := if p.FormatChoice? then Format(f.format) else FieldList(f.fieldMask);
      RoomOne(d);
      ds := [d];
    }
  }

  lemma Describe(p: Part, f: Filter, g: Filter) returns (ds: seq<Directive>)
    requires Shaped(f) && Compatible(f) && Blank(p, g)
    ensures Describes(ds, p, f, g) && (p.FormatChoice? ==> ds != [])
  {
    hide Shaped, Compatible, Blank, Describes;
    match p
    case PortList(dir) => ds := DescribePorts(dir, f, g);
    case StateMask => ds := DescribeStates(f, g);
    case Address(dir) => ds := DescribeAddr(dir, f, g);
    case _ => ds := DescribeRest(p, f, g);
  }

  /** The directives so far give `g`. */
  ghost predicate Builds(ds: seq<Directive>, g: Filter, n: nat, room: nat) {
    && AllInOrder(ds) && |ds| <= n && Rooms(ds) <= room
    && ApplyAll(ds, DEFAULT_FILTER) == Some(g)
  }

  lemma BuildsMore(ds: seq<Directive>, g: Filter, n: nat, room: nat, more: seq<Directive>, p: Part, f: Filter)
    requires Builds(ds, g, n, room) && Describes(more, p, f, g)
    ensures Builds(ds + more, Copy(p, f, g), n + 1, room + PartRoom(p))
  {
    hide Apply, Copy, PartRoom, IsDirective;
    RoomsAdd(ds, more);
    if more == [] {
      AddEmpty(ds);
    } else {
      assert more[1..] == [];
      ApplyAllAdd(ds, more, DEFAULT_FILTER);
    }
  }

  const PARTS: seq<Part> := [
    VersionBits, PortList(Local), PortList(Remote), StateMask, Address(Local), Address(Remote), FieldChoice,
    FormatChoice]

  /** The default filter with the first `k` parts of `f`. */
  function FirstParts(f: Filter, k: nat): Filter
    requires k <= 8
  {
    if k == 0 then DEFAULT_FILTER else Copy(PARTS[k - 1], f, FirstParts(f, k - 1))
  }

  function FirstRoom(k: nat): nat
    requires k <= 8
  {
    if k == 0 then 0 else FirstRoom(k - 1) + PartRoom(PARTS[k - 1])
  }

  /** `g` agrees with `f` on a part. */
  predicate Agrees(p: Part, f: Filter, g: Filter) {
    && (forall b | b in PartFlags(p) :: b in g.flags <==> b in f.flags)
    && match p
       case PortList(dir) => SideOf(g, dir).ports == SideOf(f, dir).ports
       case StateMask => g.stateMask == f.stateMask
       case Address(dir) =>
         var s, t := SideOf(f, dir), SideOf(g, dir);
         t.addr4 == s.addr4 && t.mask4 == s.mask4 && t.addr6 == s.addr6 && t.prefix6 == s.prefix6
       case FormatChoice => g.format == f.format
       case FieldChoice => g.fieldMask == f.fieldMask
       case _ => true
  }

  lemma CopyKeeps(p: Part, q: Part, f: Filter, g: Filter)
    requires p != q
    ensures Blank(q, g) ==> Blank(q, Copy(p, f, g))
    ensures Agrees(q, f, g) ==> Agrees(q, f, Copy(p, f, g))
  {
  }

  lemma CopyAgrees(p: Part, f: Filter, g: Filter)
    requires Blank(p, g)
    ensures Agrees(p, f, Copy(p, f, g))
  {
  }

  lemma PartsDistinct(i: nat, j: nat)
    requires i < j < 8
    ensures PARTS[i] != PARTS[j]
  {
  }

  lemma {:induction false} StillBlank(f: Filter, k: nat, j: nat)
    requires k <= j < 8
    ensures Blank(PARTS[j], FirstParts(f, k))
  {
    hide Blank, Copy;
    if k == 0 {
      DefaultBlank(PARTS[j]);
    } else {
      StillBlank(f, k - 1, j);
      PartsDistinct(k - 1, j);
      CopyKeeps(PARTS[k - 1], PARTS[j], f, FirstParts(f, k - 1));
    }
  }

  lemma DefaultBlank(p: Part)
    ensures Blank(p, DEFAULT_FILTER)
  {
  }

  lemma {:induction false} Agreed(f: Filter, k: nat, j: nat)
    requires j < k <= 8
    ensures Agrees(PARTS[j], f, FirstParts(f, k))
  {
    hide Blank, Copy, Agrees;
    if j == k - 1 {
      StillBlank(f, k - 1, j);
      CopyAgrees(PARTS[j], f, FirstParts(f, j));
    } else {
      Agreed(f, k - 1, j);
      PartsDistinct(j, k - 1);
      CopyKeeps(PARTS[k - 1], PARTS[j], f, FirstParts(f, k - 1));
    }
  }

  lemma {:induction false} FirstPartsFrame(f: Filter, k: nat)
    requires k <= 8 && f.flags <= MODE_FLAGS
    ensures FirstParts(f, k).version == TSF_VERSION && FirstParts(f, k).flags <= MODE_FLAGS
  {
    if k > 0 { FirstPartsFrame(f, k - 1); }
  }

  lemma SameFilter(f: Filter, g: Filter)
    requires f.version == g.version && f.flags <= MODE_FLAGS && g.flags <= MODE_FLAGS
    requires forall j | 0 <= j < 8 :: Agrees(PARTS[j], f, g)
    ensures f == g
  {
    assert Agrees(PARTS[0], f, g) && Agrees(PARTS[1], f, g) && Agrees(PARTS[2], f, g) && Agrees(PARTS[3], f, g);
    assert Agrees(PARTS[4], f, g) && Agrees(PARTS[5], f, g) && Agrees(PARTS[6], f, g) && Agrees(PARTS[7], f, g);
    forall b | b in MODE_FLAGS ensures b in f.flags <==> b in g.flags {}
    assert f.flags == g.flags;
  }

  lemma AllParts(f: Filter)
    requires Shaped(f)
    ensures FirstParts(f, 8) == f
  {
    hide Agrees, Copy, PortsShaped, AddrShaped, StatesShaped;
    FirstPartsFrame(f, 8);
    forall j | 0 <= j < 8 ensures Agrees(PARTS[j], f, FirstParts(f, 8)) { Agreed(f, 8, j); }
    SameFilter(f, FirstParts(f, 8));
  }

  /** Directives for the first `k` parts. */
  lemma {:induction false} BuildParts(f: Filter, k: nat) returns (ds: seq<Directive>)
    requires Shaped(f) && Compatible(f) && k <= 8
    ensures Builds(ds, FirstParts(f, k), k, FirstRoom(k))
    ensures k == 8 ==> ds != []
  {
    hide Shaped, Compatible, Builds, Describes, Blank, Copy, PartRoom;
    if k == 0 {
      ds := [];
      BuildsNone();
    } else {
      var before := BuildParts(f, k - 1);
      StillBlank(f, k - 1, k - 1);
      var more := Describe(PARTS[k - 1], f, FirstParts(f, k - 1));
      BuildsMore(before, FirstParts(f, k - 1), k - 1, FirstRoom(k - 1), more, PARTS[k - 1], f);
      ds := before + more;
    }
  }

  lemma BuildsNone()
    ensures Builds([], DEFAULT_FILTER, 0, 0)
  {
  }

  // ---------------------------------------------------------------- whole strings

  lemma {:induction false} TotalOfPrinted(ds: seq<Directive>)
    requires AllInOrder(ds) && forall i | 0 <= i < |ds| :: IsDirective(ds[i])
    ensures Total(PrintAll(ds)) <= Rooms(ds)
  {
    hide InOrder, IsDirective, Print, Room;
    if ds != [] {
      var n := |ds| - 1;
      TotalOfPrinted(ds[..n]);
      assert PrintAll(ds)[..n] == PrintAll(ds[..n]);
      PrintShort(ds[n]);
    }
  }

  lemma {:induction false} UntilAll(s: string)
    requires NUL !in s
    ensures Until(s) == s
  {
    if s != "" { UntilAll(s[1..]); }
  }

  predicate AllTokens(parts: seq<string>) { forall i | 0 <= i < |parts| :: IsToken(parts[i]) }

  lemma JoinedChars(parts: seq<string>)
    requires parts != [] && AllTokens(parts)
    ensures forall c | c in Join(parts, ' ') :: ' ' <= c <= '~'
  {
    forall c | c in Join(parts, ' ') ensures ' ' <= c <= '~' {
      JoinChars(parts, ' ', c);
      if c != ' ' {
        var i :| 0 <= i < |parts| && c in parts[i];
        assert IsToken(parts[i]);
      }
    }
  }

  lemma AllPrintable(s: string)
    requires forall c | c in s :: ' ' <= c <= '~'
    ensures Printable(s) && NUL !in s
  {
    forall i | 0 <= i < |s| ensures ' ' <= s[i] <= '~' { assert s[i] in s; }
  }

  lemma CleanTokens(parts: seq<string>)
    requires AllTokens(parts)
    ensures Clean(parts, BLANKS)
  {
    forall i | 0 <= i < |parts| ensures parts[i] != "" && forall c | c in parts[i] :: c !in BLANKS {
      assert IsToken(parts[i]);
    }
  }

  lemma JoinNotEmpty(parts: seq<string>)
    requires parts != [] && AllTokens(parts)
    ensures Join(parts, ' ') != ""
  {
    assert IsToken(parts[0]);
  }

  /** Tokens joined by blanks are the tokens of the string. */
  lemma TokensOfJoin(parts: seq<string>)
    requires parts != [] && AllTokens(parts)
    ensures var s := Join(parts, ' '); s != "" && NUL !in s && Printable(s) && Tokens(s) == parts
  {
    hide Items, Join, Printable, AllTokens, Clean;
    var s := Join(parts, ' ');
    JoinedChars(parts);
    AllPrintable(s);
    UntilAll(s);
    CleanTokens(parts);
    ItemsOfJoin(parts, ' ', BLANKS);
    JoinNotEmpty(parts);
  }

  lemma RoomForAll()
    ensures FirstRoom(8) == 466
  {
    assert FirstRoom(4) == 255;
  }

  /** Every well-shaped compatible filter is the filter of some string. */
  lemma Printed(f: Filter) returns (input: string)
    requires Shaped(f) && Compatible(f)
    ensures Compile(input) == Compiled(f)
  {
    hide Shaped, Compatible, Copy, Run, Tokens, Printable, IsToken, Print, InOrder, IsDirective;
    hide PartRoom, FirstRoom, FirstParts;
    var ds := BuildParts(f, 8);
    AllParts(f);
    RoomForAll();
    forall i | 0 <= i < |ds| ensures IsDirective(ds[i]) && Writable(ds[i]) { InOrderWritable(ds[i]); }
    var parts := PrintAll(ds);
    forall i | 0 <= i < |parts| ensures IsToken(parts[i]) { PrintShort(ds[i]); }
    RunPrinted(ds, DEFAULT_FILTER);
    TotalOfPrinted(ds);
    JoinLength(parts, ' ');
    TokensOfJoin(parts);
    input := Join(parts, ' ');
    assert input[0] in input;
  }

  /** The filters that strings compile to are exactly the well-shaped compatible ones. */
  lemma ShapeIsExact(f: Filter)
    ensures (exists input :: Compile(input) == Compiled(f)) <==> Shaped(f) && Compatible(f)
  {
    hide Shaped, Compatible, Compile;
    if Shaped(f) && Compatible(f) {
      var input := Printed(f);
    }
    forall input | Compile(input) == Compiled(f) ensures Shaped(f) && Compatible(f) { CompiledShape(input); }
  }
}
