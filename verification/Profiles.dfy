/**
 The registry of named filter profiles: what each request does to it, and what every run of requests keeps.
 */
module Profiles {
  import opened Text
  import opened Filter
  import opened Matching
  import opened Meaning
  import opened Scan
  import opened Device

  const TSF_MAX_PROFILES: nat := 16
  const TSF_PROFILE_NAME_MAX: nat := 32

  datatype Failure = BadName | NameTooLong | BadFilter(errno: Errno) | TooMany | NoDevice | NotFound

  /** One profile: its name, the text it was set with, and the compiled filter. */
  datatype Entry = Entry(name: string, text: string, filter: Filter)

  datatype Request =
    | Set(input: string, deviceMade: bool)
    | SetOne(name: string, input: string)
    | DestroyAll

  // ---------------------------------------------------------------- what a request means

  predicate NameChar(c: char) { 'a' <= c <= 'z' || '0' <= c <= '9' || c == '_' }

  /** `tsf_validate_profile_name`. */
  function CheckName(name: string): (r: Option<Failure>)
  {
    if name == "" then Some(BadName)
    else if |name| > TSF_PROFILE_NAME_MAX then Some(NameTooLong)
    else if forall i | 0 <= i < |name| :: NameChar(name[i]) then None
    else Some(BadName)
  }

  /** A trailing newline is dropped. */
  function Trimmed(input: string): string {
    var s := Until(input);
    if s != "" && s[|s| - 1] == '\n' then s[..|s| - 1] else s
  }

  /** The first profile with that name. */
  function Position(es: seq<Entry>, name: string): (i: nat)
    ensures i <= |es|
    ensures i < |es| ==> es[i].name == name
    ensures forall k | 0 <= k < i :: es[k].name != name
  {
    if es == [] || es[0].name == name then 0 else 1 + Position(es[1..], name)
  }

  function Without(es: seq<Entry>, name: string): seq<Entry> {
    var i := Position(es, name);
    if i == |es| then es else es[..i] + es[i + 1..]
  }

  /** The 31 characters of a name that are stored. */
  function Stored(name: string): string {
    if |name| < TSF_PROFILE_NAME_MAX then name else name[..TSF_PROFILE_NAME_MAX - 1]
  }

  /** Sets a name to a text that compiles: an update in place, or a new profile at the head of the list. */
  function Put(es: seq<Entry>, name: string, text: string, deviceMade: bool): (r: (seq<Entry>, Option<Failure>))
    requires Compile(text).Compiled?
  {
    var i, f := Position(es, name), Compile(text).filter;
    if i < |es| then (es[i := Entry(es[i].name, text, f)], None)
    else if |es| >= TSF_MAX_PROFILES then (es, Some(TooMany))
    else if !deviceMade then (es, Some(NoDevice))
    else ([Entry(Stored(name), text, f)] + es, None)
  }

  /** A write to `profile_set`: "name" deletes, "name filter" creates or updates. */
  function SetProfile(es: seq<Entry>, input: string, deviceMade: bool): (r: (seq<Entry>, Option<Failure>))
  {
    var s := Trimmed(input);
    var i := Find(s, {' '});
    if CheckName(s[..i]).Some? then (es, CheckName(s[..i]))
    else if i == |s| then (Without(es, s), None)
    else
      var c := Compile(s[i + 1..]);
      if c.Rejected? then (es, Some(BadFilter(c.errno))) else Put(es, s[..i], s[i + 1..], deviceMade)
  }

  /** A write to the node of one profile: the empty string deletes it, another one is its new filter. */
  function SetOneProfile(es: seq<Entry>, name: string, input: string): (r: (seq<Entry>, Option<Failure>))
  {
    var s := Trimmed(input);
    if s == "" then (Without(es, name), None)
    else
      var c, i := Compile(s), Position(es, name);
      if c.Rejected? then (es, Some(BadFilter(c.errno)))
      else if i == |es| then (es, Some(NotFound))
      else (es[i := Entry(es[i].name, s, c.filter)], None)
  }

  function Serve(es: seq<Entry>, req: Request): (r: (seq<Entry>, Option<Failure>))
  {
    match req
    case Set(input, deviceMade) => SetProfile(es, input, deviceMade)
    case SetOne(name, input) => SetOneProfile(es, name, input)
    case DestroyAll => ([], None)
  }

  // ---------------------------------------------------------------- what every run keeps

  /** A stored profile: a short valid name, and exactly the filter its text compiles to, untruncated. */
  predicate IsEntry(e: Entry) {
    && CheckName(e.name) == None && |e.name| < TSF_PROFILE_NAME_MAX
    && |e.text| < TSF_PARSE_MAXLEN && Compile(e.text) == Compiled(e.filter)
  }

  predicate Good(es: seq<Entry>) {
    |es| <= TSF_MAX_PROFILES && forall i | 0 <= i < |es| :: IsEntry(es[i])
  }

  predicate Unique(es: seq<Entry>) { forall i, j | 0 <= i < j < |es| :: es[i].name != es[j].name }

  predicate Has(es: seq<Entry>, name: string) { exists i | 0 <= i < |es| :: es[i].name == name }

  lemma CompiledIsShort(text: string)
    requires Compile(text).Compiled? && NUL !in text
    ensures |text| < TSF_PARSE_MAXLEN
  {
    hide Run, Tokens, Printable, Compatible;
    if text != "" { assert text[0] in text; }
  }

  lemma TrimmedHasNoNul(input: string)
    ensures NUL !in Trimmed(input)
  {
  }

  lemma StoredIsValid(name: string)
    requires CheckName(name) == None
    ensures CheckName(Stored(name)) == None && |Stored(name)| < TSF_PROFILE_NAME_MAX
  {
  }

  lemma PutGood(es: seq<Entry>, name: string, text: string, deviceMade: bool)
    requires Good(es) && CheckName(name) == None && Compile(text).Compiled? && NUL !in text
    ensures Good(Put(es, name, text, deviceMade).0)
  {
    hide Compile, CheckName;
    CompiledIsShort(text);
    StoredIsValid(name);
  }

  lemma ServeGood(es: seq<Entry>, req: Request)
    requires Good(es)
    ensures Good(Serve(es, req).0)
    ensures Serve(es, req).1.Some? ==> Serve(es, req).0 == es
  {
    hide Compile, CheckName, Until;
    match req
    case Set(input, deviceMade) =>
      TrimmedHasNoNul(input);
      hide Trimmed, Put;
      var s := Trimmed(input);
      var i := Find(s, {' '});
      if CheckName(s[..i]).None? && i < |s| && Compile(s[i + 1..]).Compiled? {
        PutGood(es, s[..i], s[i + 1..], deviceMade);
        PutRejected(es, s[..i], s[i + 1..], deviceMade);
      }
    case SetOne(name, input) =>
      TrimmedHasNoNul(input);
      hide Trimmed;
      if Compile(Trimmed(input)).Compiled? { CompiledIsShort(Trimmed(input)); }
    case DestroyAll =>
  }

  lemma PutRejected(es: seq<Entry>, name: string, text: string, deviceMade: bool)
    requires Compile(text).Compiled?
    ensures Put(es, name, text, deviceMade).1.Some? ==> Put(es, name, text, deviceMade).0 == es
  {
  }

  /** The registry after a list of requests. */
  function After(reqs: seq<Request>): seq<Entry> {
    if reqs == [] then [] else Serve(After(reqs[..|reqs| - 1]), reqs[|reqs| - 1]).0
  }

  /** After every run of requests there are at most sixteen profiles, each with the filter of its own text, and a
      rejected request has left no trace. */
  lemma {:induction false} RunGood(reqs: seq<Request>)
    ensures Good(After(reqs))
  {
    hide Good, Serve;
    if reqs == [] {
      NoneGood();
    } else {
      RunGood(reqs[..|reqs| - 1]);
      ServeGood(After(reqs[..|reqs| - 1]), reqs[|reqs| - 1]);
    }
  }

  lemma NoneGood()
    ensures Good([])
  {
  }

  /** Names stay unique, except that a new name of 32 characters may be stored over an equal shorter one: exactly when
      its first 31 characters are a name already. */
  lemma PutUnique(es: seq<Entry>, name: string, text: string)
    requires Unique(es) && CheckName(name) == None && Compile(text).Compiled? && |es| < TSF_MAX_PROFILES
    ensures Unique(Put(es, name, text, true).0) <==> Has(es, name) || !Has(es, Stored(name))
  {
    hide Compile, CheckName;
    var r := Put(es, name, text, true).0;
    if Position(es, name) == |es| && Has(es, Stored(name)) {
      var i :| 0 <= i < |es| && es[i].name == Stored(name);
      assert r[0].name == r[i + 1].name;
    }
  }

  /** Requests whose names are not 32 characters long keep names unique. */
  predicate ShortNamed(req: Request) {
    req.Set? ==> Find(Trimmed(req.input), {' '}) < TSF_PROFILE_NAME_MAX
  }

  lemma WithoutUnique(es: seq<Entry>, name: string)
    requires Unique(es)
    ensures Unique(Without(es, name))
  {
  }

  lemma ServeUnique(es: seq<Entry>, req: Request)
    requires Unique(es) && ShortNamed(req)
    ensures Unique(Serve(es, req).0)
  {
    hide Compile, CheckName, Unique, Trimmed, Position;
    match req
    case Set(input, deviceMade) =>
      var s := Trimmed(input);
      var i := Find(s, {' '});
      WithoutUnique(es, s);
      if CheckName(s[..i]).None? && i < |s| && Compile(s[i + 1..]).Compiled? {
        ShortPutUnique(es, s[..i], s[i + 1..], deviceMade);
      }
    case SetOne(name, input) =>
      WithoutUnique(es, name);
      var i := Position(es, name);
      if i < |es| { RenamedUnique(es, i, Entry(es[i].name, Trimmed(input), es[i].filter)); }
      if i < |es| && Compile(Trimmed(input)).Compiled? {
        RenamedUnique(es, i, Entry(es[i].name, Trimmed(input), Compile(Trimmed(input)).filter));
      }
    case DestroyAll => NoneUnique();
  }

  lemma NoneUnique()
    ensures Unique([])
  {
  }

  lemma RenamedUnique(es: seq<Entry>, i: nat, e: Entry)
    requires Unique(es) && i < |es| && e.name == es[i].name
    ensures Unique(es[i := e])
  {
  }

  lemma ShortPutUnique(es: seq<Entry>, name: string, text: string, deviceMade: bool)
    requires Unique(es) && |name| < TSF_PROFILE_NAME_MAX && Compile(text).Compiled?
    ensures Unique(Put(es, name, text, deviceMade).0)
  {
    hide Compile;
  }

  lemma {:induction false} RunUnique(reqs: seq<Request>)
    requires forall i | 0 <= i < |reqs| :: ShortNamed(reqs[i])
    ensures Unique(After(reqs))
  {
    hide Unique, Serve, ShortNamed;
    if reqs == [] {
      NoneUnique();
    } else {
      RunUnique(reqs[..|reqs| - 1]);
      ServeUnique(After(reqs[..|reqs| - 1]), reqs[|reqs| - 1]);
    }
  }

  /** A profile that was just created can be found under its name exactly when the name is shorter than 32. */
  lemma FoundAfterCreate(es: seq<Entry>, name: string, text: string)
    requires Good(es) && CheckName(name) == None && Compile(text).Compiled?
    requires !Has(es, name) && |es| < TSF_MAX_PROFILES
    ensures Has(Put(es, name, text, true).0, name) <==> |name| < TSF_PROFILE_NAME_MAX
  {
    hide Compile, CheckName;
    var r := Put(es, name, text, true).0;
    assert r[0].name == Stored(name);
  }

  /** Reading through a profile selects the sockets its text asks for. */
  lemma ProfileMeaning(reqs: seq<Request>, i: nat, gencnt: nat, ss: seq<Socket>, s: Socket)
    requires i < |After(reqs)| && AreSockets(ss) && s in ss
    ensures var e := After(reqs)[i];
      IsFilter(e.filter) && (s in Selected(e.filter, gencnt, ss) <==> Asked(e.text, gencnt, s))
  {
    hide Compile, Asked, IsFilter, CheckName, Serve;
    RunGood(reqs);
    var e := After(reqs)[i];
    assert IsEntry(e);
    var t :| t in ss && t == s;
    assert IsSocket(s);
    CompiledIsFilter(e.text);
    SelectedAreAsked(e.text, gencnt, ss, s);
  }
}
