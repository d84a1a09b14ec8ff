/**
 The profile registry as it is kept: a list of profile structs that are updated in place, and a separate count.  Every
 handler is proved to do what `Profiles.Serve` says.
 */
module Registry {
  import opened Text
  import opened Filter
  import opened FilterParser
  import opened Profiles

  /** `struct tcpstats_profile`. */
  class Profile {
    const name: string
    var filterStr: string
    var filter: Filter

    function Value(): Entry
      reads this
    {
      Entry(name, filterStr, filter)
    }

    constructor (name: string, filterStr: string, filter: Filter)
      ensures this.name == name && Value() == Entry(name, filterStr, filter)
    {
      this.name, this.filterStr, this.filter := name, filterStr, filter;
    }
  }

  predicate Apart(ps: seq<Profile>) { forall i, j | 0 <= i < j < |ps| :: ps[i] != ps[j] }

  function Values(ps: seq<Profile>): (es: seq<Entry>)
    reads ps
    ensures |es| == |ps| && forall i | 0 <= i < |ps| :: es[i] == ps[i].Value()
  {
    seq(|ps|, i requires 0 <= i < |ps| reads ps => ps[i].Value())
  }

  class ProfileList {
    var list: seq<Profile>
    var count: int

    /** The list has no struct twice, and the count is its length. */
    ghost predicate Valid()
      reads this
    {
      count == |list| <= TSF_MAX_PROFILES && Apart(list)
    }

    constructor ()
      ensures Valid() && Values(list) == []
    {
      list, count := [], 0;
    }

    /** `tcpstats_profile_find`: -1 for none. */
    method Lookup(name: string) returns (r: int)
      ensures var i := Position(Values(list), name); r == if i == |list| then -1 else i
    {
      ghost var es := Values(list);
      var i := 0;
      while i < |list|
        invariant i <= |list| && Position(es, name) == i + Position(es[i..], name)
      {
        if list[i].name == name { return i; }
        assert es[i..][1..] == es[i + 1..];
        i := i + 1;
      }
      r := -1;
    }

    /** `tcpstats_profile_detach`. */
    method Detach(i: nat)
      requires Valid() && i < |list|
      modifies this
      ensures Valid() && list == old(list)[..i] + old(list)[i + 1..]
      ensures Values(list) == old(Values(list))[..i] + old(Values(list))[i + 1..]
    {
      list := list[..i] + list[i + 1..];
      count := count - 1;
    }

    /** Deletes a profile if there is one with that name. */
    method Delete(name: string)
      requires Valid()
      modifies this
      ensures Valid() && Values(list) == Without(old(Values(list)), name)
    {
      var i := Lookup(name);
      if i != -1 { Detach(i); }
    }

    /** The update of a profile struct in place. */
    method Update(i: nat, text: string, filter: Filter)
      requires Valid() && i < |list|
      modifies list[i]
      ensures Values(list) == old(Values(list))[i := Entry(old(Values(list))[i].name, text, filter)]
    {
      list[i].filter := filter;
      list[i].filterStr := text;
    }

    /** The insertion of a new profile at the head. */
    method Insert(name: string, text: string, filter: Filter)
      requires Valid() && |list| < TSF_MAX_PROFILES
      modifies this
      ensures Valid() && Values(list) == [Entry(Stored(name), text, filter)] + old(Values(list))
    {
      var p := new Profile(Stored(name), text, filter);
      list := [p] + list;
      count := count + 1;
    }

    /** Update or create, after the text has been compiled. */
    method Store(name: string, text: string, deviceMade: bool, filter: Filter) returns (error: Option<Failure>)
      requires Valid() && Compile(text) == Compiled(filter)
      modifies this, list
      ensures Valid() && (Values(list), error) == Put(old(Values(list)), name, text, deviceMade)
    {
      hide Compile, Values;
      var i := Lookup(name);
      if i != -1 {
        Update(i, text, filter);
        return None;
      }
      if count >= TSF_MAX_PROFILES { return Some(TooMany); }
      if !deviceMade { return Some(NoDevice); }
      Insert(name, text, filter);
      error := None;
    }
  }

  /** Compiles a text into a local struct. */
  method Parse(text: string) returns (c: Outcome)
    ensures c == Compile(text)
  {
    hide Compile;
    var f := new FilterStruct();
    var error := ParseFilterString(text, f);
    c := if error.None? then Compiled(f.View()) else Rejected(error.value);
  }

  /** The write side of `tcpstats_profile_set_handler`. */
  method SetHandler(registry: ProfileList, input: string, deviceMade: bool) returns (error: Option<Failure>)
    requires registry.Valid()
    modifies registry, registry.list
    ensures registry.Valid()
    ensures (Values(registry.list), error) == Serve(old(Values(registry.list)), Set(input, deviceMade))
  {
    hide Compile, Values, CheckName, Trimmed, Put, Find;
    var s := Trimmed(input);
    var i := Find(s, {' '});
    WholeSlice(s);
    error := CheckName(s[..i]);
    if error.Some? { return; }
    if i == |s| {
      registry.Delete(s);
      return;
    }
    var c := Parse(s[i + 1..]);
    if c.Rejected? { return Some(BadFilter(c.errno)); }
    error := registry.Store(s[..i], s[i + 1..], deviceMade, c.filter);
  }

  /** The write side of `tcpstats_profile_sysctl_handler`. */
  method SetOneHandler(registry: ProfileList, name: string, input: string) returns (error: Option<Failure>)
    requires registry.Valid()
    modifies registry, registry.list
    ensures registry.Valid()
    ensures (Values(registry.list), error) == Serve(old(Values(registry.list)), SetOne(name, input))
  {
    hide Compile, Values, CheckName, Trimmed, Position;
    var s := Trimmed(input);
    if s == "" {
      registry.Delete(name);
      return None;
    }
    var c := Parse(s);
    if c.Rejected? { return Some(BadFilter(c.errno)); }
    var i := registry.Lookup(name);
    if i == -1 { return Some(NotFound); }
    registry.Update(i, s, c.filter);
    error := None;
  }

  /** `tcpstats_profiles_destroy_all`: the array of detached profiles holds every one of them and never overflows. */
  method DestroyAll(registry: ProfileList) returns (detached: array<Profile?>, ndetached: nat)
    requires registry.Valid()
    modifies registry
    ensures registry.Valid() && Values(registry.list) == []
    ensures fresh(detached) && detached.Length == TSF_MAX_PROFILES
    ensures ndetached == |old(registry.list)| <= detached.Length
    ensures forall i | 0 <= i < ndetached :: detached[i] == old(registry.list)[i]
  {
    detached := new Profile?[TSF_MAX_PROFILES](_ => null);
    ndetached := 0;
    ghost var all := registry.list;
    while registry.list != []
      invariant registry.Valid() && ndetached <= |all| <= detached.Length && registry.list == all[ndetached..]
      invariant forall i | 0 <= i < ndetached :: detached[i] == all[i]
      decreases |registry.list|
    {
      var p := registry.list[0];
      registry.Detach(0);
      detached[ndetached] := p;
      ndetached := ndetached + 1;
    }
  }
}
