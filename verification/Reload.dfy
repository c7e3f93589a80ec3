/**
 * The registries of TMS and styles of `ServerXML`, filled from a directory by `ConfLoader` when the
 * server starts and patched by `rok4ReloadServer` from then on. A file is known by its name without
 * extension, which is also the identifier of the object it describes; parsing is a parameter.
 */
module Reload {
  import opened Options

  datatype File<C> = File(content: C, modified: int)

  type Directory<C> = map<string, File<C>>

  /** What the parser makes of a file, if it is valid. */
  type Parser<!C, !V> = (string, C) -> Option<V>

  class Registry<V> {
    var items: map<string, V>

    constructor ()
      ensures items == map[]
    {
      items := map[];
    }

    /** An identifier that is already there keeps its object, as with `std::map::insert`. */
    method Add(id: string, value: V)
      modifies this
      ensures items == if id in old(items) then old(items) else old(items)[id := value]
    {
      if id !in items {
        items := items[id := value];
      }
    }

    /** The identifier is free again; every other one finds what it found. */
    method Remove(id: string)
      modifies this
      ensures Get(id).None?
      ensures forall other :: other != id ==> Lookup(items, other) == Lookup(old(items), other)
    {
      if id in items {
        items := items - {id};
      }
    }

    function Get(id: string): (found: Option<V>)
      reads this
      ensures found.Some? <==> id in items
      ensures found.Some? ==> items[id] == found.value
    {
      Lookup(items, id)
    }

    /** Every entry is visited, in some order, and removed when its identifier is not listed. */
    method Clean(ids: seq<string>)
      modifies this
      ensures forall id :: Lookup(items, id) == if id in ids then Lookup(old(items), id) else None
    {
      var left := items.Keys;
      while left != {}
        invariant left <= old(items).Keys
        invariant forall id :: Lookup(items, id) == if id in left || id in ids then Lookup(old(items), id) else None
      {
        var id :| id in left;
        if id !in ids {
          Remove(id);
        }
        left := left - {id};
      }
    }
  }

  function Lookup<V>(items: map<string, V>, id: string): Option<V> {
    if id in items then Some(items[id]) else None
  }

  /** `readdir` names every file of the directory once, in some order. */
  ghost predicate Lists<C>(listing: seq<string>, dir: Directory<C>) {
    && (forall i, j :: 0 <= i < j < |listing| ==> listing[i] != listing[j])
    && (forall name :: name in listing <==> name in dir)
  }

  /** The first `n` names of a listing. */
  function Seen(listing: seq<string>, n: nat): set<string>
    requires n <= |listing|
  {
    set i | 0 <= i < n :: listing[i]
  }

  lemma SeeNext<C>(listing: seq<string>, dir: Directory<C>, n: nat)
    requires Lists(listing, dir) && n < |listing|
    ensures listing[n] in dir && listing[n] !in Seen(listing, n)
    ensures Seen(listing, n + 1) == Seen(listing, n) + {listing[n]}
  {
    assert listing[n] in listing;
  }

  lemma SeenAll<C>(listing: seq<string>, dir: Directory<C>)
    requires Lists(listing, dir)
    ensures Seen(listing, |listing|) == dir.Keys
    ensures |listing| == 0 <==> dir == map[]
  {
    forall name | name in dir
      ensures name in Seen(listing, |listing|)
    {
      var i :| 0 <= i < |listing| && listing[i] == name;
    }
    if |listing| > 0 {
      assert listing[0] in listing;
    }
  }

  // ----- the full load -----

  /** The registry that a directory stands for. */
  function Loaded<C, V>(parse: Parser<C, V>, dir: Directory<C>): map<string, V> {
    map name | name in dir && parse(name, dir[name].content).Some? :: parse(name, dir[name].content).value
  }

  /** The files of `done` have been loaded, and nothing else. */
  ghost predicate LoadedOn<C, V>(items: map<string, V>, parse: Parser<C, V>, dir: Directory<C>, done: set<string>) {
    && (forall name :: name in items ==> name in done)
    && (forall name :: name in done && name in dir ==>
          Lookup(items, name) == parse(name, dir[name].content))
  }

  lemma LoadedOnAll<C, V>(items: map<string, V>, parse: Parser<C, V>, dir: Directory<C>, done: set<string>)
    requires LoadedOn(items, parse, dir, done) && done == dir.Keys
    ensures items == Loaded(parse, dir)
  {
    forall name | name in dir
      ensures name in items <==> name in Loaded(parse, dir)
      ensures name in items ==> items[name] == Loaded(parse, dir)[name]
    {
      assert Lookup(items, name) == parse(name, dir[name].content);
    }
  }

  /** `buildTMSList` and `buildStylesList`; the listing is not empty unless the directory is. */
  method BuildList<C, V>(parse: Parser<C, V>, dir: Directory<C>, listing: seq<string>, registry: Registry<V>)
    returns (ok: bool)
    requires Lists(listing, dir) && registry.items == map[]
    modifies registry
    ensures registry.items == Loaded(parse, dir)
    ensures ok <==> Loaded(parse, dir) != map[]
  {
    SeenAll(listing, dir);
    if |listing| == 0 {
      assert Loaded(parse, dir) == map[];
      return false;
    }
    for i := 0 to |listing|
      invariant LoadedOn(registry.items, parse, dir, Seen(listing, i))
    {
      SeeNext(listing, dir, i);
      var name := listing[i];
      var value := parse(name, dir[name].content);
      if value.Some? {
        registry.Add(name, value.value);
      }
    }
    LoadedOnAll(registry.items, parse, dir, dir.Keys);
    ok := registry.items != map[];
  }

  // ----- the incremental load -----

  /** What a reload registers for one file of the directory. */
  function Kept<C, V>(parse: Parser<C, V>, old_: map<string, V>, since: int, name: string, file: File<C>): Option<V> {
    if file.modified <= since && name in old_ then Some(old_[name]) else parse(name, file.content)
  }

  function Patched<C, V>(parse: Parser<C, V>, old_: map<string, V>, since: int, dir: Directory<C>): map<string, V> {
    map name | name in dir && Kept(parse, old_, since, name, dir[name]).Some?
      :: Kept(parse, old_, since, name, dir[name]).value
  }

  /** The files of `done` have been looked at, the other identifiers are as in the old registry. */
  ghost predicate PatchedOn<C, V>(items: map<string, V>, parse: Parser<C, V>, old_: map<string, V>, since: int,
                                  dir: Directory<C>, done: set<string>) {
    forall name ::
      Lookup(items, name)
        == if name in done && name in dir then Kept(parse, old_, since, name, dir[name])
           else Lookup(old_, name)
  }

  /** One turn of the loop over the files. */
  method PatchFile<C, V>(parse: Parser<C, V>, registry: Registry<V>, since: int, name: string, file: File<C>)
    modifies registry
    ensures forall other :: other != name ==> Lookup(registry.items, other) == Lookup(old(registry.items), other)
    ensures registry.Get(name) == Kept(parse, old(registry.items), since, name, file)
  {
    if file.modified > since {
      var value := parse(name, file.content);
      registry.Remove(name);
      if value.Some? {
        registry.Add(name, value.value);
      }
    } else if registry.Get(name).None? {
      var value := parse(name, file.content);
      if value.Some? {
        registry.Add(name, value.value);
      }
    }
  }

  /** The copies of the old objects are equal to them. */
  method CloneAll<V>(old_: map<string, V>, registry: Registry<V>)
    requires registry.items == map[]
    modifies registry
    ensures registry.items == old_
  {
    var left := old_.Keys;
    while left != {}
      invariant left <= old_.Keys
      invariant registry.items == map id | id in old_ && id !in left :: old_[id]
    {
      var id :| id in left;
      registry.Add(id, old_[id]);
      left := left - {id};
    }
    assert registry.items == old_;
  }

  /** The TMS and style passes of `rok4ReloadServer` when the directory is still the same one. */
  method Refresh<C, V>(parse: Parser<C, V>, old_: map<string, V>, since: int, dir: Directory<C>,
                       listing: seq<string>, registry: Registry<V>) returns (ok: bool)
    requires Lists(listing, dir) && registry.items == map[]
    modifies registry
    ensures ok <==> dir != map[]
    ensures ok ==> registry.items == Patched(parse, old_, since, dir)
  {
    CloneAll(old_, registry);
    SeenAll(listing, dir);
    if |listing| == 0 {
      return false;
    }
    var names := [];
    for i := 0 to |listing|
      invariant names == listing[..i]
      invariant PatchedOn(registry.items, parse, old_, since, dir, Seen(listing, i))
    {
      SeeNext(listing, dir, i);
      var name := listing[i];
      names := names + [name];
      ghost var before := registry.items;
      PatchFile(parse, registry, since, name, dir[name]);
      PatchStep(before, registry.items, parse, old_, since, dir, Seen(listing, i), name);
    }
    ghost var patched := registry.items;
    assert names == listing;
    registry.Clean(names);
    PatchedOnAll(patched, registry.items, parse, old_, since, dir);
    ok := true;
  }

  lemma PatchStep<C, V>(before: map<string, V>, after: map<string, V>, parse: Parser<C, V>, old_: map<string, V>,
                        since: int, dir: Directory<C>, done: set<string>, name: string)
    requires PatchedOn(before, parse, old_, since, dir, done) && name in dir && name !in done
    requires forall other :: other != name ==> Lookup(after, other) == Lookup(before, other)
    requires Lookup(after, name) == Kept(parse, before, since, name, dir[name])
    ensures PatchedOn(after, parse, old_, since, dir, done + {name})
  {
    assert Lookup(before, name) == Lookup(old_, name);
  }

  /** Once all files have been looked at, the entries without a file are removed. */
  lemma PatchedOnAll<C, V>(before: map<string, V>, after: map<string, V>, parse: Parser<C, V>, old_: map<string, V>,
                           since: int, dir: Directory<C>)
    requires PatchedOn(before, parse, old_, since, dir, dir.Keys)
    requires forall id :: Lookup(after, id) == if id in dir then Lookup(before, id) else None
    ensures after == Patched(parse, old_, since, dir)
  {
    var patched := Patched(parse, old_, since, dir);
    forall name
      ensures Lookup(after, name) == Lookup(patched, name)
    {
    }
    SameLookups(after, patched);
  }

  lemma SameLookups<V>(m: map<string, V>, n: map<string, V>)
    requires forall id :: Lookup(m, id) == Lookup(n, id)
    ensures m == n
  {
    forall id
      ensures id in m <==> id in n
      ensures id in m ==> m[id] == n[id]
    {
      assert Lookup(m, id) == Lookup(n, id);
    }
  }

  /** What a registry holds under an identifier after a full load, and after an incremental one. */
  lemma RegisteredAre<C, V>(parse: Parser<C, V>, old_: map<string, V>, since: int, dir: Directory<C>, id: string)
    ensures Lookup(Loaded(parse, dir), id) == if id in dir then parse(id, dir[id].content) else None
    ensures Lookup(Patched(parse, old_, since, dir), id)
      == if id !in dir then None
         else if id in old_ && dir[id].modified <= since then Some(old_[id])
         else parse(id, dir[id].content)
  {
  }

  // ----- the incremental load against the full one -----

  /** Every file a reload would not read still says what is registered for it. */
  ghost predicate UpToDate<C, V>(parse: Parser<C, V>, old_: map<string, V>, since: int, dir: Directory<C>) {
    forall name :: name in dir && name in old_ && dir[name].modified <= since ==>
      parse(name, dir[name].content) == Some(old_[name])
  }

  /** The incremental reload gives what the full load gives exactly when every skipped file is unchanged. */
  lemma ReloadIsLoadIff<C, V>(parse: Parser<C, V>, old_: map<string, V>, since: int, dir: Directory<C>)
    ensures Patched(parse, old_, since, dir) == Loaded(parse, dir) <==> UpToDate(parse, old_, since, dir)
  {
    var patched, loaded := Patched(parse, old_, since, dir), Loaded(parse, dir);
    if UpToDate(parse, old_, since, dir) {
      forall name | name in dir
        ensures Kept(parse, old_, since, name, dir[name]) == parse(name, dir[name].content)
      {
      }
      assert patched == loaded;
    } else {
      var name :| name in dir && name in old_ && dir[name].modified <= since
        && parse(name, dir[name].content) != Some(old_[name]);
      assert name in patched && patched[name] == old_[name];
      assert name in loaded ==> Some(loaded[name]) == parse(name, dir[name].content);
    }
  }

  // ----- runs of edits and reloads -----

  datatype State<C, V> = State(dir: Directory<C>, registry: map<string, V>, lastReload: int)

  /** `Reload` happens at the time `now`; `others` says whether the rest of the configuration loads. */
  datatype Event<C> =
    | Put(name: string, file: File<C>)
    | Delete(name: string)
    | Reload(now: int, others: bool)

  predicate Succeeds<C, V>(s: State<C, V>, e: Event<C>) { e.Reload? && s.dir != map[] && e.others }

  /** A reload that fails leaves the running server, and the time of its last reload, as they are. */
  function Next<C, V>(parse: Parser<C, V>, s: State<C, V>, e: Event<C>): State<C, V> {
    match e
    case Put(name, file) => s.(dir := s.dir[name := file])
    case Delete(name) => s.(dir := s.dir - {name})
    case Reload(now, _) =>
      if Succeeds(s, e) then s.(registry := Patched(parse, s.registry, s.lastReload, s.dir), lastReload := now) else s
  }

  /**
   * A file written over a registered one is dated after the last reload, or says the same thing.
   * A copy that keeps an old date is fine as long as its name is not registered.
   */
  ghost predicate Noticeable<C, V>(parse: Parser<C, V>, s: State<C, V>, e: Event<C>) {
    e.Put? && e.name in s.registry && e.file.modified <= s.lastReload ==>
      parse(e.name, e.file.content) == Some(s.registry[e.name])
  }

  ghost predicate Current<C, V>(parse: Parser<C, V>, s: State<C, V>) {
    UpToDate(parse, s.registry, s.lastReload, s.dir)
  }

  ghost predicate Run<C, V>(parse: Parser<C, V>, states: seq<State<C, V>>, events: seq<Event<C>>) {
    && |states| == |events| + 1
    && forall i :: 0 <= i < |events| ==> states[i + 1] == Next(parse, states[i], events[i])
  }

  /** An edit keeps the server current exactly when it is noticeable; a reload that works makes it current. */
  lemma StepKeepsCurrent<C, V>(parse: Parser<C, V>, s: State<C, V>, e: Event<C>)
    requires Current(parse, s)
    ensures Current(parse, Next(parse, s, e)) <==> Noticeable(parse, s, e)
    ensures e.Reload? && s.dir != map[] && e.others ==>
      Next(parse, s, e) == State(s.dir, Loaded(parse, s.dir), e.now)
    ensures e.Reload? && (s.dir == map[] || !e.others) ==> Next(parse, s, e) == s
  {
    ReloadIsLoadIff(parse, s.registry, s.lastReload, s.dir);
    if e.Put? && Current(parse, Next(parse, s, e)) {
      assert Next(parse, s, e).dir[e.name] == e.file;
    }
  }

  /**
   * After any run of noticeable edits, removals and reloads, started from a full load, a reload that
   * works leaves what a full load of the directory would give.
   */
  lemma {:induction false} RunReloadIsLoad<C, V>(parse: Parser<C, V>, states: seq<State<C, V>>, events: seq<Event<C>>,
                                                n: nat)
    requires Run(parse, states, events) && n < |states|
    requires states[0].registry == Loaded(parse, states[0].dir)
    requires forall i :: 0 <= i < |events| ==> Noticeable(parse, states[i], events[i])
    ensures Current(parse, states[n])
    ensures n > 0 && events[n - 1].Reload? && events[n - 1].others && states[n].dir != map[] ==>
      states[n].registry == Loaded(parse, states[n].dir)
  {
    if n > 0 {
      RunReloadIsLoad(parse, states, events, n - 1);
      StepKeepsCurrent(parse, states[n - 1], events[n - 1]);
    }
  }

  predicate Touches<C>(e: Event<C>, name: string) { !e.Reload? && e.name == name }

  /**
   * A registered file whose date is not after the last reload is never read again, however often
   * the server is reloaded: what it says is missed until it is written or removed.
   */
  lemma {:induction false} SkippedFileStaysSkipped<C, V>(parse: Parser<C, V>, states: seq<State<C, V>>,
                                                        events: seq<Event<C>>, name: string, n: nat)
    requires Run(parse, states, events) && n < |states|
    requires name in states[0].dir && name in states[0].registry
    requires states[0].dir[name].modified <= states[0].lastReload
    requires forall i :: 0 <= i < |events| ==> !Touches(events[i], name)
    requires forall i :: 0 <= i < |events| && events[i].Reload? ==> events[i].now >= states[i].lastReload
    ensures name in states[n].dir && states[n].dir[name] == states[0].dir[name]
    ensures name in states[n].registry && states[n].registry[name] == states[0].registry[name]
    ensures states[n].lastReload >= states[0].lastReload
  {
    if n > 0 {
      SkippedFileStaysSkipped(parse, states, events, name, n - 1);
      assert states[n] == Next(parse, states[n - 1], events[n - 1]);
    }
  }

  /** A file rewritten in the second of the last reload is such a file. */
  lemma SameSecondIsMissed<C, V>(parse: Parser<C, V>, s: State<C, V>, name: string, content: C, now: int)
    requires Current(parse, s) && name in s.registry
    requires parse(name, content) != Some(s.registry[name])
    ensures
      var written := Next(parse, s, Put(name, File(content, s.lastReload)));
      Next(parse, written, Reload(now, true)).registry != Loaded(parse, written.dir)
  {
    var written := Next(parse, s, Put(name, File(content, s.lastReload)));
    assert written.dir[name] == File(content, s.lastReload);
    ReloadIsLoadIff(parse, written.registry, written.lastReload, written.dir);
    assert !UpToDate(parse, written.registry, written.lastReload, written.dir);
  }
}
