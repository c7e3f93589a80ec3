/**
 * The layers of a server that is reloaded again and again while its `.lay` and `.pyr` files are
 * edited, against the layers that `ConfLoader::buildLayersList` makes of the same files.
 */
module LayerRuns {
  import opened LayerGraph
  import opened Options
  import opened Reload

  // ----- the full load -----

  /** Under each identifier is the layer that its files describe, if they describe one. */
  ghost predicate Loaded(layers: Layers, p: Pass) {
    && (forall id :: id in layers ==> id in p.dir)
    && (forall id :: id in p.dir ==> ReadFrom(Lookup(layers, id), id, p))
  }

  /** The files of `done` have been loaded, and nothing else. */
  ghost predicate LoadedTo(layers: Layers, p: Pass, done: set<string>) {
    && (forall id :: id in layers ==> id in done)
    && (forall id :: id in done && id in p.dir ==> ReadFrom(Lookup(layers, id), id, p))
  }

  /** `buildLayersList`, whatever the order of the listing; an empty directory is accepted. */
  method BuildLayersList(p: Pass, listing: seq<string>, layersList: Registry<Layer>)
    requires p.tables.Keyed() && layersList.items == map[] && Lists(listing, p.dir)
    modifies layersList
    ensures Loaded(layersList.items, p)
  {
    SeenAll(listing, p.dir);
    for i := 0 to |listing|
      invariant LoadedTo(layersList.items, p, Seen(listing, i))
    {
      SeeNext(listing, p.dir, i);
      var id := listing[i];
      ghost var before := layersList.items;
      var layer := BuildLayer(id, p.dir[id].content, p.pyramids, p.inspire, p.tables);
      if layer != null {
        layersList.Add(layer.id, layer);
      }
      LoadNext(before, layersList.items, p, Seen(listing, i), id);
    }
  }

  lemma LoadNext(before: Layers, after: Layers, p: Pass, done: set<string>, id: string)
    requires LoadedTo(before, p, done) && id in p.dir && id !in done
    requires forall other :: other != id ==> Lookup(after, other) == Lookup(before, other)
    requires ReadFrom(Lookup(after, id), id, p)
    ensures LoadedTo(after, p, done + {id})
  {
    forall other | other != id
      ensures other in after ==> other in done
      ensures other in done && other in p.dir ==> ReadFrom(Lookup(after, other), other, p)
    {
      assert Lookup(after, other) == Lookup(before, other);
    }
  }

  // ----- one reload against the full load -----

  /** A file dated after the last reload: the `.lay` of the layer, or the `.pyr` that the old layer came from. */
  ghost predicate IsNewer(id: string, p: Pass)
    requires id in p.dir
  {
    || p.dir[id].modified > p.since
    || (id in p.olds && p.olds[id].pyramidPath in p.pyramids && p.pyramids[p.olds[id].pyramidPath].modified > p.since)
  }

  /** Whatever is dated after the last reload is read again: what is registered is what the files describe. */
  lemma NewerFilesAreRead(layers: Layers, p: Pass, id: string)
    requires AfterReload(layers, p) && id in p.dir
    requires || p.dir[id].modified > p.since
             || id !in p.olds
             || (p.olds[id].pyramidPath in p.pyramids && p.pyramids[p.olds[id].pyramidPath].modified > p.since)
    ensures ReadFrom(Lookup(layers, id), id, p)
  {
    assert Reloaded(Lookup(layers, id), id, p);
  }

  /** The old layer is what its files describe on the new registries. */
  ghost predicate StillSays(old_: Layer, text: Option<LayerText>, pyramids: PyramidFiles, inspire: bool, tables: Tables) {
    && Builds(text, pyramids, inspire, tables)
    && text.value.pyramidPath == old_.pyramidPath
    && old_.dataPyramid != null && PyramidFrom(old_.dataPyramid, pyramids[old_.pyramidPath].content.value)
    && (old_.dataPyramid.raster ==> Names(StylesOf(text.value.styles, inspire, tables).value) == Names(old_.styles))
  }

  /** A style has a public identifier. */
  ghost predicate Identified(tables: Tables) {
    forall id :: id in tables.styles ==> tables.styles[id].identifier != ""
  }

  /** A copy is the layer that the files describe exactly when the old layer says what they say. */
  lemma CopyIsReadIff(layer: Layer, old_: Layer, id: string, p: Pass)
    requires CopyOf(layer, old_, p.tables) && old_.id == id && id in p.dir
    requires p.tables.Keyed() && Identified(p.tables)
    ensures ReadFrom(Some(layer), id, p) <==> StillSays(old_, p.dir[id].content, p.pyramids, p.inspire, p.tables)
  {
    var text := p.dir[id].content;
    if Builds(text, p.pyramids, p.inspire, p.tables) && layer.dataPyramid.raster {
      var found := StylesOf(text.value.styles, p.inspire, p.tables);
      if found.Some? {
        StylesOfAreRegistered(text.value.styles, p.inspire, p.tables);
        CopiesOfAll(layer.styles, old_.styles, found.value, p.tables);
        FirstCopy(layer, old_, p.tables);
      }
    }
  }

  lemma FirstCopy(layer: Layer, old_: Layer, tables: Tables)
    requires CopyOf(layer, old_, tables) && Identified(tables) && layer.dataPyramid.raster
    ensures |layer.styles| > 0 ==> layer.styles[0].identifier != ""
    ensures |layer.styles| == |old_.styles| ==> layer.styles != [] && layer.defaultStyle == layer.styles[0].identifier
    ensures |layer.styles| > 0 && layer.defaultStyle == layer.styles[0].identifier ==> |layer.styles| == |old_.styles|
  {
    if |layer.styles| > 0 {
      assert Registered(layer.styles[0], old_.styles[0], tables);
    }
  }

  /** Every old layer that is copied, none of its files being newer, still says what they say. */
  ghost predicate LayersUpToDate(p: Pass) {
    forall id :: id in p.dir && Copied(id, p) && !IsNewer(id, p) ==>
      StillSays(p.olds[id], p.dir[id].content, p.pyramids, p.inspire, p.tables)
  }

  /** The reload leaves the layers of a full load if and only if every layer it only copies is up to date. */
  lemma LayersReloadIsLoadIff(layers: Layers, p: Pass)
    requires AfterReload(layers, p) && ReadyLayers(p.olds) && p.since >= 0
    requires p.tables.Keyed() && Identified(p.tables)
    ensures Loaded(layers, p) <==> LayersUpToDate(p)
  {
    forall id | id in p.dir
      ensures Copied(id, p) && !IsNewer(id, p) ==>
        var says := StillSays(p.olds[id], p.dir[id].content, p.pyramids, p.inspire, p.tables);
        ReadFrom(Lookup(layers, id), id, p) <==> says
      ensures !Copied(id, p) || IsNewer(id, p) ==> ReadFrom(Lookup(layers, id), id, p)
    {
      assert Reloaded(Lookup(layers, id), id, p);
      if Copied(id, p) && !IsNewer(id, p) {
        CopyIsReadIff(layers[id], p.olds[id], id, p);
      }
    }
  }

  // ----- runs of edits and reloads -----

  /** The files, the running server and the time of its last reload. */
  datatype State = State(dir: LayerDir, pyramids: PyramidFiles, layers: Layers, tables: Tables, lastReload: int)

  datatype Event =
    | PutLayer(id: string, layerFile: File<Option<LayerText>>)
    | DropLayer(id: string)
    | PutPyramid(path: string, pyramidFile: File<Option<PyramidText>>)
    | DropPyramid(path: string)
    | ReloadAt(now: int, tables: Tables)
    | FailedReload

  function PassOf(s: State, tables: Tables, inspire: bool): Pass {
    Pass(s.layers, s.dir, s.pyramids, s.lastReload, inspire, tables)
  }

  /** The objects that a reload makes are new, so what it leaves is not determined but related to what was. */
  ghost predicate Step(s: State, e: Event, t: State, inspire: bool) {
    match e
    case PutLayer(id, file) => t == s.(dir := s.dir[id := file])
    case DropLayer(id) => t == s.(dir := s.dir - {id})
    case PutPyramid(path, file) => t == s.(pyramids := s.pyramids[path := file])
    case DropPyramid(path) => t == s.(pyramids := s.pyramids - {path})
    case ReloadAt(now, tables) =>
      && s.dir != map[]
      && AfterReload(t.layers, PassOf(s, tables, inspire))
      && t == s.(layers := t.layers, tables := tables, lastReload := now)
    case FailedReload => t == s
  }

  /** `id` is registered and neither of its files is newer than the last reload. */
  ghost predicate IsSkipped(s: State, id: string) {
    && id in s.dir && id in s.layers && s.dir[id].modified <= s.lastReload
    && (s.layers[id].pyramidPath in s.pyramids ==> s.pyramids[s.layers[id].pyramidPath].modified <= s.lastReload)
  }

  ghost predicate SaysOf(s: State, id: string, inspire: bool)
    requires id in s.dir && id in s.layers
  {
    StillSays(s.layers[id], s.dir[id].content, s.pyramids, inspire, s.tables)
  }

  /** Every layer whose files would be skipped is what they describe. */
  ghost predicate Current(s: State, inspire: bool) {
    && ReadyLayers(s.layers)
    && (forall id :: IsSkipped(s, id) ==> SaysOf(s, id, inspire))
  }

  ghost predicate CanBeCopied(layer: Layer, tables: Tables) { layer.Ready() && layer.dataPyramid.Survives(tables) }

  /** The list of styles in the file of a raster layer names the same styles on both registries. */
  ghost predicate StylesStay(layer: Layer, text: Option<LayerText>, inspire: bool, olds: Tables, news: Tables) {
    layer.dataPyramid != null && layer.dataPyramid.raster ==>
      text.Some? && SameStyles(text.value.styles, inspire, olds, news)
  }

  /**
   * What a run may do so that no reload misses anything. A file that is written over is dated after
   * the last reload or says the same; a `.pyr` goes only when no layer needs it; and no list of styles
   * of a layer that is only copied comes to name other styles, because one of them has come or gone.
   */
  ghost predicate Noticeable(s: State, e: Event, inspire: bool) {
    match e
    case PutLayer(id, file) =>
      var t := s.(dir := s.dir[id := file]);
      IsSkipped(t, id) ==> SaysOf(t, id, inspire)
    case DropLayer(_) => true
    case PutPyramid(path, file) =>
      var t := s.(pyramids := s.pyramids[path := file]);
      forall id :: IsSkipped(t, id) && t.layers[id].pyramidPath == path ==> SaysOf(t, id, inspire)
    case DropPyramid(path) =>
      forall id :: id in s.dir && id in s.layers && s.dir[id].modified <= s.lastReload ==>
        s.layers[id].pyramidPath != path
    case ReloadAt(_, tables) =>
      forall id :: IsSkipped(s, id) && CanBeCopied(s.layers[id], tables) ==>
        StylesStay(s.layers[id], s.dir[id].content, inspire, s.tables, tables)
    case FailedReload => true
  }

  /** What the reloads of a run work with. */
  ghost predicate SoundTables(e: Event) {
    e.ReloadAt? ==> e.tables.Keyed() && Identified(e.tables) && e.now >= 0
  }

  /** An edit keeps every layer current if and only if it is noticeable. */
  lemma EditKeepsCurrentIff(s: State, e: Event, t: State, inspire: bool)
    requires Current(s, inspire) && Step(s, e, t, inspire) && !e.ReloadAt?
    ensures Current(t, inspire) <==> Noticeable(s, e, inspire)
  {
    match e
    case PutLayer(id, _) =>
      forall other | other != id && IsSkipped(t, other)
        ensures SaysOf(t, other, inspire)
      {
        assert IsSkipped(s, other);
      }
    case DropLayer(_) =>
      forall id | IsSkipped(t, id)
        ensures SaysOf(t, id, inspire)
      {
        assert IsSkipped(s, id);
      }
    case PutPyramid(path, _) =>
      forall id | IsSkipped(t, id) && t.layers[id].pyramidPath != path
        ensures SaysOf(t, id, inspire)
      {
        assert IsSkipped(s, id);
        SameOffPath(s, t, id, path, inspire);
      }
    case DropPyramid(path) =>
      forall id | IsSkipped(t, id)
        ensures t.layers[id].pyramidPath != path ==> SaysOf(t, id, inspire)
        ensures t.layers[id].pyramidPath == path ==> !SaysOf(t, id, inspire)
      {
        if t.layers[id].pyramidPath != path {
          assert IsSkipped(s, id);
          SameOffPath(s, t, id, path, inspire);
        }
      }
      if Current(t, inspire) {
        forall id | id in s.dir && id in s.layers && s.dir[id].modified <= s.lastReload
          ensures s.layers[id].pyramidPath != path
        {
          assert s.layers[id].pyramidPath == path ==> IsSkipped(t, id);
        }
      }
    case FailedReload =>
  }

  /** A layer does not depend on the other pyramid files. */
  lemma SameOffPath(s: State, t: State, id: string, path: string, inspire: bool)
    requires IsSkipped(s, id) && SaysOf(s, id, inspire)
    requires t.dir == s.dir && t.layers == s.layers && t.tables == s.tables && s.layers[id].pyramidPath != path
    requires forall other :: other != path ==> (other in t.pyramids <==> other in s.pyramids)
    requires forall other :: other != path && other in s.pyramids ==> t.pyramids[other] == s.pyramids[other]
    ensures SaysOf(t, id, inspire)
  {
  }

  /** On new registries onto which the layer can be copied, its files say the same but for the styles. */
  lemma SaysOnNewTables(old_: Layer, text: Option<LayerText>, pyramids: PyramidFiles, inspire: bool,
                        olds: Tables, news: Tables)
    requires StillSays(old_, text, pyramids, inspire, olds) && CanBeCopied(old_, news)
    ensures StillSays(old_, text, pyramids, inspire, news) <==> StylesStay(old_, text, inspire, olds, news)
  {
    var pyramid := pyramids[old_.pyramidPath].content.value;
    forall i | 0 <= i < |pyramid.levels|
      ensures pyramid.levels[i].tm in news.tms[pyramid.tms].tmList
    {
      assert pyramid.levels[i].tm in old_.dataPyramid.levels;
    }
    assert PyramidResolves(pyramid, news);
  }

  /** A reload makes the layers of a full load if and only if the styles of the copied ones stay. */
  lemma ReloadLoadsIff(s: State, e: Event, t: State, inspire: bool)
    requires Current(s, inspire) && Step(s, e, t, inspire) && e.ReloadAt? && SoundTables(e) && s.lastReload >= 0
    ensures Loaded(t.layers, PassOf(s, e.tables, inspire)) <==> Noticeable(s, e, inspire)
  {
    var p := PassOf(s, e.tables, inspire);
    LayersReloadIsLoadIff(t.layers, p);
    forall id | id in s.dir
      ensures Copied(id, p) && !IsNewer(id, p) <==> IsSkipped(s, id) && CanBeCopied(s.layers[id], e.tables)
      ensures IsSkipped(s, id) && CanBeCopied(s.layers[id], e.tables) ==>
        var says := StillSays(s.layers[id], s.dir[id].content, s.pyramids, inspire, e.tables);
        says <==> StylesStay(s.layers[id], s.dir[id].content, inspire, s.tables, e.tables)
    {
      if IsSkipped(s, id) && CanBeCopied(s.layers[id], e.tables) {
        SaysOnNewTables(s.layers[id], s.dir[id].content, s.pyramids, inspire, s.tables, e.tables);
      }
    }
  }

  /** What has just been loaded is current. */
  lemma LoadedIsCurrent(s: State, t: State, tables: Tables, inspire: bool)
    requires Loaded(t.layers, PassOf(s, tables, inspire))
    requires t.dir == s.dir && t.pyramids == s.pyramids && t.tables == tables
    ensures Current(t, inspire)
  {
    var p := PassOf(s, tables, inspire);
    forall id | id in t.layers
      ensures t.layers[id].id == id && t.layers[id].Ready() && SaysOf(t, id, inspire)
    {
      assert ReadFrom(Lookup(t.layers, id), id, p);
    }
  }

  ghost predicate Run(states: seq<State>, events: seq<Event>, inspire: bool) {
    && |states| == |events| + 1
    && (forall i :: 0 <= i < |events| ==> Step(states[i], events[i], states[i + 1], inspire) && SoundTables(events[i]))
  }

  /**
   * Over any run of edits of `.lay` and `.pyr` files and reloads onto whatever TMS and styles, if
   * nothing that happens goes unnoticed, each reload leaves the layers that a full load of the files
   * as they are then would make.
   */
  lemma {:induction false} RunLoadsLayers(states: seq<State>, events: seq<Event>, inspire: bool, n: nat)
    requires Run(states, events, inspire) && n < |states|
    requires Current(states[0], inspire) && states[0].lastReload >= 0
    requires forall i :: 0 <= i < |events| ==> Noticeable(states[i], events[i], inspire)
    ensures Current(states[n], inspire) && states[n].lastReload >= 0
    ensures n > 0 && events[n - 1].ReloadAt? ==>
      Loaded(states[n].layers, PassOf(states[n - 1], events[n - 1].tables, inspire))
  {
    if n > 0 {
      RunLoadsLayers(states, events, inspire, n - 1);
      var s, e, t := states[n - 1], events[n - 1], states[n];
      if e.ReloadAt? {
        ReloadLoadsIff(s, e, t, inspire);
        LoadedIsCurrent(s, t, e.tables, inspire);
      } else {
        EditKeepsCurrentIff(s, e, t, inspire);
      }
    }
  }
}
