/**
 * `rok4ReloadServer` as a whole: a new server conf is filled with copies of the old TMS and styles,
 * both are patched from their directories, and the layers are then copied onto them or built anew.
 */
module ServerReload {
  import opened LayerGraph
  import opened Options
  import opened Reload

  // ----- the TMS pass -----

  type Geometry = map<string, Grid>

  /** What a TMS file says, apart from the name that is that of the file. */
  function GeometryOf(matrices: Matrices): Geometry {
    map name | name in matrices :: matrices[name].grid
  }

  function TmsValues(items: map<string, TileMatrixSet>): map<string, Geometry> {
    map id | id in items :: GeometryOf(items[id].tmList)
  }

  /** A TMS and its TileMatrices. */
  ghost function ObjectsOf(t: TileMatrixSet): set<object> {
    {t} + set tm | tm in t.tmList :: t.tmList[tm]
  }

  lemma SameGeometry(a: Matrices, g: Geometry)
    requires a.Keys == g.Keys && forall name :: name in a ==> a[name].grid == g[name]
    ensures GeometryOf(a) == g
  {
  }

  method CopyOneTms(t: TileMatrixSet, tmsList: Registry<TileMatrixSet>)
    requires t.Keyed() && t.id !in tmsList.items
    modifies tmsList
    ensures t.id in tmsList.items && tmsList.items == old(tmsList.items)[t.id := tmsList.items[t.id]]
    ensures var copy := tmsList.items[t.id];
      copy.id == t.id && copy.Keyed() && fresh(ObjectsOf(copy)) && GeometryOf(copy.tmList) == GeometryOf(t.tmList)
  {
    var tms := new TileMatrixSet.Clone(t);
    SameGeometry(tms.tmList, GeometryOf(t.tmList));
    tmsList.Add(tms.id, tms);
  }

  /** A copy of every old TMS. */
  method CopyTms(olds: map<string, TileMatrixSet>, tmsList: Registry<TileMatrixSet>)
    requires KeyedTms(olds) && tmsList.items == map[]
    modifies tmsList
    ensures KeyedTms(tmsList.items) && TmsValues(tmsList.items) == TmsValues(olds)
    ensures forall id :: id in tmsList.items ==> fresh(ObjectsOf(tmsList.items[id]))
  {
    var left := olds.Keys;
    while left != {}
      invariant left <= olds.Keys && tmsList.items.Keys == olds.Keys - left && KeyedTms(tmsList.items)
      invariant forall id :: id in tmsList.items ==> GeometryOf(tmsList.items[id].tmList) == GeometryOf(olds[id].tmList)
      invariant forall id :: id in tmsList.items ==> fresh(ObjectsOf(tmsList.items[id]))
    {
      var id :| id in left;
      CopyOneTms(olds[id], tmsList);
      left := left - {id};
    }
    SameTmsValues(tmsList.items, olds);
  }

  lemma SameTmsValues(a: map<string, TileMatrixSet>, b: map<string, TileMatrixSet>)
    requires a.Keys == b.Keys
    requires forall id :: id in a ==> GeometryOf(a[id].tmList) == GeometryOf(b[id].tmList)
    ensures TmsValues(a) == TmsValues(b)
  {
  }

  /** One TMS file. */
  method PatchTms<C>(parse: Parser<C, Geometry>, tmsList: Registry<TileMatrixSet>, since: int, name: string, file: File<C>)
    requires KeyedTms(tmsList.items)
    modifies tmsList
    ensures KeyedTms(tmsList.items)
    ensures forall other :: other != name ==> Lookup(tmsList.items, other) == Lookup(old(tmsList.items), other)
    ensures Lookup(TmsValues(tmsList.items), name) == Kept(parse, TmsValues(old(tmsList.items)), since, name, file)
    ensures forall id :: id in tmsList.items ==>
      Lookup(old(tmsList.items), id) == Some(tmsList.items[id]) || fresh(ObjectsOf(tmsList.items[id]))
  {
    ghost var before := tmsList.items;
    if file.modified > since || tmsList.Get(name).None? {
      var geometry := parse(name, file.content);
      tmsList.Remove(name);
      assert name !in TmsValues(tmsList.items);
      if geometry.Some? {
        var tms := new TileMatrixSet(name, geometry.value);
        SameGeometry(tms.tmList, geometry.value);
        tmsList.Add(tms.id, tms);
      }
    }
    KeyedOthers(before, tmsList.items, name);
  }

  lemma KeyedOthers(before: map<string, TileMatrixSet>, after: map<string, TileMatrixSet>, name: string)
    requires KeyedTms(before) && (name in after ==> after[name].id == name && after[name].Keyed())
    requires forall other :: other != name ==> Lookup(after, other) == Lookup(before, other)
    ensures KeyedTms(after)
  {
    forall id | id in after && id != name
      ensures after[id].id == id && after[id].Keyed()
    {
      assert Lookup(after, id) == Lookup(before, id);
    }
  }

  lemma ValuesOfOthers(before: map<string, TileMatrixSet>, after: map<string, TileMatrixSet>, name: string)
    requires forall other :: other != name ==> Lookup(after, other) == Lookup(before, other)
    ensures forall other :: other != name ==> Lookup(TmsValues(after), other) == Lookup(TmsValues(before), other)
  {
    forall other | other != name
      ensures Lookup(TmsValues(after), other) == Lookup(TmsValues(before), other)
    {
      assert Lookup(after, other) == Lookup(before, other);
    }
  }

  /** The TMS pass of `rok4ReloadServer`: the registry of objects refines the patched registry of values. */
  method RefreshTms<C>(parse: Parser<C, Geometry>, olds: map<string, TileMatrixSet>, since: int, dir: Directory<C>,
                       listing: seq<string>, tmsList: Registry<TileMatrixSet>) returns (ok: bool)
    requires KeyedTms(olds) && Lists(listing, dir) && tmsList.items == map[]
    modifies tmsList
    ensures KeyedTms(tmsList.items) && (ok <==> dir != map[])
    ensures ok ==> TmsValues(tmsList.items) == Patched(parse, TmsValues(olds), since, dir)
    ensures forall id :: id in tmsList.items ==> fresh(ObjectsOf(tmsList.items[id]))
  {
    CopyTms(olds, tmsList);
    SeenAll(listing, dir);
    if |listing| == 0 {
      return false;
    }
    for i := 0 to |listing|
      invariant KeyedTms(tmsList.items)
      invariant PatchedOn(TmsValues(tmsList.items), parse, TmsValues(olds), since, dir, Seen(listing, i))
      invariant forall id :: id in tmsList.items ==> fresh(ObjectsOf(tmsList.items[id]))
    {
      RefreshTmsFile(parse, olds, since, dir, listing, i, tmsList);
    }
    ghost var before := tmsList.items;
    tmsList.Clean(listing);
    CleanedTms(before, tmsList.items, parse, TmsValues(olds), since, dir);
    ok := true;
  }

  /** One turn of its loop. */
  method RefreshTmsFile<C>(parse: Parser<C, Geometry>, ghost olds: map<string, TileMatrixSet>, since: int,
                           dir: Directory<C>, listing: seq<string>, i: nat, tmsList: Registry<TileMatrixSet>)
    requires KeyedTms(tmsList.items) && Lists(listing, dir) && i < |listing|
    requires PatchedOn(TmsValues(tmsList.items), parse, TmsValues(olds), since, dir, Seen(listing, i))
    modifies tmsList
    ensures KeyedTms(tmsList.items)
    ensures PatchedOn(TmsValues(tmsList.items), parse, TmsValues(olds), since, dir, Seen(listing, i + 1))
    ensures forall id :: id in tmsList.items ==>
      Lookup(old(tmsList.items), id) == Some(tmsList.items[id]) || fresh(ObjectsOf(tmsList.items[id]))
  {
    SeeNext(listing, dir, i);
    ghost var before := tmsList.items;
    PatchTms(parse, tmsList, since, listing[i], dir[listing[i]]);
    ValuesOfOthers(before, tmsList.items, listing[i]);
    PatchStep(TmsValues(before), TmsValues(tmsList.items), parse, TmsValues(olds), since, dir, Seen(listing, i), listing[i]);
  }

  lemma CleanedTms<C>(before: map<string, TileMatrixSet>, after: map<string, TileMatrixSet>,
                      parse: Parser<C, Geometry>, olds: map<string, Geometry>, since: int, dir: Directory<C>)
    requires KeyedTms(before) && PatchedOn(TmsValues(before), parse, olds, since, dir, dir.Keys)
    requires forall id :: Lookup(after, id) == if id in dir then Lookup(before, id) else None
    ensures KeyedTms(after) && TmsValues(after) == Patched(parse, olds, since, dir)
    ensures forall id :: id in after ==> Lookup(before, id) == Some(after[id])
  {
    forall id
      ensures id in after ==> after[id].id == id && after[id].Keyed() && Lookup(before, id) == Some(after[id])
      ensures Lookup(TmsValues(after), id) == if id in dir then Lookup(TmsValues(before), id) else None
    {
      assert Lookup(after, id) == if id in dir then Lookup(before, id) else None;
    }
    PatchedOnAll(TmsValues(before), TmsValues(after), parse, olds, since, dir);
  }

  // ----- the style pass -----

  /** What a style file says, apart from the name that is that of the file: the public identifier. */
  function StyleValues(items: map<string, Style>): map<string, string> {
    map id | id in items :: items[id].identifier
  }

  /** A copy of every old style. */
  method CopyStyles(olds: map<string, Style>, stylesList: Registry<Style>)
    requires KeyedStyles(olds) && stylesList.items == map[]
    modifies stylesList
    ensures KeyedStyles(stylesList.items) && StyleValues(stylesList.items) == StyleValues(olds)
    ensures forall id :: id in stylesList.items ==> fresh(stylesList.items[id])
  {
    var left := olds.Keys;
    while left != {}
      invariant left <= olds.Keys && stylesList.items.Keys == olds.Keys - left && KeyedStyles(stylesList.items)
      invariant forall id :: id in stylesList.items ==>
        fresh(stylesList.items[id]) && stylesList.items[id].identifier == olds[id].identifier
    {
      var id :| id in left;
      var style := new Style(olds[id].id, olds[id].identifier);
      stylesList.Add(style.id, style);
      left := left - {id};
    }
    assert StyleValues(stylesList.items) == StyleValues(olds);
  }

  /** One turn of the loop over the style files. */
  method PatchStyle<C>(parse: Parser<C, string>, ghost olds: map<string, Style>, since: int, dir: Directory<C>,
                       listing: seq<string>, i: nat, stylesList: Registry<Style>)
    requires KeyedStyles(stylesList.items) && Lists(listing, dir) && i < |listing|
    requires PatchedOn(StyleValues(stylesList.items), parse, StyleValues(olds), since, dir, Seen(listing, i))
    modifies stylesList
    ensures KeyedStyles(stylesList.items)
    ensures PatchedOn(StyleValues(stylesList.items), parse, StyleValues(olds), since, dir, Seen(listing, i + 1))
    ensures forall id :: id in stylesList.items ==>
      Lookup(old(stylesList.items), id) == Some(stylesList.items[id]) || fresh(stylesList.items[id])
  {
    SeeNext(listing, dir, i);
    ghost var before := stylesList.items;
    var name := listing[i];
    if dir[name].modified > since || stylesList.Get(name).None? {
      var identifier := parse(name, dir[name].content);
      stylesList.Remove(name);
      if identifier.Some? {
        var style := new Style(name, identifier.value);
        stylesList.Add(style.id, style);
      }
    }
    OtherStyles(before, stylesList.items, name);
    PatchStep(StyleValues(before), StyleValues(stylesList.items), parse, StyleValues(olds), since, dir,
              Seen(listing, i), name);
  }

  lemma OtherStyles(before: map<string, Style>, after: map<string, Style>, name: string)
    requires KeyedStyles(before) && (name in after ==> after[name].id == name)
    requires forall other :: other != name ==> Lookup(after, other) == Lookup(before, other)
    ensures KeyedStyles(after)
    ensures forall other :: other != name ==> Lookup(StyleValues(after), other) == Lookup(StyleValues(before), other)
  {
    forall other | other != name
      ensures Lookup(StyleValues(after), other) == Lookup(StyleValues(before), other)
      ensures other in after ==> after[other].id == other
    {
      assert Lookup(after, other) == Lookup(before, other);
    }
  }

  lemma CleanedStyles<C>(before: map<string, Style>, after: map<string, Style>, parse: Parser<C, string>,
                         olds: map<string, string>, since: int, dir: Directory<C>)
    requires KeyedStyles(before) && PatchedOn(StyleValues(before), parse, olds, since, dir, dir.Keys)
    requires forall id :: Lookup(after, id) == if id in dir then Lookup(before, id) else None
    ensures KeyedStyles(after) && StyleValues(after) == Patched(parse, olds, since, dir)
    ensures forall id :: id in after ==> Lookup(before, id) == Some(after[id])
  {
    forall id
      ensures id in after ==> after[id].id == id && Lookup(before, id) == Some(after[id])
      ensures Lookup(StyleValues(after), id) == if id in dir then Lookup(StyleValues(before), id) else None
    {
      assert Lookup(after, id) == if id in dir then Lookup(before, id) else None;
    }
    PatchedOnAll(StyleValues(before), StyleValues(after), parse, olds, since, dir);
  }

  /** The style pass of `rok4ReloadServer`. */
  method RefreshStyles<C>(parse: Parser<C, string>, olds: map<string, Style>, since: int, dir: Directory<C>,
                          listing: seq<string>, stylesList: Registry<Style>) returns (ok: bool)
    requires KeyedStyles(olds) && Lists(listing, dir) && stylesList.items == map[]
    modifies stylesList
    ensures KeyedStyles(stylesList.items) && (ok <==> dir != map[])
    ensures ok ==> StyleValues(stylesList.items) == Patched(parse, StyleValues(olds), since, dir)
    ensures forall id :: id in stylesList.items ==> fresh(stylesList.items[id])
  {
    CopyStyles(olds, stylesList);
    SeenAll(listing, dir);
    if |listing| == 0 {
      return false;
    }
    for i := 0 to |listing|
      invariant KeyedStyles(stylesList.items)
      invariant PatchedOn(StyleValues(stylesList.items), parse, StyleValues(olds), since, dir, Seen(listing, i))
      invariant forall id :: id in stylesList.items ==> fresh(stylesList.items[id])
    {
      PatchStyle(parse, olds, since, dir, listing, i, stylesList);
    }
    ghost var before := stylesList.items;
    stylesList.Clean(listing);
    CleanedStyles(before, stylesList.items, parse, StyleValues(olds), since, dir);
    ok := true;
  }

  // ----- the server -----

  /** The registries of `ServerXML`. */
  class ServerConf {
    const tmsList: Registry<TileMatrixSet>
    const stylesList: Registry<Style>
    const layersList: Registry<Layer>

    function Tables(): Tables
      reads tmsList, stylesList
    {
      LayerGraph.Tables(tmsList.items, stylesList.items)
    }

    /** What the server is in between reloads. */
    ghost predicate Valid()
      reads tmsList, stylesList, layersList
    {
      Tables().Keyed() && ReadyLayers(layersList.items)
    }

    constructor ()
      ensures fresh(tmsList) && fresh(stylesList) && fresh(layersList)
      ensures tmsList.items == map[] && stylesList.items == map[] && layersList.items == map[]
    {
      tmsList := new Registry<TileMatrixSet>();
      stylesList := new Registry<Style>();
      layersList := new Registry<Layer>();
    }
  }

  /** The files of one kind: what they hold, how `readdir` lists them and how they are parsed. */
  datatype Source<!C, !V> = Source(parse: Parser<C, V>, dir: Directory<C>, listing: seq<string>)

  /** The TMS, TileMatrices and styles that a layer points to. */
  ghost function PointedTo(layer: Layer): set<object?> {
    if layer.dataPyramid == null then {}
    else
      var levels := layer.dataPyramid.levels;
      {layer.dataPyramid.tms} + (set id | id in levels :: levels[id].tm)
      + (set i | 0 <= i < |layer.styles| :: layer.styles[i])
  }

  lemma PointedToIs(layer: Layer, o: object)
    requires layer.Ready()
    ensures o in PointedTo(layer) <==>
      || o == layer.dataPyramid.tms
      || (exists id :: id in layer.dataPyramid.levels && o == layer.dataPyramid.levels[id].tm)
      || o in layer.styles
  {
  }

  /** What a closed layer points to is registered. */
  lemma PointedToIsRegistered(layer: Layer, tables: Tables, o: object?)
    requires layer.Closed(tables) && o in PointedTo(layer)
    ensures (exists id :: id in tables.tms && o in ObjectsOf(tables.tms[id]))
      || (exists id :: id in tables.styles && o == tables.styles[id])
  {
    var tms := layer.dataPyramid.tms;
    assert tms.id in tables.tms && tables.tms[tms.id] == tms;
    if o == tms {
      assert o in ObjectsOf(tables.tms[tms.id]);
    } else if id :| id in layer.dataPyramid.levels && o == layer.dataPyramid.levels[id].tm {
      assert o in ObjectsOf(tables.tms[tms.id]);
    } else {
      var i :| 0 <= i < |layer.styles| && o == layer.styles[i];
      assert tables.styles[layer.styles[i].id] == o;
    }
  }

  /** Every registered TMS, TileMatrix and style was made since. */
  twostate predicate NewObjects(new tables: Tables) {
    && (forall id :: id in tables.tms ==> fresh(ObjectsOf(tables.tms[id])))
    && (forall id :: id in tables.styles ==> fresh(tables.styles[id]))
  }

  /** The reload up to the layers. */
  method ReloadTables<C, D>(old_: ServerConf, tmsFiles: Source<C, Geometry>, styleFiles: Source<D, string>, since: int)
    returns (conf: ServerConf?)
    requires old_.Valid()
    requires Lists(tmsFiles.listing, tmsFiles.dir) && Lists(styleFiles.listing, styleFiles.dir)
    ensures conf != null <==> tmsFiles.dir != map[] && styleFiles.dir != map[]
    ensures conf != null ==> fresh(conf) && fresh(conf.layersList) && conf.layersList.items == map[]
    ensures conf != null ==> conf.Tables().Keyed() && NewObjects(conf.Tables())
    ensures conf != null ==>
      && TmsValues(conf.tmsList.items) == Patched(tmsFiles.parse, TmsValues(old_.tmsList.items), since, tmsFiles.dir)
      && StyleValues(conf.stylesList.items)
        == Patched(styleFiles.parse, StyleValues(old_.stylesList.items), since, styleFiles.dir)
  {
    conf := new ServerConf();
    var ok := RefreshTms(tmsFiles.parse, old_.tmsList.items, since, tmsFiles.dir, tmsFiles.listing, conf.tmsList);
    if !ok {
      return null;
    }
    ok := RefreshStyles(styleFiles.parse, old_.stylesList.items, since, styleFiles.dir, styleFiles.listing,
                        conf.stylesList);
    if !ok {
      return null;
    }
  }

  /**
   * The reload. It fails when a directory has no file. Otherwise the new registries of TMS and styles
   * are the patched ones, in new objects only, every layer is what the layers pass leaves, and every
   * layer points to registered objects, so to none of the old server.
   */
  method ReloadServer<C, D>(old_: ServerConf, tmsFiles: Source<C, Geometry>, styleFiles: Source<D, string>,
                            layerDir: LayerDir, layerListing: seq<string>, pyramids: PyramidFiles,
                            since: int, inspire: bool) returns (conf: ServerConf?)
    requires old_.Valid()
    requires Lists(tmsFiles.listing, tmsFiles.dir) && Lists(styleFiles.listing, styleFiles.dir)
    requires Lists(layerListing, layerDir)
    ensures conf != null <==> tmsFiles.dir != map[] && styleFiles.dir != map[] && layerDir != map[]
    ensures conf != null ==> fresh(conf) && conf.Tables().Keyed() && NewObjects(conf.Tables())
    ensures conf != null ==>
      && TmsValues(conf.tmsList.items) == Patched(tmsFiles.parse, TmsValues(old_.tmsList.items), since, tmsFiles.dir)
      && StyleValues(conf.stylesList.items)
        == Patched(styleFiles.parse, StyleValues(old_.stylesList.items), since, styleFiles.dir)
    ensures conf != null ==>
      && ClosedLayers(conf.layersList.items, conf.Tables())
      && (forall id :: id in conf.layersList.items ==>
            fresh(PointedTo(conf.layersList.items[id])))
    ensures conf != null ==>
      var p := Pass(old_.layersList.items, layerDir, pyramids, since, inspire, conf.Tables());
      AfterReload(conf.layersList.items, p) && (conf.Valid() <==> FirstStylesStay(p))
  {
    conf := ReloadTables(old_, tmsFiles, styleFiles, since);
    if conf == null {
      return null;
    }
    var p := Pass(old_.layersList.items, layerDir, pyramids, since, inspire, conf.Tables());
    var ok := ReloadLayers(p, layerListing, conf.layersList);
    if !ok {
      return null;
    }
    ReloadedLayersAreClosed(conf.layersList.items, p);
    NextReloadIff(conf.layersList.items, p);
    forall id, o | id in conf.layersList.items && o in PointedTo(conf.layersList.items[id])
      ensures fresh(o)
    {
      PointedToIsRegistered(conf.layersList.items[id], conf.Tables(), o);
    }
  }
}
