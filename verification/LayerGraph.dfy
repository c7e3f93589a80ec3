/**
 * The objects behind the registries and how a reload copies them: a layer points to its pyramid and
 * styles, a pyramid to its TMS, a level to its TileMatrix. `rok4ReloadServer` copies the layers of
 * the old server onto the TMS and styles of the new one and rebuilds those whose files have changed.
 * Levels have no sources here and their storage context can always be had.
 */
module LayerGraph {
  import opened Options
  import opened Reload

  const DEFAULT_STYLE := "normal"
  const DEFAULT_STYLE_INSPIRE := "inspire"
  const DEFAULT_STYLE_INSPIRE_ID := "inspire_common:DEFAULT"

  datatype Grid = Grid(x0: real, y0: real, res: real, tileW: int, tileH: int, matrixW: int, matrixH: int)

  /** What a level keeps for itself: its place in the storage and its limits. */
  datatype Storage = Storage(root: string, tilesPerWidth: int, tilesPerHeight: int,
                             minTileCol: int, maxTileCol: int, minTileRow: int, maxTileRow: int)

  class TileMatrix {
    const id: string
    const grid: Grid

    constructor (id: string, grid: Grid)
      ensures this.id == id && this.grid == grid
    {
      this.id, this.grid := id, grid;
    }
  }

  class Style {
    const id: string
    const identifier: string

    constructor (id: string, identifier: string)
      ensures this.id == id && this.identifier == identifier
    {
      this.id, this.identifier := id, identifier;
    }
  }

  type Matrices = map<string, TileMatrix>

  /** The same names with the same geometry. */
  ghost predicate SameMatrices(a: Matrices, b: Matrices) {
    a.Keys == b.Keys && forall name :: name in a ==> a[name].grid == b[name].grid
  }

  class TileMatrixSet {
    const id: string
    const tmList: Matrices

    ghost predicate Keyed() {
      forall name :: name in tmList ==> tmList[name].id == name
    }

    constructor (id: string, geometry: map<string, Grid>)
      ensures this.id == id && Keyed() && tmList.Keys == geometry.Keys
      ensures forall name :: name in tmList ==> fresh(tmList[name]) && tmList[name].grid == geometry[name]
    {
      this.id := id;
      var matrices := BuildMatrices(geometry);
      tmList := matrices;
    }

    static method BuildMatrices(geometry: map<string, Grid>) returns (matrices: Matrices)
      ensures matrices.Keys == geometry.Keys
      ensures forall name :: name in matrices ==>
        fresh(matrices[name]) && matrices[name].id == name && matrices[name].grid == geometry[name]
    {
      matrices := map[];
      var left := geometry.Keys;
      while left != {}
        invariant left <= geometry.Keys && matrices.Keys == geometry.Keys - left
        invariant forall name :: name in matrices ==>
          fresh(matrices[name]) && matrices[name].id == name && matrices[name].grid == geometry[name]
      {
        var name :| name in left;
        var tm := new TileMatrix(name, geometry[name]);
        matrices := matrices[name := tm];
        left := left - {name};
      }
    }

    /** A copy with copies of the TileMatrices. */
    constructor Clone(t: TileMatrixSet)
      requires t.Keyed()
      ensures id == t.id && Keyed() && SameMatrices(tmList, t.tmList)
      ensures forall name :: name in t.tmList ==> name in tmList && tmList[name].grid == t.tmList[name].grid
      ensures forall name :: name in tmList ==> fresh(tmList[name])
    {
      id := t.id;
      var copies := CloneMatrices(t);
      tmList := copies;
    }

    static method CloneMatrices(t: TileMatrixSet) returns (copies: Matrices)
      requires t.Keyed()
      ensures copies.Keys == t.tmList.Keys
      ensures forall name :: name in copies ==>
        fresh(copies[name]) && copies[name].id == name && copies[name].grid == t.tmList[name].grid
    {
      copies := map[];
      var left := t.tmList.Keys;
      while left != {}
        invariant left <= t.tmList.Keys && copies.Keys == t.tmList.Keys - left
        invariant forall name :: name in copies ==>
          fresh(copies[name]) && copies[name].id == name && copies[name].grid == t.tmList[name].grid
      {
        var name :| name in left;
        var tm := new TileMatrix(t.tmList[name].id, t.tmList[name].grid);
        copies := copies[tm.id := tm];
        left := left - {name};
      }
    }
  }

  /** Every TMS and style is registered under its own identifier. */
  ghost predicate KeyedTms(items: map<string, TileMatrixSet>) {
    forall id :: id in items ==> items[id].id == id && items[id].Keyed()
  }

  ghost predicate KeyedStyles(items: map<string, Style>) {
    forall id :: id in items ==> items[id].id == id
  }

  /** What the TMS and style registries of a server hold while its layers are made. */
  datatype Tables = Tables(tms: map<string, TileMatrixSet>, styles: map<string, Style>) {
    ghost predicate Keyed() {
      KeyedTms(tms) && KeyedStyles(styles)
    }
  }

  class Level {
    const tm: TileMatrix?
    const storage: Storage

    constructor (tm: TileMatrix, storage: Storage)
      ensures this.tm == tm && this.storage == storage
    {
      this.tm, this.storage := tm, storage;
    }

    /** The TileMatrix of the same name in `tms`, not that of the copied level. */
    constructor Clone(obj: Level, tms: TileMatrixSet)
      requires obj.tm != null
      ensures obj.tm.id in tms.tmList ==> tm == tms.tmList[obj.tm.id] && storage == obj.storage
      ensures obj.tm.id !in tms.tmList ==> tm == null
    {
      tm := if obj.tm.id in tms.tmList then tms.tmList[obj.tm.id] else null;
      storage := obj.storage;
    }
  }

  type Levels = map<string, Level>

  /** `levels` are those of a pyramid on `tms`: each is named after its TileMatrix, which `tms` holds. */
  ghost predicate LevelsOn(levels: Levels, tms: TileMatrixSet) {
    forall id :: id in levels ==> levels[id].tm != null && id in tms.tmList && levels[id].tm == tms.tmList[id]
  }

  ghost predicate SameStorage(levels: Levels, others: Levels) {
    levels.Keys == others.Keys && forall id :: id in levels ==> levels[id].storage == others[id].storage
  }

  /** On a TMS of the same name, with the same levels in the same places. */
  ghost predicate SameData(p: Pyramid, q: Pyramid)
    requires p.tms != null && q.tms != null
  {
    p.tms.id == q.tms.id && p.raster == q.raster && SameStorage(p.levels, q.levels)
  }

  class Pyramid {
    const tms: TileMatrixSet?
    const levels: Levels
    const raster: bool

    ghost predicate Complete() {
      tms != null && tms.Keyed() && LevelsOn(levels, tms)
    }

    constructor (tms: TileMatrixSet, levels: Levels, raster: bool)
      ensures this.tms == tms && this.levels == levels && this.raster == raster
    {
      this.tms, this.levels, this.raster := tms, levels, raster;
    }

    /** `tables` has the TMS of the pyramid, with all the TileMatrices of its levels. */
    ghost predicate Survives(tables: Tables)
      requires Complete()
    {
      tms.id in tables.tms && levels.Keys <= tables.tms[tms.id].tmList.Keys
    }

    /** The TMS is left unset when it, or a TileMatrix, is no longer there. */
    constructor Clone(obj: Pyramid, tables: Tables)
      requires obj.Complete() && tables.Keyed()
      ensures tms != null <==> obj.Survives(tables)
      ensures tms != null <==> obj.tms.id in tables.tms && obj.levels.Keys <= tables.tms[obj.tms.id].tmList.Keys
      ensures tms != null ==> tms == tables.tms[obj.tms.id] && Complete()
      ensures tms != null ==> SameData(this, obj)
    {
      var found := if obj.tms.id in tables.tms then tables.tms[obj.tms.id] else null;
      var copies := map[];
      if found != null {
        var ok;
        ok, copies := CloneLevels(obj.levels, obj.tms, found);
        if !ok {
          found := null;
        }
      }
      tms, levels, raster := found, copies, obj.raster;
    }

    /** Copying stops at the first level whose TileMatrix is not in `tms`. */
    static method CloneLevels(levels: Levels, oldTms: TileMatrixSet, tms: TileMatrixSet)
      returns (ok: bool, copies: Levels)
      requires oldTms.Keyed() && LevelsOn(levels, oldTms) && tms.Keyed()
      ensures ok <==> levels.Keys <= tms.tmList.Keys
      ensures ok ==> SameStorage(copies, levels) && LevelsOn(copies, tms)
    {
      copies := map[];
      var left := levels.Keys;
      while left != {}
        invariant left <= levels.Keys && copies.Keys == levels.Keys - left
        invariant copies.Keys <= tms.tmList.Keys && LevelsOn(copies, tms)
        invariant forall id :: id in copies ==> copies[id].storage == levels[id].storage
      {
        var id :| id in left;
        var copy := new Level.Clone(levels[id], tms);
        if copy.tm == null {
          return false, copies;
        }
        copies := copies[copy.tm.id := copy];
        left := left - {id};
      }
      ok := true;
    }
  }

  /** A copy onto `tables` of a layer of the old server. */
  ghost predicate CopyOf(layer: Layer, old_: Layer, tables: Tables) {
    && layer.id == old_.id && layer.pyramidPath == old_.pyramidPath && layer.Closed(tables)
    && old_.Ready() && SameData(layer.dataPyramid, old_.dataPyramid)
    && (layer.dataPyramid.raster ==> CopiesStyles(layer.styles, old_.styles, tables))
    && (layer.dataPyramid.raster ==>
          layer.defaultStyle == if |layer.styles| == |old_.styles| then layer.styles[0].identifier else "")
  }

  class Layer {
    const id: string
    const pyramidPath: string
    const dataPyramid: Pyramid?
    const styles: seq<Style>
    const defaultStyle: string

    /** The layer can be served and copied; copying takes the first style of a raster layer. */
    ghost predicate Ready() {
      dataPyramid != null && dataPyramid.Complete() && (dataPyramid.raster ==> styles != [])
    }

    /** The layer points only to what `tables` registers. */
    ghost predicate Closed(tables: Tables) {
      && dataPyramid != null && dataPyramid.Complete()
      && dataPyramid.tms.id in tables.tms && dataPyramid.tms == tables.tms[dataPyramid.tms.id]
      && forall i :: 0 <= i < |styles| ==>
        styles[i].id in tables.styles && styles[i] == tables.styles[styles[i].id]
    }

    constructor (id: string, pyramidPath: string, pyramid: Pyramid, styles: seq<Style>)
      requires pyramid.raster ==> styles != []
      ensures this.id == id && this.pyramidPath == pyramidPath && dataPyramid == pyramid && this.styles == styles
      ensures pyramid.raster ==> defaultStyle == styles[0].identifier
    {
      this.id, this.pyramidPath, this.dataPyramid, this.styles := id, pyramidPath, pyramid, styles;
      this.defaultStyle := if pyramid.raster then styles[0].identifier else "";
    }

    /**
     * The copy of a layer has the styles up to the first that is no longer registered, and a default
     * style only when none is missing. It has no pyramid when the pyramid could not be copied.
     */
    constructor Clone(obj: Layer, tables: Tables)
      requires obj.Ready() && tables.Keyed()
      ensures id == obj.id && pyramidPath == obj.pyramidPath
      ensures dataPyramid != null <==> obj.dataPyramid.Survives(tables)
      ensures dataPyramid != null ==> CopyOf(this, obj, tables)
    {
      id, pyramidPath := obj.id, obj.pyramidPath;
      var pyramid: Pyramid? := new Pyramid.Clone(obj.dataPyramid, tables);
      if pyramid.tms == null {
        pyramid := null;
      }
      dataPyramid := pyramid;
      var copies, standard := [], "";
      if pyramid != null && pyramid.raster {
        copies := CloneStyles(obj.styles, tables);
        if |copies| == |obj.styles| {
          standard := copies[0].identifier;
        }
      }
      styles, defaultStyle := copies, standard;
    }

    static method CloneStyles(old_: seq<Style>, tables: Tables) returns (copies: seq<Style>)
      requires tables.Keyed()
      ensures CopiesStyles(copies, old_, tables)
    {
      copies := [];
      for i := 0 to |old_|
        invariant |copies| == i
        invariant forall j :: 0 <= j < i ==> Registered(copies[j], old_[j], tables)
      {
        if old_[i].id !in tables.styles {
          return;
        }
        copies := copies + [tables.styles[old_[i].id]];
      }
    }
  }

  /** `style` is what `tables` registers under the name of `old_`. */
  ghost predicate Registered(style: Style, old_: Style, tables: Tables) {
    old_.id in tables.styles && style == tables.styles[old_.id]
  }

  /** The styles of the same names, up to the first that `tables` does not register. */
  ghost predicate CopiesStyles(copies: seq<Style>, old_: seq<Style>, tables: Tables) {
    && |copies| <= |old_|
    && (forall j :: 0 <= j < |copies| ==> Registered(copies[j], old_[j], tables))
    && (|copies| < |old_| ==> old_[|copies|].id !in tables.styles)
  }

  // ----- a layer from its files -----

  datatype LevelText = LevelText(tm: string, storage: Storage)

  datatype PyramidText = PyramidText(tms: string, raster: bool, levels: seq<LevelText>)

  /**
   * A style element without text stands for the default style. `hasMetadata`: there is a valid
   * metadata URL, without which a layer is refused in INSPIRE mode.
   */
  datatype LayerText = LayerText(pyramidPath: string, styles: seq<Option<string>>, hasMetadata: bool)

  /** The files of the layers, by identifier, and of the pyramids, by path; some are malformed. */
  type LayerDir = Directory<Option<LayerText>>

  type PyramidFiles = map<string, File<Option<PyramidText>>>

  predicate LevelsResolve(levels: seq<LevelText>, tms: TileMatrixSet) {
    && levels != []
    && (forall i :: 0 <= i < |levels| ==> levels[i].tm in tms.tmList)
    && (forall i, j :: 0 <= i < j < |levels| ==> levels[i].tm != levels[j].tm)
  }

  ghost predicate LevelsFrom(levels: Levels, texts: seq<LevelText>, n: nat)
    requires n <= |texts|
  {
    && levels.Keys == (set i | 0 <= i < n :: texts[i].tm)
    && (forall i :: 0 <= i < n ==> texts[i].tm in levels && levels[texts[i].tm].storage == texts[i].storage)
  }

  /** The first `n` levels are all right so far, and these are they. */
  ghost predicate LevelsReadTo(levels: Levels, texts: seq<LevelText>, n: nat, tms: TileMatrixSet)
    requires n <= |texts|
  {
    && LevelsOn(levels, tms) && LevelsFrom(levels, texts, n)
    && (forall j :: 0 <= j < n ==> texts[j].tm in tms.tmList)
    && (forall j, k :: 0 <= j < k < n ==> texts[j].tm != texts[k].tm)
  }

  lemma ReadLevel(levels: Levels, texts: seq<LevelText>, n: nat, tms: TileMatrixSet, level: Level)
    requires n < |texts| && LevelsReadTo(levels, texts, n, tms)
    requires texts[n].tm in tms.tmList && texts[n].tm !in levels
    requires level.tm == tms.tmList[texts[n].tm] && level.storage == texts[n].storage
    ensures LevelsReadTo(levels[texts[n].tm := level], texts, n + 1, tms)
  {
    forall i | 0 <= i < n
      ensures texts[i].tm != texts[n].tm
    {
      assert texts[i].tm in levels;
    }
  }

  lemma LevelIsRefused(levels: Levels, texts: seq<LevelText>, n: nat, tms: TileMatrixSet)
    requires n < |texts| && LevelsReadTo(levels, texts, n, tms)
    requires texts[n].tm !in tms.tmList || texts[n].tm in levels
    ensures !LevelsResolve(texts, tms)
  {
  }

  /** Levels are read one by one; an unknown TileMatrix or a second level of the same name is an error. */
  method BuildLevels(texts: seq<LevelText>, tms: TileMatrixSet) returns (ok: bool, levels: Levels)
    requires tms.Keyed()
    ensures ok <==> LevelsResolve(texts, tms)
    ensures ok <==>
      && texts != [] && (forall i :: 0 <= i < |texts| ==> texts[i].tm in tms.tmList)
      && (forall i, j :: 0 <= i < j < |texts| ==> texts[i].tm != texts[j].tm)
    ensures ok ==> LevelsOn(levels, tms) && LevelsFrom(levels, texts, |texts|)
    ensures ok ==> forall i :: 0 <= i < |texts| ==>
      texts[i].tm in levels && levels[texts[i].tm].storage == texts[i].storage
  {
    levels := map[];
    for i := 0 to |texts|
      invariant LevelsReadTo(levels, texts, i, tms)
    {
      var name := texts[i].tm;
      if name !in tms.tmList || name in levels {
        LevelIsRefused(levels, texts, i, tms);
        return false, levels;
      }
      var level := new Level(tms.tmList[name], texts[i].storage);
      ReadLevel(levels, texts, i, tms, level);
      levels := levels[name := level];
    }
    ok := |texts| != 0;
  }

  ghost predicate PyramidResolves(text: PyramidText, tables: Tables) {
    text.tms in tables.tms && LevelsResolve(text.levels, tables.tms[text.tms])
  }

  ghost predicate PyramidFrom(pyramid: Pyramid, text: PyramidText) {
    && pyramid.tms != null && pyramid.tms.id == text.tms && pyramid.raster == text.raster
    && LevelsFrom(pyramid.levels, text.levels, |text.levels|)
  }

  method BuildPyramid(text: PyramidText, tables: Tables) returns (pyramid: Pyramid?)
    requires tables.Keyed()
    ensures pyramid != null <==> PyramidResolves(text, tables)
    ensures pyramid != null ==> pyramid.Complete() && pyramid.tms == tables.tms[text.tms]
    ensures pyramid != null ==> PyramidFrom(pyramid, text)
  {
    if text.tms !in tables.tms {
      return null;
    }
    var ok, levels := BuildLevels(text.levels, tables.tms[text.tms]);
    if !ok {
      return null;
    }
    pyramid := new Pyramid(tables.tms[text.tms], levels, text.raster);
  }

  function StyleName(text: Option<string>, inspire: bool): string {
    match text
    case Some(name) => name
    case None => if inspire then DEFAULT_STYLE_INSPIRE else DEFAULT_STYLE
  }

  /** The INSPIRE style among the first `n` style elements. */
  function InspireName(texts: seq<Option<string>>, inspire: bool, tables: Tables, n: nat): string
    requires n <= |texts|
  {
    if n == 0 then DEFAULT_STYLE_INSPIRE
    else
      var name := StyleName(texts[n - 1], inspire);
      if name in tables.styles && tables.styles[name].identifier == DEFAULT_STYLE_INSPIRE_ID then name
      else InspireName(texts, inspire, tables, n - 1)
  }

  /** The defined styles of the first `n` elements, without the INSPIRE one in INSPIRE mode. */
  function DefinedStyles(texts: seq<Option<string>>, inspire: bool, tables: Tables, n: nat): seq<Style>
    requires n <= |texts|
  {
    if n == 0 then []
    else
      var name := StyleName(texts[n - 1], inspire);
      DefinedStyles(texts, inspire, tables, n - 1)
      + if name !in tables.styles || (inspire && name == InspireName(texts, inspire, tables, n)) then []
        else [tables.styles[name]]
  }

  /** In INSPIRE mode the INSPIRE style comes first and has to be there. */
  function StylesOf(texts: seq<Option<string>>, inspire: bool, tables: Tables): Option<seq<Style>>
  {
    var defined := DefinedStyles(texts, inspire, tables, |texts|);
    var first := InspireName(texts, inspire, tables, |texts|);
    if !inspire then (if defined == [] then None else Some(defined))
    else if first in tables.styles then Some([tables.styles[first]] + defined) else None
  }

  /** The style that an element of a layer file names. */
  function Named(text: Option<string>, inspire: bool): string {
    if text.Some? then text.value else if inspire then "inspire" else "normal"
  }

  /** Element `i` names a registered style with the INSPIRE identifier. */
  ghost predicate NamesInspire(texts: seq<Option<string>>, tables: Tables, i: nat)
    requires i < |texts|
  {
    var name := Named(texts[i], true);
    name in tables.styles && tables.styles[name].identifier == "inspire_common:DEFAULT"
  }

  /**
   * Element `i` adds a style of its own: any registered one, but in INSPIRE mode none with the INSPIRE
   * identifier, nor the one named "inspire" before such a style has been named.
   */
  ghost predicate Adds(texts: seq<Option<string>>, inspire: bool, tables: Tables, i: nat)
    requires i < |texts|
  {
    var name := Named(texts[i], inspire);
    && name in tables.styles
    && (inspire ==> !NamesInspire(texts, tables, i))
    && (inspire && name == "inspire" ==> exists k :: 0 <= k < i && NamesInspire(texts, tables, k))
  }

  /** `styles` are, in order, those named at `places`: exactly the first `n` elements that add one. */
  ghost predicate NamedAt(styles: seq<Style>, places: seq<nat>, texts: seq<Option<string>>, inspire: bool,
                          tables: Tables, n: nat)
    requires n <= |texts|
  {
    && |places| == |styles|
    && (forall j, k :: 0 <= j < k < |places| ==> places[j] < places[k])
    && (forall j :: 0 <= j < |places| ==>
          && places[j] < n && Adds(texts, inspire, tables, places[j])
          && styles[j] == tables.styles[Named(texts[places[j]], inspire)])
    && (forall i :: 0 <= i < n && Adds(texts, inspire, tables, i) ==> i in places)
  }

  lemma NextIsNamedAt(styles: seq<Style>, places: seq<nat>, texts: seq<Option<string>>, inspire: bool,
                      tables: Tables, n: nat)
    requires n < |texts| && NamedAt(styles, places, texts, inspire, tables, n) && Adds(texts, inspire, tables, n)
    ensures NamedAt(styles + [tables.styles[Named(texts[n], inspire)]], places + [n], texts, inspire, tables, n + 1)
  {
    var all := places + [n];
    forall i | 0 <= i < n + 1 && Adds(texts, inspire, tables, i)
      ensures i in all
    {
      assert i == n || i in places;
    }
  }

  /** Element `i` is the last of the first `n` that names an INSPIRE style. */
  ghost predicate IsLastInspire(texts: seq<Option<string>>, tables: Tables, n: nat, i: nat)
    requires i < n <= |texts|
  {
    NamesInspire(texts, tables, i) && forall k :: i < k < n ==> !NamesInspire(texts, tables, k)
  }

  /** The INSPIRE style is the last element that names one, and otherwise the one named "inspire". */
  lemma {:induction false} InspireNameIs(texts: seq<Option<string>>, tables: Tables, n: nat)
    requires n <= |texts|
    ensures var name := InspireName(texts, true, tables, n);
      && ((forall k :: 0 <= k < n ==> !NamesInspire(texts, tables, k)) ==> name == "inspire")
      && (forall i :: 0 <= i < n && IsLastInspire(texts, tables, n, i) ==> name == Named(texts[i], true))
      && ((exists k :: 0 <= k < n && NamesInspire(texts, tables, k)) ==>
            name in tables.styles && tables.styles[name].identifier == "inspire_common:DEFAULT")
  {
    if n > 0 {
      InspireNameIs(texts, tables, n - 1);
      assert NamesInspire(texts, tables, n - 1)
        <==> InspireName(texts, true, tables, n) == Named(texts[n - 1], true)
             && Named(texts[n - 1], true) in tables.styles
             && tables.styles[Named(texts[n - 1], true)].identifier == "inspire_common:DEFAULT";
    }
  }

  lemma DefinedNext(texts: seq<Option<string>>, inspire: bool, tables: Tables, n: nat)
    requires n < |texts|
    ensures DefinedStyles(texts, inspire, tables, n + 1) == DefinedStyles(texts, inspire, tables, n)
      + if Adds(texts, inspire, tables, n) then [tables.styles[Named(texts[n], inspire)]] else []
  {
    InspireNameIs(texts, tables, n);
    InspireNameIs(texts, tables, n + 1);
  }

  /** The styles of a layer are, in the order of the file, those its elements add. */
  lemma {:induction false} StylesAreInOrder(texts: seq<Option<string>>, inspire: bool, tables: Tables, n: nat)
    returns (places: seq<nat>)
    requires n <= |texts|
    ensures NamedAt(DefinedStyles(texts, inspire, tables, n), places, texts, inspire, tables, n)
  {
    if n == 0 {
      places := [];
    } else {
      places := StylesAreInOrder(texts, inspire, tables, n - 1);
      DefinedNext(texts, inspire, tables, n - 1);
      if Adds(texts, inspire, tables, n - 1) {
        NextIsNamedAt(DefinedStyles(texts, inspire, tables, n - 1), places, texts, inspire, tables, n - 1);
        places := places + [n - 1];
      }
    }
  }

  /**
   * The whole list: the styles that the elements add, and in INSPIRE mode in front of them the last
   * INSPIRE style named, or without one the style "inspire"; the layer is refused when that is missing
   * or there is no style at all. The first of the list is the default style.
   */
  lemma StylesAre(texts: seq<Option<string>>, inspire: bool, tables: Tables) returns (first: string, places: seq<nat>)
    ensures (forall k :: 0 <= k < |texts| ==> !NamesInspire(texts, tables, k)) ==> first == "inspire"
    ensures forall i :: 0 <= i < |texts| && IsLastInspire(texts, tables, |texts|, i) ==> first == Named(texts[i], true)
    ensures inspire ==> (StylesOf(texts, inspire, tables).Some? <==> first in tables.styles)
    ensures !inspire ==> (StylesOf(texts, inspire, tables).Some? <==>
              exists i :: 0 <= i < |texts| && Adds(texts, inspire, tables, i))
    ensures StylesOf(texts, inspire, tables).Some? ==>
              var styles := StylesOf(texts, inspire, tables).value;
              if inspire then
                styles != [] && styles[0] == tables.styles[first]
                && NamedAt(styles[1..], places, texts, inspire, tables, |texts|)
              else NamedAt(styles, places, texts, inspire, tables, |texts|)
  {
    first := InspireName(texts, true, tables, |texts|);
    InspireNameIs(texts, tables, |texts|);
    places := StylesAreInOrder(texts, inspire, tables, |texts|);
    if !inspire && DefinedStyles(texts, inspire, tables, |texts|) != [] {
      assert Adds(texts, inspire, tables, places[0]);
    }
  }

  method BuildStyles(texts: seq<Option<string>>, inspire: bool, tables: Tables)
    returns (styles: Option<seq<Style>>)
    ensures styles == StylesOf(texts, inspire, tables)
  {
    var inspireStyleName, found := DEFAULT_STYLE_INSPIRE, [];
    for i := 0 to |texts|
      invariant inspireStyleName == InspireName(texts, inspire, tables, i)
      invariant found == DefinedStyles(texts, inspire, tables, i)
    {
      var styleName := StyleName(texts[i], inspire);
      if styleName in tables.styles {
        var style := tables.styles[styleName];
        if style.identifier == DEFAULT_STYLE_INSPIRE_ID {
          inspireStyleName := styleName;
        }
        if !(inspire && styleName == inspireStyleName) {
          found := found + [style];
        }
      }
    }
    if inspire {
      if inspireStyleName !in tables.styles {
        return None;
      }
      found := [tables.styles[inspireStyleName]] + found;
    }
    styles := if |found| == 0 then None else Some(found);
  }

  ghost predicate AllRegistered(styles: seq<Style>, tables: Tables) {
    forall i :: 0 <= i < |styles| ==> styles[i].id in tables.styles && styles[i] == tables.styles[styles[i].id]
  }

  lemma {:induction false} DefinedStylesAreRegistered(texts: seq<Option<string>>, inspire: bool, tables: Tables,
                                                      n: nat)
    requires tables.Keyed() && n <= |texts|
    ensures AllRegistered(DefinedStyles(texts, inspire, tables, n), tables)
  {
    if n > 0 {
      DefinedStylesAreRegistered(texts, inspire, tables, n - 1);
    }
  }

  lemma {:induction false} InspireNameIsInspire(texts: seq<Option<string>>, inspire: bool, tables: Tables, n: nat)
    requires tables.Keyed() && n <= |texts|
    ensures var name := InspireName(texts, inspire, tables, n);
      name in tables.styles ==>
        name == DEFAULT_STYLE_INSPIRE || tables.styles[name].identifier == DEFAULT_STYLE_INSPIRE_ID
  {
    if n > 0 {
      InspireNameIsInspire(texts, inspire, tables, n - 1);
    }
  }

  /** The styles of a layer are registered; in INSPIRE mode the first is an INSPIRE style. */
  lemma StylesOfAreRegistered(texts: seq<Option<string>>, inspire: bool, tables: Tables)
    requires tables.Keyed() && StylesOf(texts, inspire, tables).Some?
    ensures var styles := StylesOf(texts, inspire, tables).value;
      && styles != [] && AllRegistered(styles, tables)
      && (inspire ==> styles[0].id == DEFAULT_STYLE_INSPIRE || styles[0].identifier == DEFAULT_STYLE_INSPIRE_ID)
  {
    DefinedStylesAreRegistered(texts, inspire, tables, |texts|);
    InspireNameIsInspire(texts, inspire, tables, |texts|);
  }

  predicate HasPyramid(text: Option<LayerText>, pyramids: PyramidFiles) {
    && text.Some? && text.value.pyramidPath in pyramids
    && pyramids[text.value.pyramidPath].content.Some?
  }

  ghost predicate Builds(text: Option<LayerText>, pyramids: PyramidFiles, inspire: bool, tables: Tables) {
    && HasPyramid(text, pyramids) && (inspire ==> text.value.hasMetadata)
    && var pyramid := pyramids[text.value.pyramidPath].content.value;
       PyramidResolves(pyramid, tables) && (pyramid.raster ==> StylesOf(text.value.styles, inspire, tables).Some?)
  }

  ghost predicate BuiltFrom(layer: Layer, text: LayerText, pyramids: PyramidFiles, inspire: bool, tables: Tables)
    requires HasPyramid(Some(text), pyramids)
  {
    && layer.pyramidPath == text.pyramidPath && layer.dataPyramid != null
    && PyramidFrom(layer.dataPyramid, pyramids[text.pyramidPath].content.value)
    && (layer.dataPyramid.raster ==>
          && Some(layer.styles) == StylesOf(text.styles, inspire, tables)
          && layer.styles != [] && layer.defaultStyle == layer.styles[0].identifier)
  }

  method BuildLayer(id: string, text: Option<LayerText>, pyramids: PyramidFiles, inspire: bool, tables: Tables)
    returns (layer: Layer?)
    requires tables.Keyed()
    ensures layer != null <==> Builds(text, pyramids, inspire, tables)
    ensures layer != null <==>
      && text.Some? && text.value.pyramidPath in pyramids && pyramids[text.value.pyramidPath].content.Some?
      && (inspire ==> text.value.hasMetadata)
      && (var pyramid := pyramids[text.value.pyramidPath].content.value;
          && PyramidResolves(pyramid, tables)
          && (pyramid.raster ==> StylesOf(text.value.styles, inspire, tables).Some?))
    ensures layer != null ==> layer.id == id && layer.Ready() && layer.Closed(tables)
    ensures layer != null ==> BuiltFrom(layer, text.value, pyramids, inspire, tables)
  {
    if text.Some? && inspire && !text.value.hasMetadata {
      return null;
    }
    if !HasPyramid(text, pyramids) {
      return null;
    }
    var pyramid := BuildPyramid(pyramids[text.value.pyramidPath].content.value, tables);
    if pyramid == null {
      return null;
    }
    var styles := [];
    if pyramid.raster {
      var found := BuildStyles(text.value.styles, inspire, tables);
      if found.None? {
        return null;
      }
      StylesOfAreRegistered(text.value.styles, inspire, tables);
      styles := found.value;
    }
    layer := new Layer(id, text.value.pyramidPath, pyramid, styles);
  }

  // ----- the layers pass of a reload -----

  type Layers = map<string, Layer>

  ghost predicate ReadyLayers(layers: Layers) {
    forall id :: id in layers ==> layers[id].id == id && layers[id].Ready()
  }

  ghost predicate ClosedLayers(layers: Layers, tables: Tables) {
    forall id :: id in layers ==> layers[id].id == id && layers[id].Closed(tables)
  }

  /** What the pass works with: the old layers, the files, the last reload and the new registries. */
  datatype Pass = Pass(olds: Layers, dir: LayerDir, pyramids: PyramidFiles, since: int, inspire: bool, tables: Tables)

  ghost predicate Copied(id: string, p: Pass) {
    id in p.olds && p.olds[id].Ready() && p.olds[id].dataPyramid.Survives(p.tables)
  }

  method CopyLayer(old_: Layer, tables: Tables, layersList: Registry<Layer>)
    requires old_.Ready() && tables.Keyed() && old_.id !in layersList.items
    modifies layersList
    ensures forall id :: id != old_.id ==> Lookup(layersList.items, id) == Lookup(old(layersList.items), id)
    ensures old_.id in layersList.items <==> old_.dataPyramid.Survives(tables)
    ensures old_.id in layersList.items ==> CopyOf(layersList.items[old_.id], old_, tables)
  {
    var layer := new Layer.Clone(old_, tables);
    if layer.dataPyramid != null {
      layersList.Add(layer.id, layer);
    }
  }

  /** The old layers outside `left` have been copied, if they can be. */
  ghost predicate CopiedOn(layers: Layers, left: set<string>, p: Pass) {
    && (forall id :: id in layers <==> id !in left && Copied(id, p))
    && (forall id :: id in layers ==> id in p.olds && CopyOf(layers[id], p.olds[id], p.tables))
  }

  lemma CopyStep(before: Layers, after: Layers, left: set<string>, id: string, p: Pass)
    requires CopiedOn(before, left, p) && id in left && id in p.olds && p.olds[id].Ready()
    requires forall other :: other != id ==> Lookup(after, other) == Lookup(before, other)
    requires id in after <==> p.olds[id].dataPyramid.Survives(p.tables)
    requires id in after ==> CopyOf(after[id], p.olds[id], p.tables)
    ensures CopiedOn(after, left - {id}, p)
  {
    forall other | other != id
      ensures other in after <==> other in before
      ensures other in after ==> after[other] == before[other]
    {
      assert Lookup(after, other) == Lookup(before, other);
    }
  }

  method CopyLayers(p: Pass, layersList: Registry<Layer>)
    requires ReadyLayers(p.olds) && p.tables.Keyed() && layersList.items == map[]
    modifies layersList
    ensures CopiedOn(layersList.items, {}, p)
  {
    var left := p.olds.Keys;
    while left != {}
      invariant left <= p.olds.Keys && CopiedOn(layersList.items, left, p)
    {
      var id :| id in left;
      ghost var before := layersList.items;
      CopyLayer(p.olds[id], p.tables, layersList);
      CopyStep(before, layersList.items, left, id, p);
      left := left - {id};
    }
  }

  /** The date of a file that is not there is 0. */
  function PyramidDate(path: string, pyramids: PyramidFiles): int {
    if path in pyramids then pyramids[path].modified else 0
  }

  predicate Rebuilt(before: Option<Layer>, id: string, p: Pass)
    requires id in p.dir
  {
    || p.dir[id].modified > p.since || before.None?
    || PyramidDate(before.value.pyramidPath, p.pyramids) > p.since
  }

  /** The layer that the file describes, if it and its pyramid file are valid. */
  ghost predicate ReadFrom(after: Option<Layer>, id: string, p: Pass)
    requires id in p.dir
  {
    var text := p.dir[id].content;
    && (after.Some? <==> Builds(text, p.pyramids, p.inspire, p.tables))
    && (after.Some? ==> after.value.id == id && after.value.Ready() && after.value.Closed(p.tables))
    && (after.Some? ==> BuiltFrom(after.value, text.value, p.pyramids, p.inspire, p.tables))
  }

  /** What one turn of the loop over the layer files leaves for `id`. */
  ghost predicate Outcome(after: Option<Layer>, before: Option<Layer>, id: string, p: Pass)
    requires id in p.dir
  {
    if Rebuilt(before, id, p) then ReadFrom(after, id, p) else after == before
  }

  method PatchLayer(id: string, p: Pass, layersList: Registry<Layer>)
    requires p.tables.Keyed() && id in p.dir
    modifies layersList
    ensures Outcome(Lookup(layersList.items, id), Lookup(old(layersList.items), id), id, p)
    ensures forall other :: other != id ==> Lookup(layersList.items, other) == Lookup(old(layersList.items), other)
  {
    var before := layersList.Get(id);
    if Rebuilt(before, id, p) {
      var layer := BuildLayer(id, p.dir[id].content, p.pyramids, p.inspire, p.tables);
      layersList.Remove(id);
      if layer != null {
        layersList.Add(layer.id, layer);
      }
    }
  }

  /** A layer is read from its files again when they are new or the old layer cannot be copied. */
  ghost predicate ReadAgain(id: string, p: Pass)
    requires id in p.dir
  {
    p.dir[id].modified > p.since || !Copied(id, p) || PyramidDate(p.olds[id].pyramidPath, p.pyramids) > p.since
  }

  /** What a reload leaves under `id`. */
  ghost predicate Reloaded(after: Option<Layer>, id: string, p: Pass)
    requires id in p.dir
  {
    if ReadAgain(id, p) then ReadFrom(after, id, p)
    else after.Some? && CopyOf(after.value, p.olds[id], p.tables)
  }

  /** The layers of the new server are those the reload leaves. */
  ghost predicate AfterReload(layers: Layers, p: Pass) {
    && (forall id :: id in layers ==> id in p.dir)
    && (forall id :: id in p.dir ==> Reloaded(Lookup(layers, id), id, p))
  }

  /** The layer that a file is looked at with: the copy, if there is one. */
  ghost predicate BeforeFile(before: Option<Layer>, id: string, p: Pass) {
    && (before.Some? <==> Copied(id, p))
    && (before.Some? ==> CopyOf(before.value, p.olds[id], p.tables))
  }

  /** The files of `done` have been looked at; every other layer is a copy of an old one. */
  ghost predicate ReloadedOn(layers: Layers, done: set<string>, p: Pass) {
    && (forall id :: id !in done ==> BeforeFile(Lookup(layers, id), id, p))
    && (forall id :: id in done && id in p.dir ==> Reloaded(Lookup(layers, id), id, p))
  }

  lemma ReloadStep(before: Layers, after: Layers, done: set<string>, id: string, p: Pass)
    requires ReloadedOn(before, done, p) && id in p.dir && id !in done
    requires forall other :: other != id ==> Lookup(after, other) == Lookup(before, other)
    requires Outcome(Lookup(after, id), Lookup(before, id), id, p)
    ensures ReloadedOn(after, done + {id}, p)
  {
    assert BeforeFile(Lookup(before, id), id, p);
  }

  /** The layers pass of `rok4ReloadServer`, on a directory that is still the same one. */
  method ReloadLayers(p: Pass, listing: seq<string>, layersList: Registry<Layer>) returns (ok: bool)
    requires ReadyLayers(p.olds) && p.tables.Keyed() && layersList.items == map[] && Lists(listing, p.dir)
    modifies layersList
    ensures ok <==> p.dir != map[]
    ensures ok ==> AfterReload(layersList.items, p)
  {
    CopyLayers(p, layersList);
    SeenAll(listing, p.dir);
    if |listing| == 0 {
      return false;
    }
    for i := 0 to |listing|
      invariant ReloadedOn(layersList.items, Seen(listing, i), p)
    {
      SeeNext(listing, p.dir, i);
      var id := listing[i];
      ghost var before := layersList.items;
      PatchLayer(id, p, layersList);
      ReloadStep(before, layersList.items, Seen(listing, i), id, p);
    }
    ghost var reloaded := layersList.items;
    layersList.Clean(listing);
    CleanedIsAfterReload(reloaded, layersList.items, p);
    ok := true;
  }

  lemma CleanedIsAfterReload(before: Layers, after: Layers, p: Pass)
    requires ReloadedOn(before, p.dir.Keys, p)
    requires forall id :: Lookup(after, id) == if id in p.dir then Lookup(before, id) else None
    ensures AfterReload(after, p)
  {
    forall id
      ensures id in after ==> id in p.dir
      ensures id in p.dir ==> Reloaded(Lookup(after, id), id, p)
    {
      assert Lookup(after, id) == if id in p.dir then Lookup(before, id) else None;
    }
  }

  // ----- what holds after a reload -----

  /** Every registered layer points only to registered objects. */
  lemma ReloadedLayersAreClosed(layers: Layers, p: Pass)
    requires ReadyLayers(p.olds) && AfterReload(layers, p)
    ensures ClosedLayers(layers, p.tables)
  {
    forall id | id in layers
      ensures layers[id].id == id && layers[id].Closed(p.tables)
    {
      assert Reloaded(Lookup(layers, id), id, p);
    }
  }

  /** A layer whose TMS or a TileMatrix has vanished stays only if its files now describe it otherwise. */
  lemma VanishedIsNotKept(layers: Layers, p: Pass, id: string)
    requires AfterReload(layers, p)
    requires id in p.olds && id in p.dir && p.olds[id].Ready() && !p.olds[id].dataPyramid.Survives(p.tables)
    ensures id in layers <==> Builds(p.dir[id].content, p.pyramids, p.inspire, p.tables)
  {
    assert Reloaded(Lookup(layers, id), id, p);
  }

  /**
   * A copy can itself be copied by the next reload exactly when the first style of the old layer is
   * still registered: a raster layer that lost it is kept, but without any style.
   */
  lemma CopyIsReadyIff(layer: Layer, old_: Layer, tables: Tables)
    requires CopyOf(layer, old_, tables)
    ensures layer.Ready() <==> FirstStyleStays(old_, tables)
    ensures layer.dataPyramid.raster ==>
      (|layer.styles| == |old_.styles| <==>
        forall i :: 0 <= i < |old_.styles| ==> old_.styles[i].id in tables.styles)
  {
    if layer.dataPyramid.raster {
      assert CopiesStyles(layer.styles, old_.styles, tables);
      if |layer.styles| == |old_.styles| {
        forall i | 0 <= i < |old_.styles| ensures old_.styles[i].id in tables.styles {
          assert Registered(layer.styles[i], old_.styles[i], tables);
        }
      }
      if |layer.styles| > 0 {
        assert Registered(layer.styles[0], old_.styles[0], tables);
      }
    }
  }

  ghost predicate FirstStyleStays(old_: Layer, tables: Tables) {
    old_.Ready() && (old_.dataPyramid.raster ==> old_.styles[0].id in tables.styles)
  }

  /** No layer that is only copied has lost its first style. */
  ghost predicate FirstStylesStay(p: Pass) {
    forall id :: id in p.dir && !ReadAgain(id, p) ==> FirstStyleStays(p.olds[id], p.tables)
  }

  /** The next reload can copy every layer exactly when no copied layer has lost its first style. */
  lemma NextReloadIff(layers: Layers, p: Pass)
    requires ReadyLayers(p.olds) && AfterReload(layers, p)
    ensures ReadyLayers(layers) <==> FirstStylesStay(p)
  {
    forall id | id in p.dir
      ensures id in layers ==> layers[id].id == id
      ensures !ReadAgain(id, p) ==> id in layers && (layers[id].Ready() <==> FirstStyleStays(p.olds[id], p.tables))
      ensures ReadAgain(id, p) && id in layers ==> layers[id].Ready()
    {
      assert Reloaded(Lookup(layers, id), id, p);
      if !ReadAgain(id, p) {
        CopyIsReadyIff(layers[id], p.olds[id], p.tables);
      }
    }
  }

  /** One successful reload after another: each works on the layers that the last one left. */
  ghost predicate Reloads(passes: seq<Pass>, last: Layers) {
    && (forall i :: 0 <= i < |passes| - 1 ==> AfterReload(passes[i + 1].olds, passes[i]))
    && (passes != [] ==> AfterReload(last, passes[|passes| - 1]))
  }

  /**
   * Over any run of reloads, every server has only layers that can be copied if and only if no
   * reload of the run copies a layer that has lost its first style.
   */
  lemma {:induction false} RunKeepsReadyIff(passes: seq<Pass>, last: Layers)
    requires passes != [] && Reloads(passes, last) && ReadyLayers(passes[0].olds)
    ensures (forall i :: 0 <= i < |passes| ==> ReadyLayers(passes[i].olds)) && ReadyLayers(last)
      <==> forall i :: 0 <= i < |passes| ==> FirstStylesStay(passes[i])
  {
    var next := if |passes| == 1 then last else passes[1].olds;
    NextReloadIff(next, passes[0]);
    if |passes| > 1 && ReadyLayers(next) {
      var rest := passes[1..];
      RunKeepsReadyIff(rest, last);
      assert forall i :: 1 <= i < |passes| ==> passes[i] == rest[i - 1];
    }
  }

  // ----- a copied layer against a full load -----

  function Names(styles: seq<Style>): (names: seq<string>)
    ensures |names| == |styles|
  {
    seq(|styles|, i requires 0 <= i < |styles| => styles[i].id)
  }

  /** The list of styles of a layer file names the same styles as before. */
  ghost predicate SameStyles(texts: seq<Option<string>>, inspire: bool, olds: Tables, news: Tables) {
    && StylesOf(texts, inspire, olds).Some? && StylesOf(texts, inspire, news).Some?
    && Names(StylesOf(texts, inspire, olds).value) == Names(StylesOf(texts, inspire, news).value)
  }

  /** Copies of all styles are the registered ones of the same names. */
  lemma CopiesOfAll(copies: seq<Style>, old_: seq<Style>, styles: seq<Style>, tables: Tables)
    requires tables.Keyed() && CopiesStyles(copies, old_, tables) && AllRegistered(styles, tables)
    ensures |copies| == |old_| && copies == styles <==> Names(old_) == Names(styles)
  {
    forall j | 0 <= j < |copies|
      ensures copies[j].id == old_[j].id
    {
      assert Registered(copies[j], old_[j], tables);
    }
    if Names(old_) == Names(styles) {
      forall j | 0 <= j < |old_|
        ensures old_[j].id == styles[j].id && old_[j].id in tables.styles
      {
        assert Names(old_)[j] == Names(styles)[j];
      }
      forall j | 0 <= j < |copies|
        ensures copies[j] == styles[j]
      {
        assert Registered(copies[j], old_[j], tables);
      }
    }
    if |copies| == |old_| && copies == styles {
      assert Names(old_) == Names(styles);
    }
  }

  /**
   * A layer made from files that have not changed since is, once copied, the layer that a full load
   * makes from them if and only if the list of styles still names the same styles. The public
   * identifier of a style, an element the style file must have, is not empty.
   */
  lemma CopyIsFullLoadIff(layer: Layer, old_: Layer, text: LayerText, pyramids: PyramidFiles, inspire: bool,
                          olds: Tables, news: Tables)
    requires olds.Keyed() && news.Keyed() && CopyOf(layer, old_, news)
    requires HasPyramid(Some(text), pyramids) && BuiltFrom(old_, text, pyramids, inspire, olds)
    requires forall id :: id in news.styles ==> news.styles[id].identifier != ""
    ensures BuiltFrom(layer, text, pyramids, inspire, news)
      <==> (layer.dataPyramid.raster ==> SameStyles(text.styles, inspire, olds, news))
  {
    if layer.dataPyramid.raster {
      var found := StylesOf(text.styles, inspire, news);
      if found.Some? {
        StylesOfAreRegistered(text.styles, inspire, news);
        CopiesOfAll(layer.styles, old_.styles, found.value, news);
        if |layer.styles| > 0 {
          assert Registered(layer.styles[0], old_.styles[0], news);
        }
      }
    }
  }
}
