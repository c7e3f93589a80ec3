/** Pairing of LAYERS and STYLES in `getMapParamWMS`. */
module MapStyles {
  import opened FieldLists
  import opened Options

  datatype Style = Style(id: string, identifier: string)

  datatype Layer = Layer(id: string, wmsAuthorized: bool, styles: seq<Style>, defaultStyle: string)

  datatype Error = MissingLayers | TooManyLayers | UnknownLayer | MissingStyles | IncompleteStyles | UndefinedStyle

  datatype Result<T> = Ok(value: T) | Err(error: Error)

  // ----- LAYERS -----

  method SelectLayers(layersParam: string, layerLimit: nat, catalogue: map<string, Layer>)
    returns (r: Result<seq<Layer>>)
    ensures var names := Split(layersParam, ',');
            && (r.Ok? <==>
                  && layersParam != "" && |names| <= layerLimit
                  && forall k :: 0 <= k < |names| ==>
                       !ContainsForbiddenChars(names[k]) && names[k] in catalogue && catalogue[names[k]].wmsAuthorized)
            && (r.Ok? ==> |r.value| == |names| >= 1 && forall k :: 0 <= k < |names| ==> r.value[k] == catalogue[names[k]])
            && (r == Err(MissingLayers) <==> layersParam == "")
            && (r == Err(TooManyLayers) <==> layersParam != "" && |names| > layerLimit)
  {
    if layersParam == "" { return Err(MissingLayers); }
    var names := SplitFields(layersParam, ',');
    if |names| > layerLimit { return Err(TooManyLayers); }
    var layers := [];
    for i := 0 to |names|
      invariant |layers| == i
      invariant forall k :: 0 <= k < i ==>
                  && !ContainsForbiddenChars(names[k])
                  && names[k] in catalogue && catalogue[names[k]].wmsAuthorized && layers[k] == catalogue[names[k]]
    {
      if ContainsForbiddenChars(names[i]) { return Err(UnknownLayer); }
      if names[i] !in catalogue || !catalogue[names[i]].wmsAuthorized { return Err(UnknownLayer); }
      layers := layers + [catalogue[names[i]]];
    }
    r := Ok(layers);
  }

  // ----- STYLES -----

  /** `Layer::getStyleByIdentifier`: the first style of the layer with that identifier. */
  method StyleByIdentifier(l: Layer, identifier: string) returns (s: Option<Style>)
    ensures s.None? <==> forall k :: 0 <= k < |l.styles| ==> l.styles[k].identifier != identifier
    ensures s.Some? ==> s.value.identifier == identifier
    ensures s.Some? ==>
              exists k :: && 0 <= k < |l.styles| && l.styles[k] == s.value
                          && forall j :: 0 <= j < k ==> l.styles[j].identifier != identifier
  {
    for i := 0 to |l.styles|
      invariant forall k :: 0 <= k < i ==> l.styles[k].identifier != identifier
    {
      if l.styles[i].identifier == identifier { return Some(l.styles[i]); }
    }
    s := None;
  }

  predicate Offers(l: Layer, identifier: string) {
    exists k :: 0 <= k < |l.styles| && l.styles[k].identifier == identifier
  }

  predicate IsChoice(l: Layer, identifier: string, s: Style) {
    exists k :: 0 <= k < |l.styles| && l.styles[k] == s && s.identifier == identifier
      && forall j :: 0 <= j < k ==> l.styles[j].identifier != identifier
  }

  function Defaults(layers: seq<Layer>): (d: seq<string>)
    ensures |d| == |layers|
  {
    seq(|layers|, i requires 0 <= i < |layers| => layers[i].defaultStyle)
  }

  function StyleNames(stylesParam: string, layers: seq<Layer>): seq<string> {
    Split(if stylesParam == "" then Join(Defaults(layers), ',') else stylesParam, ',')
  }

  /** An empty name stands for the layer's default. */
  function Wanted(name: string, l: Layer): string { if name == "" then l.defaultStyle else name }

  predicate Acceptable(name: string, l: Layer) {
    !ContainsForbiddenChars(Wanted(name, l)) && Offers(l, Wanted(name, l))
  }

  /** The text of STYLES, or the layers' defaults joined with commas. */
  method ExpandStyles(stylesParam: string, layers: seq<Layer>) returns (strStyles: string)
    requires |layers| >= 1
    ensures strStyles == if stylesParam == "" then Join(Defaults(layers), ',') else stylesParam
  {
    strStyles := stylesParam;
    if strStyles == "" {
      strStyles := layers[0].defaultStyle;
      ghost var d := Defaults(layers);
      assert d[..1] == [d[0]];
      for i := 1 to |layers|
        invariant strStyles == Join(d[..i], ',')
      {
        JoinPrefix(d, i, ',');
        strStyles := strStyles + "," + layers[i].defaultStyle;
      }
      assert d[..|layers|] == d;
    }
  }

  /** One style for each layer, each belonging to its layer. */
  method PairStyles(names: seq<string>, layers: seq<Layer>) returns (r: Result<seq<Style>>)
    ensures r == Err(IncompleteStyles) <==> |names| != |layers|
    ensures r.Ok? <==> |names| == |layers| && forall k :: 0 <= k < |layers| ==> Acceptable(names[k], layers[k])
    ensures r.Ok? ==> |r.value| == |layers| && forall k :: 0 <= k < |layers| ==>
              IsChoice(layers[k], Wanted(names[k], layers[k]), r.value[k])
    ensures r.Err? ==> r.error in {IncompleteStyles, UndefinedStyle}
  {
    if |names| != |layers| { return Err(IncompleteStyles); }
    var styles := [];
    for k := 0 to |names|
      invariant |styles| == k
      invariant forall i :: 0 <= i < k ==> Acceptable(names[i], layers[i])
      invariant forall i :: 0 <= i < k ==> IsChoice(layers[i], Wanted(names[i], layers[i]), styles[i])
    {
      var name := if names[k] == "" then layers[k].defaultStyle else names[k];
      assert name == Wanted(names[k], layers[k]);
      if ContainsForbiddenChars(name) { return Err(UndefinedStyle); }
      var s := StyleByIdentifier(layers[k], name);
      if s.None? { return Err(UndefinedStyle); }
      styles := styles + [s.value];
    }
    r := Ok(styles);
  }

  /**
   * Each layer gets its first style of the name given for it, or of its default when that name is empty;
   * a name with a forbidden character or that the layer does not have is an error.
   */
  method SelectStyles(stylesParam: Option<string>, layers: seq<Layer>) returns (r: Result<seq<Style>>)
    requires |layers| >= 1
    ensures r == Err(MissingStyles) <==> stylesParam.None?
    ensures stylesParam.Some? ==>
              var names := StyleNames(stylesParam.value, layers);
              && (r == Err(IncompleteStyles) <==> |names| != |layers|)
              && (r.Ok? <==> |names| == |layers| && forall k :: 0 <= k < |layers| ==>
                    var name := if names[k] == "" then layers[k].defaultStyle else names[k];
                    !ContainsForbiddenChars(name) && exists s :: s in layers[k].styles && s.identifier == name)
              && (r.Ok? ==> |r.value| == |layers| && forall k :: 0 <= k < |layers| ==>
                    var name := if names[k] == "" then layers[k].defaultStyle else names[k];
                    && r.value[k].identifier == name
                    && exists i :: && 0 <= i < |layers[k].styles| && layers[k].styles[i] == r.value[k]
                                   && forall j :: 0 <= j < i ==> layers[k].styles[j].identifier != name)
  {
    if stylesParam.None? { return Err(MissingStyles); }
    var strStyles := ExpandStyles(stylesParam.value, layers);
    var names := SplitFields(strStyles, ',');
    r := PairStyles(names, layers);
    if r.Ok? {
      forall k | 0 <= k < |layers|
        ensures r.value[k].identifier == Wanted(names[k], layers[k])
        ensures exists i :: && 0 <= i < |layers[k].styles| && layers[k].styles[i] == r.value[k]
                            && forall j :: 0 <= j < i ==> layers[k].styles[j].identifier != Wanted(names[k], layers[k])
      {
        assert IsChoice(layers[k], Wanted(names[k], layers[k]), r.value[k]);
      }
    }
  }

  /**
   * An empty STYLES is expanded to the joined defaults and split again. The defaults come back
   * exactly when none contains a comma and the last one is not empty.
   */
  lemma EmptyStylesNamesDefaults(layers: seq<Layer>)
    requires |layers| >= 1
    ensures StyleNames("", layers) == Defaults(layers)
       <==> (forall k :: 0 <= k < |layers| ==> ',' !in layers[k].defaultStyle) && layers[|layers| - 1].defaultStyle != ""
  {
    SplitJoin(Defaults(layers), ',');
    var d := Defaults(layers);
    assert forall k :: 0 <= k < |layers| ==> d[k] == layers[k].defaultStyle;
  }

  /** A trailing empty name is lost, so a request whose list ends with a comma is one style short. */
  lemma TrailingEmptyStyleIsLost(names: seq<string>, layers: seq<Layer>)
    requires |names| == |layers| >= 2 && FreeOf(names, ',') && names[|names| - 1] == ""
    ensures |StyleNames(Join(names, ','), layers)| == |layers| - 1
  {
    AllFieldsJoin(names, ',');
    SplitDropsLastEmpty(Join(names, ','), ',');
  }
}
