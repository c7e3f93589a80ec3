/**
 * From the parameters and the path of a request to the operation that answers it
 * (`Request::determineServiceAndRequest`), and the second reading of a TMS path by the operations
 * (`getTileParamTMS`, `getLayerParamTMS`).
 */
module Routing {
  import opened FieldLists
  import opened Options

  type Params = map<string, string>

  datatype ServiceType = ServiceMissing | ServiceUnknown | WMS | WMTS | TMS

  datatype RequestType =
    | RequestMissing | RequestUnknown
    | GetServices | GetCapabilities | GetLayer | GetLayerMetadata | GetTile | GetMap | GetFeatureInfo | GetVersion

  const VERSION := "1.0.0"

  // ----- the parts of a path -----

  /** The last place of `v`, or -1. */
  function LastIndex(parts: seq<string>, v: string): (pos: int)
    ensures -1 <= pos < |parts| && (pos >= 0 ==> parts[pos] == v)
    ensures forall j :: pos < j < |parts| ==> parts[j] != v
  {
    if parts == [] then -1
    else if parts[|parts| - 1] == v then |parts| - 1
    else LastIndex(parts[..|parts| - 1], v)
  }

  lemma LastIndexIs(parts: seq<string>, v: string, pos: nat)
    requires pos < |parts| && parts[pos] == v
    requires forall j :: pos < j < |parts| ==> parts[j] != v
    ensures LastIndex(parts, v) == pos
  {
  }

  lemma LastIndexStep(parts: seq<string>, v: string, token: string)
    ensures LastIndex(parts + [token], v) == if token == v then |parts| else LastIndex(parts, v)
  {
    assert (parts + [token])[..|parts|] == parts;
  }

  /** The loop with which every reader of a path begins. */
  method ReadPath(path: string) returns (pathParts: seq<string>, tmsVersionPos: int)
    ensures pathParts == Split(path, '/') && tmsVersionPos == LastIndex(pathParts, VERSION)
  {
    pathParts, tmsVersionPos := [], -1;
    var pos := 0;
    assert path[0..] == path;
    while pos < |path|
      invariant 0 <= pos <= |path|
      invariant pathParts + Split(path[pos..], '/') == Split(path, '/')
      invariant tmsVersionPos == LastIndex(pathParts, VERSION)
    {
      var token;
      token, pos := GetField(path, '/', pos);
      MoveOver(pathParts, token, Split(path[pos..], '/'));
      LastIndexStep(pathParts, VERSION, token);
      if token == VERSION {
        tmsVersionPos := |pathParts|;
      }
      pathParts := pathParts + [token];
    }
  }

  // ----- classification -----

  function ToLower(c: char): char {
    if 'A' <= c <= 'Z' then c - 'A' + 'a' else c
  }

  function Lower(s: string): string { seq(|s|, i requires 0 <= i < |s| => ToLower(s[i])) }

  function ServiceOf(params: Params): ServiceType {
    if "service" !in params then (if params == map[] then TMS else ServiceMissing)
    else
      var service := Lower(params["service"]);
      if service == "wms" then WMS
      else if service == "wmts" then WMTS
      else if service == "" then ServiceMissing
      else ServiceUnknown
  }

  /** A TMS path is told apart by how much follows the version. */
  function TmsRequestOf(parts: seq<string>): RequestType {
    var pos := LastIndex(parts, VERSION);
    if pos == -1 then GetServices
    else if pos == |parts| - 1 then GetCapabilities
    else if pos == |parts| - 2 then GetLayer
    else if pos == |parts| - 3 && parts[|parts| - 1] == "metadata.json" then GetLayerMetadata
    else if pos == |parts| - 5 then GetTile
    else RequestUnknown
  }

  function NamedRequestOf(request: string, service: ServiceType): (ServiceType, RequestType) {
    if request == "getmap" || request == "map" then
      if service == ServiceMissing || service == WMS then (WMS, GetMap) else (service, RequestUnknown)
    else if request == "gettile" then
      (service, if service == WMTS then GetTile else RequestUnknown)
    else if request == "getfeatureinfo" then
      (service, if service == WMS || service == WMTS then GetFeatureInfo else RequestUnknown)
    else if request == "getcapabilities" || request == "capabilities" then
      (service, if service == WMS || service == WMTS then GetCapabilities else RequestUnknown)
    else if request == "getversion" then
      (service, if service == WMS || service == WMTS then GetVersion else RequestUnknown)
    else (service, if request == "" then RequestMissing else RequestUnknown)
  }

  function Classify(params: Params, path: string): (ServiceType, RequestType) {
    var service := ServiceOf(params);
    if "request" in params then NamedRequestOf(Lower(params["request"]), service)
    else if service == TMS then (service, TmsRequestOf(Split(path, '/')))
    else (service, RequestMissing)
  }

  class Request {
    const scheme: string
    const hostName: string
    const path: string
    const params: Params
    var service: ServiceType
    var request: RequestType

    constructor (scheme: string, hostName: string, path: string, params: Params)
      ensures this.scheme == scheme && this.hostName == hostName && this.path == path && this.params == params
      ensures (service, request) == Classify(params, path)
    {
      this.scheme, this.hostName, this.path, this.params := scheme, hostName, path, params;
      service, request := ServiceMissing, RequestMissing;
      new;
      DetermineServiceAndRequest();
    }

    method DetermineServiceAndRequest()
      requires service == ServiceMissing && request == RequestMissing
      modifies this
      ensures (service, request) == Classify(params, path)
    {
      DetermineService();
      if "request" !in params {
        if params == map[] && service == TMS {
          DetermineTmsRequest();
        }
      } else {
        DetermineNamedRequest(Lower(params["request"]));
      }
    }

    method DetermineService()
      requires service == ServiceMissing
      modifies `service
      ensures service == ServiceOf(params)
    {
      if "service" !in params {
        if params == map[] {
          service := TMS;
        }
      } else {
        var name := Lower(params["service"]);
        if name == "wms" {
          service := WMS;
        } else if name == "wmts" {
          service := WMTS;
        } else if name != "" {
          service := ServiceUnknown;
        }
      }
    }

    method DetermineTmsRequest()
      modifies `request
      ensures request == TmsRequestOf(Split(path, '/'))
    {
      var pathParts, tmsVersionPos := ReadPath(path);
      if tmsVersionPos == -1 {
        request := GetServices;
      } else if tmsVersionPos == |pathParts| - 1 {
        request := GetCapabilities;
      } else if tmsVersionPos == |pathParts| - 2 {
        request := GetLayer;
      } else if tmsVersionPos == |pathParts| - 3 && pathParts[|pathParts| - 1] == "metadata.json" {
        request := GetLayerMetadata;
      } else if tmsVersionPos == |pathParts| - 5 {
        request := GetTile;
      } else {
        request := RequestUnknown;
      }
    }

    method DetermineNamedRequest(name: string)
      requires request == RequestMissing
      modifies `service, `request
      ensures (service, request) == old(NamedRequestOf(name, service))
    {
      if name == "getmap" || name == "map" {
        if service == ServiceMissing || service == WMS {
          service := WMS;
          request := GetMap;
        } else {
          request := RequestUnknown;
        }
      } else if name == "gettile" {
        request := if service != WMTS then RequestUnknown else GetTile;
      } else if name == "getfeatureinfo" {
        request := if service != WMS && service != WMTS then RequestUnknown else GetFeatureInfo;
      } else if name == "getcapabilities" || name == "capabilities" {
        request := if service != WMTS && service != WMS then RequestUnknown else GetCapabilities;
      } else if name == "getversion" {
        request := if service != WMTS && service != WMS then RequestUnknown else GetVersion;
      } else if name != "" {
        request := RequestUnknown;
      }
    }
  }

  // ----- which request is which -----

  /** `text` is `name`, which is in small letters, in any mix of cases. */
  predicate Spells(text: string, name: string) {
    && |text| == |name|
    && forall i :: 0 <= i < |name| ==>
      text[i] == name[i] || ('a' <= name[i] <= 'z' && text[i] as int == name[i] as int - 32)
  }

  predicate NoCapitals(name: string) { forall i :: 0 <= i < |name| ==> !('A' <= name[i] <= 'Z') }

  lemma LowerIsIff(text: string, name: string)
    requires NoCapitals(name)
    ensures Lower(text) == name <==> Spells(text, name)
  {
    if Spells(text, name) {
      forall i | 0 <= i < |name| ensures Lower(text)[i] == name[i] {
      }
    }
  }

  /** The parameter is there and spells `name`. */
  predicate Says(params: Params, key: string, name: string) { key in params && Spells(params[key], name) }

  lemma SaysIsLower(params: Params, key: string, name: string)
    requires NoCapitals(name)
    ensures Says(params, key, name) <==> key in params && Lower(params[key]) == name
  {
    if key in params {
      LowerIsIff(params[key], name);
    }
  }

  /** There are parameters, but none that tells the service. */
  predicate NoService(params: Params) {
    params != map[] && ("service" in params ==> params["service"] == "")
  }

  /** The service, read off the texts of the parameters. */
  lemma ServiceIs(params: Params)
    ensures ServiceOf(params) == WMS <==> Says(params, "service", "wms")
    ensures ServiceOf(params) == WMTS <==> Says(params, "service", "wmts")
    ensures ServiceOf(params) == TMS <==> params == map[]
    ensures ServiceOf(params) == ServiceMissing <==> NoService(params)
  {
    SaysIsLower(params, "service", "wms");
    SaysIsLower(params, "service", "wmts");
    SaysIsLower(params, "service", "");
  }

  predicate AsksForMap(params: Params) { Says(params, "request", "getmap") || Says(params, "request", "map") }

  predicate AsksForCapabilities(params: Params) {
    Says(params, "request", "getcapabilities") || Says(params, "request", "capabilities")
  }

  /**
   * A request for a map is one of WMS even when it does not name the service; any other request is
   * one of the service that it names.
   */
  lemma ClassifiedService(params: Params, path: string)
    ensures Classify(params, path).0 == WMS
      <==> Says(params, "service", "wms") || (NoService(params) && AsksForMap(params))
    ensures Classify(params, path).0 == WMTS <==> Says(params, "service", "wmts")
    ensures Classify(params, path).0 == TMS <==> params == map[]
  {
    ServiceIs(params);
    SaysIsLower(params, "request", "getmap");
    SaysIsLower(params, "request", "map");
  }

  /** Each kind of request with parameters, read off their texts in any mix of cases. */
  lemma ClassifiedRequest(params: Params, path: string)
    requires params != map[]
    ensures Classify(params, path) == (WMS, GetMap)
      <==> AsksForMap(params) && (Says(params, "service", "wms") || NoService(params))
    ensures Classify(params, path) == (WMTS, GetTile)
      <==> Says(params, "request", "gettile") && Says(params, "service", "wmts")
    ensures Classify(params, path).1 == RequestMissing
      <==> "request" !in params || params["request"] == ""
  {
    ServiceIs(params);
    SaysIsLower(params, "request", "getmap");
    SaysIsLower(params, "request", "map");
    SaysIsLower(params, "request", "gettile");
    SaysIsLower(params, "request", "");
  }

  lemma ClassifiedSharedRequest(params: Params, path: string)
    requires params != map[]
    ensures Classify(params, path) == (WMS, GetFeatureInfo)
      <==> Says(params, "request", "getfeatureinfo") && Says(params, "service", "wms")
    ensures Classify(params, path) == (WMTS, GetFeatureInfo)
      <==> Says(params, "request", "getfeatureinfo") && Says(params, "service", "wmts")
    ensures Classify(params, path) == (WMS, GetVersion)
      <==> Says(params, "request", "getversion") && Says(params, "service", "wms")
    ensures Classify(params, path) == (WMTS, GetVersion)
      <==> Says(params, "request", "getversion") && Says(params, "service", "wmts")
  {
    ServiceIs(params);
    SaysIsLower(params, "request", "getfeatureinfo");
    SaysIsLower(params, "request", "getversion");
  }

  lemma ClassifiedCapabilities(params: Params, path: string)
    requires params != map[]
    ensures Classify(params, path) == (WMS, GetCapabilities)
      <==> AsksForCapabilities(params) && Says(params, "service", "wms")
    ensures Classify(params, path) == (WMTS, GetCapabilities)
      <==> AsksForCapabilities(params) && Says(params, "service", "wmts")
  {
    ServiceIs(params);
    SaysIsLower(params, "request", "getcapabilities");
    SaysIsLower(params, "request", "capabilities");
  }

  /** Each kind of TMS request, read off what stands before and after the last version of the path. */
  lemma ClassifiedPath(path: string, prefix: seq<string>, suffix: seq<string>)
    ensures "1.0.0" !in Split(path, '/') ==> Classify(map[], path) == (TMS, GetServices)
    ensures Split(path, '/') == prefix + ["1.0.0"] + suffix && "1.0.0" !in suffix ==>
      Classify(map[], path) == (TMS,
        match |suffix|
        case 0 => GetCapabilities
        case 1 => GetLayer
        case 2 => if suffix[1] == "metadata.json" then GetLayerMetadata else RequestUnknown
        case 4 => GetTile
        case _ => RequestUnknown)
  {
    var parts := Split(path, '/');
    if parts == prefix + ["1.0.0"] + suffix && "1.0.0" !in suffix {
      assert parts[|prefix|] == VERSION && forall i :: 0 <= i < |suffix| ==> parts[|prefix| + 1 + i] == suffix[i];
      LastIndexIs(parts, VERSION, |prefix|);
    }
  }

  // ----- classification against dispatch -----

  /** The requests for which `processWMTS`, `processWMS` and `processTMS` have a branch of their own. */
  predicate Handles(service: ServiceType, request: RequestType) {
    match service
    case WMTS => request in {GetCapabilities, GetTile, GetFeatureInfo, GetVersion}
    case WMS => request in {GetCapabilities, GetMap, GetFeatureInfo, GetVersion}
    case TMS => request in {GetCapabilities, GetServices, GetTile, GetLayer, GetLayerMetadata}
    case ServiceMissing => false
    case ServiceUnknown => false
  }

  /** A recognised request always comes with a service that handles it. */
  lemma RecognisedIsHandled(params: Params, path: string)
    ensures var (service, request) := Classify(params, path);
      request != RequestMissing && request != RequestUnknown ==> Handles(service, request)
    ensures Classify(params, path).0 == TMS ==> Classify(params, path).1 != RequestMissing
    ensures Classify(params, path).0 == TMS <==> params == map[]
  {
  }

  ghost predicate Occurs(service: ServiceType, request: RequestType) {
    exists params, path :: Classify(params, path) == (service, request)
  }

  function TmsPathOf(request: RequestType): (parts: seq<string>)
    ensures parts != [] && FreeOf(parts, '/') && parts[|parts| - 1] != ""
  {
    match request
    case GetCapabilities => [VERSION]
    case GetLayer => [VERSION, "l"]
    case GetLayerMetadata => [VERSION, "l", "metadata.json"]
    case GetTile => [VERSION, "l", "0", "0", "0.png"]
    case _ => ["t"]
  }

  lemma TmsOccurs(request: RequestType)
    requires Handles(TMS, request)
    ensures TmsRequestOf(TmsPathOf(request)) == request
  {
    var parts := TmsPathOf(request);
    if request == GetServices {
      assert parts[..0] == [];
    } else {
      LastIndexIs(parts, VERSION, 0);
    }
  }

  function NameOf(request: RequestType): string {
    match request
    case GetCapabilities => "getcapabilities"
    case GetTile => "gettile"
    case GetMap => "getmap"
    case GetFeatureInfo => "getfeatureinfo"
    case GetVersion => "getversion"
    case _ => ""
  }

  lemma LowerNames(service: string, request: RequestType)
    requires service == "wms" || service == "wmts"
    ensures Lower(service) == service && Lower(NameOf(request)) == NameOf(request)
  {
  }

  lemma NamedOccurs(service: ServiceType, request: RequestType)
    requires (service == WMS || service == WMTS) && Handles(service, request)
    ensures NamedRequestOf(NameOf(request), service) == (service, request)
  {
  }

  /** Every request that a service handles can be made. */
  lemma HandledOccurs(service: ServiceType, request: RequestType)
    requires Handles(service, request)
    ensures Occurs(service, request)
  {
    if service == TMS {
      TmsOccurs(request);
      SplitJoin(TmsPathOf(request), '/');
      assert Classify(map[], Join(TmsPathOf(request), '/')) == (service, request);
    } else {
      var name := if service == WMS then "wms" else "wmts";
      LowerNames(name, request);
      NamedOccurs(service, request);
      var params := map["service" := name, "request" := NameOf(request)];
      assert Classify(params, "") == (service, request);
    }
  }

  // ----- the numbers of a path -----

  predicate IsSpace(c: char) { c == ' ' || '\t' <= c <= '\r' }

  predicate IsDigit(c: char) { '0' <= c <= '9' }

  function DigitOf(c: char): int { c as int - '0' as int }

  function Accumulate(s: string, acc: int): int {
    if s == "" || !IsDigit(s[0]) then acc else Accumulate(s[1..], 10 * acc + DigitOf(s[0]))
  }

  function ScanDigits(s: string): Option<int> {
    if s == "" || !IsDigit(s[0]) then None else Some(Accumulate(s, 0))
  }

  /** `sscanf` with `%d`: leading blanks, a sign and digits; what follows is not looked at. */
  function ScanInt(s: string): Option<int> {
    if s == "" then None
    else if IsSpace(s[0]) then ScanInt(s[1..])
    else if s[0] == '+' then ScanDigits(s[1..])
    else if s[0] == '-' then (var n := ScanDigits(s[1..]); if n.Some? then Some(-n.value) else None)
    else ScanDigits(s)
  }

  function Digit(n: nat): (c: char)
    requires n < 10
    ensures IsDigit(c) && DigitOf(c) == n
  {
    (n + '0' as int) as char
  }

  /** `n` as it is written in a link. */
  function Decimal(n: nat): (s: string)
    ensures s != "" && forall i :: 0 <= i < |s| ==> IsDigit(s[i])
  {
    if n < 10 then [Digit(n)] else Decimal(n / 10) + [Digit(n % 10)]
  }

  lemma {:induction false} AccumulateStep(s: string, digit: char, acc: int)
    requires IsDigit(digit) && forall i :: 0 <= i < |s| ==> IsDigit(s[i])
    ensures Accumulate(s + [digit], acc) == 10 * Accumulate(s, acc) + DigitOf(digit)
  {
    if s == "" {
      assert ([digit])[1..] == "";
    } else {
      assert (s + [digit])[1..] == s[1..] + [digit];
      AccumulateStep(s[1..], digit, 10 * acc + DigitOf(s[0]));
    }
  }

  lemma {:induction false} DecimalReadsBack(n: nat)
    ensures ScanInt(Decimal(n)) == Some(n)
  {
    if n < 10 {
      var s := Decimal(n);
      assert s == [Digit(n)] && s[1..] == "";
      assert Accumulate(s[1..], DigitOf(s[0])) == n;
    } else {
      DecimalReadsBack(n / 10);
      AccumulateStep(Decimal(n / 10), Digit(n % 10), 0);
    }
  }

  const BLANKS := {' ', '\t', '\n', '\U{B}', '\U{C}', '\r'}

  predicate AllDigits(s: string) { forall i :: 0 <= i < |s| ==> '0' <= s[i] <= '9' }

  predicate StartsWithDigit(s: string) { s != "" && '0' <= s[0] <= '9' }

  lemma {:induction false} BlanksAreSkipped(blanks: string, s: string)
    requires forall i :: 0 <= i < |blanks| ==> blanks[i] in BLANKS
    ensures ScanInt(blanks + s) == ScanInt(s)
  {
    if blanks == "" {
      assert blanks + s == s;
    } else {
      assert (blanks + s)[1..] == blanks[1..] + s;
      BlanksAreSkipped(blanks[1..], s);
    }
  }

  lemma {:induction false} AccumulateStops(digits: string, rest: string, acc: int)
    requires AllDigits(digits) && !StartsWithDigit(rest)
    ensures Accumulate(digits + rest, acc) == Accumulate(digits, acc)
  {
    if digits == "" {
      assert digits + rest == rest;
    } else {
      assert (digits + rest)[1..] == digits[1..] + rest;
      AccumulateStops(digits[1..], rest, 10 * acc + DigitOf(digits[0]));
    }
  }

  lemma {:induction false} ZerosDoNotCount(zeros: string, s: string)
    requires forall i :: 0 <= i < |zeros| ==> zeros[i] == '0'
    ensures Accumulate(zeros + s, 0) == Accumulate(s, 0)
  {
    if zeros == "" {
      assert zeros + s == s;
    } else {
      assert (zeros + s)[1..] == zeros[1..] + s;
      ZerosDoNotCount(zeros[1..], s);
    }
  }

  lemma DigitsAreRead(zeros: string, n: nat, rest: string)
    requires (forall i :: 0 <= i < |zeros| ==> zeros[i] == '0') && !StartsWithDigit(rest)
    ensures ScanDigits(zeros + Decimal(n) + rest) == Some(n) && StartsWithDigit(zeros + Decimal(n) + rest)
  {
    AccumulateStops(zeros + Decimal(n), rest, 0);
    ZerosDoNotCount(zeros, Decimal(n));
    DecimalReadsBack(n);
    assert (zeros + Decimal(n) + rest)[0] == (zeros + Decimal(n))[0];
  }

  lemma SignIsRead(sign: string, s: string, n: int)
    requires sign in {"", "+", "-"} && StartsWithDigit(s) && ScanDigits(s) == Some(n)
    ensures ScanInt(sign + s) == Some(if sign == "-" then -n else n)
  {
    if sign == "" {
      assert sign + s == s;
    } else {
      assert (sign + s)[1..] == s;
    }
  }

  /** Leading blanks, a sign and zeros before a number are read over, as is all that follows it. */
  lemma NumberIsRead(blanks: string, sign: string, zeros: string, n: nat, rest: string)
    requires forall i :: 0 <= i < |blanks| ==> blanks[i] in BLANKS
    requires sign in {"", "+", "-"} && (forall i :: 0 <= i < |zeros| ==> zeros[i] == '0') && !StartsWithDigit(rest)
    ensures var read := ScanInt(blanks + (sign + (zeros + Decimal(n) + rest)));
      read.Some? && (sign == "-" ==> -read.value == n) && (sign != "-" ==> read.value == n)
  {
    DigitsAreRead(zeros, n, rest);
    BlanksAreSkipped(blanks, sign + (zeros + Decimal(n) + rest));
    SignIsRead(sign, zeros + Decimal(n) + rest, n);
  }

  /** Without a digit there is no number. */
  lemma NothingIsRead(blanks: string, sign: string, rest: string)
    requires forall i :: 0 <= i < |blanks| ==> blanks[i] in BLANKS
    requires sign in {"", "+", "-"} && !StartsWithDigit(rest)
    requires sign == "" && rest != "" ==> rest[0] !in BLANKS + {'+', '-'}
    ensures ScanInt(blanks + (sign + rest)) == None
  {
    BlanksAreSkipped(blanks, sign + rest);
    if sign == "" {
      assert sign + rest == rest;
    } else {
      assert (sign + rest)[1..] == rest;
    }
  }

  // ----- the operations read the path again -----

  /** `defaultStyle` is what `getDefaultStyle` gives: the public identifier of the layer's first style. */
  datatype LayerInfo = LayerInfo(tmsAuthorized: bool, matrices: set<string>, extension: string, mimeType: string,
                                 defaultStyle: string)

  /** The layers and styles of the server; styles are registered under their internal names. */
  datatype Site = Site(layers: map<string, LayerInfo>, styles: set<string>)

  datatype Part = VersionPart | LayerPart | ZPart | XPart | YPart

  datatype TileAnswer =
    | Absent(part: Part) | UnknownLayer | UnknownMatrix | BadColumn | BadRow | NoExtension | BadExtension
    | Tile(layer: string, matrix: string, col: int, row: int, format: string, style: Option<string>)

  predicate Offered(site: Site, layer: string) {
    !ContainsForbiddenChars(layer) && layer in site.layers && site.layers[layer].tmsAuthorized
  }

  /** Reading past the last field leaves the string empty. */
  function FieldAt(fields: seq<string>, i: nat): string { if i < |fields| then fields[i] else "" }

  /** `getStyle` looks among internal names and finds nothing under another identifier. */
  function StyleFound(site: Site, layer: string): Option<string>
    requires layer in site.layers
  {
    var name := site.layers[layer].defaultStyle;
    if name in site.styles then Some(name) else None
  }

  /** The answer for a tile of an offered layer. */
  function TileIn(site: Site, layer: string, matrix: string, col: int, row: int): TileAnswer
    requires layer in site.layers
  {
    Tile(layer, matrix, col, row, site.layers[layer].mimeType, StyleFound(site, layer))
  }

  function TileAt(site: Site, layer: string, matrix: string, col: string, rowAndExtension: string): TileAnswer {
    var fields := Split(rowAndExtension, '.');
    var extension := FieldAt(fields, 1);
    if !Offered(site, layer) then UnknownLayer
    else if ContainsForbiddenChars(matrix) || matrix !in site.layers[layer].matrices then UnknownMatrix
    else if ScanInt(col).None? then BadColumn
    else if ScanInt(FieldAt(fields, 0)).None? then BadRow
    else if extension == "" then NoExtension
    else if ContainsForbiddenChars(extension) || extension != site.layers[layer].extension then BadExtension
    else TileIn(site, layer, matrix, ScanInt(col).value, ScanInt(FieldAt(fields, 0)).value)
  }

  function TileOf(site: Site, parts: seq<string>): TileAnswer {
    var pos := LastIndex(parts, VERSION);
    if pos == -1 then Absent(VersionPart)
    else if |parts| == pos + 1 then Absent(LayerPart)
    else if |parts| == pos + 2 then Absent(ZPart)
    else if |parts| == pos + 3 then Absent(XPart)
    else if |parts| == pos + 4 then Absent(YPart)
    else TileAt(site, parts[pos + 1], parts[pos + 2], parts[pos + 3], parts[pos + 4])
  }

  /** Every access to the parts is within bounds once the depth is known to suffice. */
  method GetTileParamTMS(site: Site, path: string) returns (answer: TileAnswer)
    ensures answer == TileOf(site, Split(path, '/'))
  {
    var pathParts, tmsVersionPos := ReadPath(path);
    if tmsVersionPos == -1 { return Absent(VersionPart); }
    if tmsVersionPos == |pathParts| - 1 { return Absent(LayerPart); }
    if tmsVersionPos == |pathParts| - 2 { return Absent(ZPart); }
    if tmsVersionPos == |pathParts| - 3 { return Absent(XPart); }
    if tmsVersionPos == |pathParts| - 4 { return Absent(YPart); }
    var layer := pathParts[tmsVersionPos + 1];
    if ContainsForbiddenChars(layer) { return UnknownLayer; }
    if layer !in site.layers || !site.layers[layer].tmsAuthorized { return UnknownLayer; }
    var matrix := pathParts[tmsVersionPos + 2];
    if ContainsForbiddenChars(matrix) { return UnknownMatrix; }
    if matrix !in site.layers[layer].matrices { return UnknownMatrix; }
    var col := ScanInt(pathParts[tmsVersionPos + 3]);
    if col.None? { return BadColumn; }
    var fields := SplitFields(pathParts[tmsVersionPos + 4], '.');
    var row, extension := ScanInt(FieldAt(fields, 0)), FieldAt(fields, 1);
    if row.None? { return BadRow; }
    var wanted := site.layers[layer].defaultStyle;
    var style: Option<string> := if wanted in site.styles then Some(wanted) else None;
    if extension == "" { return NoExtension; }
    if ContainsForbiddenChars(extension) { return BadExtension; }
    if extension != site.layers[layer].extension { return BadExtension; }
    answer := Tile(layer, matrix, col.value, row.value, site.layers[layer].mimeType, style);
  }

  /** How the parts after the last version are read, when there are enough of them. */
  lemma TileOfSuffix(site: Site, prefix: seq<string>, suffix: seq<string>)
    requires "1.0.0" !in suffix
    ensures var answer := TileOf(site, prefix + ["1.0.0"] + suffix);
      if |suffix| < 4 then answer == Absent([LayerPart, ZPart, XPart, YPart][|suffix|])
      else answer == TileAt(site, suffix[0], suffix[1], suffix[2], suffix[3])
  {
    var parts := prefix + [VERSION] + suffix;
    assert parts[|prefix|] == VERSION && forall i :: 0 <= i < |suffix| ==> parts[|prefix| + 1 + i] == suffix[i];
    LastIndexIs(parts, VERSION, |prefix|);
  }

  /** The part after the last version is the layer, and so on; each error is that of the first wrong one. */
  lemma TileAnswerIs(site: Site, prefix: seq<string>, suffix: seq<string>)
    requires "1.0.0" !in suffix && |suffix| >= 4 && Split(suffix[3], '.') != []
    ensures var answer, fields := TileOf(site, prefix + ["1.0.0"] + suffix), Split(suffix[3], '.');
      var layerOk := suffix[0] in site.layers && site.layers[suffix[0]].tmsAuthorized
                     && '<' !in suffix[0] && '>' !in suffix[0];
      var matrixOk := layerOk && suffix[1] in site.layers[suffix[0]].matrices && '<' !in suffix[1] && '>' !in suffix[1];
      var colOk := matrixOk && ScanInt(suffix[2]).Some?;
      var rowOk := colOk && ScanInt(fields[0]).Some?;
      && (answer == UnknownLayer <==> !layerOk)
      && (answer == UnknownMatrix <==> layerOk && !matrixOk)
      && (answer == BadColumn <==> matrixOk && !colOk)
      && (answer == BadRow <==> colOk && !rowOk)
      && (answer == NoExtension <==> rowOk && (|fields| == 1 || fields[1] == ""))
      && (answer.Tile? ==>
            && rowOk && |fields| > 1 && fields[1] == site.layers[suffix[0]].extension
            && answer.layer == suffix[0] && answer.matrix == suffix[1]
            && Some(answer.col) == ScanInt(suffix[2]) && Some(answer.row) == ScanInt(fields[0])
            && answer.format == site.layers[suffix[0]].mimeType)
      && (answer.Tile? <==>
            && rowOk && |fields| > 1 && fields[1] == site.layers[suffix[0]].extension
            && fields[1] != "" && '<' !in fields[1] && '>' !in fields[1])
  {
    TileOfSuffix(site, prefix, suffix);
  }

  /** Only layers that TMS may show are answered with a tile. */
  lemma TileIsAuthorized(site: Site, parts: seq<string>)
    ensures var answer := TileOf(site, parts);
      answer.Tile? ==> answer.layer in site.layers && site.layers[answer.layer].tmsAuthorized
  {
  }

  /** A layer is offered exactly when it is registered, TMS may show it and its name is harmless. */
  lemma OfferedMeans(site: Site, layer: string)
    ensures Offered(site, layer)
      <==> layer in site.layers && site.layers[layer].tmsAuthorized && '<' !in layer && '>' !in layer
  {
  }

  /**
   * A tile comes with a style if and only if the public identifier of the layer's default style is
   * the internal name of a registered one, and with that default style itself, registered as `name`,
   * if and only if both names agree.
   */
  lemma TileHasStyleIff(site: Site, parts: seq<string>, name: string)
    requires TileOf(site, parts).Tile? && name in site.styles
    ensures var tile := TileOf(site, parts);
      && tile.layer in site.layers
      && (tile.style.Some? <==> site.layers[tile.layer].defaultStyle in site.styles)
      && (tile.style == Some(name) <==> site.layers[tile.layer].defaultStyle == name)
  {
  }

  datatype LayerAnswer = VersionAbsent | LayerAbsent | LayerUnknown | Found(layer: string, url: string)

  /** The path up to its first version. */
  function ServicePath(parts: seq<string>): string
    requires IndexOf(parts, VERSION) < |parts|
  {
    Join(parts[..IndexOf(parts, VERSION) + 1], '/')
  }

  lemma VersionIsFound(parts: seq<string>, pos: int)
    requires pos == LastIndex(parts, VERSION) && 0 <= pos
    ensures IndexOf(parts, VERSION) <= pos
  {
  }

  /** The URL of the service ends with the first version, the layer follows the last. */
  function LayerOf(site: Site, host: string, parts: seq<string>): (answer: LayerAnswer)
    ensures var pos := LastIndex(parts, VERSION);
      answer.Found? <==> pos >= 0 && pos + 1 < |parts| && Offered(site, parts[pos + 1])
    ensures answer.Found? ==> answer.layer == parts[LastIndex(parts, VERSION) + 1]
  {
    var pos := LastIndex(parts, VERSION);
    if pos == -1 then VersionAbsent
    else if pos == |parts| - 1 then LayerAbsent
    else if !Offered(site, parts[pos + 1]) then LayerUnknown
    else
      VersionIsFound(parts, pos);
      Found(parts[pos + 1], host + ServicePath(parts))
  }

  /** Which paths are refused for want of a version or of a layer. */
  lemma PathIsRefusedIff(site: Site, host: string, parts: seq<string>)
    ensures TileOf(site, parts) == Absent(VersionPart) <==> "1.0.0" !in parts
    ensures LayerOf(site, host, parts) == VersionAbsent <==> "1.0.0" !in parts
    ensures LayerOf(site, host, parts) == LayerAbsent <==> parts != [] && parts[|parts| - 1] == "1.0.0"
    ensures TileOf(site, parts) == Absent(LayerPart) <==> parts != [] && parts[|parts| - 1] == "1.0.0"
  {
  }

  /** Each of `parts`, followed by a slash. */
  function Slashed(parts: seq<string>): string {
    if parts == [] then "" else Slashed(parts[..|parts| - 1]) + parts[|parts| - 1] + "/"
  }

  lemma {:induction false} SlashedIsJoin(parts: seq<string>)
    requires parts != []
    ensures Slashed(parts) == Join(parts, '/') + "/"
  {
    var n := |parts| - 1;
    if n == 0 {
      assert parts[..0] == [];
    } else {
      SlashedIsJoin(parts[..n]);
      JoinPrefix(parts, n, '/');
      assert parts[..n + 1] == parts;
    }
  }

  lemma UrlIsComplete(host: string, parts: seq<string>, first: nat)
    requires 0 < first <= |parts| && parts[first - 1] == VERSION
    requires forall j :: 0 <= j < first - 1 ==> parts[j] != VERSION
    ensures IndexOf(parts, VERSION) == first - 1
    ensures var url := host + Slashed(parts[..first]); |url| > 0 && url[..|url| - 1] == host + ServicePath(parts)
  {
    IndexOfIs(parts, VERSION, first - 1);
    SlashedIsJoin(parts[..first]);
    PopSlash(host, ServicePath(parts));
  }

  /** The loop of `getLayerParamTMS`, over the parts of the path; the last slash is taken off again. */
  method ReadServiceUrl(host: string, pathParts: seq<string>) returns (url: string, tmsVersionPos: int)
    ensures tmsVersionPos == LastIndex(pathParts, VERSION)
    ensures tmsVersionPos != -1 ==>
      IndexOf(pathParts, VERSION) < |pathParts| && url == host + ServicePath(pathParts)
  {
    url, tmsVersionPos := host, -1;
    ghost var first := 0;
    for i := 0 to |pathParts|
      invariant tmsVersionPos == LastIndex(pathParts[..i], VERSION)
      invariant 0 <= first <= i && url == host + Slashed(pathParts[..first])
      invariant tmsVersionPos == -1 ==> first == i
      invariant tmsVersionPos != -1 ==> first > 0 && pathParts[first - 1] == VERSION
      invariant forall j :: 0 <= j < first - 1 ==> pathParts[j] != VERSION
    {
      var token := pathParts[i];
      assert pathParts[..i + 1] == pathParts[..i] + [token];
      LastIndexStep(pathParts[..i], VERSION, token);
      if tmsVersionPos == -1 {
        assert pathParts[..i + 1][..i] == pathParts[..i];
        url := url + token + "/";
        first := i + 1;
      }
      if token == VERSION {
        tmsVersionPos := i;
      }
    }
    assert pathParts[..|pathParts|] == pathParts;
    if tmsVersionPos != -1 {
      UrlIsComplete(host, pathParts, first);
      url := url[..|url| - 1];
    }
  }

  lemma PopSlash(host: string, path: string)
    ensures var url := host + (path + "/"); |url| > 0 && url[..|url| - 1] == host + path
  {
  }

  method GetLayerParamTMS(site: Site, host: string, path: string) returns (answer: LayerAnswer)
    ensures answer == LayerOf(site, host, Split(path, '/'))
  {
    var pathParts := SplitFields(path, '/');
    var url, tmsVersionPos := ReadServiceUrl(host, pathParts);
    if tmsVersionPos == -1 { return VersionAbsent; }
    if tmsVersionPos == |pathParts| - 1 { return LayerAbsent; }
    var layer := pathParts[tmsVersionPos + 1];
    if ContainsForbiddenChars(layer) { return LayerUnknown; }
    if layer !in site.layers || !site.layers[layer].tmsAuthorized { return LayerUnknown; }
    answer := Found(layer, url);
  }

  // ----- classification against the operations -----

  lemma DepthIsEnough(site: Site, parts: seq<string>, host: string)
    ensures TmsRequestOf(parts) == GetTile ==> !TileOf(site, parts).Absent?
    ensures TmsRequestOf(parts) == GetLayer || TmsRequestOf(parts) == GetLayerMetadata ==>
      !LayerOf(site, host, parts).VersionAbsent? && !LayerOf(site, host, parts).LayerAbsent?
  {
  }

  /** A path classified as a tile, or as a layer, is never refused for its depth when it is read again. */
  lemma ClassifiedPathIsComplete(params: Params, path: string, site: Site, host: string)
    requires Classify(params, path).0 == TMS
    ensures Classify(params, path).1 == GetTile ==> !TileOf(site, Split(path, '/')).Absent?
    ensures Classify(params, path).1 == GetLayer || Classify(params, path).1 == GetLayerMetadata ==>
      var answer := LayerOf(site, host, Split(path, '/')); !answer.VersionAbsent? && !answer.LayerAbsent?
  {
    RecognisedIsHandled(params, path);
    DepthIsEnough(site, Split(path, '/'), host);
  }

  lemma SplitIsFree(path: string)
    ensures FreeOf(Split(path, '/'), '/')
  {
    JoinAllFields(path, '/');
    SplitDropsLastEmpty(path, '/');
  }

  /** What follows the version in the link to a tile. */
  function TileSuffix(layer: string, matrix: string, col: nat, row: nat, extension: string): seq<string> {
    [layer, matrix, Decimal(col), Decimal(row) + "." + extension]
  }

  lemma NumbersAreNoVersion(col: nat, row: nat, extension: string)
    requires '.' !in extension
    ensures Decimal(col) != VERSION && Decimal(row) + "." + extension != VERSION
    ensures '/' !in Decimal(col)
  {
    var s := Decimal(row) + "." + extension;
    assert |s| == |VERSION| && |Decimal(row)| == 1 ==> s[3] == extension[1];
    assert VERSION[1] == '.' && VERSION[3] == '.';
  }

  lemma RowSplits(row: nat, extension: string)
    ensures Split(Decimal(row) + "." + extension, '.') == [Decimal(row)] + Split(extension, '.')
  {
    CutAt(Decimal(row), '.', extension);
    IndexOfIs(Decimal(row) + "." + extension, '.', |Decimal(row)|);
  }

  /** The four parts after the version make a tile exactly when none of them is the version. */
  lemma FourAfterVersion(prefix: seq<string>, suffix: seq<string>)
    requires |suffix| == 4
    ensures TmsRequestOf(prefix + [VERSION] + suffix) == GetTile <==> VERSION !in suffix
    ensures VERSION !in suffix ==> LastIndex(prefix + [VERSION] + suffix, VERSION) == |prefix|
  {
    var parts := prefix + [VERSION] + suffix;
    var n := |prefix|;
    assert parts[n] == VERSION && forall i :: 0 <= i < 4 ==> parts[n + 1 + i] == suffix[i];
    if VERSION !in suffix {
      LastIndexIs(parts, VERSION, n);
    } else {
      var i :| 0 <= i < 4 && suffix[i] == VERSION;
      assert parts[n + 1 + i] == VERSION;
    }
  }

  /** The link to a tile, under any path, is read as a tile exactly when no name is the version. */
  lemma TileLinkIsTile(prefix: seq<string>, layer: string, matrix: string, col: nat, row: nat, extension: string)
    requires '.' !in extension
    ensures TmsRequestOf(prefix + [VERSION] + TileSuffix(layer, matrix, col, row, extension)) == GetTile
      <==> layer != VERSION && matrix != VERSION
  {
    NumbersAreNoVersion(col, row, extension);
    FourAfterVersion(prefix, TileSuffix(layer, matrix, col, row, extension));
  }

  /** A link is split into the parts it was made of. */
  lemma TileLinkSplits(prefix: seq<string>, layer: string, matrix: string, col: nat, row: nat, extension: string)
    requires FreeOf(prefix, '/') && '/' !in layer && '/' !in matrix && '/' !in extension && '.' !in extension
    ensures var parts := prefix + [VERSION] + TileSuffix(layer, matrix, col, row, extension);
      Split(Join(parts, '/'), '/') == parts
  {
    var parts := prefix + [VERSION] + TileSuffix(layer, matrix, col, row, extension);
    NumbersAreNoVersion(col, row, extension);
    NumbersAreNoVersion(row, col, extension);
    SplitJoin(parts, '/');
  }

  /** The layer is offered, has the level, and all names can stand in a link. */
  predicate Servable(site: Site, layer: string, matrix: string) {
    && Offered(site, layer) && matrix in site.layers[layer].matrices && !ContainsForbiddenChars(matrix)
    && var extension := site.layers[layer].extension;
       extension != "" && '.' !in extension && !ContainsForbiddenChars(extension)
  }

  lemma OneField(s: string, c: char)
    requires s != "" && c !in s
    ensures Split(s, c) == [s]
  {
    SplitJoin([s], c);
  }

  lemma TileSuffixReadsBack(site: Site, layer: string, matrix: string, col: nat, row: nat)
    requires Servable(site, layer, matrix)
    ensures TileAt(site, layer, matrix, Decimal(col), Decimal(row) + "." + site.layers[layer].extension)
      == TileIn(site, layer, matrix, col, row)
  {
    var extension := site.layers[layer].extension;
    RowSplits(row, extension);
    OneField(extension, '.');
    DecimalReadsBack(col);
    DecimalReadsBack(row);
  }

  /** The link to a tile names the same tile when it is read. */
  lemma TileLinkReadsBack(site: Site, prefix: seq<string>, layer: string, matrix: string, col: nat, row: nat)
    requires Servable(site, layer, matrix) && layer != VERSION && matrix != VERSION
    ensures TileOf(site, prefix + [VERSION] + TileSuffix(layer, matrix, col, row, site.layers[layer].extension))
      == TileIn(site, layer, matrix, col, row)
  {
    var suffix := TileSuffix(layer, matrix, col, row, site.layers[layer].extension);
    var parts := prefix + [VERSION] + suffix;
    NumbersAreNoVersion(col, row, site.layers[layer].extension);
    FourAfterVersion(prefix, suffix);
    forall i | 0 <= i < 4 ensures parts[|prefix| + 1 + i] == suffix[i] {
    }
    TileSuffixReadsBack(site, layer, matrix, col, row);
  }

  lemma {:induction false} JoinConcat(a: seq<string>, b: seq<string>, c: char)
    requires a != [] && b != []
    ensures Join(a + b, c) == Join(a, c) + [c] + Join(b, c)
  {
    if |a| == 1 {
      assert (a + b)[1..] == b;
    } else {
      JoinConcat(a[1..], b, c);
      assert (a + b)[1..] == a[1..] + b;
    }
  }

  /** A path is its parts, joined, and maybe a last slash. */
  lemma PathIsJoined(path: string)
    requires Split(path, '/') != []
    ensures path == Join(Split(path, '/'), '/') || path == Join(Split(path, '/'), '/') + "/"
    ensures FreeOf(Split(path, '/'), '/')
  {
    var all, parts := AllFields(path, '/'), Split(path, '/');
    JoinAllFields(path, '/');
    SplitDropsLastEmpty(path, '/');
    if parts != all {
      assert all == parts + [""];
      JoinConcat(parts, [""], '/');
    }
  }

  lemma JoinStarts(parts: seq<string>, n: nat, c: char)
    requires 0 < n <= |parts|
    ensures Join(parts[..n], c) <= Join(parts, c)
  {
    if n == |parts| {
      assert parts[..n] == parts;
    } else {
      assert parts == parts[..n] + parts[n..];
      JoinConcat(parts[..n], parts[n..], c);
    }
  }

  /** The link to a tile in the description of a layer found at `url`. */
  function TileLink(url: string, layer: string, matrix: string, col: nat, row: nat, extension: string): string {
    url + "/" + Join(TileSuffix(layer, matrix, col, row, extension), '/')
  }

  lemma TakeNext<T>(s: seq<T>, i: nat)
    requires i < |s|
    ensures s[..i + 1] == s[..i] + [s[i]]
  {
  }

  /** The URL given for a path ends with its first version, so a link under it splits as follows. */
  lemma TileLinkParts(parts: seq<string>, layer: string, matrix: string, col: nat, row: nat, extension: string)
    requires FreeOf(parts, '/') && IndexOf(parts, VERSION) < |parts|
    requires '/' !in layer && '/' !in matrix && '/' !in extension && '.' !in extension
    ensures Split(TileLink(ServicePath(parts), layer, matrix, col, row, extension), '/')
      == parts[..IndexOf(parts, VERSION)] + [VERSION] + TileSuffix(layer, matrix, col, row, extension)
  {
    var first := IndexOf(parts, VERSION);
    TakeNext(parts, first);
    LinkIsJoined(parts[..first], layer, matrix, col, row, extension);
    TileLinkSplits(parts[..first], layer, matrix, col, row, extension);
  }

  lemma LinkIsJoined(prefix: seq<string>, layer: string, matrix: string, col: nat, row: nat, extension: string)
    ensures TileLink(Join(prefix + [VERSION], '/'), layer, matrix, col, row, extension)
      == Join(prefix + [VERSION] + TileSuffix(layer, matrix, col, row, extension), '/')
  {
    JoinConcat(prefix + [VERSION], TileSuffix(layer, matrix, col, row, extension), '/');
  }

  lemma FoundLayer(site: Site, host: string, parts: seq<string>, layer: string, url: string)
    requires FreeOf(parts, '/') && LayerOf(site, host, parts) == Found(layer, url)
    ensures layer != VERSION && '/' !in layer && IndexOf(parts, VERSION) < |parts|
    ensures url == host + ServicePath(parts)
  {
    VersionIsFound(parts, LastIndex(parts, VERSION));
  }

  /**
   * From a layer's description to its tiles: the links under the URL that `getLayerParamTMS` gives
   * are requests for tiles of that layer, whatever the path, unless the level is named like the
   * version.
   */
  lemma AdvertisedTilesAreServed(site: Site, host: string, path: string, layer: string, url: string, matrix: string,
                                 col: nat, row: nat) returns (base: string)
    requires LayerOf(site, host, Split(path, '/')) == Found(layer, url)
    requires Servable(site, layer, matrix) && '/' !in matrix && '/' !in site.layers[layer].extension
    ensures url == host + base && base <= path
    ensures var link := TileLink(base, layer, matrix, col, row, site.layers[layer].extension);
      && (Classify(map[], link) == (TMS, GetTile) <==> matrix != VERSION)
      && (matrix != VERSION ==> TileOf(site, Split(link, '/')) == TileIn(site, layer, matrix, col, row))
  {
    var parts := Split(path, '/');
    SplitIsFree(path);
    FoundLayer(site, host, parts, layer, url);
    base := ServicePath(parts);
    var prefix := parts[..IndexOf(parts, VERSION)];
    PathIsJoined(path);
    JoinStarts(parts, |prefix| + 1, '/');
    TileLinkParts(parts, layer, matrix, col, row, site.layers[layer].extension);
    TileLinkIsTile(prefix, layer, matrix, col, row, site.layers[layer].extension);
    if matrix != VERSION {
      TileLinkReadsBack(site, prefix, layer, matrix, col, row);
    }
  }

  /** The URL of the service is where the layer was asked for exactly when the path has one version only. */
  lemma UrlIsWhereItWasAsked(parts: seq<string>)
    requires LastIndex(parts, VERSION) >= 0
    ensures IndexOf(parts, VERSION) == LastIndex(parts, VERSION)
      <==> forall i, j :: 0 <= i < j < |parts| && parts[i] == VERSION ==> parts[j] != VERSION
  {
    VersionIsFound(parts, LastIndex(parts, VERSION));
  }

  lemma WithoutLastSlash(s: string, t: string)
    requires s != "" && s[|s| - 1] != '/' && (t == s || t == s + "/")
    ensures t != "" && s == if t[|t| - 1] == '/' then t[..|t| - 1] else t
  {
  }

  lemma {:induction false} LastCharacter(parts: seq<string>)
    requires parts != [] && FreeOf(parts, '/') && parts[|parts| - 1] != ""
    ensures var s := Join(parts, '/'); s != "" && s[|s| - 1] != '/'
  {
    if |parts| > 1 {
      LastCharacter(parts[1..]);
    }
  }

  /**
   * From the capabilities to the layers: what the TMS capabilities link to, the address that was asked
   * and the name of the layer, is a request for that layer, unless it is named like the version.
   */
  lemma AdvertisedLayersAreServed(path: string, layer: string)
    requires Classify(map[], path) == (TMS, GetCapabilities) && layer != "" && '/' !in layer
    ensures path != ""
    ensures var address := if path[|path| - 1] == '/' then path[..|path| - 1] else path;
      Classify(map[], address + "/" + layer) == (TMS, GetLayer) <==> layer != VERSION
  {
    var parts := Split(path, '/');
    assert parts[|parts| - 1] == VERSION;
    PathIsJoined(path);
    LastCharacter(parts);
    WithoutLastSlash(Join(parts, '/'), path);
    JoinConcat(parts, [layer], '/');
    SplitJoin(parts + [layer], '/');
    LastIndexStep(parts, VERSION, layer);
  }
}
