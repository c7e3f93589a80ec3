/** The nodata list of a pyramid descriptor: parsing, padding to the channel count, reading back. */
module NoData {
  import opened FieldLists
  import opened Options

  const DEFAULT_NODATAVALUE := 255

  function ValueOf(field: string, atoi: string -> int): int {
    if field == "" then DEFAULT_NODATAVALUE else atoi(field)
  }

  function Values(fields: seq<string>, atoi: string -> int): (v: seq<int>)
    ensures |v| == |fields|
  {
    seq(|fields|, i requires 0 <= i < |fields| => ValueOf(fields[i], atoi))
  }

  /** `substr ( found + 1 )`, where `found` may be `npos`, here the length of the text. */
  function SubstrAfter(s: string, found: nat): string
    requires found <= |s|
  {
    if found == |s| then s else s[found + 1..]
  }

  function FieldsLeft(s: string, last: bool): seq<string> { if last then [] else AllFields(s, ',') }

  /** Reading the first field of what is left. */
  lemma FirstField(s: string)
    ensures var i := IndexOf(s, ',');
            AllFields(s, ',') == [s[..i]] + FieldsLeft(SubstrAfter(s, i), i == |s|)
  {
    var i := IndexOf(s, ',');
    assert i == |s| ==> s[..i] == s;
  }

  /** One value for each comma-separated field, an empty field being the default. */
  method ReadValues(text: string, atoi: string -> int) returns (noDataValues: seq<int>)
    ensures noDataValues == Values(AllFields(text, ','), atoi)
    ensures var fields := AllFields(text, ',');
      forall i :: 0 <= i < |fields| ==> noDataValues[i] == if fields[i] == "" then 255 else atoi(fields[i])
  {
    var found := IndexOf(text, ',');
    var last := found == |text|;
    FirstField(text);
    var currentValue := text[..found];
    var endOfValues := SubstrAfter(text, found);
    noDataValues := [ValueOf(currentValue, atoi)];
    ghost var done := [currentValue];
    while !last
      invariant done + FieldsLeft(endOfValues, last) == AllFields(text, ',')
      invariant |noDataValues| == |done| && forall i :: 0 <= i < |done| ==> noDataValues[i] == ValueOf(done[i], atoi)
      decreases if last then 0 else 1 + |endOfValues|
    {
      found := IndexOf(endOfValues, ',');
      last := found == |endOfValues|;
      FirstField(endOfValues);
      currentValue := endOfValues[..found];
      endOfValues := SubstrAfter(endOfValues, found);
      MoveOver(done, currentValue, FieldsLeft(endOfValues, last));
      done := done + [currentValue];
      noDataValues := noDataValues + [ValueOf(currentValue, atoi)];
    }
    assert done == AllFields(text, ',');
  }

  /**
   * One value for each field of the element's text, none when there is no element or it has no text,
   * completed with defaults up to one for each channel.
   */
  method ParseNoData(text: Option<string>, channels: int, atoi: string -> int) returns (noDataValues: seq<int>)
    ensures var fields := if text.Some? then AllFields(text.value, ',') else [];
            && |noDataValues| == (if |fields| < channels then channels else |fields|)
            && (forall i :: 0 <= i < |fields| && fields[i] != "" ==> noDataValues[i] == atoi(fields[i]))
            && (forall i :: 0 <= i < |fields| && fields[i] == "" ==> noDataValues[i] == 255)
            && (forall i :: |fields| <= i < |noDataValues| ==> noDataValues[i] == 255)
  {
    noDataValues := [];
    if text.Some? {
      noDataValues := ReadValues(text.value, atoi);
    }
    ghost var given := noDataValues;
    var i := |noDataValues|;
    while i < channels
      invariant given <= noDataValues && i == |noDataValues|
      invariant i <= channels || i == |given|
      invariant forall k :: |given| <= k < i ==> noDataValues[k] == DEFAULT_NODATAVALUE
    {
      noDataValues := noDataValues + [DEFAULT_NODATAVALUE];
      i := i + 1;
    }
  }

  /** `getNoDataValues`; every `at` is in bounds for a list that `ParseNoData` made. */
  method GetNoDataValues(noDataValues: seq<int>, channels: nat) returns (nd: array<int>)
    requires channels <= |noDataValues|
    ensures fresh(nd) && nd[..] == noDataValues[..channels]
  {
    nd := new int[channels];
    for i := 0 to channels
      invariant nd[..i] == noDataValues[..i]
    {
      nd[i] := noDataValues[i];
    }
  }

  function Written(values: seq<int>, itoa: int -> string): (f: seq<string>)
    ensures |f| == |values| && forall i :: 0 <= i < |values| ==> f[i] == itoa(values[i])
  {
    seq(|values|, i requires 0 <= i < |values| => itoa(values[i]))
  }

  /** Values written with commas are read back from the text. */
  lemma WrittenValuesReadBack(values: seq<int>, itoa: int -> string, atoi: string -> int)
    requires values != []
    requires forall i :: 0 <= i < |values| ==>
      itoa(values[i]) != "" && ',' !in itoa(values[i]) && atoi(itoa(values[i])) == values[i]
    ensures Values(AllFields(Join(Written(values, itoa), ','), ','), atoi) == values
  {
    AllFieldsJoin(Written(values, itoa), ',');
  }
}
