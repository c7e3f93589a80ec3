/**
 * The key/value tokenizer that cuts a C string in place: a query ("key=value&...") in the GET
 * constructor of `Request`, and format options ("key:value;...") in `getMapParamWMS`.
 */
module KeyValue {
  import opened FieldLists
  import opened UrlDecode

  type Params = map<seq<Byte>, seq<Byte>>

  function ToLower(b: Byte): Byte { if 0x41 <= b <= 0x5A then b + 0x20 else b }

  function Lower(s: seq<Byte>): (t: seq<Byte>)
    ensures |t| == |s|
  {
    seq(|s|, i requires 0 <= i < |s| => ToLower(s[i]))
  }

  /** `low` is `s` without capitals: each byte is the same or the small letter of a capital one. */
  predicate LowerCaseOf(low: seq<Byte>, s: seq<Byte>) {
    && |low| == |s|
    && (forall i :: 0 <= i < |s| ==> !(0x41 <= low[i] <= 0x5A))
    && (forall i :: 0 <= i < |s| ==> s[i] == low[i] || (0x61 <= low[i] <= 0x7A && s[i] == low[i] - 0x20))
  }

  /** `toLowerCase` gives the text without capitals, and nothing else. */
  lemma LowerIsLowerCase(low: seq<Byte>, s: seq<Byte>)
    ensures Lower(s) == low <==> LowerCaseOf(low, s)
  {
    if LowerCaseOf(low, s) {
      forall i | 0 <= i < |s| ensures Lower(s)[i] == low[i] {
      }
    }
  }

  // ----- What a text of pairs means -----

  function KeyOf(segment: seq<Byte>, eq: Byte): seq<Byte> { segment[..IndexOf(segment, eq)] }

  function ValueOf(segment: seq<Byte>, eq: Byte): seq<Byte> {
    var i := IndexOf(segment, eq);
    if i < |segment| then segment[i + 1..] else []
  }

  function StoredValue(segment: seq<Byte>, eq: Byte, lowerValues: bool): seq<Byte> {
    if lowerValues then Lower(ValueOf(segment, eq)) else ValueOf(segment, eq)
  }

  /** `std::map::insert`: an entry that exists stays. */
  function Insert(m: Params, k: seq<Byte>, v: seq<Byte>): Params { if k in m then m else m[k := v] }

  function Collect(m: Params, segments: seq<seq<Byte>>, eq: Byte, lowerValues: bool): Params
    decreases |segments|
  {
    if segments == [] then m
    else
      Collect(Insert(m, Lower(KeyOf(segments[0], eq)), StoredValue(segments[0], eq, lowerValues)),
              segments[1..], eq, lowerValues)
  }

  /** The segments between separators, each cut at its first `eq`. */
  function Parse(s: seq<Byte>, eq: Byte, sep: Byte, lowerValues: bool): Params {
    Collect(map[], Split(s, sep), eq, lowerValues)
  }

  /** The first segment whose lower-cased key is `k`, or the number of segments. */
  function FirstWithKey(segments: seq<seq<Byte>>, eq: Byte, k: seq<Byte>): (i: nat)
    ensures i <= |segments| && (i < |segments| ==> Lower(KeyOf(segments[i], eq)) == k)
    ensures forall j :: 0 <= j < i ==> Lower(KeyOf(segments[j], eq)) != k
    decreases |segments|
  {
    if segments == [] || Lower(KeyOf(segments[0], eq)) == k then 0
    else
      assert forall j :: 1 <= j < |segments| ==> segments[j] == segments[1..][j - 1];
      1 + FirstWithKey(segments[1..], eq, k)
  }

  lemma {:induction false} CollectIs(m: Params, segments: seq<seq<Byte>>, eq: Byte, lowerValues: bool, k: seq<Byte>)
    ensures var r := Collect(m, segments, eq, lowerValues);
            var i := FirstWithKey(segments, eq, k);
            && (k in r <==> k in m || i < |segments|)
            && (k in m ==> r[k] == m[k])
            && (k !in m && i < |segments| ==>
                  r[k] == StoredValue(segments[i], eq, lowerValues))
    decreases |segments|
  {
    if segments != [] {
      var k0 := Lower(KeyOf(segments[0], eq));
      CollectIs(Insert(m, k0, StoredValue(segments[0], eq, lowerValues)), segments[1..], eq, lowerValues, k);
    }
  }

  /** The keys are exactly the lower-cased keys of the segments, and the first occurrence wins. */
  lemma FirstOccurrenceWins(s: seq<Byte>, eq: Byte, sep: Byte, lowerValues: bool, k: seq<Byte>)
    ensures var segments := Split(s, sep);
            var i := FirstWithKey(segments, eq, k);
            && (k in Parse(s, eq, sep, lowerValues) <==> i < |segments|)
            && (i < |segments| ==>
                  Parse(s, eq, sep, lowerValues)[k] == StoredValue(segments[i], eq, lowerValues))
  {
    CollectIs(map[], Split(s, sep), eq, lowerValues, k);
  }

  /** No key has a capital letter, nor has any value when values are lower-cased too. */
  lemma NoCapitals(s: seq<Byte>, eq: Byte, sep: Byte, lowerValues: bool, k: seq<Byte>)
    requires k in Parse(s, eq, sep, lowerValues)
    ensures forall i :: 0 <= i < |k| ==> !(0x41 <= k[i] <= 0x5A)
    ensures lowerValues ==>
      var v := Parse(s, eq, sep, lowerValues)[k]; forall i :: 0 <= i < |v| ==> !(0x41 <= v[i] <= 0x5A)
  {
    FirstOccurrenceWins(s, eq, sep, lowerValues, k);
    var segment := Split(s, sep)[FirstWithKey(Split(s, sep), eq, k)];
    LowerIsLowerCase(k, KeyOf(segment, eq));
    LowerIsLowerCase(Lower(ValueOf(segment, eq)), ValueOf(segment, eq));
  }

  // ----- Cutting in place -----

  /** The bytes from `p` to a NUL are `s`. */
  ghost predicate TextAt(buf: array<Byte>, p: nat, s: seq<Byte>)
    reads buf
  {
    && p + |s| < buf.Length && buf[p + |s|] == 0
    && forall k :: p <= k < p + |s| ==> buf[k] == s[k - p] && s[k - p] != 0
  }

  /** `Request::toLowerCase`. */
  method LowerCString(buf: array<Byte>, p: nat, ghost s: seq<Byte>)
    requires TextAt(buf, p, s)
    modifies buf
    ensures TextAt(buf, p, Lower(s))
    ensures forall k :: 0 <= k < buf.Length && !(p <= k < p + |s|) ==> buf[k] == old(buf[k])
  {
    var i := p;
    while buf[i] != 0
      invariant p <= i <= p + |s|
      invariant forall k :: 0 <= k < buf.Length && !(p <= k < i) ==> buf[k] == old(buf[k])
      invariant forall k :: p <= k < i ==> buf[k] == ToLower(s[k - p])
      decreases p + |s| - i
    {
      assert buf[i] == s[i - p];
      buf[i] := ToLower(buf[i]);
      i := i + 1;
    }
    assert i == p + |s| && buf[p + |s|] == 0;
  }

  /** A `std::string` made from a `char*`. */
  method ReadCString(buf: array<Byte>, p: nat, ghost s: seq<Byte>) returns (r: seq<Byte>)
    requires TextAt(buf, p, s)
    ensures r == s
  {
    r := [];
    var i := p;
    while buf[i] != 0
      invariant p <= i <= p + |s| && r == s[..i - p]
      decreases p + |s| - i
    {
      assert buf[i] == s[i - p];
      r := r + [buf[i]];
      i := i + 1;
    }
    assert i == p + |s|;
  }

  /** The first place from `pos` on that holds NUL, `c` or `d`. */
  method Skip(buf: array<Byte>, pos: nat, c: Byte, d: Byte, ghost n: nat) returns (end: nat)
    requires pos <= n < buf.Length && buf[n] == 0
    ensures pos <= end <= n && (buf[end] == 0 || buf[end] == c || buf[end] == d)
    ensures forall k :: pos <= k < end ==> buf[k] != 0 && buf[k] != c && buf[k] != d
  {
    end := pos;
    while buf[end] != 0 && buf[end] != c && buf[end] != d
      invariant pos <= end <= n
      invariant forall k :: pos <= k < end ==> buf[k] != 0 && buf[k] != c && buf[k] != d
      decreases n - end
    {
      end := end + 1;
    }
  }

  lemma CutIs(text: seq<Byte>, eq: Byte, pos: nat, cut: nat, end: nat)
    requires pos <= cut <= end <= |text|
    requires (forall k :: pos <= k < cut ==> text[k] != eq) && (cut < end ==> text[cut] == eq)
    ensures KeyOf(text[pos..end], eq) == text[pos..cut]
    ensures ValueOf(text[pos..end], eq) == if cut < end then text[cut + 1..end] else []
  {
    var segment := text[pos..end];
    IndexOfIs(segment, eq, cut - pos);
  }

  /** Puts the NULs of one pair: its key starts at `pos`, its value at `value`, the next pair at `next`. */
  method CutPair(buf: array<Byte>, pos: nat, eq: Byte, sep: Byte, ghost text: seq<Byte>)
    returns (value: nat, next: nat, ghost cut: nat, ghost end: nat)
    requires eq != 0 && sep != 0 && eq != sep && pos < |text| < buf.Length && buf[|text|] == 0
    requires forall k :: pos <= k < |text| ==> buf[k] == text[k] && text[k] != 0
    modifies buf
    ensures pos <= cut <= end <= |text| && (end < |text| ==> text[end] == sep)
    ensures forall k :: pos <= k < end ==> text[k] != sep
    ensures (forall k :: pos <= k < cut ==> text[k] != eq) && (cut < end ==> text[cut] == eq)
    ensures value == (if cut < end then cut + 1 else end) && next == (if end < |text| then end + 1 else end)
    ensures TextAt(buf, pos, text[pos..cut]) && TextAt(buf, value, text[value..end])
    ensures forall k :: next <= k < buf.Length ==> buf[k] == old(buf[k])
  {
    var p := Skip(buf, pos, eq, sep, |text|);
    cut := p;
    value := p;
    p := Skip(buf, p, sep, sep, |text|);
    end := p;
    if buf[value] == eq {
      buf[value] := 0;
      value := value + 1;
    }
    if buf[p] != 0 {
      buf[p] := 0;
      p := p + 1;
    }
    next := p;
    SliceIsText(buf, pos, cut, text);
    SliceIsText(buf, value, end, text);
  }

  lemma SliceIsText(buf: array<Byte>, from: nat, to: nat, text: seq<Byte>)
    requires from <= to <= |text| < buf.Length && buf[to] == 0
    requires forall k :: from <= k < to ==> buf[k] == text[k] && text[k] != 0
    ensures TextAt(buf, from, text[from..to])
  {
  }

  /** Lowers the case of one cut pair in place and reads it. */
  method ReadPair(buf: array<Byte>, keyPos: nat, valuePos: nat, lowerValues: bool, ghost k: seq<Byte>, ghost v: seq<Byte>)
    returns (key: seq<Byte>, value: seq<Byte>)
    requires TextAt(buf, keyPos, k) && TextAt(buf, valuePos, v) && keyPos + |k| <= valuePos
    modifies buf
    ensures key == Lower(k) && value == if lowerValues then Lower(v) else v
    ensures forall i :: valuePos + |v| <= i < buf.Length ==> buf[i] == old(buf[i])
  {
    LowerCString(buf, keyPos, k);
    assert TextAt(buf, valuePos, v);
    key := ReadCString(buf, keyPos, Lower(k));
    if lowerValues {
      LowerCString(buf, valuePos, v);
      value := ReadCString(buf, valuePos, Lower(v));
    } else {
      value := ReadCString(buf, valuePos, v);
    }
  }

  /** One turn of the tokenizer on the text that is left from `pos`. */
  lemma ParseStep(m: Params, text: seq<Byte>, eq: Byte, sep: Byte, lowerValues: bool, pos: nat, cut: nat, end: nat)
    requires pos < |text| && pos <= cut <= end <= |text|
    requires (forall k :: pos <= k < end ==> text[k] != sep) && (end < |text| ==> text[end] == sep)
    requires (forall k :: pos <= k < cut ==> text[k] != eq) && (cut < end ==> text[cut] == eq)
    ensures var v := text[if cut < end then cut + 1 else end..end];
            Collect(m, Split(text[pos..], sep), eq, lowerValues) ==
            Collect(Insert(m, Lower(text[pos..cut]), if lowerValues then Lower(v) else v),
                    Split(text[if end < |text| then end + 1 else end..], sep), eq, lowerValues)
  {
    CutIs(text, eq, pos, cut, end);
    SplitStep(text, sep, pos, end);
    var all := Split(text[pos..], sep);
    assert all[1..] == Split(text[if end < |text| then end + 1 else end..], sep);
    assert cut == end ==> text[end..end] == [];
  }

  /** The tokenizer: whatever the buffer holds up to its NUL, it ends and yields the pairs. */
  method Tokenize(buf: array<Byte>, eq: Byte, sep: Byte, lowerValues: bool) returns (params: Params)
    requires eq != 0 && sep != 0 && eq != sep && 0 in buf[..]
    modifies buf
    ensures params == Parse(CText(old(buf[..])), eq, sep, lowerValues)
  {
    params := map[];
    var pos := 0;
    ghost var text := CText(buf[..]);
    assert text[0..] == text;
    while buf[pos] != 0
      invariant 0 <= pos <= |text| < buf.Length && buf[|text|] == 0
      invariant forall k :: pos <= k < |text| ==> buf[k] == text[k] && text[k] != 0
      invariant Collect(params, Split(text[pos..], sep), eq, lowerValues) == Parse(text, eq, sep, lowerValues)
      decreases |text| - pos
    {
      var valuePos, next;
      ghost var cut, end;
      valuePos, next, cut, end := CutPair(buf, pos, eq, sep, text);
      var key, value := ReadPair(buf, pos, valuePos, lowerValues, text[pos..cut], text[valuePos..end]);
      ParseStep(params, text, eq, sep, lowerValues, pos, cut, end);
      params := if key in params then params else params[key := value];
      pos := next;
    }
    assert text[pos..] == [];
  }

  // ----- Round trip -----

  datatype Pair = Pair(key: seq<Byte>, value: seq<Byte>)

  function Segments(pairs: seq<Pair>, eq: Byte): (r: seq<seq<Byte>>)
    ensures |r| == |pairs|
  {
    seq(|pairs|, i requires 0 <= i < |pairs| => pairs[i].key + [eq] + pairs[i].value)
  }

  function PrintPairs(pairs: seq<Pair>, eq: Byte, sep: Byte): seq<Byte> { Join(Segments(pairs, eq), sep) }

  /**
   * The pairs `sent`, in any mix of cases, stand for the pairs `meant`: keys in lower case, distinct,
   * and values as they are or, with `lowerValues`, in lower case. No key contains a separator.
   */
  predicate Writable(sent: seq<Pair>, meant: seq<Pair>, eq: Byte, sep: Byte, lowerValues: bool) {
    && |sent| == |meant|
    && (forall i :: 0 <= i < |sent| ==>
          && LowerCaseOf(meant[i].key, sent[i].key) && eq !in sent[i].key && sep !in sent[i].key
          && (if lowerValues then LowerCaseOf(meant[i].value, sent[i].value) else meant[i].value == sent[i].value))
    && (forall i, j :: 0 <= i < j < |meant| ==> meant[i].key != meant[j].key)
  }

  /** The map holds exactly the pairs. */
  predicate Represents(m: Params, pairs: seq<Pair>) {
    && m.Keys == (set i | 0 <= i < |pairs| :: pairs[i].key)
    && forall i :: 0 <= i < |pairs| ==> pairs[i].key in m && m[pairs[i].key] == pairs[i].value
  }

  lemma WritableIsLower(sent: seq<Pair>, meant: seq<Pair>, eq: Byte, sep: Byte, lowerValues: bool, i: nat)
    requires Writable(sent, meant, eq, sep, lowerValues) && i < |sent|
    ensures Lower(sent[i].key) == meant[i].key
    ensures (if lowerValues then Lower(sent[i].value) else sent[i].value) == meant[i].value
  {
    LowerIsLowerCase(meant[i].key, sent[i].key);
    LowerIsLowerCase(meant[i].value, sent[i].value);
  }

  lemma SegmentReadsBack(key: seq<Byte>, value: seq<Byte>, eq: Byte)
    requires eq !in key
    ensures KeyOf(key + [eq] + value, eq) == key && ValueOf(key + [eq] + value, eq) == value
  {
    IndexOfIs(key + [eq] + value, eq, |key|);
  }

  lemma FirstIs(segments: seq<seq<Byte>>, pairs: seq<Pair>, eq: Byte, i: nat)
    requires i < |segments| && i < |pairs| && Lower(KeyOf(segments[i], eq)) == pairs[i].key
    requires forall j :: 0 <= j < i ==> Lower(KeyOf(segments[j], eq)) == pairs[j].key != pairs[i].key
    ensures FirstWithKey(segments, eq, pairs[i].key) == i
  {
  }

  /** Without separators in the values, the segments are read as they were written. */
  lemma CleanSegments(sent: seq<Pair>, meant: seq<Pair>, eq: Byte, sep: Byte, lowerValues: bool)
    requires eq != sep && Writable(sent, meant, eq, sep, lowerValues)
    requires forall i :: 0 <= i < |sent| ==> sep !in sent[i].value
    ensures var f := Segments(sent, eq);
      && Split(PrintPairs(sent, eq, sep), sep) == f
      && (forall i :: 0 <= i < |sent| ==>
            Lower(KeyOf(f[i], eq)) == meant[i].key && StoredValue(f[i], eq, lowerValues) == meant[i].value)
  {
    var f := Segments(sent, eq);
    if sent == [] {
      assert PrintPairs(sent, eq, sep) == [];
    } else {
      SplitJoin(f, sep);
    }
    forall i | 0 <= i < |sent|
      ensures Lower(KeyOf(f[i], eq)) == meant[i].key && StoredValue(f[i], eq, lowerValues) == meant[i].value
    {
      SegmentReadsBack(sent[i].key, sent[i].value, eq);
      WritableIsLower(sent, meant, eq, sep, lowerValues, i);
    }
  }

  lemma CleanPairsReadBack(sent: seq<Pair>, meant: seq<Pair>, eq: Byte, sep: Byte, lowerValues: bool)
    requires eq != sep && Writable(sent, meant, eq, sep, lowerValues)
    requires forall i :: 0 <= i < |sent| ==> sep !in sent[i].value
    ensures Represents(Parse(PrintPairs(sent, eq, sep), eq, sep, lowerValues), meant)
  {
    var f := Segments(sent, eq);
    var s := PrintPairs(sent, eq, sep);
    CleanSegments(sent, meant, eq, sep, lowerValues);
    var m := Parse(s, eq, sep, lowerValues);
    forall i | 0 <= i < |meant|
      ensures meant[i].key in m && m[meant[i].key] == meant[i].value
    {
      FirstIs(f, meant, eq, i);
      FirstOccurrenceWins(s, eq, sep, lowerValues, meant[i].key);
      assert StoredValue(f[i], eq, lowerValues) == meant[i].value;
    }
    forall k | k in m
      ensures k in (set i | 0 <= i < |meant| :: meant[i].key)
    {
      FirstOccurrenceWins(s, eq, sep, lowerValues, k);
      assert meant[FirstWithKey(f, eq, k)].key == k;
    }
  }

  lemma CleanKeys(sent: seq<Pair>, meant: seq<Pair>, eq: Byte, sep: Byte, lowerValues: bool, got: seq<seq<Byte>>,
                  n: nat)
    requires eq != sep && Writable(sent, meant, eq, sep, lowerValues)
    requires n <= |sent| && n <= |got| && got[..n] == Segments(sent, eq)[..n]
    ensures forall j :: 0 <= j < n ==> Lower(KeyOf(got[j], eq)) == meant[j].key
  {
    forall j | 0 <= j < n
      ensures Lower(KeyOf(got[j], eq)) == meant[j].key
    {
      assert got[j] == got[..n][j] == Segments(sent, eq)[..n][j];
      SegmentReadsBack(sent[j].key, sent[j].value, eq);
      WritableIsLower(sent, meant, eq, sep, lowerValues, j);
    }
  }

  lemma CutSegment(key: seq<Byte>, value: seq<Byte>, eq: Byte, sep: Byte)
    requires eq != sep && eq !in key && sep !in key && sep in value
    ensures var segment := key + [eq] + value;
      var head := segment[..IndexOf(segment, sep)];
      KeyOf(head, eq) == key && ValueOf(head, eq) == value[..IndexOf(value, sep)]
  {
    var segment, p := key + [eq] + value, IndexOf(value, sep);
    IndexOfIs(segment, sep, |key| + 1 + p);
    assert segment[..|key| + 1 + p] == key + [eq] + value[..p];
    SegmentReadsBack(key, value[..p], eq);
  }

  /** What is read of the first value that contains the separator. */
  lemma DirtySegment(sent: seq<Pair>, meant: seq<Pair>, eq: Byte, sep: Byte, lowerValues: bool, i: nat)
    requires eq != sep && Writable(sent, meant, eq, sep, lowerValues)
    requires i < |sent| && sep in sent[i].value
    requires forall j :: 0 <= j < i ==> sep !in sent[j].value
    ensures var got := Split(PrintPairs(sent, eq, sep), sep);
      && |got| > i && (forall j :: 0 <= j <= i ==> Lower(KeyOf(got[j], eq)) == meant[j].key)
      && |ValueOf(got[i], eq)| < |sent[i].value|
  {
    var f := Segments(sent, eq);
    var got := Split(PrintPairs(sent, eq, sep), sep);
    SplitJoinPrefix(f, sep, i);
    CleanKeys(sent, meant, eq, sep, lowerValues, got, i);
    CutSegment(sent[i].key, sent[i].value, eq, sep);
    WritableIsLower(sent, meant, eq, sep, lowerValues, i);
  }

  lemma DirtyValueIsCut(sent: seq<Pair>, meant: seq<Pair>, eq: Byte, sep: Byte, lowerValues: bool, i: nat)
    requires eq != sep && Writable(sent, meant, eq, sep, lowerValues)
    requires i < |sent| && sep in sent[i].value
    requires forall j :: 0 <= j < i ==> sep !in sent[j].value
    ensures !Represents(Parse(PrintPairs(sent, eq, sep), eq, sep, lowerValues), meant)
  {
    var s := PrintPairs(sent, eq, sep);
    DirtySegment(sent, meant, eq, sep, lowerValues, i);
    FirstIs(Split(s, sep), meant, eq, i);
    FirstOccurrenceWins(s, eq, sep, lowerValues, meant[i].key);
    WritableIsLower(sent, meant, eq, sep, lowerValues, i);
    var m := Parse(s, eq, sep, lowerValues);
    assert |m[meant[i].key]| < |meant[i].value|;
  }

  /**
   * Printed pairs, their keys in any mix of cases, arrive under the lower-case keys exactly when no
   * value contains the separator.
   */
  lemma PrintedPairsReadBack(sent: seq<Pair>, meant: seq<Pair>, eq: Byte, sep: Byte, lowerValues: bool)
    requires eq != sep && Writable(sent, meant, eq, sep, lowerValues)
    ensures Represents(Parse(PrintPairs(sent, eq, sep), eq, sep, lowerValues), meant)
       <==> forall i :: 0 <= i < |sent| ==> sep !in sent[i].value
  {
    if forall i :: 0 <= i < |sent| ==> sep !in sent[i].value {
      CleanPairsReadBack(sent, meant, eq, sep, lowerValues);
    } else {
      var i := FirstDirty(sent, sep);
      DirtyValueIsCut(sent, meant, eq, sep, lowerValues, i);
    }
  }

  lemma FirstDirty(pairs: seq<Pair>, sep: Byte) returns (i: nat)
    requires exists i :: 0 <= i < |pairs| && sep in pairs[i].value
    ensures i < |pairs| && sep in pairs[i].value
    ensures forall j :: 0 <= j < i ==> sep !in pairs[j].value
  {
    i := 0;
    while sep !in pairs[i].value
      invariant i < |pairs| && forall j :: 0 <= j < i ==> sep !in pairs[j].value
      decreases |pairs| - i
    {
      i := i + 1;
    }
  }

  // ----- The whole GET query -----

  /** The GET constructor decodes the query first and cuts it afterwards. */
  method ReadQuery(buf: array<Byte>) returns (params: Params)
    requires 0 in buf[..]
    modifies buf
    ensures params == Parse(Decode(CText(old(buf[..]))), 0x3D, 0x26, false)
  {
    DecodeInPlace(buf);
    params := Tokenize(buf, 0x3D, 0x26, false);
  }

  /**
   * A client's parameters, percent-encoded in any way, arrive as sent exactly when no value
   * contains '&': decoding comes first, so escaping it does not help.
   */
  lemma QueryArrives(sent: seq<Pair>, meant: seq<Pair>, items: seq<Item>)
    requires Writable(sent, meant, 0x3D, 0x26, false) && Sent(items) == PrintPairs(sent, 0x3D, 0x26)
    requires Readable(items)
    requires forall i :: 0 <= i < |items| && items[i].Escape? ==> !(items[i].b < 32 || items[i].b == 127)
    ensures Represents(Parse(Decode(Print(items)), 0x3D, 0x26, false), meant)
       <==> forall i :: 0 <= i < |sent| ==> 0x26 !in sent[i].value
  {
    DecodeInvertsEncoding(items);
    PrintedPairsReadBack(sent, meant, 0x3D, 0x26, false);
  }
}
