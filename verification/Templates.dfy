/**
 * Capabilities documents. A template is cut at its tags once, when the server starts, and each
 * response glues the constant fragments with the address the client used.
 */
module Templates {
  import opened FieldLists

  const TMS_TAG := "]HOSTNAME["
  const HOST_TAG := "]HOSTNAME["
  const PATH_TAG := "]HOSTNAME/PATH["

  datatype Request = Request(scheme: string, hostName: string, path: string)

  // ----- Direct substitution -----

  /** Every leftmost, non-overlapping occurrence of `tag` replaced by `u`. */
  function Replace(t: string, tag: string, u: string): string
    requires tag != ""
    decreases |t|
  {
    if t == "" then ""
    else if tag <= t then u + Replace(t[|tag|..], tag, u)
    else [t[0]] + Replace(t[1..], tag, u)
  }

  /** How many occurrences that replaces. */
  function Count(t: string, tag: string): nat
    requires tag != ""
    decreases |t|
  {
    if t == "" then 0
    else if tag <= t then 1 + Count(t[|tag|..], tag)
    else Count(t[1..], tag)
  }

  // ----- Fragments -----

  predicate At(t: string, tag: string, p: int) { 0 <= p <= p + |tag| <= |t| && t[p..p + |tag|] == tag }

  predicate TagFree(t: string, tag: string) { forall p :: 0 <= p < |t| ==> !At(t, tag, p) }

  /** The text between the occurrences that `Replace` replaces. */
  function Pieces(t: string, tag: string): (f: seq<string>)
    requires tag != ""
    ensures f != []
    decreases |t|
  {
    if t == "" then [""]
    else if tag <= t then [""] + Pieces(t[|tag|..], tag)
    else
      var rest := Pieces(t[1..], tag);
      [[t[0]] + rest[0]] + rest[1..]
  }

  function Glue(f: seq<string>, u: string): string
    requires f != []
  {
    if |f| == 1 then f[0] else f[0] + u + Glue(f[1..], u)
  }

  lemma GlueHead(c: char, f: seq<string>, u: string)
    requires f != []
    ensures Glue([[c] + f[0]] + f[1..], u) == [c] + Glue(f, u)
  {
    var g := [[c] + f[0]] + f[1..];
    if |f| > 1 { assert g[1..] == f[1..]; }
  }

  lemma GlueEmpty(f: seq<string>, u: string)
    requires f != []
    ensures Glue([""] + f, u) == u + Glue(f, u)
  {
    assert ([""] + f)[1..] == f;
  }

  /** Gluing the pieces is direct substitution. */
  lemma {:induction false} GluedPiecesAreSubstitution(t: string, tag: string, u: string)
    requires tag != ""
    ensures Glue(Pieces(t, tag), u) == Replace(t, tag, u)
    decreases |t|
  {
    if t != "" {
      if tag <= t {
        GluedPiecesAreSubstitution(t[|tag|..], tag, u);
        GlueEmpty(Pieces(t[|tag|..], tag), u);
      } else {
        GluedPiecesAreSubstitution(t[1..], tag, u);
        GlueHead(t[0], Pieces(t[1..], tag), u);
      }
    }
  }

  /** Replacing a tag by itself changes nothing, and there is one fragment more than tags. */
  lemma {:induction false} PiecesLoseNothing(t: string, tag: string)
    requires tag != ""
    ensures Glue(Pieces(t, tag), tag) == t && |Pieces(t, tag)| == Count(t, tag) + 1
    decreases |t|
  {
    if t != "" {
      if tag <= t {
        PiecesLoseNothing(t[|tag|..], tag);
        GlueEmpty(Pieces(t[|tag|..], tag), tag);
        assert t == tag + t[|tag|..];
      } else {
        PiecesLoseNothing(t[1..], tag);
        GlueHead(t[0], Pieces(t[1..], tag), tag);
      }
    }
  }

  /** `p` is the leftmost occurrence at or after `from`, or -1 for none. */
  predicate IsFind(t: string, tag: string, from: nat, p: int) {
    if p == -1 then forall q :: from <= q < |t| ==> !At(t, tag, q)
    else from <= p && At(t, tag, p) && forall q :: from <= q < p ==> !At(t, tag, q)
  }

  lemma AtZero(t: string, tag: string)
    ensures At(t, tag, 0) <==> tag <= t
  {
    if |tag| <= |t| { assert t[0..|tag|] == t[..|tag|]; }
  }

  lemma AtDrop(t: string, tag: string, k: nat, q: int)
    requires k <= |t| && q >= 0
    ensures At(t[k..], tag, q) <==> At(t, tag, q + k)
  {
    if q + k + |tag| <= |t| { assert t[k..][q..q + |tag|] == t[q + k..q + k + |tag|]; }
  }

  lemma ConsFirst(t: string, from: nat, n: nat, others: seq<string>)
    requires from < n <= |t|
    ensures t[from + 1..|t|] == t[from + 1..] && t[from..|t|] == t[from..]
    ensures var rest := [t[from + 1..n]] + others; [[t[from]] + rest[0]] + rest[1..] == [t[from..n]] + others
  {
    assert [t[from]] + t[from + 1..n] == t[from..n];
  }

  lemma {:induction false} PiecesFromFind(t: string, tag: string, from: nat, p: int)
    requires tag != "" && from <= |t| && IsFind(t, tag, from, p)
    ensures Pieces(t[from..], tag) ==
            if p == -1 then [t[from..]] else [t[from..p]] + Pieces(t[p + |tag|..], tag)
    decreases |t| - from
  {
    var s := t[from..];
    AtZero(s, tag);
    AtDrop(t, tag, from, 0);
    if s != "" {
      if from == p {
        assert t[from..p] == "" && s[|tag|..] == t[p + |tag|..];
      } else {
        assert s[1..] == t[from + 1..];
        PiecesFromFind(t, tag, from + 1, p);
        ConsFirst(t, from, if p == -1 then |t| else p, if p == -1 then [] else Pieces(t[p + |tag|..], tag));
      }
    }
  }

  lemma PrefixIsTagFree(t: string, tag: string, n: nat)
    requires n <= |t| && forall q :: 0 <= q < n ==> !At(t, tag, q)
    ensures TagFree(t[..n], tag)
  {
    forall q | 0 <= q < n
      ensures !At(t[..n], tag, q)
    {
      assert !At(t, tag, q);
      assert q + |tag| <= n ==> t[q..q + |tag|] == t[..n][q..q + |tag|];
    }
  }

  /** No fragment contains the tag. */
  lemma {:induction false} PiecesAreTagFree(t: string, tag: string, k: nat)
    requires tag != "" && k < |Pieces(t, tag)|
    ensures TagFree(Pieces(t, tag)[k], tag)
    decreases |t|
  {
    assert t[0..] == t;
    var p := FindIn(t, tag, 0);
    PiecesFromFind(t, tag, 0, p);
    var n := if p == -1 then |t| else p;
    PrefixIsTagFree(t, tag, n);
    assert t[..n] == Pieces(t, tag)[0];
    if k > 0 { PiecesAreTagFree(t[p + |tag|..], tag, k - 1); }
  }

  lemma FindIn(t: string, tag: string, from: nat) returns (p: int)
    requires tag != "" && from <= |t|
    ensures IsFind(t, tag, from, p)
    decreases |t| - from
  {
    if from == |t| { p := -1; }
    else if At(t, tag, from) { p := from; }
    else { p := FindIn(t, tag, from + 1); }
  }

  // ----- The server's code -----

  /** `std::string::find`. */
  method Find(t: string, tag: string, from: nat) returns (p: int)
    requires tag != "" && from <= |t|
    ensures IsFind(t, tag, from, p)
  {
    p := from;
    while p + |tag| <= |t|
      invariant from <= p <= |t|
      invariant forall q :: from <= q < p ==> !At(t, tag, q)
    {
      if t[p..p + |tag|] == tag { return; }
      p := p + 1;
    }
    p := -1;
  }

  /** One turn of the cutting loop: the next fragment goes over from what is left. */
  lemma CutNext(frags: seq<string>, rest: seq<string>, t: string, tag: string, beginPos: nat, endPos: nat)
    returns (left: seq<string>)
    requires tag != "" && beginPos <= |t| && IsFind(t, tag, beginPos, endPos) && rest == Pieces(t[beginPos..], tag)
    ensures endPos + |tag| <= |t| && left == Pieces(t[endPos + |tag|..], tag)
    ensures (frags + [t[beginPos..endPos]]) + left == frags + rest
  {
    left := Pieces(t[endPos + |tag|..], tag);
    PiecesFromFind(t, tag, beginPos, endPos);
    MoveOver(frags, t[beginPos..endPos], left);
  }

  lemma CutLast(t: string, tag: string, beginPos: nat)
    requires tag != "" && beginPos <= |t| && IsFind(t, tag, beginPos, -1)
    ensures Pieces(t[beginPos..], tag) == [t[beginPos..]]
  {
    PiecesFromFind(t, tag, beginPos, -1);
  }

  /** The cutting loop from `start` on. */
  method CutFrom(t: string, tag: string, start: nat) returns (frags: seq<string>)
    requires tag != "" && start <= |t|
    ensures frags == Pieces(t[start..], tag)
  {
    frags := [];
    var beginPos := start;
    var endPos := Find(t, tag, beginPos);
    ghost var all := Pieces(t[start..], tag);
    ghost var rest := all;
    while endPos != -1
      invariant beginPos <= |t| && IsFind(t, tag, beginPos, endPos)
      invariant rest == Pieces(t[beginPos..], tag) && frags + rest == all
      decreases |t| - beginPos
    {
      rest := CutNext(frags, rest, t, tag, beginPos, endPos);
      frags := frags + [t[beginPos..endPos]];
      beginPos := endPos + |tag|;
      assert rest == Pieces(t[beginPos..], tag) && frags + rest == all;
      endPos := Find(t, tag, beginPos);
    }
    CutLast(t, tag, beginPos);
    frags := frags + [t[beginPos..]];
  }

  /** The gluing loop from fragment `first` on. */
  method GlueFrom(frags: seq<string>, first: nat, url: string) returns (capa: string)
    requires first < |frags|
    ensures capa == Glue(frags[first..], url)
  {
    capa := "";
    var i := first;
    while i < |frags| - 1
      invariant first <= i < |frags|
      invariant capa + Glue(frags[i..], url) == Glue(frags[first..], url)
    {
      assert frags[i..][1..] == frags[i + 1..];
      capa := capa + frags[i] + url;
      i := i + 1;
    }
    capa := capa + frags[|frags| - 1];
  }

  /** The fragment lists of `Rok4Server`. */
  class CapabilitiesCache {
    var tmsCapaFrag: seq<string>
    var wmtsCapaFrag: seq<string>
    var wmsCapaFrag: map<string, seq<string>>

    constructor ()
      ensures tmsCapaFrag == [] && wmtsCapaFrag == [] && wmsCapaFrag == map[]
    {
      tmsCapaFrag, wmtsCapaFrag, wmsCapaFrag := [], [], map[];
    }

    method BuildTms(template: string)
      requires tmsCapaFrag == []
      modifies this`tmsCapaFrag
      ensures tmsCapaFrag == Pieces(template, TMS_TAG)
    {
      assert template[0..] == template;
      tmsCapaFrag := CutFrom(template, TMS_TAG, 0);
    }

    method BuildWmts(template: string)
      requires wmtsCapaFrag == []
      modifies this`wmtsCapaFrag
      ensures wmtsCapaFrag == Pieces(template, PATH_TAG)
    {
      assert template[0..] == template;
      wmtsCapaFrag := CutFrom(template, PATH_TAG, 0);
    }

    /** The template of a WMS version carries the host tag; `host` is its leftmost occurrence. */
    method BuildWms(version: string, template: string, ghost host: nat)
      requires IsFind(template, HOST_TAG, 0, host)
      modifies this`wmsCapaFrag
      ensures wmsCapaFrag == if version in old(wmsCapaFrag) then old(wmsCapaFrag) else
                old(wmsCapaFrag)[version := [template[..host]] + Pieces(template[host + |HOST_TAG|..], PATH_TAG)]
    {
      var endPos := Find(template, HOST_TAG, 0);
      assert endPos == host;
      var rest := CutFrom(template, PATH_TAG, endPos + |HOST_TAG|);
      if version !in wmsCapaFrag {
        wmsCapaFrag := wmsCapaFrag[version := [template[..endPos]] + rest];
      }
    }

    /** Every tag becomes the address that was asked, without a final slash. */
    method TmsGetCapabilities(r: Request, ghost template: string) returns (capa: string)
      requires tmsCapaFrag == Pieces(template, TMS_TAG)
      ensures var asked := r.scheme + r.hostName + r.path;
        && (asked != "" && asked[|asked| - 1] == '/' ==>
              capa == Replace(template, "]HOSTNAME[", asked[..|asked| - 1]))
        && (asked == "" || asked[|asked| - 1] != '/' ==> capa == Replace(template, "]HOSTNAME[", asked))
    {
      var url := r.scheme + r.hostName + r.path;
      if url != "" && url[|url| - 1] == '/' {
        url := url[..|url| - 1];
      }
      capa := GlueFrom(tmsCapaFrag, 0, url);
      assert tmsCapaFrag[0..] == tmsCapaFrag;
      GluedPiecesAreSubstitution(template, TMS_TAG, url);
    }

    /** Every tag becomes the address that was asked, ready for parameters. */
    method WmtsGetCapabilities(r: Request, ghost template: string) returns (capa: string)
      requires wmtsCapaFrag == Pieces(template, PATH_TAG)
      ensures capa == Replace(template, "]HOSTNAME/PATH[", r.scheme + r.hostName + r.path + "?")
    {
      var url := r.scheme + r.hostName + r.path + "?";
      capa := GlueFrom(wmtsCapaFrag, 0, url);
      assert wmtsCapaFrag[0..] == wmtsCapaFrag;
      GluedPiecesAreSubstitution(template, PATH_TAG, url);
    }

    /** The first host tag becomes the host address, every later path tag the full address. */
    method WmsGetCapabilities(r: Request, version: string, ghost template: string, ghost host: nat) returns (capa: string)
      requires IsFind(template, "]HOSTNAME[", 0, host) && version in wmsCapaFrag
      requires wmsCapaFrag[version] == [template[..host]] + Pieces(template[host + |HOST_TAG|..], PATH_TAG)
      ensures capa == template[..host] + r.scheme + r.hostName
                      + Replace(template[host + |"]HOSTNAME["|..], "]HOSTNAME/PATH[", r.scheme + r.hostName + r.path + "?")
    {
      var url := r.scheme + r.hostName + r.path + "?";
      var capaFrag := wmsCapaFrag[version];
      capa := capaFrag[0] + r.scheme + r.hostName;
      var rest := GlueFrom(capaFrag, 1, url);
      capa := capa + rest;
      GluedPiecesAreSubstitution(template[host + |HOST_TAG|..], PATH_TAG, url);
    }
  }

  // ----- Both tags of a WMS document -----

  /** Both tags replaced in one pass. */
  function ReplaceBoth(t: string, hostUrl: string, pathUrl: string): string
    decreases |t|
  {
    if t == "" then ""
    else if HOST_TAG <= t then hostUrl + ReplaceBoth(t[|HOST_TAG|..], hostUrl, pathUrl)
    else if PATH_TAG <= t then pathUrl + ReplaceBoth(t[|PATH_TAG|..], hostUrl, pathUrl)
    else [t[0]] + ReplaceBoth(t[1..], hostUrl, pathUrl)
  }

  lemma {:induction false} WithoutHostTag(t: string, hostUrl: string, pathUrl: string)
    requires TagFree(t, HOST_TAG)
    ensures ReplaceBoth(t, hostUrl, pathUrl) == Replace(t, PATH_TAG, pathUrl)
    decreases |t|
  {
    if t != "" {
      AtZero(t, HOST_TAG);
      var k := if PATH_TAG <= t then |PATH_TAG| else 1;
      forall q | 0 <= q < |t[k..]|
        ensures !At(t[k..], HOST_TAG, q)
      {
        AtDrop(t, HOST_TAG, k, q);
      }
      WithoutHostTag(t[k..], hostUrl, pathUrl);
    }
  }

  lemma TakeFirst(t: string, host: nat, b: string, d: string)
    requires host <= |t|
    ensures host == 0 ==> t[..host] + b + d == b + d
    ensures host > 0 ==> t[..host] + b + d == [t[0]] + (t[1..][..host - 1] + b + d)
  {
    if host > 0 {
      assert t[..host] == [t[0]] + t[1..][..host - 1];
    }
  }

  lemma NoTagInFront(t: string, hostUrl: string, pathUrl: string)
    requires t != "" && !At(t, HOST_TAG, 0) && !At(t, PATH_TAG, 0)
    ensures ReplaceBoth(t, hostUrl, pathUrl) == [t[0]] + ReplaceBoth(t[1..], hostUrl, pathUrl)
  {
    AtZero(t, HOST_TAG);
    AtZero(t, PATH_TAG);
  }

  lemma HostTagInFront(t: string, hostUrl: string, pathUrl: string)
    requires At(t, HOST_TAG, 0)
    ensures ReplaceBoth(t, hostUrl, pathUrl) == hostUrl + ReplaceBoth(t[|HOST_TAG|..], hostUrl, pathUrl)
  {
    AtZero(t, HOST_TAG);
  }

  lemma HostTagOfRest(t: string, host: nat)
    requires host > 0 && At(t, HOST_TAG, host)
    requires forall q :: 0 <= q < host ==> !At(t, HOST_TAG, q) && !At(t, PATH_TAG, q)
    ensures At(t[1..], HOST_TAG, host - 1)
    ensures forall q :: 0 <= q < host - 1 ==> !At(t[1..], HOST_TAG, q) && !At(t[1..], PATH_TAG, q)
    ensures t[1..][host - 1 + |HOST_TAG|..] == t[host + |HOST_TAG|..]
  {
    forall q | 0 <= q <= host - 1
      ensures At(t[1..], HOST_TAG, q) <==> At(t, HOST_TAG, q + 1)
      ensures At(t[1..], PATH_TAG, q) <==> At(t, PATH_TAG, q + 1)
    {
      AtDrop(t, HOST_TAG, 1, q);
      AtDrop(t, PATH_TAG, 1, q);
    }
  }

  /**
   * When the host tag occurs once and no path tag comes before it, as in the templates the server
   * builds, the WMS response is the template with both tags replaced in one pass.
   */
  lemma {:induction false} WmsIsSubstitutionOfBoth(t: string, host: nat, hostUrl: string, pathUrl: string)
    requires At(t, HOST_TAG, host) && TagFree(t[host + |HOST_TAG|..], HOST_TAG)
    requires forall q :: 0 <= q < host ==> !At(t, HOST_TAG, q) && !At(t, PATH_TAG, q)
    ensures t[..host] + hostUrl + Replace(t[host + |HOST_TAG|..], PATH_TAG, pathUrl)
         == ReplaceBoth(t, hostUrl, pathUrl)
    decreases host
  {
    if host == 0 {
      HostTagInFront(t, hostUrl, pathUrl);
      WithoutHostTag(t[|HOST_TAG|..], hostUrl, pathUrl);
    } else {
      HostTagOfRest(t, host);
      NoTagInFront(t, hostUrl, pathUrl);
      WmsIsSubstitutionOfBoth(t[1..], host - 1, hostUrl, pathUrl);
    }
    TakeFirst(t, host, hostUrl, Replace(t[host + |HOST_TAG|..], PATH_TAG, pathUrl));
  }
}
