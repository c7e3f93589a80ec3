/**
 * Separator-delimited lists: `Rok4Server::split`, which reads fields with `getline` and so drops
 * a trailing empty field, the keep-all reading of the same text, and `Join`, which writes it.
 */
module FieldLists {
  /** The first position of `c` in `s`, or the length of `s`. */
  function IndexOf<T(==)>(s: seq<T>, c: T): (i: nat)
    ensures i <= |s| && (i < |s| ==> s[i] == c)
    ensures forall j :: 0 <= j < i ==> s[j] != c
  {
    if s == [] || s[0] == c then 0 else 1 + IndexOf(s[1..], c)
  }

  lemma IndexOfIs<T>(s: seq<T>, c: T, i: nat)
    requires i <= |s| && (i < |s| ==> s[i] == c)
    requires forall j :: 0 <= j < i ==> s[j] != c
    ensures IndexOf(s, c) == i
  {
  }

  /** Every field between separators: one more field than there are separators. */
  function AllFields<T(==)>(s: seq<T>, c: T): (f: seq<seq<T>>)
    ensures f != []
    decreases |s|
  {
    var i := IndexOf(s, c);
    if i < |s| then [s[..i]] + AllFields(s[i + 1..], c) else [s]
  }

  /** What a `getline` loop reads: nothing after a final separator. */
  function Split<T(==)>(s: seq<T>, c: T): (f: seq<seq<T>>)
    decreases |s|
  {
    if s == [] then []
    else
      var i := IndexOf(s, c);
      [s[..i]] + (if i < |s| then Split(s[i + 1..], c) else [])
  }

  function Join<T>(f: seq<seq<T>>, c: T): seq<T> {
    if f == [] then []
    else if |f| == 1 then f[0]
    else f[0] + [c] + Join(f[1..], c)
  }

  predicate FreeOf<T(==)>(f: seq<seq<T>>, c: T) {
    forall k :: 0 <= k < |f| ==> c !in f[k]
  }

  lemma {:induction false} JoinPrefix<T>(f: seq<seq<T>>, i: nat, c: T)
    requires 1 <= i < |f|
    ensures Join(f[..i + 1], c) == Join(f[..i], c) + [c] + f[i]
  {
    if i == 1 {
      assert f[..2][1..] == [f[1]];
    } else {
      JoinPrefix(f[1..], i - 1, c);
      assert f[..i + 1][1..] == f[1..][..i] && f[..i][1..] == f[1..][..i - 1];
    }
  }

  lemma JoinOfCons<T>(x: seq<T>, rest: seq<seq<T>>, c: T)
    requires rest != []
    ensures Join([x] + rest, c) == x + [c] + Join(rest, c)
  {
    assert ([x] + rest)[1..] == rest;
  }

  lemma {:induction false} JoinAllFields<T>(s: seq<T>, c: T)
    ensures Join(AllFields(s, c), c) == s && FreeOf(AllFields(s, c), c)
    decreases |s|
  {
    var i := IndexOf(s, c);
    if i < |s| {
      JoinAllFields(s[i + 1..], c);
      JoinOfCons(s[..i], AllFields(s[i + 1..], c), c);
      assert s == s[..i] + [c] + s[i + 1..];
    } else {
      assert s[..i] == s;
    }
  }

  lemma CutAt<U>(a: seq<U>, x: U, b: seq<U>)
    ensures var s := a + [x] + b; s[..|a|] == a && s[|a|] == x && s[|a| + 1..] == b
  {
  }

  lemma {:induction false} AllFieldsJoin<T>(f: seq<seq<T>>, c: T)
    requires f != [] && FreeOf(f, c)
    ensures AllFields(Join(f, c), c) == f
  {
    var s := Join(f, c);
    if |f| == 1 {
      IndexOfIs(s, c, |s|);
    } else {
      AllFieldsJoin(f[1..], c);
      CutAt(f[0], c, Join(f[1..], c));
      IndexOfIs(s, c, |f[0]|);
    }
  }

  /** `split` and the keep-all reading differ by exactly one trailing empty field. */
  lemma {:induction false} SplitDropsLastEmpty<T>(s: seq<T>, c: T)
    ensures var f := AllFields(s, c);
            Split(s, c) == if f[|f| - 1] == [] then f[..|f| - 1] else f
    decreases |s|
  {
    var i := IndexOf(s, c);
    if i < |s| {
      SplitDropsLastEmpty(s[i + 1..], c);
    } else {
      assert s[..i] == s;
    }
  }

  /**
   * Reading back a joined list with `split` gives the list exactly when no field contains the
   * separator and the last field is not empty.
   */
  lemma SplitJoin<T>(f: seq<seq<T>>, c: T)
    requires f != []
    ensures Split(Join(f, c), c) == f <==> FreeOf(f, c) && f[|f| - 1] != []
  {
    var s := Join(f, c);
    var all := AllFields(s, c);
    SplitDropsLastEmpty(s, c);
    JoinAllFields(s, c);
    if Split(s, c) == f {
      forall k | 0 <= k < |f|
        ensures c !in f[k]
      {
        assert f[k] == all[k];
      }
    }
    if FreeOf(f, c) { AllFieldsJoin(f, c); }
  }

  lemma SplitJoinHead<T>(f: seq<seq<T>>, c: T)
    requires |f| > 1 && c !in f[0]
    ensures Split(Join(f, c), c) == [f[0]] + Split(Join(f[1..], c), c)
  {
    var s := Join(f, c);
    CutAt(f[0], c, Join(f[1..], c));
    IndexOfIs(s, c, |f[0]|);
  }

  lemma SplitJoinDirtyHead<T>(f: seq<seq<T>>, c: T)
    requires f != [] && c in f[0]
    ensures Split(Join(f, c), c) != [] && Split(Join(f, c), c)[0] == f[0][..IndexOf(f[0], c)]
  {
    var s := Join(f, c);
    var p := IndexOf(f[0], c);
    assert s[..|f[0]|] == f[0];
    IndexOfIs(s, c, p);
    assert s[..p] == f[0][..p];
  }

  /** `split` agrees with the list before the first field that contains the separator, and cuts that field. */
  lemma {:induction false} SplitJoinPrefix<T>(f: seq<seq<T>>, c: T, i: nat)
    requires i < |f| && FreeOf(f[..i], c) && c in f[i]
    ensures |Split(Join(f, c), c)| > i
    ensures Split(Join(f, c), c)[..i] == f[..i]
    ensures Split(Join(f, c), c)[i] == f[i][..IndexOf(f[i], c)]
  {
    if i == 0 {
      SplitJoinDirtyHead(f, c);
    } else {
      assert f[..i][0] == f[0] && f[1..][..i - 1] == f[..i][1..];
      SplitJoinHead(f, c);
      SplitJoinPrefix(f[1..], c, i - 1);
      PrefixOfCons(f[0], Split(Join(f[1..], c), c), i);
      PrefixOfCons(f[0], f[1..], i);
      assert f == [f[0]] + f[1..];
    }
  }

  lemma PrefixOfCons<U>(x: U, rest: seq<U>, i: nat)
    requires 1 <= i <= |rest|
    ensures ([x] + rest)[..i] == [x] + rest[..i - 1] && ([x] + rest)[i] == rest[i - 1]
  {
  }

  /** One turn of the reading loop: the field from `pos` ends at `end`. */
  lemma SplitStep<T>(s: seq<T>, c: T, pos: nat, end: nat)
    requires pos < |s| && pos <= end <= |s|
    requires (forall j :: pos <= j < end ==> s[j] != c) && (end < |s| ==> s[end] == c)
    ensures end < |s| ==> Split(s[pos..], c) == [s[pos..end]] + Split(s[end + 1..], c)
    ensures end == |s| ==> Split(s[pos..], c) == [s[pos..end]] + Split(s[end..], c)
  {
    var rest := s[pos..];
    assert rest[..end - pos] == s[pos..end];
    IndexOfIs(rest, c, end - pos);
    if end < |s| { assert rest[end - pos + 1..] == s[end + 1..]; }
  }

  method FindFrom<T(==)>(s: seq<T>, c: T, pos: nat) returns (end: nat)
    requires pos <= |s|
    ensures pos <= end <= |s| && (end < |s| ==> s[end] == c)
    ensures forall j :: pos <= j < end ==> s[j] != c
  {
    end := pos;
    while end < |s| && s[end] != c
      invariant pos <= end <= |s|
      invariant forall j :: pos <= j < end ==> s[j] != c
    {
      end := end + 1;
    }
  }

  /** `getline`: the field at `pos` and where the next one starts. */
  method GetField<T(==)>(s: seq<T>, delim: T, pos: nat) returns (field: seq<T>, next: nat)
    requires pos < |s|
    ensures pos < next <= |s|
    ensures Split(s[pos..], delim) == [field] + Split(s[next..], delim)
  {
    var end := FindFrom(s, delim, pos);
    SplitStep(s, delim, pos, end);
    field := s[pos..end];
    next := if end < |s| then end + 1 else end;
  }

  lemma MoveOver<U>(done: seq<U>, x: U, rest: seq<U>)
    ensures done + ([x] + rest) == (done + [x]) + rest
  {
  }

  /** `Rok4Server::split`. */
  method SplitFields<T(==)>(s: seq<T>, delim: T) returns (elems: seq<seq<T>>)
    ensures elems == Split(s, delim)
  {
    elems := [];
    var pos := 0;
    assert s[0..] == s;
    while pos < |s|
      invariant 0 <= pos <= |s|
      invariant elems + Split(s[pos..], delim) == Split(s, delim)
    {
      var field;
      field, pos := GetField(s, delim, pos);
      MoveOver(elems, field, Split(s[pos..], delim));
      elems := elems + [field];
    }
  }

  /** `Request::containForbiddenChars`. */
  predicate ContainsForbiddenChars(s: string) { '<' in s || '>' in s }
}
