/**
  `get_path_after`: whether a path lies below a directory, compared path
  element by path element, and if so the part of the path that remains.
  Runs of `/` separate elements, so `/home//user/` and `home/user` name the
  same directory, while `/home/username` is not below `/home/user`.
 */
module PathPrefix {
  import opened Basics

  /** The text with its leading slashes skipped. */
  function StripSlashes(s: string): (r: string)
    ensures |r| <= |s| && r == s[|s| - |r|..]
    ensures |r| > 0 ==> r[0] != '/'
  {
    if |s| > 0 && s[0] == '/' then StripSlashes(s[1..]) else s
  }

  /** The path elements of `s`: the maximal runs of characters other than
      `/`, in order. */
  function Elements(s: string): seq<string>
    decreases |s|
  {
    var t := StripSlashes(s);
    if |t| == 0 then []
    else
      var e := IndexOf(t, '/');
      [t[..e]] + Elements(t[e..])
  }

  predicate IsSeqPrefix<T(==)>(a: seq<T>, b: seq<T>) {
    |a| <= |b| && b[..|a|] == a
  }

  /** The function as written, one element per step: after skipping
      slashes on both sides, an exhausted prefix yields the rest of the
      path; otherwise the prefix's next element must be matched character
      by character and end exactly where the path's element ends. */
  function PathAfter(str: string, prefix: string): (r: Option<string>)
    ensures r.Some? && |r.value| > 0 ==> r.value[0] != '/'
    decreases |prefix|
  {
    var s := StripSlashes(str);
    var p := StripSlashes(prefix);
    if |p| == 0 then Some(s)
    else
      var e := IndexOf(p, '/');
      if e <= |s| && s[..e] == p[..e] && (e == |s| || s[e] == '/') then
        PathAfter(s[e..], p[e..])
      else None
  }

  /** Comparing one element of the prefix against the path, character by
      character up to the end of the prefix element and then requiring the
      path element to end there too, is comparing the two whole elements. */
  lemma ElementMatch(s: string, p: string)
    requires |s| > 0 ==> s[0] != '/'
    requires |p| > 0 && p[0] != '/'
    ensures var e := IndexOf(p, '/');
      var f := IndexOf(s, '/');
      (e <= |s| && s[..e] == p[..e] && (e == |s| || s[e] == '/')) <==> (|s| > 0 && s[..f] == p[..e])
    ensures var e := IndexOf(p, '/');
      var f := IndexOf(s, '/');
      |s| > 0 && s[..f] == p[..e] ==> e == f
  {
    var e := IndexOf(p, '/');
    var f := IndexOf(s, '/');
    assert e > 0;
    if e <= |s| && s[..e] == p[..e] && (e == |s| || s[e] == '/') {
      IndexOfFirst(p, '/');
      assert forall i :: 0 <= i < e ==> s[i] == p[..e][i] && p[i] != '/';
      IndexOfExact(s, '/', e);
    }
    if |s| > 0 && s[..f] == p[..e] {
      assert |s[..f]| == e;
    }
  }

  /** The path elements of a text are those of the text with its leading
      slashes skipped: the first element, then the elements of the rest. */
  lemma ElementsStep(t: string)
    requires |t| > 0 && t[0] != '/'
    ensures Elements(t) == [t[..IndexOf(t, '/')]] + Elements(t[IndexOf(t, '/')..])
  {
  }

  /** The elements of a text do not change when its leading slashes are
      skipped. */
  lemma ElementsStripped(str: string)
    ensures Elements(StripSlashes(str)) == Elements(str)
  {
    var s := StripSlashes(str);
    assert StripSlashes(s) == s;
  }

  /** One element at the head of both sequences. */
  lemma ConsPrefix<T>(a: T, b: T, xs: seq<T>, ys: seq<T>)
    ensures IsSeqPrefix([a] + xs, [b] + ys) <==> a == b && IsSeqPrefix(xs, ys)
    ensures |xs| <= |ys| ==> ([b] + ys)[1 + |xs|..] == ys[|xs|..]
  {
    if a == b && IsSeqPrefix(xs, ys) {
      assert ([b] + ys)[..1 + |xs|] == [b] + ys[..|xs|];
    }
    if IsSeqPrefix([a] + xs, [b] + ys) {
      assert ([a] + xs)[0] == ([b] + ys)[0];
      assert ([b] + ys)[..1 + |xs|][1..] == ys[..|xs|];
    }
  }

  /** The element-wise reading of `get_path_after`: a remainder is found
      exactly when the prefix's elements begin the path's elements, and it
      holds the path's remaining elements. */
  predicate PathAfterReads(str: string, prefix: string) {
    && (PathAfter(str, prefix).Some? <==> IsSeqPrefix(Elements(prefix), Elements(str)))
    && (PathAfter(str, prefix).Some? ==>
          Elements(PathAfter(str, prefix).value) == Elements(str)[|Elements(prefix)|..])
  }

  /** `get_path_after` finds a remainder exactly when the prefix's elements
      begin the path's elements, and the remainder holds the path's
      remaining elements. */
  lemma {:induction false} PathAfterElements(str: string, prefix: string)
    ensures PathAfterReads(str, prefix)
    decreases |prefix|
  {
    var s := StripSlashes(str);
    var p := StripSlashes(prefix);
    if |p| == 0 || |s| == 0 || s[..IndexOf(s, '/')] != p[..IndexOf(p, '/')] {
      UnmatchedElement(str, prefix);
    } else {
      var e := IndexOf(p, '/');
      PathAfterElements(s[e..], p[e..]);
      MatchedElementCarries(str, prefix);
    }
  }

  /** The cases that end the search: the prefix is used up, the path is,
      or the first elements differ. */
  lemma UnmatchedElement(str: string, prefix: string)
    requires var s := StripSlashes(str); var p := StripSlashes(prefix);
      |p| == 0 || |s| == 0 || s[..IndexOf(s, '/')] != p[..IndexOf(p, '/')]
    ensures PathAfterReads(str, prefix)
  {
    var s := StripSlashes(str);
    var p := StripSlashes(prefix);
    ElementsStripped(str);
    ElementsStripped(prefix);
    if |p| == 0 {
      assert Elements(prefix) == [];
      assert PathAfter(str, prefix) == Some(s);
    } else {
      var e := IndexOf(p, '/');
      ElementsStep(p);
      ElementMatch(s, p);
      if |s| == 0 {
        assert Elements(str) == [];
      } else {
        var f := IndexOf(s, '/');
        ElementsStep(s);
        ConsPrefix(p[..e], s[..f], Elements(p[e..]), Elements(s[f..]));
      }
      assert PathAfter(str, prefix).None?;
    }
  }

  /** When the first elements agree, the search goes on from the ends of
      those elements. */
  lemma MatchedElement(str: string, prefix: string)
    requires var s := StripSlashes(str); var p := StripSlashes(prefix);
      |p| > 0 && |s| > 0 && s[..IndexOf(s, '/')] == p[..IndexOf(p, '/')]
    ensures var s := StripSlashes(str); var p := StripSlashes(prefix); var e := IndexOf(p, '/');
      && PathAfter(str, prefix) == PathAfter(s[e..], p[e..])
      && Elements(str) == [p[..e]] + Elements(s[e..])
      && Elements(prefix) == [p[..e]] + Elements(p[e..])
  {
    var s := StripSlashes(str);
    var p := StripSlashes(prefix);
    ElementMatch(s, p);
    ElementsStripped(str);
    ElementsStripped(prefix);
    ElementsStep(s);
    ElementsStep(p);
  }

  /** The element-wise reading carries over one matched element. */
  lemma MatchedElementCarries(str: string, prefix: string)
    requires var s := StripSlashes(str); var p := StripSlashes(prefix);
      |p| > 0 && |s| > 0 && s[..IndexOf(s, '/')] == p[..IndexOf(p, '/')]
    requires var s := StripSlashes(str); var p := StripSlashes(prefix); var e := IndexOf(p, '/');
      PathAfterReads(s[e..], p[e..])
    ensures PathAfterReads(str, prefix)
  {
    var s := StripSlashes(str);
    var p := StripSlashes(prefix);
    var e := IndexOf(p, '/');
    var r := PathAfter(s[e..], p[e..]);
    MatchedElement(str, prefix);
    CarryOne(r, if r.Some? then Elements(r.value) else [], p[..e], Elements(p[e..]), Elements(s[e..]));
  }

  /** The step of `MatchedElementCarries` stated over the element lists
      alone: a common head element changes neither the prefix test nor the
      remaining elements. */
  lemma CarryOne(r: Option<string>, rest: seq<string>, h: string, xs: seq<string>, ys: seq<string>)
    requires r.Some? <==> IsSeqPrefix(xs, ys)
    requires r.Some? ==> rest == ys[|xs|..]
    ensures r.Some? <==> IsSeqPrefix([h] + xs, [h] + ys)
    ensures r.Some? ==> rest == ([h] + ys)[|[h] + xs|..]
  {
    ConsPrefix(h, h, xs, ys);
  }

  predicate IsSuffix(r: string, s: string) {
    |r| <= |s| && s[|s| - |r|..] == r
  }

  /** What `get_path_after` returns points into the path itself. */
  lemma PathAfterSuffix(str: string, prefix: string)
    ensures PathAfter(str, prefix).Some? ==> IsSuffix(PathAfter(str, prefix).value, str)
  {
    var s, p := StripSlashes(str), StripSlashes(prefix);
    PathAfterStripped(str, prefix);
    StrippedSuffix(s, p);
    if PathAfter(s, p).Some? {
      SuffixTrans(PathAfter(s, p).value, s, str);
    }
  }

  /** `PathAfterSuffix` for texts whose leading slashes are already
      skipped, by induction on the prefix. */
  lemma {:induction false} StrippedSuffix(s: string, p: string)
    requires StripSlashes(s) == s && StripSlashes(p) == p
    ensures PathAfter(s, p).Some? ==> IsSuffix(PathAfter(s, p).value, s)
    decreases |p|
  {
    if |p| == 0 {
      EmptyPrefix(s, p);
    } else if PathAfter(s, p).Some? {
      var e := IndexOf(p, '/');
      MatchedIfFound(s, p, e);
      MatchStep(s, p, e);
      var s2, p2 := StripSlashes(s[e..]), StripSlashes(p[e..]);
      PathAfterStripped(s[e..], p[e..]);
      StripStable(s2);
      StripStable(p2);
      StrippedSuffix(s2, p2);
      var r := PathAfter(s2, p2);
      assert PathAfter(s, p) == r;
      SuffixTrans(r.value, s2, s[e..]);
      DropIsSuffix(s, e);
      SuffixTrans(r.value, s[e..], s);
    }
  }

  /** Skipping leading slashes on either side first changes nothing. */
  lemma PathAfterStripped(str: string, prefix: string)
    ensures PathAfter(StripSlashes(str), StripSlashes(prefix)) == PathAfter(str, prefix)
  {
    var s, p := StripSlashes(str), StripSlashes(prefix);
    StripStable(s);
    StripStable(p);
    if |p| == 0 {
      assert PathAfter(s, p) == Some(s);
    } else {
      var e := IndexOf(p, '/');
      var step := e <= |s| && s[..e] == p[..e] && (e == |s| || s[e] == '/');
      assert PathAfter(s, p) == if step then PathAfter(s[e..], p[e..]) else None;
    }
  }

  /** A text that does not start with a slash has none to skip. */
  lemma StripStable(t: string)
    requires |t| > 0 ==> t[0] != '/'
    ensures StripSlashes(t) == t
  {
  }

  /** A used-up prefix leaves the whole path, less its leading slashes. */
  lemma EmptyPrefix(str: string, prefix: string)
    requires StripSlashes(prefix) == []
    ensures PathAfter(str, prefix) == Some(StripSlashes(str))
  {
  }

  /** A matched first element: the search goes on after it. */
  lemma MatchStep(str: string, prefix: string, e: nat)
    requires StripSlashes(str) == str && StripSlashes(prefix) == prefix && |prefix| > 0
    requires e == IndexOf(prefix, '/') && e <= |str| && str[..e] == prefix[..e]
    requires e == |str| || str[e] == '/'
    ensures PathAfter(str, prefix) == PathAfter(str[e..], prefix[e..])
  {
  }

  /** An unmatched first element: there is no remainder. */
  lemma MismatchStep(str: string, prefix: string, e: nat)
    requires StripSlashes(str) == str && StripSlashes(prefix) == prefix && |prefix| > 0
    requires e == IndexOf(prefix, '/')
    requires !(e <= |str| && str[..e] == prefix[..e] && (e == |str| || str[e] == '/'))
    ensures PathAfter(str, prefix).None?
  {
  }

  /** A remainder means the first element matched. */
  lemma MatchedIfFound(str: string, prefix: string, e: nat)
    requires StripSlashes(str) == str && StripSlashes(prefix) == prefix && |prefix| > 0
    requires e == IndexOf(prefix, '/') && PathAfter(str, prefix).Some?
    ensures e <= |str| && str[..e] == prefix[..e] && (e == |str| || str[e] == '/')
  {
  }

  /** A leading slash is skipped. */
  lemma StripOneSlash(z: string)
    requires |z| > 0 ==> z[0] != '/'
    ensures StripSlashes("/" + z) == z
  {
    assert ("/" + z)[1..] == z;
    StripStable(z);
  }

  lemma DropIsSuffix(s: string, e: nat)
    requires e <= |s|
    ensures IsSuffix(s[e..], s)
  {
  }

  lemma SuffixTrans(a: string, b: string, c: string)
    requires IsSuffix(a, b) && IsSuffix(b, c)
    ensures IsSuffix(a, c)
  {
    assert c[|c| - |a|..] == c[|c| - |b|..][|b| - |a|..];
  }

  /** The loop in `get_path_after`, over indices into the two strings
      rather than pointers; the end of a text plays the role of the NUL. */
  method GetPathAfter(str: string, prefix: string) returns (r: Option<string>)
    ensures r == PathAfter(str, prefix)
  {
    var i: nat, j: nat := 0, 0;
    while true
      invariant i <= |str| && j <= |prefix|
      invariant PathAfter(str[i..], prefix[j..]) == PathAfter(str, prefix)
      decreases |prefix| - j
    {
      PathAfterStripped(str[i..], prefix[j..]);
      i := SkipSlashes(str, i);
      j := SkipSlashes(prefix, j);
      if j == |prefix| {
        return Some(str[i..]);
      }
      var matched, i', j' := CompareElement(str, i, prefix, j);
      if !matched {
        return None;
      }
      i, j := i', j';
    }
  }

  /** `while (*s == '/') s++;` */
  method SkipSlashes(s: string, i: nat) returns (k: nat)
    requires i <= |s|
    ensures i <= k <= |s|
    ensures s[k..] == StripSlashes(s[i..])
  {
    k := i;
    while k < |s| && s[k] == '/'
      invariant i <= k <= |s|
      invariant StripSlashes(s[k..]) == StripSlashes(s[i..])
    {
      assert s[k..][1..] == s[k + 1..];
      k := k + 1;
    }
  }

  /** The comparison of one prefix element against the path, followed by
      the check that the path element ends there as well. When it succeeds
      the search goes on after that element. */
  method CompareElement(str: string, i: nat, prefix: string, j: nat) returns (matched: bool, i': nat, j': nat)
    requires i <= |str| && j < |prefix|
    requires StripSlashes(str[i..]) == str[i..] && StripSlashes(prefix[j..]) == prefix[j..]
    ensures matched ==> i' <= |str| && j < j' <= |prefix|
    ensures matched ==> PathAfter(str[i'..], prefix[j'..]) == PathAfter(str[i..], prefix[j..])
    ensures !matched ==> PathAfter(str[i..], prefix[j..]).None?
  {
    var s, p := str[i..], prefix[j..];
    var e := IndexOf(p, '/');
    var k, whole := CommonPart(s, p);
    if !whole {
      ElementMismatch(s, p, k);
      return false, i, j;
    }
    if k < |s| && s[k] != '/' {
      MismatchStep(s, p, e);
      return false, i, j;
    }
    matched, i', j' := true, i + e, j + e;
    MatchStepAt(str, i, prefix, j, e, i', j');
  }

  /** `MatchStep` at positions inside the two texts. */
  lemma MatchStepAt(str: string, i: nat, prefix: string, j: nat, e: nat, i': nat, j': nat)
    requires i <= |str| && j < |prefix|
    requires StripSlashes(str[i..]) == str[i..] && StripSlashes(prefix[j..]) == prefix[j..]
    requires e == IndexOf(prefix[j..], '/') && e <= |str[i..]| && str[i..][..e] == prefix[j..][..e]
    requires e == |str[i..]| || str[i..][e] == '/'
    requires i' == i + e && j' == j + e
    ensures i' <= |str| && j < j' <= |prefix|
    ensures PathAfter(str[i'..], prefix[j'..]) == PathAfter(str[i..], prefix[j..])
  {
    var s, p := str[i..], prefix[j..];
    MatchStep(s, p, e);
    DropDrop(str, i, e, i');
    DropDrop(prefix, j, e, j');
  }

  lemma DropDrop(t: string, i: nat, e: nat, k: nat)
    requires i + e <= |t| && k == i + e
    ensures t[i..][e..] == t[k..]
  {
  }

  /** The character loop of one element comparison: it walks both texts
      while the prefix element lasts and the characters agree. `whole`
      says the whole prefix element was matched. */
  method CommonPart(s: string, p: string) returns (k: nat, whole: bool)
    requires |p| > 0 && p[0] != '/'
    ensures k <= IndexOf(p, '/') && k <= |s|
    ensures s[..k] == p[..k]
    ensures whole <==> k == IndexOf(p, '/')
    ensures !whole ==> k == |s| || s[k] != p[k]
  {
    k := 0;
    while k < |p| && p[k] != '/'
      invariant k <= |p| && k <= |s|
      invariant forall m :: 0 <= m < k ==> p[m] != '/' && s[m] == p[m]
    {
      if k == |s| || s[k] != p[k] {
        assert s[..k] == p[..k];
        return k, false;
      }
      k := k + 1;
    }
    IndexOfExact(p, '/', k);
    assert s[..k] == p[..k];
    whole := true;
  }

  /** A character that differs inside the prefix's first element (or a path
      that ends too early) means no match. */
  lemma ElementMismatch(s: string, p: string, k: nat)
    requires StripSlashes(s) == s && StripSlashes(p) == p && |p| > 0
    requires k < IndexOf(p, '/')
    requires k == |s| || (k < |s| && s[k] != p[k])
    ensures PathAfter(s, p).None?
  {
    var e := IndexOf(p, '/');
    if e <= |s| {
      assert s[..e][k] != p[..e][k];
    }
    MismatchStep(s, p, e);
  }

  /** Every path is below itself, with nothing left over. */
  lemma {:induction false} PathAfterSelf(str: string)
    ensures PathAfter(str, str) == Some("")
    decreases |str|
  {
    var s := StripSlashes(str);
    if |s| > 0 {
      var e := IndexOf(s, '/');
      PathAfterSelf(s[e..]);
    }
  }

  /** A directory whose name merely starts with the prefix's element is
      not below it: `username` against `user`. */
  lemma LongerNameNotBelow(x: string, z: string)
    requires |x| > 0 && |z| > 0
    requires forall k :: 0 <= k < |x| ==> x[k] != '/'
    requires z[0] != '/'
    ensures PathAfter(x + z, x).None?
  {
    var s := x + z;
    StripStable(x);
    StripStable(s);
    IndexOfExact(x, '/', |x|);
    assert s[..|x|] == x && s[|x|] == z[0];
  }

  /** The element followed by a slash is below it, and what follows the
      slash is what remains: `user/docs` against `user`. */
  lemma ChildIsBelow(x: string, z: string)
    requires |x| > 0
    requires forall k :: 0 <= k < |x| ==> x[k] != '/'
    requires |z| > 0 ==> z[0] != '/'
    ensures PathAfter(x + "/" + z, x) == Some(z)
  {
    var s := x + "/" + z;
    StripStable(x);
    StripStable(s);
    IndexOfExact(x, '/', |x|);
    assert s[..|x|] == x[..|x|] && s[|x|] == '/';
    MatchStep(s, x, |x|);
    assert s[|x|..] == "/" + z;
    assert x[|x|..] == [];
    EmptyPrefix("/" + z, []);
    StripOneSlash(z);
  }
}
