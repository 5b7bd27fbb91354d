/** The parts of .NET's `System.IO.Path` the image gate uses, as they
    behave on Linux, where Lambda runs them: '/' is the only directory
    separator and a path is rooted exactly when it starts with '/'. */
module Paths {
  import opened Strings

  const Separator := '/'

  /** The last position of `s` holding a character of `cs`, or -1. */
  function LastIndexOfAny(s: string, cs: set<char>): (r: int)
    ensures -1 <= r < |s|
    ensures 0 <= r ==> s[r] in cs
    ensures forall j :: r < j < |s| ==> s[j] !in cs
    decreases |s|
  {
    if |s| == 0 then -1
    else if s[|s| - 1] in cs then |s| - 1
    else LastIndexOfAny(s[..|s| - 1], cs)
  }

  /** The contract of `LastIndexOfAny` pins its result down. */
  lemma LastIndexOfAnyUnique(s: string, cs: set<char>, k: int)
    requires -1 <= k < |s|
    requires 0 <= k ==> s[k] in cs
    requires forall j :: k < j < |s| ==> s[j] !in cs
    ensures LastIndexOfAny(s, cs) == k
  {
    var r := LastIndexOfAny(s, cs);
    assert 0 <= r ==> s[r] in cs;
    assert 0 <= k ==> s[k] in cs;
  }

  /** `Path.GetExtension`: scanning back from the end, the first '.' met
      before any separator starts the extension, unless it is the last
      character; no such '.' means no extension. */
  function Extension(path: string): (r: string)
    ensures r != [] ==> 2 <= |r| && r[0] == '.' && EndsWith(path, r)
    ensures forall k :: 1 <= k < |r| ==> r[k] != '.' && r[k] != Separator
  {
    var i := LastIndexOfAny(path, {'.', Separator});
    if 0 <= i && path[i] == '.' && i != |path| - 1 then path[i..] else ""
  }

  /** `Path.GetFileName`: what follows the last separator. */
  function FileName(path: string): (r: string)
    ensures EndsWith(path, r)
    ensures |r| == |path| - 1 - LastIndexOfAny(path, {Separator})
    ensures forall k :: 0 <= k < |r| ==> r[k] != Separator
  {
    path[LastIndexOfAny(path, {Separator}) + 1..]
  }

  /** `Path.GetFileNameWithoutExtension`: the file name up to its last '.',
      or all of it when it has none. */
  function FileNameWithoutExtension(path: string): (r: string)
    ensures forall k :: 0 <= k < |r| ==> r[k] != Separator
    ensures r <= FileName(path)
    ensures r == FileName(path) ==> forall k :: 0 <= k < |r| ==> r[k] != '.'
    ensures r != FileName(path) ==>
              var name := FileName(path);
              name[|r|] == '.' && forall k :: |r| < k < |name| ==> name[k] != '.'
  {
    var name := FileName(path);
    var i := LastIndexOfAny(name, {'.'});
    if i == -1 then name else name[..i]
  }

  predicate IsRooted(path: string) {
    0 < |path| && path[0] == Separator
  }

  /** What goes between a non-empty part and the next: nothing when the part
      already ends with a separator, otherwise one separator. */
  function Glue(part: string): (g: string)
    requires 0 < |part|
    ensures |g| <= 1 && (g == [] <==> part[|part| - 1] == Separator)
    ensures forall k :: 0 <= k < |g| ==> g[k] == Separator
  {
    if part[|part| - 1] == Separator then "" else [Separator]
  }

  /** The two-part join: a separator goes in only when neither side already
      has one at the boundary. */
  function Join2(first: string, second: string): string
    requires 0 < |first| && 0 < |second|
  {
    if first[|first| - 1] == Separator || second[0] == Separator then first + second
    else first + [Separator] + second
  }

  /** The three-part join, with the same rule at each boundary. */
  function Join3(first: string, second: string, third: string): string
    requires 0 < |first| && 0 < |second| && 0 < |third|
  {
    var s1 := if first[|first| - 1] == Separator || second[0] == Separator then "" else [Separator];
    var s2 := if second[|second| - 1] == Separator || third[0] == Separator then "" else [Separator];
    first + s1 + second + s2 + third
  }

  /** `Path.Combine(first, second)`: empty parts are dropped and a rooted
      second part replaces the first. */
  function Combine2(first: string, second: string): (r: string)
    ensures EndsWith(r, second)
    ensures !IsRooted(second) ==> first <= r
    ensures |r| <= |first| + 1 + |second|
    ensures |first| == 0 || IsRooted(second) ==> r == second
    ensures |second| == 0 ==> r == first
    ensures 0 < |first| && 0 < |second| && !IsRooted(second) ==> r == first + Glue(first) + second
  {
    if |first| == 0 then second
    else if |second| == 0 then first
    else if IsRooted(second) then second
    else Join2(first, second)
  }

  /** `Path.Combine(first, second, third)`. */
  function Combine3(first: string, second: string, third: string): (r: string)
    ensures EndsWith(r, third)
    ensures !IsRooted(second) && !IsRooted(third) ==> first <= r
    ensures |r| <= |first| + |second| + |third| + 2
    ensures |first| == 0 ==> r == Combine2(second, third)
    ensures |second| == 0 ==> r == Combine2(first, third)
    ensures |third| == 0 ==> r == Combine2(first, second)
    ensures IsRooted(third) ==> r == third
    ensures IsRooted(second) && !IsRooted(third) ==> r == Combine2(second, third)
    ensures 0 < |first| && 0 < |second| && 0 < |third| && !IsRooted(second) && !IsRooted(third) ==>
              r == first + Glue(first) + second + Glue(second) + third
  {
    if |first| == 0 then Combine2(second, third)
    else if |second| == 0 then Combine2(first, third)
    else if |third| == 0 then Combine2(first, second)
    else if IsRooted(third) then third
    else if IsRooted(second) then Combine2(second, third)
    else Join3(first, second, third)
  }

  /** Read position by position, a two-part join of non-empty parts with an
      unrooted second part is the first part, at most one separator, and
      the second part: the separator is there exactly when the first part
      does not already end with one. */
  lemma {:induction false} Combine2Components(first: string, second: string)
    requires 0 < |first| && 0 < |second| && !IsRooted(second)
    ensures var r := Combine2(first, second);
            && r[..|first|] == first
            && r[|r| - |second|..] == second
            && (|r| == |first| + |second| <==> first[|first| - 1] == Separator)
            && (|r| == |first| + 1 + |second| <==> first[|first| - 1] != Separator)
            && (|r| == |first| + 1 + |second| ==> r[|first|] == Separator)
  {
    var r := Combine2(first, second);
    var g := Glue(first);
    assert r == first + g + second;
    assert r[..|first|] == first;
    assert r[|r| - |second|..] == second;
    if g != [] {
      assert r[|first|] == g[0];
    }
  }

  /** A possible extension: a '.' followed by at least one character, none
      of them a '.' or a separator. */
  predicate ExtensionShaped(e: string) {
    2 <= |e| && e[0] == '.' && forall k :: 1 <= k < |e| ==> e[k] != '.' && e[k] != Separator
  }

  /** For an extension-shaped string, `GetExtension` returns it exactly when
      the path ends with it. */
  lemma ExtensionIffSuffix(path: string, e: string)
    requires ExtensionShaped(e)
    ensures Extension(path) == e <==> EndsWith(path, e)
  {
    if EndsWith(path, e) {
      var at := |path| - |e|;
      var i := LastIndexOfAny(path, {'.', Separator});
      assert path[at] == e[0];
      assert forall j :: at < j < |path| ==> path[j] == e[j - at];
      assert i == at;
    }
  }

  /** The file name is the name without its extension followed by the
      extension, whenever there is an extension. */
  lemma NameSplitsAtExtension(path: string)
    requires Extension(path) != []
    ensures FileNameWithoutExtension(path) + Extension(path) == FileName(path)
  {
    var i := LastIndexOfAny(path, {'.', Separator});
    var s := LastIndexOfAny(path, {Separator});
    assert 0 <= s ==> path[s] in {'.', Separator};
    assert path[i] !in {Separator};
    assert s < i;
    StemBeforeDot(path, s, i);
  }

  /** With no '.' after position `i` of the file name, the name without
      extension is what comes before `i`. */
  lemma StemBeforeDot(path: string, s: int, i: nat)
    requires s == LastIndexOfAny(path, {Separator})
    requires s < i < |path| && path[i] == '.'
    requires forall j :: i < j < |path| ==> path[j] != '.'
    ensures FileNameWithoutExtension(path) + path[i..] == FileName(path)
  {
    StemDotIndex(path, s, i);
    SliceSplit(path, s + 1, i);
  }

  lemma StemDotIndex(path: string, s: int, i: nat)
    requires s == LastIndexOfAny(path, {Separator})
    requires s < i < |path| && path[i] == '.'
    requires forall j :: i < j < |path| ==> path[j] != '.'
    ensures LastIndexOfAny(path[s + 1..], {'.'}) == i - (s + 1)
  {
    LastIndexOfAnyUnique(path, {'.'}, i);
    LastIndexOfAnySuffix(path, s + 1, {'.'});
  }

  /** Searching a suffix finds the same position, shifted, when it lies in
      the suffix. */
  lemma LastIndexOfAnySuffix(s: string, from: nat, cs: set<char>)
    requires from <= LastIndexOfAny(s, cs)
    ensures LastIndexOfAny(s[from..], cs) == LastIndexOfAny(s, cs) - from
  {
    var r := LastIndexOfAny(s, cs);
    var t := s[from..];
    assert t[r - from] == s[r];
    forall j | r - from < j < |t| ensures t[j] !in cs {
      assert t[j] == s[j + from];
    }
    LastIndexOfAnyUnique(t, cs, r - from);
  }

  lemma SliceSplit(p: string, from: nat, at: nat)
    requires from <= at <= |p|
    ensures p[from..][..at - from] + p[at..] == p[from..]
  {
    assert p[from..][at - from..] == p[at..];
  }

  /** Joining three non-empty parts that hold no separator puts exactly one
      separator between neighbours. */
  lemma Combine3Plain(first: string, second: string, third: string)
    requires 0 < |first| && 0 < |second| && 0 < |third|
    requires forall k :: 0 <= k < |first| ==> first[k] != Separator
    requires forall k :: 0 <= k < |second| ==> second[k] != Separator
    requires forall k :: 0 <= k < |third| ==> third[k] != Separator
    ensures Combine3(first, second, third) == first + "/" + second + "/" + third
  {
    assert first[|first| - 1] != Separator && second[0] != Separator;
    assert second[|second| - 1] != Separator && third[0] != Separator;
  }

  /** An empty middle part is dropped together with its separator. */
  lemma Combine3EmptyMiddle(first: string, third: string)
    requires 0 < |first| && 0 < |third|
    requires first[|first| - 1] != Separator && third[0] != Separator
    ensures Combine3(first, "", third) == first + "/" + third
  {
  }
}
