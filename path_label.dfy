/** The blackboard's subtitle: the graph's path as shown in the label, and the
    sanitisation applied to a path the user types (BlackboardProvider.FormatPath
    and BlackboardProvider.SanitizePath). Strings are sequences of Dafny
    characters (Unicode scalar values). */
module PathLabel {

  /** The placeholder the label shows for an empty path (an em dash). */
  const Placeholder: string := "\U{2014}"

  /** The path separator. */
  const Separator: char := '/'

  /** C#'s char.IsWhiteSpace, which string.Trim strips: the control
      characters U+0009..U+000D and U+0085, and the space-, line- and
      paragraph-separator categories (U+0020, U+00A0, U+1680,
      U+2000..U+200A, U+2028, U+2029, U+202F, U+205F and U+3000). */
  predicate IsWhiteSpace(c: char)
  {
    || '\t' <= c <= '\r'
    || c == ' ' || c == '\U{0085}' || c == '\U{00A0}' || c == '\U{1680}'
    || '\U{2000}' <= c <= '\U{200A}'
    || c == '\U{2028}' || c == '\U{2029}' || c == '\U{202F}' || c == '\U{205F}' || c == '\U{3000}'
  }

  /** A string with no white space at either end. */
  predicate Trimmed(s: string)
  {
    s == [] || (!IsWhiteSpace(s[0]) && !IsWhiteSpace(s[|s| - 1]))
  }

  /** A string made of white space only. */
  predicate AllWhiteSpace(s: string)
  {
    forall k :: 0 <= k < |s| ==> IsWhiteSpace(s[k])
  }

  /** Drops the longest all-white-space prefix. */
  function TrimStart(s: string): (r: string)
    ensures |r| <= |s| && r == s[|s| - |r|..]
    ensures forall i :: 0 <= i < |s| - |r| ==> IsWhiteSpace(s[i])
    ensures r == [] || !IsWhiteSpace(r[0])
    decreases |s|
  {
    if s != [] && IsWhiteSpace(s[0]) then TrimStart(s[1..]) else s
  }

  /** Drops the longest all-white-space suffix. */
  function TrimEnd(s: string): (r: string)
    ensures |r| <= |s| && r == s[..|r|]
    ensures forall i :: |r| <= i < |s| ==> IsWhiteSpace(s[i])
    ensures r == [] || !IsWhiteSpace(r[|r| - 1])
    decreases |s|
  {
    if s != [] && IsWhiteSpace(s[|s| - 1]) then TrimEnd(s[..|s| - 1]) else s
  }

  /** string.Trim(): the part of s between its leading and trailing white space. */
  function Trim(s: string): (r: string)
    ensures Trimmed(r)
    ensures |r| <= |s|
  {
    TrimEnd(TrimStart(s))
  }

  /** string.Trim() keeps one slice of s: everything before it, as long as
      the leading white space, and everything after it is white space. */
  lemma TrimSlice(s: string)
    ensures var i := |s| - |TrimStart(s)|;
      && i + |Trim(s)| <= |s|
      && Trim(s) == s[i..i + |Trim(s)|]
      && AllWhiteSpace(s[..i])
      && AllWhiteSpace(s[i + |Trim(s)|..])
  {
    var t := TrimStart(s);
    var i := |s| - |t|;
    var r := TrimEnd(t);
    assert r == t[..|r|] == s[i..i + |r|];
    WhiteSpacePrefix(s, i);
    var tail := s[i + |r|..];
    forall k | 0 <= k < |tail|
      ensures IsWhiteSpace(tail[k])
    {
      assert tail[k] == t[|r| + k];
    }
  }

  /** A prefix whose characters are all white space. */
  lemma WhiteSpacePrefix(s: string, i: nat)
    requires i <= |s| && forall k :: 0 <= k < i ==> IsWhiteSpace(s[k])
    ensures AllWhiteSpace(s[..i])
  {
    assert forall k :: 0 <= k < i ==> s[..i][k] == s[k];
  }

  /** Trimming only removes characters: it brings none into the string. */
  lemma TrimAddsNothing(s: string, c: char)
    requires c !in s
    ensures c !in Trim(s)
  {
    var t := TrimStart(s);
    assert t == s[|s| - |t|..];
    assert TrimEnd(t) == t[..|TrimEnd(t)|];
  }

  /** Trimming leaves a string without white space at its ends as it is. */
  lemma TrimOfTrimmed(s: string)
    requires Trimmed(s)
    ensures Trim(s) == s
  {
    assert TrimStart(s) == s;
    assert TrimEnd(s) == s;
  }

  /** The position of the first occurrence of c in s. */
  function IndexOf(s: string, c: char): (k: nat)
    requires c in s
    ensures k < |s| && s[k] == c && c !in s[..k]
  {
    if s[0] == c then 0 else 1 + IndexOf(s[1..], c)
  }

  /** Any position holding c with no c before it is the first occurrence. */
  lemma IndexOfFirst(s: string, c: char, k: nat)
    requires k < |s| && s[k] == c && c !in s[..k]
    ensures IndexOf(s, c) == k
  {
    var j := IndexOf(s, c);
    assert s[..k][..] == s[..k];
    assert j == k;
  }

  /** string.Split(sep): the maximal sep-free pieces of s, empty ones kept,
      so that "" splits into [""] and "a//b" into ["a", "", "b"]. */
  function Split(s: string, sep: char): (parts: seq<string>)
    ensures |parts| >= 1
    ensures forall i :: 0 <= i < |parts| ==> sep !in parts[i]
    decreases |s|
  {
    if sep in s then
      var k := IndexOf(s, sep);
      [s[..k]] + Split(s[k + 1..], sep)
    else
      [s]
  }

  /** string.Join(sep, parts): the parts with sep between neighbours. */
  function Join(parts: seq<string>, sep: char): (s: string)
    ensures parts == [] ==> s == []
    ensures |parts| == 1 ==> s == parts[0]
  {
    if parts == [] then []
    else if |parts| == 1 then parts[0]
    else parts[0] + [sep] + Join(parts[1..], sep)
  }

  /** Joining a part in front of other parts puts a separator after it. */
  lemma JoinCons(head: string, rest: seq<string>, sep: char)
    requires rest != []
    ensures Join([head] + rest, sep) == head + [sep] + Join(rest, sep)
  {
    assert ([head] + rest)[1..] == rest;
  }

  /** Joining the pieces of a split gives back the string. */
  lemma {:induction false} JoinSplit(s: string, sep: char)
    ensures Join(Split(s, sep), sep) == s
    decreases |s|
  {
    if sep in s {
      var k := IndexOf(s, sep);
      var rest := Split(s[k + 1..], sep);
      JoinSplit(s[k + 1..], sep);
      assert Split(s, sep) == [s[..k]] + rest;
      JoinCons(s[..k], rest, sep);
      assert s == s[..k] + [sep] + s[k + 1..];
    }
  }

  /** A split begins with the piece before the first separator. */
  lemma SplitAtFirst(s: string, sep: char, k: nat)
    requires k < |s| && s[k] == sep && sep !in s[..k]
    ensures Split(s, sep) == [s[..k]] + Split(s[k + 1..], sep)
  {
    IndexOfFirst(s, sep, k);
  }

  /** Splitting a join of sep-free parts gives back the parts. */
  lemma {:induction false} SplitJoin(parts: seq<string>, sep: char)
    requires parts != []
    requires forall i :: 0 <= i < |parts| ==> sep !in parts[i]
    ensures Split(Join(parts, sep), sep) == parts
    decreases |parts|
  {
    if |parts| > 1 {
      var head, tail := parts[0], Join(parts[1..], sep);
      var s := head + [sep] + tail;
      assert Join(parts, sep) == s;
      assert s[..|head|] == head && s[|head| + 1..] == tail;
      SplitAtFirst(s, sep, |head|);
      SplitJoin(parts[1..], sep);
      assert parts == [head] + parts[1..];
    } else {
      assert sep !in parts[0];
    }
  }

  /** A trimmed copy of every part, in order. */
  function TrimAll(parts: seq<string>): (ts: seq<string>)
    ensures |ts| == |parts|
    ensures forall i :: 0 <= i < |ts| ==> ts[i] == Trim(parts[i])
  {
    if parts == [] then [] else [Trim(parts[0])] + TrimAll(parts[1..])
  }

  /** The strings of ts that are not empty, in their original order. */
  function DropBlank(ts: seq<string>): (r: seq<string>)
    ensures |r| <= |ts|
    ensures [] !in r
    ensures forall s :: s in r ==> s in ts
  {
    if ts == [] then []
    else if ts[0] == [] then DropBlank(ts[1..])
    else [ts[0]] + DropBlank(ts[1..])
  }

  /** The segments SanitizePath keeps: each part trimmed, blank ones dropped,
      in their original order. */
  function CleanSegments(parts: seq<string>): (r: seq<string>)
    ensures |r| <= |parts|
    ensures [] !in r
  {
    DropBlank(TrimAll(parts))
  }

  /** BlackboardProvider.SanitizePath: split on '/', trim every segment, drop
      the empty ones and join what is left with '/'. */
  function SanitizePath(path: string): string
  {
    Join(CleanSegments(Split(path, Separator)), Separator)
  }

  /** BlackboardProvider.FormatPath: the text the subtitle label shows for a
      path. The label is never empty, and it is the placeholder exactly for
      the empty path and for a path that is the placeholder itself. */
  function FormatPath(path: string): (r: string)
    ensures r != []
    ensures path != [] ==> r == path
    ensures r == Placeholder <==> (path == [] || path == Placeholder)
  {
    if path == [] then Placeholder else path
  }

  /** Two paths show the same label exactly when they are equal or are the
      empty path and the placeholder. */
  lemma FormatPathCollision(a: string, b: string)
    ensures FormatPath(a) == FormatPath(b) <==>
      (a == b || (a == [] && b == Placeholder) || (a == Placeholder && b == []))
  {
  }

  /** The paths SanitizePath produces, described character by character: no
      white space at either end, and every '/' has a neighbour on each side
      that is neither '/' nor white space (so the path neither starts nor
      ends with '/', never doubles it, and no segment has white space at its
      ends). */
  predicate WellFormedPath(p: string)
  {
    && Trimmed(p)
    && forall i :: 0 <= i < |p| && p[i] == Separator ==>
         && 0 < i < |p| - 1
         && p[i + 1] != Separator
         && !IsWhiteSpace(p[i - 1])
         && !IsWhiteSpace(p[i + 1])
  }

  /** Joining non-empty, trimmed, '/'-free segments gives a well-formed path. */
  lemma {:induction false} JoinWellFormed(segs: seq<string>)
    requires forall i :: 0 <= i < |segs| ==> segs[i] != [] && Trimmed(segs[i]) && Separator !in segs[i]
    ensures WellFormedPath(Join(segs, Separator))
  {
    if |segs| > 1 {
      var head, tail := segs[0], Join(segs[1..], Separator);
      JoinWellFormed(segs[1..]);
      assert segs[1] != [] && Trimmed(segs[1]);
      assert Join(segs[1..], Separator) == if |segs| == 2 then segs[1] else segs[1] + [Separator] + Join(segs[2..], Separator);
      assert tail != [] && tail[0] == segs[1][0];
      var p := head + [Separator] + tail;
      assert Join(segs, Separator) == p;
      assert forall j :: 0 <= j < |head| ==> p[j] == head[j];
      assert forall j :: |head| < j < |p| ==> p[j] == tail[j - |head| - 1];
    } else if |segs| == 1 {
      assert Join(segs, Separator) == segs[0];
    }
  }

  /** Every segment of a non-empty well-formed path is non-empty and trimmed. */
  lemma {:induction false} SplitWellFormed(p: string)
    requires p != [] && WellFormedPath(p)
    ensures forall i :: 0 <= i < |Split(p, Separator)| ==>
      Split(p, Separator)[i] != [] && Trimmed(Split(p, Separator)[i])
    decreases |p|
  {
    if Separator in p {
      var k := IndexOf(p, Separator);
      var rest := p[k + 1..];
      assert p[..k] != [] && Trimmed(p[..k]) by {
        assert 0 < k;
        assert !IsWhiteSpace(p[k - 1]);
      }
      assert rest != [] && rest[0] == p[k + 1];
      assert WellFormedPath(rest) by {
        forall i | 0 <= i < |rest| && rest[i] == Separator
          ensures 0 < i < |rest| - 1
        {
          assert p[k + 1 + i] == Separator;
        }
      }
      SplitWellFormed(rest);
      assert Split(p, Separator) == [p[..k]] + Split(rest, Separator);
    } else {
      assert Split(p, Separator) == [p];
    }
  }

  /** Dropping blanks from strings that are all non-empty changes nothing. */
  lemma {:induction false} DropBlankOfNonBlank(ts: seq<string>)
    requires [] !in ts
    ensures DropBlank(ts) == ts
  {
    if ts != [] {
      DropBlankOfNonBlank(ts[1..]);
      assert ts == [ts[0]] + ts[1..];
    }
  }

  /** Cleaning segments that are already non-empty and trimmed changes nothing. */
  lemma CleanSegmentsOfClean(segs: seq<string>)
    requires forall i :: 0 <= i < |segs| ==> segs[i] != [] && Trimmed(segs[i])
    ensures CleanSegments(segs) == segs
  {
    forall i | 0 <= i < |segs|
      ensures TrimAll(segs)[i] == segs[i]
    {
      TrimOfTrimmed(segs[i]);
    }
    assert TrimAll(segs) == segs;
    DropBlankOfNonBlank(segs);
  }

  /** Sanitising always yields a well-formed path. */
  lemma SanitizePathWellFormed(path: string)
    ensures WellFormedPath(SanitizePath(path))
  {
    var segs := CleanSegments(Split(path, Separator));
    CleanSegmentsClean(Split(path, Separator), Separator);
    JoinWellFormed(segs);
  }

  /** Every kept segment is trimmed, and trimming and dropping never bring a
      separator into a segment. */
  lemma CleanSegmentsClean(parts: seq<string>, sep: char)
    requires forall i :: 0 <= i < |parts| ==> sep !in parts[i]
    ensures forall i :: 0 <= i < |CleanSegments(parts)| ==>
      Trimmed(CleanSegments(parts)[i]) && sep !in CleanSegments(parts)[i]
  {
    var ts := TrimAll(parts);
    forall j | 0 <= j < |ts|
      ensures Trimmed(ts[j]) && sep !in ts[j]
    {
      TrimAddsNothing(parts[j], sep);
    }
    forall i | 0 <= i < |CleanSegments(parts)|
      ensures Trimmed(CleanSegments(parts)[i]) && sep !in CleanSegments(parts)[i]
    {
      assert CleanSegments(parts)[i] in ts;
    }
  }

  /** The empty path sanitises to itself. */
  lemma SanitizeEmpty()
    ensures SanitizePath([]) == []
  {
    assert Split([], Separator) == [[]];
    assert TrimAll([[]]) == [[]];
    assert DropBlank([[]]) == [];
  }

  /** Sanitising leaves a well-formed path as it is. */
  lemma SanitizeWellFormedUnchanged(p: string)
    requires WellFormedPath(p)
    ensures SanitizePath(p) == p
  {
    if p == [] {
      SanitizeEmpty();
    } else {
      var parts := Split(p, Separator);
      SplitWellFormed(p);
      CleanSegmentsOfClean(parts);
      JoinSplit(p, Separator);
    }
  }

  /** The fixed points of SanitizePath are exactly the well-formed paths. */
  lemma SanitizePathFixedPoints(p: string)
    ensures SanitizePath(p) == p <==> WellFormedPath(p)
  {
    if WellFormedPath(p) {
      SanitizeWellFormedUnchanged(p);
    } else {
      SanitizePathWellFormed(p);
    }
  }

  /** Sanitising a sanitised path returns it unchanged. */
  lemma SanitizePathIdempotent(path: string)
    ensures SanitizePath(SanitizePath(path)) == SanitizePath(path)
  {
    SanitizePathWellFormed(path);
    SanitizeWellFormedUnchanged(SanitizePath(path));
  }

  /** The segments of the sanitised path are exactly the cleaned segments of
      the input: splitting the result on '/' gives them back, and the result
      is empty exactly when every segment of the input is blank. */
  lemma SanitizePathSegments(path: string)
    ensures SanitizePath(path) == [] <==> CleanSegments(Split(path, Separator)) == []
    ensures SanitizePath(path) != [] ==>
      Split(SanitizePath(path), Separator) == CleanSegments(Split(path, Separator))
  {
    var segs := CleanSegments(Split(path, Separator));
    CleanSegmentsClean(Split(path, Separator), Separator);
    if segs != [] {
      assert segs[0] != [];
      assert |Join(segs, Separator)| >= |segs[0]| by {
        if |segs| > 1 {
          assert Join(segs, Separator) == segs[0] + [Separator] + Join(segs[1..], Separator);
        }
      }
      SplitJoin(segs, Separator);
    }
  }

  /** a can be obtained from b by deleting elements. */
  predicate IsSubsequence<T(==)>(a: seq<T>, b: seq<T>)
    decreases |b|
  {
    if a == [] then true
    else if b == [] then false
    else if a[0] == b[0] then IsSubsequence(a[1..], b[1..])
    else IsSubsequence(a, b[1..])
  }

  /** A common first element extends a subsequence. */
  lemma SubsequenceCons<T>(x: T, a: seq<T>, b: seq<T>)
    requires IsSubsequence(a, b)
    ensures IsSubsequence([x] + a, [x] + b)
  {
    assert ([x] + a)[1..] == a;
    assert ([x] + b)[1..] == b;
  }

  /** An element in front of b that a does not start with can be skipped. */
  lemma SubsequenceSkip<T>(x: T, a: seq<T>, b: seq<T>)
    requires IsSubsequence(a, b) && (a == [] || a[0] != x)
    ensures IsSubsequence(a, [x] + b)
  {
    assert ([x] + b)[1..] == b;
  }

  /** A common last element extends a subsequence, and an element after b
      can be skipped. */
  lemma {:induction false} SubsequenceSnoc<T>(x: T, a: seq<T>, b: seq<T>)
    requires IsSubsequence(a, b)
    ensures IsSubsequence(a + [x], b + [x]) && IsSubsequence(a, b + [x])
    decreases |b|
  {
    if b == [] {
      assert a == [];
      assert ([x] + [])[1..] == [];
    } else if a == [] {
      SubsequenceSnoc(x, a, b[1..]);
      assert (b + [x])[1..] == b[1..] + [x];
    } else {
      assert (a + [x])[1..] == a[1..] + [x];
      assert (b + [x])[1..] == b[1..] + [x];
      if a[0] == b[0] {
        SubsequenceSnoc(x, a[1..], b[1..]);
      } else {
        SubsequenceSnoc(x, a, b[1..]);
      }
    }
  }

  /** Dropping blanks keeps the order of what is left. */
  lemma {:induction false} DropBlankKeepsOrder(ts: seq<string>)
    ensures IsSubsequence(DropBlank(ts), ts)
  {
    if ts != [] {
      DropBlankKeepsOrder(ts[1..]);
      var rest := DropBlank(ts[1..]);
      if ts[0] == [] {
        SubsequenceSkip(ts[0], rest, ts[1..]);
      } else {
        SubsequenceCons(ts[0], rest, ts[1..]);
      }
      assert [ts[0]] + ts[1..] == ts;
    }
  }

  /** Dropping blanks keeps every string that is not empty. */
  lemma {:induction false} DropBlankKeeps(ts: seq<string>, i: nat)
    requires i < |ts| && ts[i] != []
    ensures ts[i] in DropBlank(ts)
  {
    if i > 0 {
      assert ts[i] == ts[1..][i - 1];
      DropBlankKeeps(ts[1..], i - 1);
    }
  }

  /** Dropping blanks keeps every non-empty string as often as it occurs:
      only the empty strings go. */
  lemma {:induction false} DropBlankCounts(ts: seq<string>)
    ensures multiset(DropBlank(ts)) == multiset(ts)[[] := 0]
  {
    if ts != [] {
      DropBlankCounts(ts[1..]);
      assert ts == [ts[0]] + ts[1..];
      assert multiset(ts) == multiset{ts[0]} + multiset(ts[1..]);
      if ts[0] != [] {
        assert multiset(DropBlank(ts)) == multiset{ts[0]} + multiset(DropBlank(ts[1..]));
      }
    }
  }

  /** The kept segments are trimmed parts in their original order. */
  lemma CleanSegmentsKeepOrder(parts: seq<string>)
    ensures IsSubsequence(CleanSegments(parts), TrimAll(parts))
  {
    DropBlankKeepsOrder(TrimAll(parts));
  }

  /** Only blank parts are left out: every part that is not blank after
      trimming is kept. */
  lemma CleanSegmentsKeepNonBlank(parts: seq<string>, i: nat)
    requires i < |parts| && Trim(parts[i]) != []
    ensures Trim(parts[i]) in CleanSegments(parts)
  {
    DropBlankKeeps(TrimAll(parts), i);
  }

  /** Exactly the blank parts are left out: every part that is not blank
      after trimming is kept as often as it occurs, and nothing else is. */
  lemma CleanSegmentsCounts(parts: seq<string>)
    ensures multiset(CleanSegments(parts)) == multiset(TrimAll(parts))[[] := 0]
  {
    DropBlankCounts(TrimAll(parts));
  }
}
