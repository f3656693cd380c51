/** Small shared vocabulary: optional values, order-preserving filtering of
    table rows, and the Python string and path operations the application
    relies on (`str.strip`, `str.startswith`, `in` on strings,
    `PurePosixPath.name`). */
module Common {

  datatype Option<T> = None | Some(value: T)

  /** The rows of `s` that satisfy `p`, in their original order: the model of
      a `query.filter_by(...)` over a table kept in insertion order. */
  function Filter<T(!new)>(s: seq<T>, p: T -> bool): (r: seq<T>)
    ensures |r| <= |s|
    ensures forall x :: x in r <==> x in s && p(x)
    decreases |s|
  {
    if s == [] then []
    else
      var init := s[..|s| - 1];
      assert forall x :: x in s <==> x in init || x == s[|s| - 1];
      Filter(init, p) + (if p(s[|s| - 1]) then [s[|s| - 1]] else [])
  }

  lemma FilterAppend<T(!new)>(s: seq<T>, x: T, p: T -> bool)
    ensures Filter(s + [x], p) == Filter(s, p) + (if p(x) then [x] else [])
  {
    assert (s + [x])[..|s + [x]| - 1] == s;
  }

  /** Filtering keeps rows in order: it is a subsequence obtained by removing
      exactly the rows that fail `p`, so filtering with an always-true
      predicate changes nothing. */
  lemma {:induction false} FilterAll<T(!new)>(s: seq<T>, p: T -> bool)
    requires forall x :: x in s ==> p(x)
    ensures Filter(s, p) == s
    decreases |s|
  {
    if s != [] {
      var init, last := s[..|s| - 1], s[|s| - 1];
      assert init + [last] == s;
      assert p(last);
      forall x | x in init ensures p(x) {
        assert x in s;
      }
      FilterAll(init, p);
      assert Filter(s, p) == Filter(init, p) + [last];
    }
  }

  /** `s[..k] + s[k+1..]`: a table after `session.delete` of row `k`. */
  function RemoveAt<T>(s: seq<T>, k: nat): (r: seq<T>)
    requires k < |s|
    ensures |r| == |s| - 1
    ensures forall i :: 0 <= i < k ==> r[i] == s[i]
    ensures forall i :: k <= i < |r| ==> r[i] == s[i + 1]
  {
    s[..k] + s[k + 1..]
  }

  lemma RemoveAtElements<T>(s: seq<T>, k: nat)
    requires k < |s|
    ensures forall x :: x in RemoveAt(s, k) ==> x in s
    ensures forall x :: x in s && x != s[k] ==> x in RemoveAt(s, k)
  {
    var r := RemoveAt(s, k);
    forall x | x in r ensures x in s {
      var i :| 0 <= i < |r| && r[i] == x;
      if i < k { assert s[i] == x; } else { assert s[i + 1] == x; }
    }
    forall x | x in s && x != s[k] ensures x in r {
      var i :| 0 <= i < |s| && s[i] == x;
      if i < k { assert r[i] == x; } else { assert i > k; assert r[i - 1] == x; }
    }
  }

  /** The last `n` elements of `s`, or all of them when there are fewer. */
  function LastN<T>(s: seq<T>, n: nat): (r: seq<T>)
    ensures |r| == (if |s| < n then |s| else n)
    ensures r == s[|s| - |r|..]
    ensures forall x :: x in r ==> x in s
  {
    if |s| < n then s else s[|s| - n..]
  }

  /** The index of the first element satisfying `p`, or -1: the model of
      `query.filter_by(...).first()` and `query.get(id)`. */
  function FirstIndex<T>(s: seq<T>, p: T -> bool): (k: int)
    ensures -1 <= k < |s|
    ensures k >= 0 ==> p(s[k]) && forall j :: 0 <= j < k ==> !p(s[j])
    ensures k == -1 <==> forall j :: 0 <= j < |s| ==> !p(s[j])
  {
    if s == [] then -1
    else if p(s[0]) then 0
    else
      var k := FirstIndex(s[1..], p);
      assert forall j :: 1 <= j < |s| ==> s[j] == s[1..][j - 1];
      if k == -1 then -1 else k + 1
  }

  /** Two sequences whose rows agree on `p` position by position have the
      same first match. */
  lemma FirstIndexAgree<T>(s: seq<T>, s': seq<T>, p: T -> bool)
    requires |s| == |s'|
    requires forall j :: 0 <= j < |s| ==> p(s[j]) == p(s'[j])
    ensures FirstIndex(s, p) == FirstIndex(s', p)
  {
    var a, b := FirstIndex(s, p), FirstIndex(s', p);
    if a >= 0 { assert p(s'[a]); }
    if b >= 0 { assert p(s[b]); }
  }

  lemma FirstIndexNone<T>(s: seq<T>, p: T -> bool)
    requires FirstIndex(s, p) == -1
    ensures forall x :: x in s ==> !p(x)
  {
    forall x | x in s ensures !p(x) {
      var i :| 0 <= i < |s| && s[i] == x;
    }
  }

  /** Rows in non-decreasing order of an integer column: `ORDER BY … ASC`. */
  predicate SortedBy<T>(s: seq<T>, key: T -> int)
  {
    forall i, j :: 0 <= i < j < |s| ==> key(s[i]) <= key(s[j])
  }

  /** `x` placed before the first row with a larger or equal key. */
  function InsertBy<T>(x: T, s: seq<T>, key: T -> int): (r: seq<T>)
    requires SortedBy(s, key)
    ensures SortedBy(r, key)
    ensures multiset(r) == multiset(s) + multiset{x}
    decreases |s|
  {
    if s == [] then [x]
    else if key(x) <= key(s[0]) then
      ConsSorted(x, s, key);
      [x] + s
    else
      assert s == [s[0]] + s[1..];
      var rest := InsertBy(x, s[1..], key);
      LowerBound(s[0], s[1..], x, rest, key);
      ConsSorted(s[0], rest, key);
      [s[0]] + rest
  }

  /** A row no larger than every row of a sorted sequence can lead it. */
  lemma ConsSorted<T>(h: T, s: seq<T>, key: T -> int)
    requires SortedBy(s, key)
    requires s != [] ==> key(h) <= key(s[0])
    ensures SortedBy([h] + s, key)
  {
    var r := [h] + s;
    forall i, j | 0 <= i < j < |r| ensures key(r[i]) <= key(r[j]) {
      if i == 0 {
        assert r[j] == s[j - 1];
        assert key(s[0]) <= key(s[j - 1]);
      } else {
        assert r[i] == s[i - 1] && r[j] == s[j - 1];
      }
    }
  }

  /** The head of a sorted sequence bounds the rows of any rearrangement of
      its tail with one larger row added. */
  lemma LowerBound<T>(h: T, tail: seq<T>, x: T, rest: seq<T>, key: T -> int)
    requires SortedBy([h] + tail, key) && key(h) < key(x)
    requires multiset(rest) == multiset(tail) + multiset{x}
    ensures rest != [] ==> key(h) <= key(rest[0])
  {
    if rest != [] {
      assert rest[0] in multiset(rest);
      if rest[0] != x {
        assert rest[0] in tail;
        var i :| 0 <= i < |tail| && tail[i] == rest[0];
        assert ([h] + tail)[0] == h && ([h] + tail)[i + 1] == tail[i];
      }
    }
  }

  /** The rows ordered by `key`, rows with equal keys keeping their order. */
  function SortBy<T>(s: seq<T>, key: T -> int): (r: seq<T>)
    ensures SortedBy(r, key)
    ensures multiset(r) == multiset(s)
    decreases |s|
  {
    if s == [] then []
    else
      assert s == [s[0]] + s[1..];
      InsertBy(s[0], SortBy(s[1..], key), key)
  }

  lemma SortByElements<T>(s: seq<T>, key: T -> int)
    ensures forall x :: x in SortBy(s, key) <==> x in s
  {
    var r := SortBy(s, key);
    forall x ensures x in r <==> x in s {
      assert x in r <==> x in multiset(r);
      assert x in s <==> x in multiset(s);
    }
  }

  /** No two rows share a key: a UNIQUE constraint. */
  ghost predicate DistinctBy<T, K>(s: seq<T>, key: T -> K)
  {
    forall i, j :: 0 <= i < j < |s| ==> key(s[i]) != key(s[j])
  }

  lemma DistinctByAppend<T, K>(s: seq<T>, x: T, key: T -> K)
    requires DistinctBy(s, key)
    requires forall i :: 0 <= i < |s| ==> key(s[i]) != key(x)
    ensures DistinctBy(s + [x], key)
  {
    var t := s + [x];
    forall i, j | 0 <= i < j < |t| ensures key(t[i]) != key(t[j]) {
      assert t[i] == s[i];
      if j < |s| { assert t[j] == s[j]; }
    }
  }

  lemma DistinctByRemoveAt<T, K>(s: seq<T>, k: nat, key: T -> K)
    requires k < |s| && DistinctBy(s, key)
    ensures DistinctBy(RemoveAt(s, k), key)
  {
    var r := RemoveAt(s, k);
    forall i, j | 0 <= i < j < |r| ensures key(r[i]) != key(r[j]) {
      var i' := if i < k then i else i + 1;
      var j' := if j < k then j else j + 1;
      assert r[i] == s[i'] && r[j] == s[j'];
    }
  }

  lemma DistinctByUpdate<T, K>(s: seq<T>, k: nat, x: T, key: T -> K)
    requires k < |s| && DistinctBy(s, key) && key(x) == key(s[k])
    ensures DistinctBy(s[k := x], key)
  {
    var r := s[k := x];
    forall i, j | 0 <= i < j < |r| ensures key(r[i]) != key(r[j]) {
      assert key(r[i]) == key(s[i]) && key(r[j]) == key(s[j]);
    }
  }

  lemma {:induction false} FilterConcat<T(!new)>(a: seq<T>, b: seq<T>, p: T -> bool)
    ensures Filter(a + b, p) == Filter(a, p) + Filter(b, p)
    decreases |b|
  {
    if b == [] {
      assert a + b == a;
    } else {
      var init := b[..|b| - 1];
      var last := b[|b| - 1];
      assert a + b == (a + init) + [last];
      assert b == init + [last];
      FilterAppend(a + init, last, p);
      FilterAppend(init, last, p);
      FilterConcat(a, init, p);
    }
  }

  /** Deleting one row never adds a row to a filtered view. */
  lemma FilterRemoveAt<T(!new)>(s: seq<T>, k: nat, p: T -> bool)
    requires k < |s|
    ensures Filter(s, p) == Filter(s[..k], p) + (if p(s[k]) then [s[k]] else []) + Filter(s[k + 1..], p)
    ensures Filter(RemoveAt(s, k), p) == Filter(s[..k], p) + Filter(s[k + 1..], p)
    ensures |Filter(RemoveAt(s, k), p)| == |Filter(s, p)| - (if p(s[k]) then 1 else 0)
  {
    assert s == (s[..k] + [s[k]]) + s[k + 1..];
    FilterConcat(s[..k] + [s[k]], s[k + 1..], p);
    FilterAppend(s[..k], s[k], p);
    FilterConcat(s[..k], s[k + 1..], p);
  }

  /** Replacing one row by a row that satisfies `p` exactly when the old one
      did leaves the filtered count unchanged. */
  lemma FilterUpdate<T(!new)>(s: seq<T>, k: nat, x: T, p: T -> bool)
    requires k < |s| && p(x) == p(s[k])
    ensures |Filter(s[k := x], p)| == |Filter(s, p)|
  {
    var u := s[k := x];
    assert u[..k] == s[..k] && u[k + 1..] == s[k + 1..];
    FilterRemoveAt(s, k, p);
    FilterRemoveAt(u, k, p);
  }

  /** Filtering keeps a UNIQUE constraint. */
  lemma {:induction false} DistinctByFilter<T(!new), K>(s: seq<T>, p: T -> bool, key: T -> K)
    requires DistinctBy(s, key)
    ensures DistinctBy(Filter(s, p), key)
    decreases |s|
  {
    if s != [] {
      var init := s[..|s| - 1];
      var last := s[|s| - 1];
      assert DistinctBy(init, key) by {
        forall i, j | 0 <= i < j < |init| ensures key(init[i]) != key(init[j]) {
          assert init[i] == s[i] && init[j] == s[j];
        }
      }
      DistinctByFilter(init, p, key);
      var f := Filter(init, p);
      if p(last) {
        forall i | 0 <= i < |f| ensures key(f[i]) != key(last) {
          assert f[i] in init;
          var j :| 0 <= j < |init| && init[j] == f[i];
          assert s[j] == f[i];
        }
        DistinctByAppend(f, last, key);
      }
    }
  }

  /** Python's `str.isspace`: the characters `str.strip()` removes. */
  predicate IsSpace(c: char)
  {
    c == ' ' || ('\t' <= c <= '\r') || ('\U{1C}' <= c <= '\U{1F}') || c == '\U{85}' ||
    c == '\U{A0}' || c == '\U{1680}' || ('\U{2000}' <= c <= '\U{200A}') ||
    c == '\U{2028}' || c == '\U{2029}' || c == '\U{202F}' || c == '\U{205F}' || c == '\U{3000}'
  }

  function StripLeft(s: string): (r: string)
    ensures |r| <= |s| && r == s[|s| - |r|..]
    ensures r == [] || !IsSpace(r[0])
    ensures forall i :: 0 <= i < |s| - |r| ==> IsSpace(s[i])
  {
    if s != [] && IsSpace(s[0]) then StripLeft(s[1..]) else s
  }

  function StripRight(s: string): (r: string)
    ensures |r| <= |s| && r == s[..|r|]
    ensures r == [] || !IsSpace(r[|r| - 1])
    ensures forall i :: |r| <= i < |s| ==> IsSpace(s[i])
  {
    if s != [] && IsSpace(s[|s| - 1]) then StripRight(s[..|s| - 1]) else s
  }

  /** Python's `str.strip()`: drop leading and trailing whitespace. */
  function Strip(s: string): (r: string)
  {
    StripRight(StripLeft(s))
  }

  /** `Strip` removes whitespace and nothing else: its result is the slice
      of the input that starts after the leading whitespace, it has no
      whitespace at either end, and everything outside it is whitespace. */
  lemma StripIsTrim(s: string)
    ensures var r, i := Strip(s), |s| - |StripLeft(s)|;
      i + |r| <= |s| && r == s[i..i + |r|] &&
      (forall k :: 0 <= k < i ==> IsSpace(s[k])) &&
      (forall k :: i + |r| <= k < |s| ==> IsSpace(s[k])) &&
      (r == [] || (!IsSpace(r[0]) && !IsSpace(r[|r| - 1])))
  {
    StripKeepsSlice(s);
    StripEnds(s);
  }

  lemma StripKeepsSlice(s: string)
    ensures var r, i := Strip(s), |s| - |StripLeft(s)|;
      i + |r| <= |s| && r == s[i..i + |r|] &&
      (forall k :: i + |r| <= k < |s| ==> IsSpace(s[k]))
  {
    var l := StripLeft(s);
    var i := |s| - |l|;
    assert l == s[i..];
    assert Strip(s) == StripRight(s[i..]);
    StripRightOfSuffix(s, i);
  }

  lemma StripEnds(s: string)
    ensures var r := Strip(s);
      r == [] || (!IsSpace(r[0]) && !IsSpace(r[|r| - 1]))
  {
    var l := StripLeft(s);
    var r := StripRight(l);
    if r != [] { assert r[0] == l[0]; }
  }

  /** Stripping the right end of a suffix `s[i..]` of `s` keeps a slice of
      `s` and drops only whitespace after it. */
  lemma StripRightOfSuffix(s: string, i: nat)
    requires i <= |s|
    ensures var r := StripRight(s[i..]);
      i + |r| <= |s| && r == s[i..i + |r|] &&
      forall k :: i + |r| <= k < |s| ==> IsSpace(s[k])
  {
    var l := s[i..];
    var r := StripRight(l);
    assert r == l[..|r|];
    forall k | i + |r| <= k < |s|
      ensures IsSpace(s[k])
    {
      assert s[k] == l[k - i];
    }
  }

  /** A value WTForms' `DataRequired` refuses: empty or whitespace only. */
  predicate IsBlank(s: string)
  {
    Strip(s) == []
  }

  lemma {:induction false} StripLeftAllSpace(s: string)
    requires forall i :: 0 <= i < |s| ==> IsSpace(s[i])
    ensures StripLeft(s) == []
  {
    if s != [] {
      StripLeftAllSpace(s[1..]);
    }
  }

  /** `IsBlank` holds exactly of the strings made only of whitespace. */
  lemma BlankIffAllSpace(s: string)
    ensures IsBlank(s) <==> forall i :: 0 <= i < |s| ==> IsSpace(s[i])
  {
    if forall i :: 0 <= i < |s| ==> IsSpace(s[i]) {
      StripLeftAllSpace(s);
    }
    if IsBlank(s) {
      StripIsTrim(s);
    }
  }

  predicate StartsWith(s: string, prefix: string)
  {
    |prefix| <= |s| && s[..|prefix|] == prefix
  }

  lemma StartsWithConcat(prefix: string, rest: string)
    ensures StartsWith(prefix + rest, prefix)
  {
    assert (prefix + rest)[..|prefix|] == prefix;
  }

  lemma NotInConcat(c: char, a: string, b: string)
    requires c !in a && c !in b
    ensures c !in a + b
  {
  }

  /** Python's `sub in s` on strings. */
  predicate Contains(s: string, sub: string)
  {
    StartsWith(s, sub) || (s != [] && Contains(s[1..], sub))
  }

  /** ASCII letters lowered; other characters are kept. */
  function LowerChar(c: char): char
  {
    if 'A' <= c <= 'Z' then (c as int - 'A' as int + 'a' as int) as char else c
  }

  function Lower(s: string): (r: string)
    ensures |r| == |s|
    ensures forall i :: 0 <= i < |s| ==> r[i] == LowerChar(s[i])
  {
    seq(|s|, i requires 0 <= i < |s| => LowerChar(s[i]))
  }

  /** Cut `s` at every `sep`, as Python's `s.split(sep)` does. */
  function Split(s: string, sep: char): (parts: seq<string>)
    ensures |parts| >= 1
    ensures forall p :: p in parts ==> sep !in p
  {
    if s == [] then [""]
    else
      var rest := Split(s[1..], sep);
      if s[0] == sep then [""] + rest
      else [[s[0]] + rest[0]] + rest[1..]
  }

  function Join(parts: seq<string>, sep: char): string
    requires |parts| >= 1
  {
    if |parts| == 1 then parts[0] else parts[0] + [sep] + Join(parts[1..], sep)
  }

  /** Splitting loses nothing: joining the pieces back gives the input. */
  lemma {:induction false} JoinSplit(s: string, sep: char)
    ensures Join(Split(s, sep), sep) == s
  {
    if s != [] {
      var rest := Split(s[1..], sep);
      JoinSplit(s[1..], sep);
      if s[0] == sep {
        assert Split(s, sep)[1..] == rest;
      } else {
        var parts := Split(s, sep);
        if |rest| == 1 {
          assert parts == [[s[0]] + rest[0]];
        } else {
          assert parts[1..] == rest[1..];
          assert Join(rest, sep) == rest[0] + [sep] + Join(rest[1..], sep);
        }
      }
    }
  }

  /** A path component that POSIX path parsing keeps: `PurePosixPath`
      collapses repeated slashes and drops `.` components. */
  predicate IsKeptComponent(part: string)
  {
    part != "" && part != "."
  }

  /** `PurePosixPath(s).name`: the last kept component, or "" when there is
      none (the empty path, `/`, `.`). */
  function PathName(s: string): (name: string)
    ensures '/' !in name
    ensures name != "."
  {
    var kept := Filter(Split(s, '/'), IsKeptComponent);
    if kept == [] then "" else
      assert kept[|kept| - 1] in kept;
      kept[|kept| - 1]
  }

  /** A bare file name (no slash, not `.`) is its own path name. */
  lemma PathNameOfBareName(s: string)
    requires '/' !in s && s != "."
    ensures PathName(s) == s
  {
    if s == [] {
      assert Split(s, '/') == [""];
    } else {
      SplitWithoutSep(s, '/');
      assert Split(s, '/') == [s];
      assert Filter([s], IsKeptComponent) == Filter([], IsKeptComponent) + [s];
    }
  }

  /** The empty path has no name. */
  lemma PathNameEmpty()
    ensures PathName("") == ""
  {
    assert Split("", '/') == [""];
  }

  lemma {:induction false} SplitWithoutSep(s: string, sep: char)
    requires sep !in s
    ensures Split(s, sep) == [s]
  {
    if s != [] {
      SplitWithoutSep(s[1..], sep);
      assert [s[0]] + s[1..] == s;
    }
  }

  /** The index of the last `c` in `s`, or -1: Python's `str.rfind`. */
  function LastIndexOf(s: string, c: char): (i: int)
    ensures -1 <= i < |s|
    ensures i >= 0 ==> s[i] == c
    ensures forall k :: i < k < |s| ==> s[k] != c
  {
    if s == [] then -1
    else if s[|s| - 1] == c then |s| - 1
    else LastIndexOf(s[..|s| - 1], c)
  }
}
