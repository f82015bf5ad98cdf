/** Small value types and sequence/string helpers shared by every module:
    the failure-compatible Option and Result, Ruby's array `select`, `-`,
    `uniq`, `flatten` and `sort`, and its ASCII `downcase` and `strip`. */
module Util {

  datatype Option<+T> = None | Some(value: T) {
    function GetOr(default: T): T {
      if Some? then value else default
    }
  }

  datatype Result<+T, +E> = Success(value: T) | Failure(error: E) {
    predicate IsFailure() {
      Failure?
    }
    function PropagateFailure<U>(): Result<U, E>
      requires Failure?
    {
      Failure(error)
    }
    function Extract(): T
      requires Success?
    {
      value
    }
  }

  // ---------------------------------------------------------------- sequences

  /** Ruby's `select`: the elements satisfying `p`, in their order. */
  function Filter<T(!new)>(s: seq<T>, p: T -> bool): (r: seq<T>)
    ensures |r| <= |s|
    ensures forall x :: x in r <==> x in s && p(x)
  {
    if s == [] then [] else (if p(s[0]) then [s[0]] else []) + Filter(s[1..], p)
  }

  lemma {:induction false} FilterAppend<T(!new)>(a: seq<T>, b: seq<T>, p: T -> bool)
    ensures Filter(a + b, p) == Filter(a, p) + Filter(b, p)
  {
    if a == [] {
      assert a + b == b;
    } else {
      assert (a + b)[0] == a[0];
      assert (a + b)[1..] == a[1..] + b;
      FilterAppend(a[1..], b, p);
    }
  }

  /** A prefix one longer is the prefix and the next element. */
  lemma TakeSnoc<T>(s: seq<T>, i: nat)
    requires i < |s|
    ensures s[..i + 1] == s[..i] + [s[i]]
  {
  }

  /** Selecting from a sequence grown by one element. */
  lemma FilterSnoc<T(!new)>(s: seq<T>, x: T, p: T -> bool)
    ensures Filter(s + [x], p) == Filter(s, p) + (if p(x) then [x] else [])
  {
    FilterAppend(s, [x], p);
  }

  /** Selecting from a three-part concatenation, part by part. */
  lemma FilterAppend3<T(!new)>(a: seq<T>, b: seq<T>, c: seq<T>, p: T -> bool)
    ensures Filter(a + b + c, p) == Filter(a, p) + Filter(b, p) + Filter(c, p)
  {
    FilterAppend(a + b, c, p);
    FilterAppend(a, b, p);
  }

  /** Selecting from two elements. */
  lemma FilterPair<T(!new)>(x: T, y: T, p: T -> bool)
    ensures Filter([x, y], p) == (if p(x) then [x] else []) + (if p(y) then [y] else [])
  {
    assert [x, y][1..] == [y];
    assert [y][1..] == [];
  }

  lemma {:induction false} FilterAll<T(!new)>(s: seq<T>, p: T -> bool)
    requires forall x :: x in s ==> p(x)
    ensures Filter(s, p) == s
  {
    if s != [] {
      FilterAll(s[1..], p);
    }
  }

  lemma {:induction false} FilterNone<T(!new)>(s: seq<T>, p: T -> bool)
    requires forall x :: x in s ==> !p(x)
    ensures Filter(s, p) == []
  {
    if s != [] {
      FilterNone(s[1..], p);
    }
  }

  /** Selecting by a stronger condition after a weaker one is selecting by the stronger. */
  lemma {:induction false} FilterFilter<T(!new)>(s: seq<T>, p: T -> bool, q: T -> bool)
    requires forall x :: q(x) ==> p(x)
    ensures Filter(Filter(s, p), q) == Filter(s, q)
  {
    if s != [] {
      FilterFilter(s[1..], p, q);
      FilterAppend(if p(s[0]) then [s[0]] else [], Filter(s[1..], p), q);
      if !p(s[0]) { assert [] + Filter(s[1..], p) == Filter(s[1..], p); }
    }
  }

  /** Ruby's `a - b`: every element of `a` that does not occur in `b`. */
  function Minus<T(==,!new)>(a: seq<T>, b: seq<T>): (r: seq<T>)
    ensures forall x :: x in r <==> x in a && x !in b
  {
    Filter(a, x => x !in b)
  }

  /** `a - b` keeps the order and the repetitions of `a`: it is empty for an
      empty `a`, and one more element of `a` is appended exactly when it is
      not in `b`. */
  lemma MinusSnoc<T(!new)>(a: seq<T>, x: T, b: seq<T>)
    ensures Minus([], b) == []
    ensures Minus(a + [x], b) == Minus(a, b) + (if x in b then [] else [x])
  {
    FilterAppend(a, [x], y => y !in b);
  }

  ghost predicate NoDup<T>(s: seq<T>) {
    forall i, j :: 0 <= i < j < |s| ==> s[i] != s[j]
  }

  lemma {:induction false} FilterNoDup<T(!new)>(s: seq<T>, p: T -> bool)
    requires NoDup(s)
    ensures NoDup(Filter(s, p))
  {
    if s != [] {
      FilterNoDup(s[1..], p);
      assert s[0] !in s[1..];
    }
  }

  /** Ruby's `uniq`: the first occurrence of every element, in order. */
  function Uniq<T(==,!new)>(s: seq<T>): (r: seq<T>)
    ensures forall x :: x in r <==> x in s
  {
    if s == [] then []
    else
      var u := Uniq(s[..|s| - 1]);
      if s[|s| - 1] in s[..|s| - 1] then u else u + [s[|s| - 1]]
  }

  /** `uniq` leaves no element twice. */
  lemma {:induction false} UniqNoDup<T(!new)>(s: seq<T>)
    ensures NoDup(Uniq(s))
  {
    if s != [] {
      var init, x := s[..|s| - 1], s[|s| - 1];
      UniqNoDup(init);
      if x !in init {
        var u := Uniq(init);
        assert x !in u;
        assert forall i :: 0 <= i < |u| ==> (u + [x])[i] == u[i];
      }
    }
  }

  /** The first position of `x` in `s`. */
  function Position<T(==)>(s: seq<T>, x: T): (k: nat)
    requires x in s
    ensures k < |s| && s[k] == x && x !in s[..k]
  {
    if s[0] == x then 0
    else
      assert s[1..][..Position(s[1..], x)] == s[1..Position(s[1..], x) + 1];
      1 + Position(s[1..], x)
  }

  /** A first position in a prefix is the first position in the whole. */
  lemma PositionPrefix<T>(init: seq<T>, x: T, y: T)
    requires y in init
    ensures Position(init + [x], y) == Position(init, y)
  {
    var k := Position(init, y);
    var s := init + [x];
    assert s[k] == y && s[..k] == init[..k];
    var k' := Position(s, y);
    assert forall m :: 0 <= m < k' ==> s[..k'][m] == s[m];
    assert forall m :: 0 <= m < k ==> init[..k][m] == init[m];
    assert k' <= k;
    assert init[k'] == y;
  }

  /** `uniq` keeps the first occurrences in the order of the input: of two
      elements of `Uniq(s)`, the earlier one occurs first in `s`. With
      `UniqNoDup` and the membership law this determines `Uniq(s)`. */
  lemma {:induction false} UniqOrder<T(!new)>(s: seq<T>)
    ensures forall i, j :: 0 <= i < j < |Uniq(s)| ==> Position(s, Uniq(s)[i]) < Position(s, Uniq(s)[j])
  {
    if s != [] {
      var init, x := s[..|s| - 1], s[|s| - 1];
      assert s == init + [x];
      UniqOrder(init);
      var u := Uniq(init);
      forall y | y in u
        ensures Position(s, y) == Position(init, y) && Position(init, y) < |init|
      {
        PositionPrefix(init, x, y);
      }
      if x !in init {
        assert Position(s, x) == |init| by {
          assert s[..|init|] == init;
        }
        forall i, j | 0 <= i < j < |u + [x]|
          ensures Position(s, (u + [x])[i]) < Position(s, (u + [x])[j])
        {
          assert (u + [x])[i] == u[i] && u[i] in u;
          if j < |u| {
            assert (u + [x])[j] == u[j] && u[j] in u;
          }
        }
      } else {
        forall i, j | 0 <= i < j < |u|
          ensures Position(s, u[i]) < Position(s, u[j])
        {
          assert u[i] in u && u[j] in u;
        }
      }
    }
  }

  lemma {:induction false} UniqOfNoDup<T(!new)>(s: seq<T>)
    requires NoDup(s)
    ensures Uniq(s) == s
  {
    if s != [] {
      var init := s[..|s| - 1];
      assert NoDup(init);
      UniqOfNoDup(init);
      assert s[|s| - 1] !in init;
      assert init + [s[|s| - 1]] == s;
    }
  }

  /** Ruby's `flatten` for an array of arrays. */
  function Flatten<T(!new)>(ss: seq<seq<T>>): (r: seq<T>)
    ensures forall x :: x in r <==> exists i :: 0 <= i < |ss| && x in ss[i]
  {
    if ss == [] then []
    else
      var r := ss[0] + Flatten(ss[1..]);
      assert forall x :: x in Flatten(ss[1..]) <==> exists i :: 1 <= i < |ss| && x in ss[i] by {
        forall x ensures x in Flatten(ss[1..]) <==> exists i :: 1 <= i < |ss| && x in ss[i] {
          if x in Flatten(ss[1..]) {
            var j :| 0 <= j < |ss[1..]| && x in ss[1..][j];
            assert x in ss[j + 1];
          }
          if exists i :: 1 <= i < |ss| && x in ss[i] {
            var i :| 1 <= i < |ss| && x in ss[i];
            assert x in ss[1..][i - 1];
          }
        }
      }
      r
  }

  /** `flatten` is the concatenation of the arrays in order: empty for no
      arrays, and one more array is appended whole. */
  lemma {:induction false} FlattenSnoc<T(!new)>(ss: seq<seq<T>>, t: seq<T>)
    ensures Flatten<T>([]) == []
    ensures Flatten(ss + [t]) == Flatten(ss) + t
  {
    if ss == [] {
      assert [] + [t] == [t];
      assert Flatten([t]) == t + Flatten([]);
    } else {
      assert (ss + [t])[1..] == ss[1..] + [t];
      FlattenSnoc(ss[1..], t);
    }
  }

  /** Ruby's `compact`: drops the nil entries. */
  function Compact<T(!new)>(s: seq<Option<T>>): (r: seq<T>)
    ensures forall x :: x in r <==> Some(x) in s
  {
    if s == [] then []
    else (if s[0].Some? then [s[0].value] else []) + Compact(s[1..])
  }

  /** `compact` keeps the order and the repetitions of the values: empty for
      an empty array, and one more entry adds its value unless it is nil. */
  lemma {:induction false} CompactSnoc<T(!new)>(s: seq<Option<T>>, x: Option<T>)
    ensures Compact<T>([]) == []
    ensures Compact(s + [x]) == Compact(s) + (if x.Some? then [x.value] else [])
  {
    if s == [] {
      assert [] + [x] == [x];
      assert Compact([x]) == (if x.Some? then [x.value] else []) + Compact([]);
    } else {
      assert (s + [x])[1..] == s[1..] + [x];
      CompactSnoc(s[1..], x);
    }
  }

  /** Ruby's `collect` into an array of optional values. */
  function MapOpt<T, U>(s: seq<T>, f: T -> Option<U>): (r: seq<Option<U>>)
    ensures |r| == |s|
    ensures forall i :: 0 <= i < |s| ==> r[i] == f(s[i])
  {
    if s == [] then [] else [f(s[0])] + MapOpt(s[1..], f)
  }

  /** Ruby's `detect`, as a position: the first element satisfying `p`. */
  function Detect<T>(s: seq<T>, p: T -> bool): (r: Option<nat>)
    ensures r.Some? ==> r.value < |s| && p(s[r.value])
    ensures r.Some? ==> forall j :: 0 <= j < r.value ==> !p(s[j])
    ensures r.None? ==> forall j :: 0 <= j < |s| ==> !p(s[j])
  {
    if s == [] then None
    else if p(s[0]) then Some(0)
    else
      match Detect(s[1..], p)
      case None => None
      case Some(k) => Some(k + 1)
  }

  /** The number of occurrences of `x` in `s`. */
  function Count<T(==)>(s: seq<T>, x: T): nat {
    if s == [] then 0 else (if s[0] == x then 1 else 0) + Count(s[1..], x)
  }

  lemma {:induction false} CountAppend<T>(a: seq<T>, b: seq<T>, x: T)
    ensures Count(a + b, x) == Count(a, x) + Count(b, x)
  {
    if a == [] {
      assert a + b == b;
    } else {
      assert (a + b)[0] == a[0];
      assert (a + b)[1..] == a[1..] + b;
      CountAppend(a[1..], b, x);
    }
  }

  /** An element that does not occur is counted zero times, and an element
      every entry equals is counted once per entry. */
  lemma {:induction false} CountAllOrNone<T>(s: seq<T>, x: T)
    ensures x !in s ==> Count(s, x) == 0
    ensures (forall y :: y in s ==> y == x) ==> Count(s, x) == |s|
  {
    if s != [] {
      CountAllOrNone(s[1..], x);
      assert s[0] in s && forall y :: y in s[1..] ==> y in s;
    }
  }

  lemma {:induction false} FilterCount<T(!new)>(s: seq<T>, p: T -> bool, x: T)
    ensures Count(Filter(s, p), x) == if p(x) then Count(s, x) else 0
  {
    if s != [] {
      FilterCount(s[1..], p, x);
      CountAppend(if p(s[0]) then [s[0]] else [], Filter(s[1..], p), x);
    }
  }

  lemma {:induction false} CountNoDup<T>(s: seq<T>, x: T)
    requires NoDup(s)
    ensures Count(s, x) == if x in s then 1 else 0
  {
    if s != [] {
      assert s[0] !in s[1..];
      assert NoDup(s[1..]);
      CountNoDup(s[1..], x);
    }
  }

  // ---------------------------------------------------------------- strings

  predicate StartsWith(s: string, prefix: string) {
    |prefix| <= |s| && s[..|prefix|] == prefix
  }

  predicate EndsWith(s: string, suffix: string) {
    |suffix| <= |s| && s[|s| - |suffix|..] == suffix
  }

  /** ASCII `downcase`. */
  function LowerChar(c: char): char {
    if 'A' <= c <= 'Z' then (c as int + 32) as char else c
  }

  function Lower(s: string): (r: string)
    ensures |r| == |s|
    ensures forall i :: 0 <= i < |s| ==> r[i] == LowerChar(s[i])
  {
    seq(|s|, i requires 0 <= i < |s| => LowerChar(s[i]))
  }

  lemma LowerAppend(a: string, b: string)
    ensures Lower(a + b) == Lower(a) + Lower(b)
  {
  }

  lemma LowerSlice(s: string, i: nat)
    requires i <= |s|
    ensures Lower(s[i..]) == Lower(s)[i..]
  {
  }

  /** Lowering leaves a character that is not a capital letter as it is. */
  lemma LowerCharOfPunct(c: char)
    requires LowerChar(c) == '@' || LowerChar(c) == '.'
    ensures c == LowerChar(c)
  {
  }

  lemma LowerIdempotent(s: string)
    ensures Lower(Lower(s)) == Lower(s)
  {
  }

  /** The characters Ruby's `strip` removes: null, \t, \n, \v, \f, \r and space. */
  predicate IsStripSpace(c: char) {
    c == '\0' || c == '\t' || c == '\n' || c == '\U{B}' || c == '\U{C}' || c == '\r' || c == ' '
  }

  function StripLeft(s: string): (r: string)
    ensures |r| <= |s|
    ensures r == s[|s| - |r|..]
    ensures r != [] ==> !IsStripSpace(r[0])
    ensures forall i :: 0 <= i < |s| - |r| ==> IsStripSpace(s[i])
  {
    if s != [] && IsStripSpace(s[0]) then StripLeft(s[1..]) else s
  }

  function StripRight(s: string): (r: string)
    ensures |r| <= |s|
    ensures r == s[..|r|]
    ensures r != [] ==> !IsStripSpace(r[|r| - 1])
    ensures forall i :: |r| <= i < |s| ==> IsStripSpace(s[i])
  {
    if s != [] && IsStripSpace(s[|s| - 1]) then StripRight(s[..|s| - 1]) else s
  }

  /** Ruby's `strip`: the middle of `s` between a run of strip-space at
      either end, itself starting and ending with another character. */
  function Strip(s: string): (r: string)
    ensures r == [] || (!IsStripSpace(r[0]) && !IsStripSpace(r[|r| - 1]))
    ensures exists i, j ::
              0 <= i <= j <= |s| && r == s[i..j] &&
              (forall k :: 0 <= k < i ==> IsStripSpace(s[k])) && (forall k :: j <= k < |s| ==> IsStripSpace(s[k]))
  {
    var l := StripLeft(s);
    var r := StripRight(l);
    var i := |s| - |l|;
    assert r == s[i..i + |r|];
    assert forall k :: i + |r| <= k < |s| ==> l[k - i] == s[k];
    r
  }

  /** Index of the first occurrence of `c` in `s`, if any. */
  function IndexOf(s: string, c: char): (r: Option<nat>)
    ensures r.None? <==> c !in s
    ensures r.Some? ==> r.value < |s| && s[r.value] == c && c !in s[..r.value]
  {
    if s == [] then None
    else if s[0] == c then Some(0)
    else
      match IndexOf(s[1..], c)
      case None => None
      case Some(k) => assert s[1..][..k] == s[1..k + 1]; Some(k + 1)
  }

  /** A literal with exactly one colon determines the two halves of `a + ":" + b`.
      This is why the "from:to" keys of the status tables can be read as pairs. */
  lemma {:induction false} SplitAtColon(a: string, b: string, literal: string, p: nat)
    requires p < |literal| && literal[p] == ':'
    requires forall i :: 0 <= i < |literal| && i != p ==> literal[i] != ':'
    requires a + ":" + b == literal
    ensures a == literal[..p] && b == literal[p + 1..]
  {
    var key := a + ":" + b;
    assert key[|a|] == ':';
    assert |a| == p;
    assert key[..p] == a;
    assert key[p + 1..] == b;
  }

  // ---------------------------------------------------------------- sorting

  /** Ruby's String#<=> on code points: lexicographic, a proper prefix first. */
  predicate StrLess(a: string, b: string) {
    if a == [] then b != []
    else if b == [] then false
    else if a[0] != b[0] then a[0] < b[0]
    else StrLess(a[1..], b[1..])
  }

  predicate StrLe(a: string, b: string) {
    a == b || StrLess(a, b)
  }

  lemma {:induction false} StrLessTotal(a: string, b: string)
    ensures a == b || StrLess(a, b) || StrLess(b, a)
  {
    if a != [] && b != [] && a[0] == b[0] {
      StrLessTotal(a[1..], b[1..]);
      if a[1..] == b[1..] {
        assert a == [a[0]] + a[1..] && b == [b[0]] + b[1..];
      }
    }
  }

  lemma {:induction false} StrLessTrans(a: string, b: string, c: string)
    requires StrLess(a, b) && StrLess(b, c)
    ensures StrLess(a, c)
  {
    if a != [] && b != [] && c != [] && a[0] == b[0] && b[0] == c[0] {
      StrLessTrans(a[1..], b[1..], c[1..]);
    }
  }

  lemma {:induction false} StrLessIrreflexive(a: string)
    ensures !StrLess(a, a)
  {
    if a != [] {
      StrLessIrreflexive(a[1..]);
    }
  }

  ghost predicate Sorted(s: seq<string>) {
    forall i, j :: 0 <= i < j < |s| ==> StrLe(s[i], s[j])
  }

  /** Inserts `x` in front of the first element that is not below it. */
  function Insert(x: string, s: seq<string>): (r: seq<string>)
    requires Sorted(s)
    ensures Sorted(r)
    ensures multiset(r) == multiset(s) + multiset{x}
  {
    if s == [] then [x]
    else if StrLe(x, s[0]) then
      InsertFront(x, s);
      [x] + s
    else
      var rest := Insert(x, s[1..]);
      InsertBehind(x, s, rest);
      [s[0]] + rest
  }

  lemma InsertFront(x: string, s: seq<string>)
    requires Sorted(s) && s != [] && StrLe(x, s[0])
    ensures Sorted([x] + s)
  {
    forall j | 0 <= j < |s| ensures StrLe(x, s[j]) {
      if j > 0 && x != s[0] && s[0] != s[j] { StrLessTrans(x, s[0], s[j]); }
    }
    assert forall j :: 0 < j < |[x] + s| ==> ([x] + s)[j] == s[j - 1];
  }

  lemma InsertBehind(x: string, s: seq<string>, rest: seq<string>)
    requires Sorted(s) && s != [] && !StrLe(x, s[0])
    requires Sorted(rest) && multiset(rest) == multiset(s[1..]) + multiset{x}
    ensures Sorted([s[0]] + rest)
    ensures multiset([s[0]] + rest) == multiset(s) + multiset{x}
  {
    StrLessTotal(x, s[0]);
    forall j | 0 <= j < |rest| ensures StrLe(s[0], rest[j]) {
      var y := rest[j];
      assert y in multiset(rest);
      if y != x {
        assert y in multiset(s[1..]);
        assert y in s[1..];
      }
    }
    assert forall j :: 0 < j < |[s[0]] + rest| ==> ([s[0]] + rest)[j] == rest[j - 1];
    assert s == [s[0]] + s[1..];
  }

  /** Ruby's `sort` for an array of strings. */
  function Sort(s: seq<string>): (r: seq<string>)
    ensures Sorted(r)
    ensures multiset(r) == multiset(s)
  {
    if s == [] then []
    else
      assert s == [s[0]] + s[1..];
      Insert(s[0], Sort(s[1..]))
  }

  lemma SortedPreservesMembers(s: seq<string>)
    ensures forall x :: x in Sort(s) <==> x in s
  {
    forall x ensures x in Sort(s) <==> x in s {
      assert x in Sort(s) <==> x in multiset(Sort(s));
      assert x in s <==> x in multiset(s);
    }
  }

  lemma {:induction false} InsertKeepsNoDup(x: string, s: seq<string>)
    requires Sorted(s) && NoDup(s) && x !in s
    ensures NoDup(Insert(x, s))
  {
    if s != [] && !StrLe(x, s[0]) {
      InsertKeepsNoDup(x, s[1..]);
      var rest := Insert(x, s[1..]);
      assert s[0] !in s[1..];
      assert s[0] !in multiset(rest) by {
        assert multiset(rest) == multiset(s[1..]) + multiset{x};
      }
    }
  }

  lemma {:induction false} SortKeepsNoDup(s: seq<string>)
    requires NoDup(s)
    ensures NoDup(Sort(s))
  {
    if s != [] {
      assert NoDup(s[1..]);
      SortKeepsNoDup(s[1..]);
      assert s[0] !in s[1..];
      assert s[0] !in multiset(Sort(s[1..]));
      InsertKeepsNoDup(s[0], Sort(s[1..]));
    }
  }
}
