/** Python `None` / value, as returned by a regex match, a dictionary lookup or `find_sym`. */
module Optional {
  datatype Option<+T> = None | Some(value: T)
}

/** The string operations the scripts take from Python: ordering of `str`
    values, `sorted`, `str.split` and `str.join`, with `Find` as the helper
    that locates a separator. */
module Text {

  /** Python's `a < b` on `str`: lexicographic, a proper prefix being smaller. The
      scripts run under Python 2, where `str` is a byte string ordered byte by byte;
      for UTF-8 text that order is the order by code point used here. */
  predicate Less(a: string, b: string)
    decreases |a|
  {
    if |a| == 0 then |b| > 0
    else if |b| == 0 then false
    else if a[0] != b[0] then a[0] < b[0]
    else Less(a[1..], b[1..])
  }

  lemma {:induction false} LessIrreflexive(a: string)
    ensures !Less(a, a)
    decreases |a|
  {
    if |a| > 0 {
      LessIrreflexive(a[1..]);
    }
  }

  lemma {:induction false} LessTransitive(a: string, b: string, c: string)
    requires Less(a, b) && Less(b, c)
    ensures Less(a, c)
    decreases |a|
  {
    if |a| > 0 && a[0] == b[0] && b[0] == c[0] {
      LessTransitive(a[1..], b[1..], c[1..]);
    }
  }

  /** Any two distinct strings are ordered one way or the other. */
  lemma {:induction false} LessTotal(a: string, b: string)
    ensures a == b || Less(a, b) || Less(b, a)
    decreases |a|
  {
    if |a| > 0 && |b| > 0 && a[0] == b[0] {
      LessTotal(a[1..], b[1..]);
      if a[1..] == b[1..] {
        assert a == [a[0]] + a[1..] && b == [b[0]] + b[1..];
      }
    }
  }

  lemma {:induction false} LessAsymmetric(a: string, b: string)
    ensures !(Less(a, b) && Less(b, a))
  {
    if Less(a, b) && Less(b, a) {
      LessTransitive(a, b, a);
      LessIrreflexive(a);
    }
  }

  /** Strictly increasing in Python's string order, hence free of duplicates. */
  ghost predicate Increasing(r: seq<string>)
  {
    forall i, j :: 0 <= i < j < |r| ==> Less(r[i], r[j])
  }

  lemma IncreasingDistinct(r: seq<string>, i: int, j: int)
    requires Increasing(r) && 0 <= i < |r| && 0 <= j < |r| && r[i] == r[j]
    ensures i == j
  {
    if i < j {
      LessIrreflexive(r[i]);
    } else if j < i {
      LessIrreflexive(r[j]);
    }
  }

  predicate IsMinimum(m: string, s: set<string>)
  {
    m in s && forall y :: y in s && y != m ==> Less(m, y)
  }

  lemma {:induction false} MinimumExists(s: set<string>)
    requires s != {}
    ensures exists m :: IsMinimum(m, s)
    decreases |s|
  {
    var x :| x in s;
    var rest := s - {x};
    if rest == {} {
      assert s == {x};
      assert IsMinimum(x, s);
    } else {
      MinimumExists(rest);
      var m :| IsMinimum(m, rest);
      LessTotal(x, m);
      if Less(x, m) {
        forall y | y in s && y != x
          ensures Less(x, y)
        {
          if y != m {
            LessTransitive(x, m, y);
          }
        }
        assert IsMinimum(x, s);
      } else {
        assert IsMinimum(m, s);
      }
    }
  }

  lemma MinimumUnique(s: set<string>)
    ensures forall m, m' :: IsMinimum(m, s) && IsMinimum(m', s) ==> m == m'
  {
    forall m, m' | IsMinimum(m, s) && IsMinimum(m', s)
      ensures m == m'
    {
      if m != m' {
        LessAsymmetric(m, m');
      }
    }
  }

  /** Python's `sorted(s)` for a set of strings: its elements in increasing order. */
  function Sorted(s: set<string>): (r: seq<string>)
    ensures Increasing(r)
    ensures forall x :: x in r <==> x in s
    ensures |r| == |s|
    decreases |s|
  {
    if s == {} then []
    else
      MinimumExists(s);
      MinimumUnique(s);
      var m :| IsMinimum(m, s);
      var rest := Sorted(s - {m});
      PrependMinimum(m, s, rest);
      [m] + rest
  }

  /** The minimum of a set, followed by the rest of the set in order, is the set in order. */
  lemma PrependMinimum(m: string, s: set<string>, rest: seq<string>)
    requires IsMinimum(m, s)
    requires Increasing(rest) && forall x :: x in rest <==> x in s - {m}
    ensures Increasing([m] + rest)
    ensures forall x :: x in [m] + rest <==> x in s
  {
    assert forall k :: 0 <= k < |rest| ==> rest[k] in rest;
    assert forall k :: 0 <= k < |rest| ==> Less(m, rest[k]);
  }

  /** An increasing sequence is determined by its elements: `sorted` has one possible answer. */
  lemma {:induction false} IncreasingUnique(r: seq<string>, t: seq<string>)
    requires Increasing(r) && Increasing(t)
    requires forall x :: x in r <==> x in t
    ensures r == t
    decreases |r|
  {
    assert r != [] ==> r[0] in t;
    assert t != [] ==> t[0] in r;
    if r != [] && t != [] {
      if r[0] != t[0] {
        assert t[0] in r;
        assert r[0] in t;
        var i :| 0 <= i < |r| && r[i] == t[0];
        var j :| 0 <= j < |t| && t[j] == r[0];
        assert i != 0 && j != 0;
        LessAsymmetric(r[0], t[0]);
      }
      forall x
        ensures x in r[1..] <==> x in t[1..]
      {
        if x in r[1..] {
          var i :| 1 <= i < |r| && r[i] == x;
          assert Less(r[0], x);
          LessIrreflexive(x);
          assert x in r;
          var j :| 0 <= j < |t| && t[j] == x;
          assert j != 0;
          assert t[1..][j - 1] == x;
        }
        if x in t[1..] {
          var j :| 1 <= j < |t| && t[j] == x;
          assert Less(t[0], x);
          LessIrreflexive(x);
          assert x in t;
          var i :| 0 <= i < |r| && r[i] == x;
          assert i != 0;
          assert r[1..][i - 1] == x;
        }
      }
      IncreasingUnique(r[1..], t[1..]);
      assert r == [r[0]] + r[1..] && t == [t[0]] + t[1..];
    }
  }

  /** The position of the first `c` in `s`, or `|s|` when there is none. */
  function Find(s: string, c: char): (i: nat)
    ensures i <= |s|
    ensures i < |s| ==> s[i] == c
    ensures forall j :: 0 <= j < i ==> s[j] != c
    ensures i == |s| <==> c !in s
  {
    if |s| == 0 then 0
    else if s[0] == c then 0
    else 1 + Find(s[1..], c)
  }

  /** The first occurrence of `c` in `g + tail` is at `|g|` when `g` has none and `tail` starts with one. */
  lemma FindAfter(g: string, tail: string, c: char)
    requires c !in g
    requires tail == [] || tail[0] == c
    ensures Find(g + tail, c) == |g|
  {
    var s := g + tail;
    assert forall j :: 0 <= j < |g| ==> s[j] == g[j];
    assert |g| < |s| ==> s[|g|] == tail[0];
  }

  /** A string is what precedes position `i`, the character there, and what follows. */
  lemma Around(s: string, i: nat)
    requires i < |s|
    ensures s == s[..i] + [s[i]] + s[i + 1..]
  {
  }

  /** Regrouping a concatenation, stated once so that callers need not rediscover it. */
  lemma ConcatAssoc(x: string, y: string, z: string)
    ensures (x + y) + z == x + (y + z)
  {
  }

  /** Python's `sep.join(parts)` for a one-character separator. */
  function Join(parts: seq<string>, c: char): (s: string)
    requires |parts| >= 1
    decreases |parts|
  {
    if |parts| == 1 then parts[0] else parts[0] + [c] + Join(parts[1..], c)
  }

  /** Joining two pieces puts the separator between them. */
  lemma JoinPair(x: string, y: string, c: char)
    ensures Join([x, y], c) == x + [c] + y
  {
    assert [x, y][1..] == [y];
  }

  /** Python's `s.split(c)`: the pieces of `s` between occurrences of `c`, always at least one. */
  function Split(s: string, c: char): (parts: seq<string>)
    ensures |parts| >= 1
    decreases |s|
  {
    var i := Find(s, c);
    if i == |s| then [s]
    else [s[..i]] + Split(s[i + 1..], c)
  }

  /** Joining the pieces gives back the string. */
  lemma {:induction false} JoinSplit(s: string, c: char)
    ensures Join(Split(s, c), c) == s
    decreases |s|
  {
    var i := Find(s, c);
    if i < |s| {
      var rest := s[i + 1..];
      var head := s[..i];
      JoinSplit(rest, c);
      var tail := Split(rest, c);
      var parts := Split(s, c);
      assert parts == [head] + tail;
      assert parts[1..] == tail;
      assert Join(parts, c) == head + [c] + Join(tail, c);
      Around(s, i);
    }
  }

  /** No piece holds the separator. */
  lemma {:induction false} SplitPiecesFree(s: string, c: char)
    ensures forall k :: 0 <= k < |Split(s, c)| ==> c !in Split(s, c)[k]
    decreases |s|
  {
    var i := Find(s, c);
    if i < |s| {
      var rest := s[i + 1..];
      var head := s[..i];
      SplitPiecesFree(rest, c);
      var tail := Split(rest, c);
      var parts := Split(s, c);
      assert parts == [head] + tail;
      assert forall j :: 0 <= j < i ==> head[j] == s[j];
      assert c !in head;
      assert forall k :: 1 <= k < |parts| ==> parts[k] == tail[k - 1];
    }
  }

  /** Splitting undoes joining when no piece holds the separator. */
  lemma {:induction false} SplitJoin(parts: seq<string>, c: char)
    requires |parts| >= 1
    requires forall k :: 0 <= k < |parts| ==> c !in parts[k]
    ensures Split(Join(parts, c), c) == parts
    decreases |parts|
  {
    var s := Join(parts, c);
    if |parts| > 1 {
      var head := parts[0];
      var rest := Join(parts[1..], c);
      assert s == head + [c] + rest;
      ConcatAssoc(head, [c], rest);
      FindAfter(head, [c] + rest, c);
      assert s[..|head|] == head;
      assert s[|head| + 1..] == rest;
      assert Split(s, c) == [head] + Split(rest, c);
      SplitJoin(parts[1..], c);
      assert parts == [head] + parts[1..];
    } else {
      FindAfter(parts[0], [], c);
      assert parts[0] + [] == parts[0];
    }
  }
}
