/**
 * The order JavaScript's default `Array.prototype.sort()` puts strings in (character by
 * character, a proper prefix first), and sorting a sequence of names by it.
 */
module Order {

  /** `a` comes strictly before `b`. */
  predicate Below(a: string, b: string)
    decreases |a|
  {
    |b| > 0 && (|a| == 0 || a[0] < b[0] || (a[0] == b[0] && Below(a[1..], b[1..])))
  }

  lemma {:induction false} BelowIrreflexive(a: string)
    ensures !Below(a, a)
    decreases |a|
  {
    if |a| > 0 {
      BelowIrreflexive(a[1..]);
    }
  }

  lemma {:induction false} BelowTransitive(a: string, b: string, c: string)
    requires Below(a, b) && Below(b, c)
    ensures Below(a, c)
    decreases |a|
  {
    if |a| > 0 && a[0] == b[0] == c[0] {
      BelowTransitive(a[1..], b[1..], c[1..]);
    }
  }

  /** Any two different strings are ordered one way or the other. */
  lemma {:induction false} BelowTotal(a: string, b: string)
    ensures a == b || Below(a, b) || Below(b, a)
    decreases |a|
  {
    if |a| > 0 && |b| > 0 && a[0] == b[0] {
      BelowTotal(a[1..], b[1..]);
      if a[1..] == b[1..] {
        assert a == [a[0]] + a[1..] && b == [b[0]] + b[1..];
      }
    }
  }

  lemma BelowAsymmetric(a: string, b: string)
    requires Below(a, b)
    ensures !Below(b, a)
  {
    if Below(b, a) {
      BelowTransitive(a, b, a);
      BelowIrreflexive(a);
    }
  }

  /** Nothing later in `s` comes before anything earlier. */
  ghost predicate Sorted(s: seq<string>) {
    forall i, j :: 0 <= i < j < |s| ==> !Below(s[j], s[i])
  }

  ghost predicate Distinct(s: seq<string>) {
    forall i, j :: 0 <= i < j < |s| ==> s[i] != s[j]
  }

  /** Inserts `x` into `s` just before the first element that `x` is not after. */
  function Insert(x: string, s: seq<string>): (r: seq<string>)
    ensures multiset(r) == multiset(s) + multiset{x}
    ensures forall y :: y in r <==> y == x || y in s
    decreases |s|
  {
    if s == [] || !Below(s[0], x) then [x] + s
    else
      assert s == [s[0]] + s[1..];
      [s[0]] + Insert(x, s[1..])
  }

  /** `y` is not before `x` when it is not before something that `x` is at or before. */
  lemma NotBelowEither(y: string, x: string, z: string)
    requires x == z || Below(x, z)
    requires !Below(y, z)
    ensures !Below(y, x)
  {
    if Below(y, x) && x != z {
      BelowTransitive(y, x, z);
      assert false;
    }
  }

  lemma {:induction false} InsertSorted(x: string, s: seq<string>)
    requires Sorted(s)
    ensures Sorted(Insert(x, s))
    decreases |s|
  {
    var r := Insert(x, s);
    if s == [] || !Below(s[0], x) {
      if s != [] {
        BelowTotal(x, s[0]);
        forall j | 0 < j < |r| ensures !Below(r[j], x) {
          if j > 1 {
            assert !Below(s[j - 1], s[0]);
          } else {
            BelowIrreflexive(s[0]);
          }
          NotBelowEither(r[j], x, s[0]);
        }
      }
    } else {
      var tail := Insert(x, s[1..]);
      InsertSorted(x, s[1..]);
      assert r == [s[0]] + tail;
      forall k | 0 <= k < |tail| ensures !Below(tail[k], s[0]) {
        assert tail[k] in tail;
        if tail[k] == x {
          BelowAsymmetric(s[0], x);
        } else {
          var m :| 0 <= m < |s[1..]| && s[1..][m] == tail[k];
          assert s[m + 1] == tail[k];
        }
      }
    }
  }

  lemma {:induction false} InsertDistinct(x: string, s: seq<string>)
    requires Distinct(s) && x !in s
    ensures Distinct(Insert(x, s))
    decreases |s|
  {
    if s != [] && Below(s[0], x) {
      InsertDistinct(x, s[1..]);
      assert s[0] !in Insert(x, s[1..]);
    }
  }

  /** The names of `s` in sorted order: the result of `s.sort()`. */
  function Sort(s: seq<string>): (r: seq<string>)
    ensures multiset(r) == multiset(s)
    ensures forall y :: y in r <==> y in s
    ensures Sorted(r)
    decreases |s|
  {
    if s == [] then []
    else
      var sorted := Sort(s[1..]);
      assert s == [s[0]] + s[1..];
      InsertSorted(s[0], sorted);
      Insert(s[0], sorted)
  }

  /** Sorting distinct names keeps them distinct. */
  lemma {:induction false} SortDistinct(s: seq<string>)
    requires Distinct(s)
    ensures Distinct(Sort(s))
    decreases |s|
  {
    if s != [] {
      assert s == [s[0]] + s[1..];
      SortDistinct(s[1..]);
      InsertDistinct(s[0], Sort(s[1..]));
    }
  }

  /** In a sequence without repeats, the tail holds exactly the elements other than the head. */
  lemma InTail(s: seq<string>, y: string)
    requires Distinct(s) && s != []
    ensures y in s[1..] <==> y in s && y != s[0]
  {
    if y in s[1..] {
      var i :| 0 <= i < |s[1..]| && s[1..][i] == y;
      assert s[i + 1] == y;
    }
    if y in s && y != s[0] {
      var i :| 0 <= i < |s| && s[i] == y;
      assert s[1..][i - 1] == y;
    }
  }

  /**
   * A sorted sequence of distinct names is determined by its elements: whatever
   * order the names arrive in, sorting them gives the same sequence.
   */
  lemma {:induction false} SortedUnique(a: seq<string>, b: seq<string>)
    requires Sorted(a) && Distinct(a) && Sorted(b) && Distinct(b)
    requires forall y :: y in a <==> y in b
    ensures a == b
    decreases |a|
  {
    if a != [] {
      assert a[0] in b;
    }
    if b != [] {
      assert b[0] in a;
    }
    if a != [] {
      var k :| 0 <= k < |b| && b[k] == a[0];
      var m :| 0 <= m < |a| && a[m] == b[0];
      if k == 0 { BelowIrreflexive(a[0]); }
      if m == 0 { BelowIrreflexive(a[0]); }
      assert !Below(a[0], b[0]) && !Below(b[0], a[0]);
      BelowTotal(a[0], b[0]);
      forall y ensures y in a[1..] <==> y in b[1..] {
        InTail(a, y);
        InTail(b, y);
      }
      SortedUnique(a[1..], b[1..]);
      assert a == [a[0]] + a[1..] && b == [b[0]] + b[1..];
    }
  }
}
