/**
 * The order sort.Strings puts the store's names in (envrun.go:124-128): Go
 * compares strings byte by byte. Characters stand for code points here, and
 * UTF-8 encodes code points so that byte order and code point order agree.
 */
module StringOrder {

  /** a comes strictly before b. */
  predicate Less(a: string, b: string)
    decreases |a|
  {
    |b| > 0 && (|a| == 0 || a[0] < b[0] || (a[0] == b[0] && Less(a[1..], b[1..])))
  }

  predicate LessEq(a: string, b: string) {
    a == b || Less(a, b)
  }

  lemma {:induction false} LessIrreflexive(a: string)
    ensures !Less(a, a)
    decreases |a|
  {
    if |a| > 0 {
      LessIrreflexive(a[1..]);
    }
  }

  lemma {:induction false} LessTransitive(a: string, b: string, c: string)
    requires Less(a, b) && Less(b, c)
    ensures Less(a, c)
    decreases |a|
  {
    if |a| > 0 && a[0] == b[0] && b[0] == c[0] {
      LessTransitive(a[1..], b[1..], c[1..]);
    }
  }

  lemma {:induction false} LessTotal(a: string, b: string)
    ensures a == b || Less(a, b) || Less(b, a)
    decreases |a|
  {
    if |a| > 0 && |b| > 0 && a[0] == b[0] {
      LessTotal(a[1..], b[1..]);
      if a[1..] == b[1..] {
        assert a == [a[0]] + a[1..] && b == [b[0]] + b[1..];
      }
    }
  }

  lemma LessAsymmetric(a: string, b: string)
    requires Less(a, b)
    ensures !Less(b, a)
  {
    if Less(b, a) {
      LessTransitive(a, b, a);
      LessIrreflexive(a);
    }
  }

  /** Neighbours are in order: what sort.Strings promises. */
  predicate Sorted(s: seq<string>) {
    forall k :: 0 < k < |s| ==> LessEq(s[k - 1], s[k])
  }

  /** Every element is strictly before every later one. */
  predicate Ascending(s: seq<string>) {
    forall i, j :: 0 <= i < j < |s| ==> Less(s[i], s[j])
  }

  predicate Distinct(s: seq<string>) {
    forall i, j :: 0 <= i < j < |s| ==> s[i] != s[j]
  }

  /** Sorted neighbours without repetitions are strictly ascending throughout. */
  lemma SortedDistinctAscending(s: seq<string>)
    requires Sorted(s) && Distinct(s)
    ensures Ascending(s)
  {
    forall i, j | 0 <= i < j < |s|
      ensures Less(s[i], s[j])
    {
      AscendingFrom(s, i, j);
    }
  }

  lemma {:induction false} AscendingFrom(s: seq<string>, i: nat, j: nat)
    requires Sorted(s) && Distinct(s) && i < j < |s|
    ensures Less(s[i], s[j])
    decreases j - i
  {
    if j > i + 1 {
      AscendingFrom(s, i, j - 1);
      LessTransitive(s[i], s[j - 1], s[j]);
    }
  }

  method Swap(a: array<string>, j: nat)
    requires 0 < j < a.Length
    modifies a
    ensures a[j] == old(a[j - 1]) && a[j - 1] == old(a[j])
    ensures forall k :: 0 <= k < a.Length && k != j && k != j - 1 ==> a[k] == old(a[k])
    ensures multiset(a[..]) == old(multiset(a[..]))
  {
    a[j], a[j - 1] := a[j - 1], a[j];
  }

  /** Moves a[i] down into the sorted prefix a[..i]. */
  method InsertLast(a: array<string>, i: nat)
    requires i < a.Length
    requires forall k :: 0 < k < i ==> LessEq(a[k - 1], a[k])
    modifies a
    ensures forall k :: 0 < k <= i ==> LessEq(a[k - 1], a[k])
    ensures multiset(a[..]) == old(multiset(a[..]))
  {
    var j := i;
    while j > 0 && Less(a[j], a[j - 1])
      invariant 0 <= j <= i
      invariant forall k :: 0 < k <= i && k != j ==> LessEq(a[k - 1], a[k])
      invariant 0 < j < i ==> LessEq(a[j - 1], a[j + 1])
      invariant multiset(a[..]) == old(multiset(a[..]))
    {
      Swap(a, j);
      j := j - 1;
    }
    if j > 0 {
      LessTotal(a[j], a[j - 1]);
    }
  }

  /** Insertion sort in place, the order sort.Strings leaves the slice in. */
  method SortStrings(a: array<string>)
    modifies a
    ensures Sorted(a[..])
    ensures multiset(a[..]) == old(multiset(a[..]))
  {
    var i := 0;
    while i < a.Length
      invariant 0 <= i <= a.Length
      invariant forall k :: 0 < k < i ==> LessEq(a[k - 1], a[k])
      invariant multiset(a[..]) == old(multiset(a[..]))
    {
      InsertLast(a, i);
      i := i + 1;
    }
  }

  /** k comes before or is every element of keys. */
  predicate IsMinimum(k: string, keys: set<string>) {
    forall x :: x in keys ==> LessEq(k, x)
  }

  lemma {:induction false} MinimumExists(keys: set<string>)
    requires keys != {}
    ensures exists k :: k in keys && IsMinimum(k, keys)
    decreases |keys|
  {
    var y :| y in keys;
    var rest := keys - {y};
    if rest == {} {
      assert keys == {y};
      assert IsMinimum(y, keys);
    } else {
      MinimumExists(rest);
      var m :| m in rest && IsMinimum(m, rest);
      assert keys == rest + {y};
      MinimumInsert(y, m, rest);
    }
  }

  /** Adding y to a set with minimum m: the smaller of the two is the new minimum. */
  lemma MinimumInsert(y: string, m: string, rest: set<string>)
    requires m in rest && IsMinimum(m, rest)
    ensures Less(y, m) ==> IsMinimum(y, rest + {y})
    ensures !Less(y, m) ==> IsMinimum(m, rest + {y}) && m in rest + {y}
  {
    LessTotal(y, m);
    forall x | x in rest + {y}
      ensures Less(y, m) ==> LessEq(y, x)
    {
      if Less(y, m) && x != y && x != m {
        LessTransitive(y, m, x);
      }
    }
  }

  /** The names of a map in the order the store file lists them. */
  ghost function SortedKeys(keys: set<string>): (r: seq<string>)
    ensures Ascending(r) && |r| == |keys|
    ensures forall x :: x in r <==> x in keys
    decreases |keys|
  {
    if keys == {} then []
    else
      MinimumExists(keys);
      var k :| k in keys && IsMinimum(k, keys);
      var rest := SortedKeys(keys - {k});
      AscendingCons(k, rest);
      [k] + rest
  }

  lemma AscendingCons(k: string, rest: seq<string>)
    requires Ascending(rest)
    requires forall x :: x in rest ==> Less(k, x)
    ensures Ascending([k] + rest)
  {
    var r := [k] + rest;
    forall i, j | 0 <= i < j < |r|
      ensures Less(r[i], r[j])
    {
      if i == 0 {
        assert r[j] == rest[j - 1] && rest[j - 1] in rest;
      } else {
        assert r[i] == rest[i - 1] && r[j] == rest[j - 1];
      }
    }
  }

  lemma HeadIn(b: seq<string>)
    ensures |b| > 0 ==> b[0] in b
  {
  }

  /** Two strictly ascending sequences with the same elements are the same sequence. */
  lemma {:induction false} AscendingUnique(a: seq<string>, b: seq<string>)
    requires Ascending(a) && Ascending(b)
    requires forall x :: x in a <==> x in b
    ensures a == b
    decreases |a|
  {
    HeadIn(b);
    if |a| == 0 {
    } else {
      assert a[0] in b;
      assert |b| > 0;
      assert b[0] in a;
      if a[0] != b[0] {
        var i :| 0 <= i < |a| && a[i] == b[0];
        var j :| 0 <= j < |b| && b[j] == a[0];
        assert Less(a[0], b[0]) && Less(b[0], a[0]);
        LessAsymmetric(a[0], b[0]);
      }
      forall x
        ensures x in a[1..] <==> x in b[1..]
      {
        LessIrreflexive(a[0]);
        if x in a[1..] {
          var i :| 1 <= i < |a| && a[i] == x;
          assert Less(a[0], a[i]);
          assert x in b;
          var j :| 0 <= j < |b| && b[j] == x;
          assert j != 0;
          assert b[1..][j - 1] == x;
        }
        if x in b[1..] {
          var j :| 1 <= j < |b| && b[j] == x;
          assert Less(b[0], b[j]);
          assert x in a;
          var i :| 0 <= i < |a| && a[i] == x;
          assert i != 0;
          assert a[1..][i - 1] == x;
        }
      }
      AscendingUnique(a[1..], b[1..]);
      assert a == [a[0]] + a[1..] && b == [b[0]] + b[1..];
    }
  }
}
