/** Ordering strings by Unicode code point (sdk/js/src/index.js, compareCodePoints). */
module CodePoints {

  /** The sign decides the order: by the first difference, else by length. */
  function Compare(a: string, b: string): int {
    if a == "" || b == "" then |a| - |b|
    else if a[0] != b[0] then a[0] as int - b[0] as int
    else Compare(a[1..], b[1..])
  }

  /** The scan of the program, with its early return. */
  method CompareCodePoints(a: string, b: string) returns (d: int)
    ensures d == Compare(a, b)
  {
    var n := if |a| < |b| then |a| else |b|;
    for i := 0 to n
      invariant Compare(a, b) == Compare(a[i..], b[i..])
    {
      d := a[i] as int - b[i] as int;
      if d != 0 {
        return;
      }
      assert a[i..][1..] == a[i + 1..] && b[i..][1..] == b[i + 1..];
    }
    d := |a| - |b|;
  }

  predicate Leq(a: string, b: string) {
    Compare(a, b) <= 0
  }

  /** They first differ at i, where a has the smaller character. */
  predicate SmallerAt(a: string, b: string, i: int) {
    0 <= i < |a| && i < |b| && a[..i] == b[..i] && a[i] < b[i]
  }

  /** a comes first: it is a proper prefix of b, or has the smaller character where they first differ. */
  predicate Before(a: string, b: string) {
    a < b || exists i :: 0 <= i < |a| && SmallerAt(a, b, i)
  }

  /** What the sign of the comparison means. */
  lemma {:induction false} CompareMeans(a: string, b: string)
    ensures Compare(a, b) < 0 <==> Before(a, b)
    ensures Compare(a, b) == 0 <==> a == b
    ensures Compare(a, b) > 0 <==> Before(b, a)
  {
    CompareZero(a, b);
    if a != "" && b != "" && a[0] == b[0] {
      CompareMeans(a[1..], b[1..]);
      BeforeTail(a, b);
      BeforeTail(b, a);
    } else {
      BeforeFirst(a, b);
      BeforeFirst(b, a);
    }
  }

  lemma SmallerAtTail(a: string, b: string, i: nat)
    requires a != "" && b != "" && a[0] == b[0]
    ensures SmallerAt(a[1..], b[1..], i) <==> SmallerAt(a, b, i + 1)
    ensures !SmallerAt(a, b, 0)
  {
    var x, y := a[1..], b[1..];
    if i < |x| && i < |y| {
      assert a[..i + 1] == [a[0]] + x[..i] && b[..i + 1] == [a[0]] + y[..i];
      assert x[..i] == a[..i + 1][1..] && y[..i] == b[..i + 1][1..];
    }
  }

  lemma BeforeTail(a: string, b: string)
    requires a != "" && b != "" && a[0] == b[0]
    ensures Before(a, b) <==> Before(a[1..], b[1..])
  {
    hide SmallerAt;
    var x, y := a[1..], b[1..];
    assert a == [a[0]] + x && b == [a[0]] + y;
    assert a < b <==> x < y;
    SmallerAtTail(a, b, 0);
    if i :| 0 <= i < |x| && SmallerAt(x, y, i) {
      SmallerAtTail(a, b, i);
    }
    if i :| 0 <= i < |a| && SmallerAt(a, b, i) {
      SmallerAtTail(a, b, i - 1);
    }
  }

  lemma BeforeFirst(a: string, b: string)
    requires a == "" || b == "" || a[0] != b[0]
    ensures Before(a, b) <==> (a == "" && b != "") || (a != "" && b != "" && a[0] < b[0])
  {
    if a != "" && b != "" {
      assert a[..0] == b[..0];
      assert SmallerAt(a, b, 0) <==> a[0] < b[0];
      forall i | 0 < i < |a| && i < |b|
        ensures !SmallerAt(a, b, i)
      {
        assert a[..i][0] == a[0] && b[..i][0] == b[0];
      }
    }
  }

  lemma {:induction false} CompareZero(a: string, b: string)
    ensures Compare(a, b) == 0 <==> a == b
  {
    if a != "" && b != "" && a[0] == b[0] {
      CompareZero(a[1..], b[1..]);
      assert a == [a[0]] + a[1..] && b == [b[0]] + b[1..];
    }
  }

  lemma {:induction false} CompareOpposite(a: string, b: string)
    ensures Compare(a, b) == -Compare(b, a)
  {
    if a != "" && b != "" && a[0] == b[0] {
      CompareOpposite(a[1..], b[1..]);
    }
  }

  lemma {:induction false} CompareTransitive(a: string, b: string, c: string)
    requires Leq(a, b) && Leq(b, c)
    ensures Leq(a, c)
  {
    if a != "" && b != "" && c != "" && a[0] == b[0] == c[0] {
      CompareTransitive(a[1..], b[1..], c[1..]);
    }
  }

  /** A total order: exactly one of less, equal and greater, and transitive. */
  lemma TotalOrder(a: string, b: string, c: string)
    ensures Leq(a, b) || Leq(b, a)
    ensures Leq(a, b) && Leq(b, a) <==> a == b
    ensures Leq(a, b) && Leq(b, c) ==> Leq(a, c)
  {
    CompareOpposite(a, b);
    CompareZero(a, b);
    if Leq(a, b) && Leq(b, c) {
      CompareTransitive(a, b, c);
    }
  }

  // ----- sorting by the order

  predicate Sorted(keys: seq<string>) {
    forall i, j :: 0 <= i < j < |keys| ==> Leq(keys[i], keys[j])
  }

  function Insert(k: string, keys: seq<string>): (r: seq<string>) {
    if keys == [] || Leq(k, keys[0]) then [k] + keys else [keys[0]] + Insert(k, keys[1..])
  }

  function Sort(keys: seq<string>): (r: seq<string>) {
    if keys == [] then [] else Insert(keys[0], Sort(keys[1..]))
  }

  lemma {:induction false} InsertSorted(k: string, keys: seq<string>)
    requires Sorted(keys)
    ensures Sorted(Insert(k, keys)) && multiset(Insert(k, keys)) == multiset{k} + multiset(keys)
  {
    hide Leq;
    if keys == [] {
    } else if Leq(k, keys[0]) {
      forall i | 0 <= i < |keys|
        ensures Leq(k, keys[i])
      {
        TotalOrder(k, keys[0], keys[i]);
      }
    } else {
      InsertSorted(k, keys[1..]);
      var r := Insert(k, keys[1..]);
      assert keys == [keys[0]] + keys[1..];
      forall x | x in r
        ensures Leq(keys[0], x)
      {
        assert x in multiset(r);
        TotalOrder(k, keys[0], k);
        if x != k {
          assert x in keys[1..];
        }
      }
    }
  }

  lemma {:induction false} SortCorrect(keys: seq<string>)
    ensures Sorted(Sort(keys)) && multiset(Sort(keys)) == multiset(keys)
  {
    if keys != [] {
      SortCorrect(keys[1..]);
      InsertSorted(keys[0], Sort(keys[1..]));
      assert keys == [keys[0]] + keys[1..];
    }
  }

  lemma SmallestFirst(a: seq<string>, x: string)
    requires Sorted(a) && x in a
    ensures Leq(a[0], x)
  {
    hide Leq;
    TotalOrder(x, x, x);
  }

  lemma DropHead(a: seq<string>)
    requires a != [] && Sorted(a)
    ensures Sorted(a[1..]) && multiset(a[1..]) == multiset(a) - multiset{a[0]}
  {
    assert a == [a[0]] + a[1..];
  }

  /** A sorted arrangement is unique, so any correct sort gives Sort(keys). */
  lemma {:induction false} SortedUnique(a: seq<string>, b: seq<string>)
    requires Sorted(a) && Sorted(b) && multiset(a) == multiset(b)
    ensures a == b
  {
    hide Leq, Sorted;
    assert |a| == |multiset(a)| == |multiset(b)| == |b|;
    if a != [] {
      assert a[0] in multiset(b) && b[0] in multiset(a);
      SmallestFirst(a, b[0]);
      SmallestFirst(b, a[0]);
      TotalOrder(a[0], b[0], a[0]);
      DropHead(a);
      DropHead(b);
      SortedUnique(a[1..], b[1..]);
      assert a == [a[0]] + a[1..] && b == [b[0]] + b[1..];
    }
  }
}
