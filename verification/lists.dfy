/**
 The list surgery the rename listener performs on one category of a resource
 manifest: in-place replacement of a base name (same-directory rename) and the
 `reduce` that splits a list into the entries that move and the entries that
 stay (cross-directory move).
 */
module ListOps {

  /** Number of elements of `xs` equal to `x`. */
  function Count(xs: seq<string>, x: string): nat
  {
    if xs == [] then 0
    else (if xs[0] == x then 1 else 0) + Count(xs[1..], x)
  }

  /** `n` copies of `x`. */
  function Repeat(x: string, n: nat): seq<string>
  {
    seq(n, _ => x)
  }

  /** Reference definition of the entries that stay: `xs` with every `x` filtered out. */
  function Without(xs: seq<string>, x: string): seq<string>
  {
    if xs == [] then []
    else if xs[0] == x then Without(xs[1..], x)
    else [xs[0]] + Without(xs[1..], x)
  }

  /** The same-directory rename of one list: every element equal to `oldName`
      is overwritten by `newName`, position by position, duplicates included. */
  function ReplaceAll(xs: seq<string>, oldName: string, newName: string): (r: seq<string>)
    ensures |r| == |xs|
    ensures forall i :: 0 <= i < |xs| && xs[i] == oldName ==> r[i] == newName
    ensures forall i :: 0 <= i < |xs| && xs[i] != oldName ==> r[i] == xs[i]
  {
    if xs == [] then []
    else [if xs[0] == oldName then newName else xs[0]] + ReplaceAll(xs[1..], oldName, newName)
  }

  /** The `reduce` callback run over `xs` with the accumulator `(moved, kept)`:
      an element equal to `name` is pushed onto `moved`, any other onto `kept`. */
  function PartitionFrom(xs: seq<string>, name: string, moved: seq<string>, kept: seq<string>)
    : (seq<string>, seq<string>)
    decreases |xs|
  {
    if xs == [] then (moved, kept)
    else if xs[0] == name then PartitionFrom(xs[1..], name, moved + [xs[0]], kept)
    else PartitionFrom(xs[1..], name, moved, kept + [xs[0]])
  }

  /** The `reduce` started from `[[], []]`: the pair `[moved, kept]`. */
  function Partition(xs: seq<string>, name: string): (r: (seq<string>, seq<string>))
    ensures r.0 == Repeat(name, Count(xs, name))
    ensures r.1 == Without(xs, name)
  {
    PartitionFromReference(xs, name, [], []);
    PartitionFrom(xs, name, [], [])
  }

  // ---------------------------------------------------------------------------
  // Facts about Count, Repeat and Without
  // ---------------------------------------------------------------------------

  lemma {:induction false} CountAppend(a: seq<string>, b: seq<string>, x: string)
    ensures Count(a + b, x) == Count(a, x) + Count(b, x)
    decreases |a|
  {
    if a == [] {
      assert a + b == b;
    } else {
      assert (a + b)[1..] == a[1..] + b;
      CountAppend(a[1..], b, x);
    }
  }

  /** A name occurs in a list exactly when its count is positive. */
  lemma {:induction false} CountPositive(xs: seq<string>, x: string)
    ensures Count(xs, x) > 0 <==> x in xs
    decreases |xs|
  {
    if xs != [] {
      CountPositive(xs[1..], x);
      assert xs == [xs[0]] + xs[1..];
    }
  }

  lemma {:induction false} CountRepeat(x: string, n: nat, y: string)
    ensures Count(Repeat(x, n), y) == (if x == y then n else 0)
    decreases n
  {
    if n > 0 {
      assert Repeat(x, n)[1..] == Repeat(x, n - 1);
      CountRepeat(x, n - 1, y);
    }
  }

  /** Filtering removes every occurrence of `x` and keeps every other name's count. */
  lemma {:induction false} CountWithout(xs: seq<string>, x: string, y: string)
    ensures Count(Without(xs, x), y) == (if x == y then 0 else Count(xs, y))
    decreases |xs|
  {
    if xs != [] {
      CountWithout(xs[1..], x, y);
      if xs[0] != x {
        assert ([xs[0]] + Without(xs[1..], x))[1..] == Without(xs[1..], x);
      }
    }
  }

  /** Filtering drops exactly the occurrences of `x`. */
  lemma {:induction false} WithoutLength(xs: seq<string>, x: string)
    ensures |Without(xs, x)| + Count(xs, x) == |xs|
    decreases |xs|
  {
    if xs != [] {
      WithoutLength(xs[1..], x);
    }
  }

  /** `Without` keeps the surviving elements as a multiset. */
  lemma {:induction false} WithoutMultiset(xs: seq<string>, x: string)
    ensures multiset(Without(xs, x)) + multiset(Repeat(x, Count(xs, x))) == multiset(xs)
    decreases |xs|
  {
    if xs != [] {
      WithoutMultiset(xs[1..], x);
      assert xs == [xs[0]] + xs[1..];
      var c := Count(xs[1..], x);
      if xs[0] == x {
        assert Repeat(x, c + 1) == [x] + Repeat(x, c);
      }
    }
  }

  /** `a` is obtained from `b` by deleting elements, the rest keeping their
      relative order (greedy matching decides this). */
  predicate IsSubsequence(a: seq<string>, b: seq<string>)
    decreases |b|
  {
    if a == [] then true
    else if b == [] then false
    else if a[0] == b[0] then IsSubsequence(a[1..], b[1..])
    else IsSubsequence(a, b[1..])
  }

  // ---------------------------------------------------------------------------
  // Facts about the two list operations of the listener
  // ---------------------------------------------------------------------------

  /** The accumulating `reduce` agrees with the reference pair
      (copies of `name`, `Without`). */
  lemma {:induction false} PartitionFromReference(xs: seq<string>, name: string, moved: seq<string>, kept: seq<string>)
    ensures PartitionFrom(xs, name, moved, kept)
         == (moved + Repeat(name, Count(xs, name)), kept + Without(xs, name))
    decreases |xs|
  {
    if xs == [] {
      assert moved + Repeat(name, 0) == moved;
      assert kept + [] == kept;
    } else if xs[0] == name {
      PartitionFromReference(xs[1..], name, moved + [xs[0]], kept);
      var c := Count(xs[1..], name);
      assert [name] + Repeat(name, c) == Repeat(name, c + 1);
      assert moved + [xs[0]] + Repeat(name, c) == moved + ([name] + Repeat(name, c));
    } else {
      PartitionFromReference(xs[1..], name, moved, kept + [xs[0]]);
      assert kept + [xs[0]] + Without(xs[1..], name) == kept + ([xs[0]] + Without(xs[1..], name));
    }
  }

  /** The partition is exact: `moved` holds only copies of `name`, as many as
      `xs` contains; `kept` has no `name` and the same count of every other
      name; together they account for every element of `xs`. */
  lemma PartitionExact(xs: seq<string>, name: string)
    ensures forall i :: 0 <= i < |Partition(xs, name).0| ==> Partition(xs, name).0[i] == name
    ensures |Partition(xs, name).0| == Count(xs, name)
    ensures name !in Partition(xs, name).1
    ensures forall y :: y != name ==> Count(Partition(xs, name).1, y) == Count(xs, y)
    ensures |Partition(xs, name).0| + |Partition(xs, name).1| == |xs|
    ensures multiset(Partition(xs, name).0) + multiset(Partition(xs, name).1) == multiset(xs)
  {
    var (moved, kept) := Partition(xs, name);
    CountWithout(xs, name, name);
    CountPositive(kept, name);
    forall y | y != name
      ensures Count(kept, y) == Count(xs, y)
    {
      CountWithout(xs, name, y);
    }
    WithoutLength(xs, name);
    WithoutMultiset(xs, name);
  }

  /** `kept` lists the surviving entries in their original relative order. */
  lemma {:induction false} WithoutIsSubsequence(xs: seq<string>, x: string)
    ensures IsSubsequence(Without(xs, x), xs)
    decreases |xs|
  {
    if xs != [] {
      WithoutIsSubsequence(xs[1..], x);
      if xs[0] == x {
        SubsequenceOfTail(Without(xs[1..], x), xs);
      } else {
        var r := [xs[0]] + Without(xs[1..], x);
        assert r[1..] == Without(xs[1..], x);
      }
    }
  }

  lemma {:induction false} SubsequenceOfTail(a: seq<string>, b: seq<string>)
    requires b != [] && IsSubsequence(a, b[1..])
    ensures IsSubsequence(a, b)
    decreases |b|, 0
  {
    if a != [] && a[0] == b[0] {
      // greedy matching takes b[0]; what remains of `a` is a subsequence of b[1..]
      SubsequenceDropHead(a, b[1..]);
    }
  }

  lemma {:induction false} SubsequenceDropHead(a: seq<string>, b: seq<string>)
    requires a != [] && IsSubsequence(a, b)
    ensures IsSubsequence(a[1..], b)
    decreases |b|, 1
  {
    if a[0] == b[0] {
      SubsequenceOfTail(a[1..], b);
    } else {
      SubsequenceDropHead(a, b[1..]);
      SubsequenceOfTail(a[1..], b);
    }
  }

  /** Renaming to the same name, or renaming a name the list does not hold,
      leaves the list as it was. */
  lemma ReplaceAllIdentity(xs: seq<string>, oldName: string, newName: string)
    requires oldName == newName || oldName !in xs
    ensures ReplaceAll(xs, oldName, newName) == xs
  {
  }

  /** After a rename to a different name the old name is gone, the new name
      gained exactly the old name's occurrences, and every other name keeps its count. */
  lemma {:induction false} ReplaceAllCounts(xs: seq<string>, oldName: string, newName: string, y: string)
    requires oldName != newName
    ensures Count(ReplaceAll(xs, oldName, newName), y)
         == if y == oldName then 0
            else if y == newName then Count(xs, oldName) + Count(xs, newName)
            else Count(xs, y)
    decreases |xs|
  {
    if xs != [] {
      ReplaceAllCounts(xs[1..], oldName, newName, y);
      var r := ReplaceAll(xs, oldName, newName);
      assert r[1..] == ReplaceAll(xs[1..], oldName, newName);
    }
  }
}
