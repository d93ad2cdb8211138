/**
 * The Swift `Array` edits the controllers use on their fragment lists —
 * `swapAt`, `remove(at:)` followed by `insert(_:at:)`, and `shuffle()` —
 * with the facts about them that the puzzle relies on.
 */
module Sequences {

  /** `a.swapAt(i, j)`. */
  function Swapped<T>(s: seq<T>, i: nat, j: nat): seq<T>
    requires i < |s| && j < |s|
  {
    s[i := s[j]][j := s[i]]
  }

  /** `a.remove(at: i)`, keeping the rest. */
  function Removed<T>(s: seq<T>, i: nat): seq<T>
    requires i < |s|
  {
    s[..i] + s[i + 1..]
  }

  /** `a.insert(x, at: i)`. */
  function Inserted<T>(s: seq<T>, i: nat, x: T): seq<T>
    requires i <= |s|
  {
    s[..i] + [x] + s[i..]
  }

  /** `let x = a.remove(at: from); a.insert(x, at: to)`. */
  function Moved<T>(s: seq<T>, from: nat, to: nat): seq<T>
    requires from < |s| && to < |s|
  {
    Inserted(Removed(s, from), to, s[from])
  }

  /** `s.map(f)`. */
  function MapSeq<A, B>(s: seq<A>, f: A -> B): (r: seq<B>)
    ensures |r| == |s|
    ensures forall i :: 0 <= i < |s| ==> r[i] == f(s[i])
  {
    seq(|s|, i requires 0 <= i < |s| => f(s[i]))
  }

  /** Elements at pairwise different indices differ. */
  predicate Distinct<T(==)>(s: seq<T>)
  {
    forall i, j :: 0 <= i < j < |s| ==> s[i] != s[j]
  }

  /** A swap exchanges two entries and keeps the rest. */
  lemma SwappedAt<T>(s: seq<T>, i: nat, j: nat)
    requires i < |s| && j < |s|
    ensures |Swapped(s, i, j)| == |s|
    ensures Swapped(s, i, j)[i] == s[j] && Swapped(s, i, j)[j] == s[i]
    ensures forall k :: 0 <= k < |s| && k != i && k != j ==> Swapped(s, i, j)[k] == s[k]
  {
  }

  /** A swap is a permutation and is undone by itself. */
  lemma SwappedPermutes<T>(s: seq<T>, i: nat, j: nat)
    requires i < |s| && j < |s|
    ensures multiset(Swapped(s, i, j)) == multiset(s)
    ensures Swapped(Swapped(s, i, j), i, j) == s
  {
    var t := s[i := s[j]];
    assert t[j] == s[j];
    assert multiset(t) == multiset(s) - multiset{s[i]} + multiset{s[j]};
    assert multiset(Swapped(s, i, j)) == multiset(t) - multiset{s[j]} + multiset{s[i]};
    SwappedAt(s, i, j);
    SwappedAt(Swapped(s, i, j), i, j);
  }

  /**
   * A move puts the moved element at the destination, shifts the elements
   * between source and destination by one towards the source, and leaves
   * every other element where it was.
   */
  lemma MovedAt<T>(s: seq<T>, from: nat, to: nat)
    requires from < |s| && to < |s|
    ensures |Moved(s, from, to)| == |s|
    ensures Moved(s, from, to)[to] == s[from]
    ensures forall k :: 0 <= k < |s| && k < from && k < to ==> Moved(s, from, to)[k] == s[k]
    ensures forall k :: 0 <= k < |s| && k > from && k > to ==> Moved(s, from, to)[k] == s[k]
    ensures forall k :: from <= k < to ==> Moved(s, from, to)[k] == s[k + 1]
    ensures forall k :: to < k <= from ==> Moved(s, from, to)[k] == s[k - 1]
  {
  }

  /** A move is a permutation, and moving back from the destination restores the list. */
  lemma MovedPermutes<T>(s: seq<T>, from: nat, to: nat)
    requires from < |s| && to < |s|
    ensures multiset(Moved(s, from, to)) == multiset(s)
    ensures Moved(Moved(s, from, to), to, from) == s
    ensures from == to ==> Moved(s, from, to) == s
  {
    MovedMultiset(s, from, to);
    var rest := Removed(s, from);
    var r := Moved(s, from, to);
    assert Removed(r, to) == rest;
    assert Inserted(rest, from, s[from]) == s;
  }

  lemma MovedMultiset<T>(s: seq<T>, from: nat, to: nat)
    requires from < |s| && to < |s|
    ensures multiset(Moved(s, from, to)) == multiset(s)
  {
    var rest := Removed(s, from);
    assert s == s[..from] + [s[from]] + s[from + 1..];
    assert multiset(s) == multiset(rest) + multiset{s[from]};
    assert rest == rest[..to] + rest[to..];
    assert multiset(Moved(s, from, to)) == multiset(rest[..to]) + multiset{s[from]} + multiset(rest[to..]);
  }

  lemma MapConcat<A, B>(a: seq<A>, b: seq<A>, f: A -> B)
    ensures MapSeq(a + b, f) == MapSeq(a, f) + MapSeq(b, f)
  {
  }

  /** Mapping commutes with a swap. */
  lemma MapSwapped<A, B>(s: seq<A>, i: nat, j: nat, f: A -> B)
    requires i < |s| && j < |s|
    ensures MapSeq(Swapped(s, i, j), f) == Swapped(MapSeq(s, f), i, j)
  {
  }

  /** Mapping commutes with a move. */
  lemma MapMoved<A, B>(s: seq<A>, from: nat, to: nat, f: A -> B)
    requires from < |s| && to < |s|
    ensures MapSeq(Moved(s, from, to), f) == Moved(MapSeq(s, f), from, to)
  {
    MovedAt(s, from, to);
    MovedAt(MapSeq(s, f), from, to);
  }

  /** Mapping a function over two permutations of each other gives two permutations of each other. */
  lemma {:induction false} MapMultiset<A, B>(a: seq<A>, b: seq<A>, f: A -> B)
    requires multiset(a) == multiset(b)
    ensures multiset(MapSeq(a, f)) == multiset(MapSeq(b, f))
    decreases |a|
  {
    if |a| == 0 {
      assert |multiset(b)| == 0;
      assert b == [];
    } else {
      var x := a[0];
      assert x in multiset(b);
      var k :| 0 <= k < |b| && b[k] == x;
      var b' := b[..k] + b[k + 1..];
      assert b == b[..k] + [x] + b[k + 1..];
      assert a == [x] + a[1..];
      assert multiset(b') == multiset(b) - multiset{x};
      assert multiset(a[1..]) == multiset(a) - multiset{x};
      MapMultiset(a[1..], b', f);
      MapConcat([x], a[1..], f);
      MapConcat(b[..k] + [x], b[k + 1..], f);
      MapConcat(b[..k], [x], f);
      MapConcat(b[..k], b[k + 1..], f);
    }
  }

  /** In a list without repetitions every value occurs at most once. */
  lemma {:induction false} DistinctMultiplicity<T>(s: seq<T>, x: T)
    requires Distinct(s)
    ensures multiset(s)[x] == if x in s then 1 else 0
  {
    if |s| > 0 {
      var init := s[..|s| - 1];
      assert s == init + [s[|s| - 1]];
      DistinctMultiplicity(init, x);
      if x == s[|s| - 1] {
        assert x !in init;
      }
    }
  }

  /** Two repetition-free lists with the same elements are permutations of each other. */
  lemma DistinctSameElements<T>(a: seq<T>, b: seq<T>)
    requires Distinct(a) && Distinct(b)
    requires forall x :: x in a <==> x in b
    ensures multiset(a) == multiset(b)
  {
    forall x
      ensures multiset(a)[x] == multiset(b)[x]
    {
      DistinctMultiplicity(a, x);
      DistinctMultiplicity(b, x);
    }
  }

  /**
   * `shuffle()` as the standard library performs it: a forward Fisher-Yates
   * pass that swaps each position with one at or after it. The random
   * offsets come from `draw`, reduced into range as `Int.random(in: 0..<amount)`
   * would return them. The result is a permutation of the input.
   */
  method Shuffle<T>(s: seq<T>, draw: nat -> nat) returns (r: seq<T>)
    ensures |r| == |s|
    ensures multiset(r) == multiset(s)
  {
    r := s;
    var amount := |r|;
    var currentIndex := 0;
    while amount > 1
      invariant currentIndex + amount == |s| || (|s| == 0 && amount == 0)
      invariant |r| == |s|
      invariant multiset(r) == multiset(s)
    {
      var random := draw(currentIndex) % amount;
      amount := amount - 1;
      SwappedPermutes(r, currentIndex, currentIndex + random);
      r := Swapped(r, currentIndex, currentIndex + random);
      currentIndex := currentIndex + 1;
    }
  }
}
