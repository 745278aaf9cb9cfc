/** Sequence helpers shared by the other modules: the stable sort that stands for
    Python's `sorted`, filtering, and facts about sequences without repetition. */
module Sequences {

  /** Applies `f` to every element. */
  function Map<A, B>(f: A -> B, xs: seq<A>): (ys: seq<B>)
    ensures |ys| == |xs|
    ensures forall i :: 0 <= i < |xs| ==> ys[i] == f(xs[i])
  {
    if xs == [] then [] else [f(xs[0])] + Map(f, xs[1..])
  }

  lemma MapConcat<A, B>(f: A -> B, xs: seq<A>, ys: seq<A>)
    ensures Map(f, xs + ys) == Map(f, xs) + Map(f, ys)
  {
  }

  lemma MapAppend<A, B>(f: A -> B, xs: seq<A>, x: A)
    ensures Map(f, xs + [x]) == Map(f, xs) + [f(x)]
  {
  }

  /** Regrouping of concatenations. */
  lemma Regroup<T>(a: seq<T>, b: seq<T>, c: seq<T>)
    ensures a + b + c == a + (b + c)
  {
  }

  /** Keeps the elements that satisfy `p`, in order. */
  function Filter<T(!new)>(xs: seq<T>, p: T -> bool): (ys: seq<T>)
    ensures |ys| <= |xs|
    ensures forall y :: y in ys <==> y in xs && p(y)
  {
    if xs == [] then []
    else if p(xs[0]) then [xs[0]] + Filter(xs[1..], p)
    else Filter(xs[1..], p)
  }

  lemma {:induction false} FilterAppend<T(!new)>(xs: seq<T>, ys: seq<T>, p: T -> bool)
    ensures Filter(xs + ys, p) == Filter(xs, p) + Filter(ys, p)
  {
    if xs == [] {
      assert xs + ys == ys;
    } else {
      assert (xs + ys)[1..] == xs[1..] + ys;
      FilterAppend(xs[1..], ys, p);
    }
  }

  lemma FilterLast<T(!new)>(xs: seq<T>, x: T, p: T -> bool)
    ensures Filter(xs + [x], p) == Filter(xs, p) + if p(x) then [x] else []
  {
    FilterAppend(xs, [x], p);
    assert [x][1..] == [];
  }

  /** Two filters, one after the other, are one. */
  lemma {:induction false} FilterTwice<T(!new)>(xs: seq<T>, p: T -> bool, q: T -> bool, both: T -> bool)
    requires forall x :: both(x) <==> p(x) && q(x)
    ensures Filter(Filter(xs, p), q) == Filter(xs, both)
  {
    if xs != [] {
      FilterTwice(xs[1..], p, q, both);
    }
  }

  /** One more element on a filtered and mapped sequence. */
  lemma FilterMapLast<A(!new), B>(f: A -> B, p: A -> bool, xs: seq<A>, x: A)
    ensures Map(f, Filter(xs + [x], p)) == Map(f, Filter(xs, p)) + if p(x) then [f(x)] else []
  {
    FilterAppend(xs, [x], p);
    assert [x][1..] == [];
    if p(x) {
      MapAppend(f, Filter(xs, p), x);
    }
  }

  lemma {:induction false} FilterAll<T(!new)>(xs: seq<T>, p: T -> bool)
    requires forall x :: x in xs ==> p(x)
    ensures Filter(xs, p) == xs
  {
    if xs != [] {
      FilterAll(xs[1..], p);
    }
  }

  lemma {:induction false} FilterNone<T(!new)>(xs: seq<T>, p: T -> bool)
    requires forall x :: x in xs ==> !p(x)
    ensures Filter(xs, p) == []
  {
    if xs != [] {
      FilterNone(xs[1..], p);
    }
  }

  function KeyIs<T>(key: T -> int, k: int): T -> bool {
    (x: T) => key(x) == k
  }

  /** Inserts `x` before the first element whose key is not smaller. */
  function InsertBy<T(!new)>(x: T, xs: seq<T>, key: T -> int): (ys: seq<T>)
    ensures |ys| == |xs| + 1
  {
    if xs == [] || key(x) <= key(xs[0]) then [x] + xs
    else [xs[0]] + InsertBy(x, xs[1..], key)
  }

  /** Python's `sorted(xs, key=key)`. With a negated key it is `sorted(..., reverse=True)`,
      which keeps equal elements in their original order too. */
  function SortBy<T(!new)>(xs: seq<T>, key: T -> int): (ys: seq<T>)
    ensures |ys| == |xs|
  {
    if xs == [] then [] else InsertBy(xs[0], SortBy(xs[1..], key), key)
  }

  ghost predicate Ordered<T(!new)>(xs: seq<T>, key: T -> int) {
    forall i, j :: 0 <= i < j < |xs| ==> key(xs[i]) <= key(xs[j])
  }

  ghost predicate Distinct<T(!new)>(xs: seq<T>) {
    forall i, j :: 0 <= i < j < |xs| ==> xs[i] != xs[j]
  }

  lemma {:induction false} InsertPermutes<T(!new)>(x: T, xs: seq<T>, key: T -> int)
    ensures multiset(InsertBy(x, xs, key)) == multiset{x} + multiset(xs)
  {
    if xs == [] || key(x) <= key(xs[0]) {
    } else {
      InsertPermutes(x, xs[1..], key);
      assert xs == [xs[0]] + xs[1..];
    }
  }

  lemma {:induction false} SortPermutes<T(!new)>(xs: seq<T>, key: T -> int)
    ensures multiset(SortBy(xs, key)) == multiset(xs)
  {
    if xs != [] {
      SortPermutes(xs[1..], key);
      InsertPermutes(xs[0], SortBy(xs[1..], key), key);
      assert xs == [xs[0]] + xs[1..];
    }
  }

  lemma SortMembers<T(!new)>(xs: seq<T>, key: T -> int)
    ensures forall x :: x in SortBy(xs, key) <==> x in xs
  {
    SortPermutes(xs, key);
    forall x
      ensures x in SortBy(xs, key) <==> x in xs
    {
      assert x in multiset(SortBy(xs, key)) <==> x in multiset(xs);
    }
  }

  lemma {:induction false} InsertOrdered<T(!new)>(x: T, xs: seq<T>, key: T -> int)
    requires Ordered(xs, key)
    ensures Ordered(InsertBy(x, xs, key), key)
  {
    if xs == [] || key(x) <= key(xs[0]) {
    } else {
      var rest := InsertBy(x, xs[1..], key);
      InsertOrdered(x, xs[1..], key);
      InsertPermutes(x, xs[1..], key);
      forall j | 0 <= j < |rest|
        ensures key(xs[0]) <= key(rest[j])
      {
        assert rest[j] in multiset(rest);
        assert rest[j] == x || rest[j] in xs[1..];
      }
    }
  }

  lemma {:induction false} SortOrdered<T(!new)>(xs: seq<T>, key: T -> int)
    ensures Ordered(SortBy(xs, key), key)
  {
    if xs != [] {
      SortOrdered(xs[1..], key);
      InsertOrdered(xs[0], SortBy(xs[1..], key), key);
    }
  }

  lemma {:induction false} InsertStable<T(!new)>(x: T, xs: seq<T>, key: T -> int, k: int)
    ensures Filter(InsertBy(x, xs, key), KeyIs(key, k)) == Filter([x] + xs, KeyIs(key, k))
  {
    var p := KeyIs(key, k);
    if xs == [] || key(x) <= key(xs[0]) {
    } else {
      InsertStable(x, xs[1..], key, k);
      FilterAppend([xs[0]], InsertBy(x, xs[1..], key), p);
      FilterAppend([x], xs[1..], p);
      FilterAppend([x], xs, p);
      assert xs == [xs[0]] + xs[1..];
      FilterAppend([xs[0]], xs[1..], p);
      assert [xs[0]][1..] == [] && [x][1..] == [];
    }
  }

  /** Elements with equal keys keep their input order. Together with `SortPermutes` and
      `SortOrdered` this determines the result. */
  lemma {:induction false} SortStable<T(!new)>(xs: seq<T>, key: T -> int, k: int)
    ensures Filter(SortBy(xs, key), KeyIs(key, k)) == Filter(xs, KeyIs(key, k))
  {
    if xs != [] {
      var p := KeyIs(key, k);
      SortStable(xs[1..], key, k);
      InsertStable(xs[0], SortBy(xs[1..], key), key, k);
      FilterAppend([xs[0]], SortBy(xs[1..], key), p);
      FilterAppend([xs[0]], xs[1..], p);
      assert xs == [xs[0]] + xs[1..];
    }
  }

  /** A multiset in which nothing repeats comes only from sequences without repetition. */
  lemma {:induction false} SinglesAreDistinct<T(!new)>(xs: seq<T>)
    requires forall x :: multiset(xs)[x] <= 1
    ensures Distinct(xs)
  {
    forall i, j | 0 <= i < j < |xs|
      ensures xs[i] != xs[j]
    {
      var rest := xs[..i] + xs[i + 1..j] + xs[j + 1..];
      assert xs == xs[..i] + [xs[i]] + xs[i + 1..j] + [xs[j]] + xs[j + 1..];
      assert multiset(xs) == multiset(rest) + multiset{xs[i]} + multiset{xs[j]};
      assert multiset(xs)[xs[i]] <= 1;
    }
  }

  lemma {:induction false} DistinctAreSingles<T(!new)>(xs: seq<T>)
    requires Distinct(xs)
    ensures forall x :: multiset(xs)[x] == if x in xs then 1 else 0
  {
    if xs != [] {
      var n := |xs| - 1;
      DistinctAreSingles(xs[..n]);
      assert xs == xs[..n] + [xs[n]];
      assert xs[n] !in xs[..n];
    }
  }

  /** Whether anything repeats does not depend on the order. */
  lemma DistinctPermutes<T(!new)>(xs: seq<T>, ys: seq<T>)
    requires multiset(xs) == multiset(ys)
    ensures Distinct(xs) <==> Distinct(ys)
  {
    if Distinct(xs) {
      DistinctAreSingles(xs);
      SinglesAreDistinct(ys);
    }
    if Distinct(ys) {
      DistinctAreSingles(ys);
      SinglesAreDistinct(xs);
    }
  }

  lemma {:induction false} InsertMapPermutes<A(!new), B>(f: A -> B, x: A, xs: seq<A>, key: A -> int)
    ensures multiset(Map(f, InsertBy(x, xs, key))) == multiset{f(x)} + multiset(Map(f, xs))
  {
    if xs == [] || key(x) <= key(xs[0]) {
      MapConcat(f, [x], xs);
    } else {
      InsertMapPermutes(f, x, xs[1..], key);
      MapConcat(f, [xs[0]], InsertBy(x, xs[1..], key));
      assert xs == [xs[0]] + xs[1..];
      MapConcat(f, [xs[0]], xs[1..]);
    }
  }

  lemma {:induction false} SortMapPermutes<A(!new), B>(f: A -> B, xs: seq<A>, key: A -> int)
    ensures multiset(Map(f, SortBy(xs, key))) == multiset(Map(f, xs))
  {
    if xs != [] {
      SortMapPermutes(f, xs[1..], key);
      InsertMapPermutes(f, xs[0], SortBy(xs[1..], key), key);
    }
  }

  lemma DistinctAppend<T(!new)>(xs: seq<T>, x: T)
    ensures Distinct(xs + [x]) <==> Distinct(xs) && x !in xs
  {
    var ys := xs + [x];
    assert forall i :: 0 <= i < |xs| ==> ys[i] == xs[i];
    assert ys[|xs|] == x;
  }

  // ---------------------------------------------------------------- when the input order does not matter

  /** Elements with equal keys are equal. */
  ghost predicate TiesEqual<T(!new)>(xs: seq<T>, key: T -> int) {
    forall x, y :: x in xs && y in xs && key(x) == key(y) ==> x == y
  }

  lemma SameMembers<T(!new)>(xs: seq<T>, ys: seq<T>)
    requires multiset(xs) == multiset(ys)
    ensures forall x :: x in xs <==> x in ys
  {
    forall x
      ensures x in xs <==> x in ys
    {
      assert x in multiset(xs) <==> x in multiset(ys);
    }
  }

  lemma SameLeast<T(!new)>(xs: seq<T>, ys: seq<T>, key: T -> int)
    requires multiset(xs) == multiset(ys) && xs != []
    requires Ordered(xs, key) && Ordered(ys, key) && TiesEqual(xs, key)
    ensures ys != [] && xs[0] == ys[0]
  {
    SameMembers(xs, ys);
    assert xs[0] in xs && xs[0] in ys;
    assert ys[0] in ys && ys[0] in xs;
    var i :| 0 <= i < |ys| && ys[i] == xs[0];
    var j :| 0 <= j < |xs| && xs[j] == ys[0];
    assert key(ys[0]) <= key(ys[i]) && key(xs[0]) <= key(xs[j]);
  }

  lemma TailBag<T(!new)>(xs: seq<T>)
    requires xs != []
    ensures multiset(xs[1..]) == multiset(xs) - multiset{xs[0]}
  {
    assert xs == [xs[0]] + xs[1..];
  }

  /** An ordered sequence without distinct ties is determined by its elements. */
  lemma {:induction false} OrderedUnique<T(!new)>(xs: seq<T>, ys: seq<T>, key: T -> int)
    requires multiset(xs) == multiset(ys)
    requires Ordered(xs, key) && Ordered(ys, key) && TiesEqual(xs, key)
    ensures xs == ys
  {
    if xs == [] {
      assert |multiset(ys)| == |ys|;
    } else {
      SameLeast(xs, ys, key);
      TailBag(xs);
      TailBag(ys);
      OrderedUnique(xs[1..], ys[1..], key);
    }
  }

  lemma SortFreeIfTiesEqual<T(!new)>(xs: seq<T>, ys: seq<T>, key: T -> int)
    requires multiset(xs) == multiset(ys) && TiesEqual(xs, key)
    ensures SortBy(xs, key) == SortBy(ys, key)
  {
    SortPermutes(xs, key);
    SortPermutes(ys, key);
    SortOrdered(xs, key);
    SortOrdered(ys, key);
    SameMembers(xs, SortBy(xs, key));
    OrderedUnique(SortBy(xs, key), SortBy(ys, key), key);
  }

  /** `xs` with two of its elements in front. */
  lemma BringToFront<T(!new)>(xs: seq<T>, i: nat, j: nat) returns (rest: seq<T>)
    requires i < j < |xs|
    ensures multiset([xs[i]] + ([xs[j]] + rest)) == multiset(xs) == multiset([xs[j]] + ([xs[i]] + rest))
  {
    var p, q, r := xs[..i], xs[i + 1..j], xs[j + 1..];
    rest := p + (q + r);
    assert xs == p + ([xs[i]] + (q + ([xs[j]] + r)));
    TwoOut(p, q, r, xs[i], xs[j]);
  }

  lemma TwoOut<T(!new)>(p: seq<T>, q: seq<T>, r: seq<T>, a: T, b: T)
    ensures multiset([a] + ([b] + (p + (q + r)))) == multiset(p + ([a] + (q + ([b] + r))))
         == multiset([b] + ([a] + (p + (q + r))))
  {
    OneOut(q, r, b);
    OneOut(p, q + ([b] + r), a);
    OneOut(p, q + r, b);
    assert multiset(p + (q + ([b] + r))) == multiset(p + ([b] + (q + r)));
  }

  lemma OneOut<T(!new)>(p: seq<T>, r: seq<T>, a: T)
    ensures multiset(p + ([a] + r)) == multiset{a} + multiset(p + r)
  {
  }

  /** Two elements with one key, first one in front and then the other: stability shows in the result. */
  lemma TieShows<T(!new)>(a: T, b: T, rest: seq<T>, key: T -> int)
    requires key(a) == key(b) && a != b
    ensures SortBy([a] + ([b] + rest), key) != SortBy([b] + ([a] + rest), key)
  {
    var xs, ys := [a] + ([b] + rest), [b] + ([a] + rest);
    var p := KeyIs(key, key(a));
    SortStable(xs, key, key(a));
    SortStable(ys, key, key(a));
    assert Filter(xs, p)[0] == a && Filter(ys, p)[0] == b;
  }

  // ---------------------------------------------------------------- reversal

  function Reverse<T>(xs: seq<T>): (ys: seq<T>)
    ensures |ys| == |xs|
    ensures forall i :: 0 <= i < |xs| ==> ys[i] == xs[|xs| - 1 - i]
  {
    if xs == [] then [] else Reverse(xs[1..]) + [xs[0]]
  }

  lemma ReverseConcat<T>(xs: seq<T>, ys: seq<T>)
    ensures Reverse(xs + ys) == Reverse(ys) + Reverse(xs)
  {
  }

  lemma ReverseTwice<T>(xs: seq<T>)
    ensures Reverse(Reverse(xs)) == xs
  {
  }

  lemma {:induction false} ReversePermutes<T>(xs: seq<T>)
    ensures multiset(Reverse(xs)) == multiset(xs)
  {
    if xs != [] {
      ReversePermutes(xs[1..]);
      assert xs == [xs[0]] + xs[1..];
    }
  }

  lemma {:induction false} MapReverse<A, B>(f: A -> B, xs: seq<A>)
    ensures Reverse(Map(f, xs)) == Map(f, Reverse(xs))
  {
    if xs != [] {
      MapReverse(f, xs[1..]);
      MapAppend(f, Reverse(xs[1..]), xs[0]);
      assert Map(f, xs)[1..] == Map(f, xs[1..]);
    }
  }

  // ---------------------------------------------------------------- search by levels

  /** All successors of a level, left to right. */
  function Level<T>(next: T -> seq<T>, xs: seq<T>): seq<T> {
    if xs == [] then [] else next(xs[0]) + Level(next, xs[1..])
  }

  /** The levels below `xs` run out within `n` levels. */
  ghost predicate Exhausts<T>(next: T -> seq<T>, xs: seq<T>, n: nat)
    decreases n
  {
    xs == [] || (n > 0 && Exhausts(next, Level(next, xs), n - 1))
  }

  /** A level, then the next one, and so on, `n` levels long. */
  function Levels<T>(next: T -> seq<T>, xs: seq<T>, n: nat): seq<T>
    decreases n
  {
    if xs == [] || n == 0 then [] else xs + Levels(next, Level(next, xs), n - 1)
  }

  lemma {:induction false} LevelMembers<T(!new)>(next: T -> seq<T>, xs: seq<T>, x: T)
    ensures x in Level(next, xs) <==> exists y :: y in xs && x in next(y)
  {
    if xs != [] {
      LevelMembers(next, xs[1..], x);
      assert xs == [xs[0]] + xs[1..];
    }
  }

  /** The `k`-th level below `xs`. */
  function LevelAt<T>(next: T -> seq<T>, xs: seq<T>, k: nat): seq<T>
    decreases k
  {
    if k == 0 then xs else LevelAt(next, Level(next, xs), k - 1)
  }

  lemma {:induction false} NothingBelow<T>(next: T -> seq<T>, k: nat)
    ensures LevelAt(next, [], k) == []
  {
    if k > 0 {
      NothingBelow(next, k - 1);
    }
  }

  ghost predicate AtLevel<T(!new)>(next: T -> seq<T>, xs: seq<T>, x: T, k: nat) {
    x in LevelAt(next, xs, k)
  }

  ghost predicate AtSomeLevel<T(!new)>(next: T -> seq<T>, xs: seq<T>, x: T) {
    exists k: nat :: AtLevel(next, xs, x, k)
  }

  /** Levels that run out hold exactly what some level holds. */
  lemma {:induction false} InLevels<T(!new)>(next: T -> seq<T>, xs: seq<T>, n: nat, x: T)
    requires Exhausts(next, xs, n)
    ensures x in Levels(next, xs, n) <==> AtSomeLevel(next, xs, x)
    decreases n
  {
    if xs == [] {
      forall k: nat
        ensures !AtLevel(next, xs, x, k)
      {
        NothingBelow(next, k);
      }
    } else {
      InLevels(next, Level(next, xs), n - 1, x);
      LevelAtStart(next, xs, x);
    }
  }

  lemma LevelAtStart<T(!new)>(next: T -> seq<T>, xs: seq<T>, x: T)
    ensures AtSomeLevel(next, xs, x) <==> x in xs || AtSomeLevel(next, Level(next, xs), x)
  {
    assert x in xs <==> AtLevel(next, xs, x, 0);
    forall k: nat
      ensures AtLevel(next, xs, x, k + 1) <==> AtLevel(next, Level(next, xs), x, k)
    {
    }
    if AtSomeLevel(next, xs, x) && x !in xs {
      var k: nat :| AtLevel(next, xs, x, k);
      var m: nat := k - 1;
      assert AtLevel(next, xs, x, m + 1);
      assert AtLevel(next, Level(next, xs), x, m);
    }
    if AtSomeLevel(next, Level(next, xs), x) {
      var k: nat :| AtLevel(next, Level(next, xs), x, k);
      var m: nat := k + 1;
      assert AtLevel(next, xs, x, m);
    }
  }

  lemma {:induction false} NoneBelow<T>(next: T -> seq<T>, xs: seq<T>)
    requires forall i :: 0 <= i < |xs| ==> next(xs[i]) == []
    ensures Level(next, xs) == []
  {
    if xs != [] {
      NoneBelow(next, xs[1..]);
    }
  }

  /** Beyond the level where they run out, the number of levels does not matter. */
  lemma {:induction false} LevelsRunOut<T>(next: T -> seq<T>, xs: seq<T>, m: nat, n: nat)
    requires Exhausts(next, xs, m) && m <= n
    ensures Exhausts(next, xs, n) && Levels(next, xs, n) == Levels(next, xs, m)
    decreases m
  {
    if xs != [] {
      LevelsRunOut(next, Level(next, xs), m - 1, n - 1);
    }
  }

  /** A queue that holds the rest `a` of one level followed by the beginning `b` of the next still has to yield
      `a` and then the levels from the next one on. */
  ghost function Pending<T>(next: T -> seq<T>, a: seq<T>, b: seq<T>, n: nat): seq<T> {
    a + Levels(next, b + Level(next, a), n)
  }

  /** How the queue divides after one turn. */
  ghost function Turned<T>(next: T -> seq<T>, a: seq<T>, b: seq<T>): (seq<T>, seq<T>)
    requires a + b != []
  {
    if a == [] then (b[1..], next(b[0])) else (a[1..], b + next(a[0]))
  }

  lemma TurnedQueue<T>(next: T -> seq<T>, a: seq<T>, b: seq<T>)
    requires a + b != []
    ensures Turned(next, a, b).0 + Turned(next, a, b).1 == (a + b)[1..] + next((a + b)[0])
  {
    if a == [] {
      assert a + b == b;
    } else {
      assert (a + b)[1..] == a[1..] + b;
    }
  }

  lemma PendingStep<T>(next: T -> seq<T>, a: seq<T>, b: seq<T>, n: nat)
    requires a != []
    ensures b + Level(next, a) == (b + next(a[0])) + Level(next, a[1..])
    ensures Pending(next, a, b, n) == [a[0]] + Pending(next, a[1..], b + next(a[0]), n)
  {
    Regroup(b, next(a[0]), Level(next, a[1..]));
    var rest := Levels(next, b + Level(next, a), n);
    assert a == [a[0]] + a[1..];
    Regroup([a[0]], a[1..], rest);
  }

  lemma PendingTurn<T>(next: T -> seq<T>, b: seq<T>, n: nat)
    requires b != [] && Exhausts(next, b + Level(next, []), n)
    ensures n > 0 && Exhausts(next, [] + Level(next, b), n - 1)
    ensures Pending(next, [], b, n) == Pending(next, b, [], n - 1)
  {
    assert b + Level(next, []) == b;
    assert [] + Level(next, b) == Level(next, b);
    assert [] + Levels(next, b, n) == Levels(next, b, n);
  }

  /** The number of levels still to come after one turn. */
  function LevelsLeft<T>(a: seq<T>, n: nat): nat {
    if a == [] && n > 0 then n - 1 else n
  }

  /** One turn of the queue yields its head and leaves the rest pending. */
  lemma QueueTurn<T>(next: T -> seq<T>, a: seq<T>, b: seq<T>, n: nat)
    requires a + b != [] && Exhausts(next, b + Level(next, a), n)
    ensures var (a', b') := Turned(next, a, b);
            && Exhausts(next, b' + Level(next, a'), LevelsLeft(a, n))
            && Pending(next, a, b, n) == [(a + b)[0]] + Pending(next, a', b', LevelsLeft(a, n))
  {
    if a == [] {
      PendingTurn(next, b, n);
      PendingStep(next, b, [], n - 1);
      assert [] + next(b[0]) == next(b[0]);
    } else {
      PendingStep(next, a, b, n);
    }
  }
}
