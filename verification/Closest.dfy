/**
 Where a client contact is published: the registered relays closest to a blinded key under the
 XOR metric of src/nodedb.cpp (`find_many_closest_to`).
 */
module Closest {
  import opened WireBytes
  import opened RouterIds
  import opened Sequences
  import opened Bits

  // ----- the metric -----

  /** Bytes as a number, least significant first. */
  function LittleEndian(b: Bytes): (v: nat)
    ensures v < Pow2(8 * |b|)
  {
    if b == [] then 0
    else
      EightMore(8 * |b[1..]|);
      b[0] + 256 * LittleEndian(b[1..])
  }

  lemma EightMore(n: nat)
    ensures Pow2(n + 8) == 256 * Pow2(n)
  {
    Pow2Add(n, 8);
    EightBits();
  }

  /** Eight bytes of a key as a 64-bit word. */
  function Word(k: RouterId, at: nat): nat
    requires at + 8 <= 32
  {
    LittleEndian(k[at..at + 8])
  }

  /** xor_condense */
  function Condense(k: RouterId): nat {
    Xor(Xor(Xor(Word(k, 0), Word(k, 8)), Word(k, 16)), Word(k, 24))
  }

  /** Everything stays in 64 bits. */
  lemma CondenseFits(k: RouterId)
    ensures Condense(k) < Pow2(64)
  {
    hide Xor, Pow2, LittleEndian;
    var a, b, c, d := Word(k, 0), Word(k, 8), Word(k, 16), Word(k, 24);
    XorBelow(a, b, 64);
    XorBelow(Xor(a, b), c, 64);
    XorBelow(Xor(Xor(a, b), c), d, 64);
  }

  lemma DistanceFits(pk: RouterId, a: RouterId)
    ensures Distance(pk, a) < Pow2(64)
  {
    hide Xor, Pow2, Condense;
    CondenseFits(a);
    CondenseFits(pk);
    XorBelow(Condense(a), Condense(pk), 64);
  }

  /** Bit r of byte q, at its place. */
  lemma {:induction false} LittleEndianBit(b: Bytes, q: nat, r: nat)
    requires q < |b| && r < 8
    ensures Bit(LittleEndian(b), 8 * q + r) == Bit(b[q], r)
    decreases q
  {
    hide Bit, Pow2, LittleEndian;
    LittleEndianCons(b);
    EightBits();
    var rest := LittleEndian(b[1..]);
    if q == 0 {
      LowBits(rest, 8, b[0], r);
    } else {
      HighBits(rest, 8, b[0], 8 * (q - 1) + r);
      LittleEndianBit(b[1..], q - 1, r);
      assert 8 + (8 * (q - 1) + r) == 8 * q + r;
    }
  }

  lemma LittleEndianCons(b: Bytes)
    requires b != []
    ensures LittleEndian(b) == LittleEndian(b[1..]) * 256 + b[0]
  {
  }

  lemma WordBit(k: RouterId, at: nat, q: nat, r: nat)
    requires at + 8 <= 32 && q < 8 && r < 8
    ensures Bit(Word(k, at), 8 * q + r) == Bit(k[at + q], r)
  {
    hide Bit, Pow2, LittleEndian;
    LittleEndianBit(k[at..at + 8], q, r);
  }

  /** Each bit of the condensed key is the parity of four of its bits, eight bytes apart. */
  lemma CondenseBit(k: RouterId, q: nat, r: nat)
    requires q < 8 && r < 8
    ensures Bit(Condense(k), 8 * q + r) == (Bit(k[q], r) + Bit(k[8 + q], r) + Bit(k[16 + q], r) + Bit(k[24 + q], r)) % 2
  {
    hide Bit, Xor, Word, Pow2;
    var i := 8 * q + r;
    var a, b, c, d := Word(k, 0), Word(k, 8), Word(k, 16), Word(k, 24);
    XorBit(a, b, i);
    XorBit(Xor(a, b), c, i);
    XorBit(Xor(Xor(a, b), c), d, i);
    WordBit(k, 0, q, r);
    WordBit(k, 8, q, r);
    WordBit(k, 16, q, r);
    WordBit(k, 24, q, r);
    Parity(Bit(k[q], r), Bit(k[8 + q], r), Bit(k[16 + q], r), Bit(k[24 + q], r));
  }

  lemma Parity(a: nat, b: nat, c: nat, d: nat)
    ensures (((a + b) % 2 + c) % 2 + d) % 2 == (a + b + c + d) % 2
  {
  }

  /** Lexicographic order on bytes. */
  predicate LexLess(a: Bytes, b: Bytes) {
    if b == [] then false
    else if a == [] then true
    else a[0] < b[0] || (a[0] == b[0] && LexLess(a[1..], b[1..]))
  }

  /** The distance as the unsigned number the comparison takes it for. */
  function Distance(pk: RouterId, a: RouterId): nat {
    Xor(Condense(a), Condense(pk))
  }

  /** PublishLocationMetric: nearer to the key, or equally near and smaller. */
  predicate Closer(pk: RouterId, a: RouterId, b: RouterId) {
    var l, r := Distance(pk, a), Distance(pk, b);
    l < r || (l == r && LexLess(a, b))
  }

  lemma {:induction false} LexIrreflexive(a: Bytes)
    ensures !LexLess(a, a)
  {
    if a != [] {
      LexIrreflexive(a[1..]);
    }
  }

  lemma {:induction false} LexTransitive(a: Bytes, b: Bytes, c: Bytes)
    requires LexLess(a, b) && LexLess(b, c)
    ensures LexLess(a, c)
  {
    if a != [] && a[0] == b[0] == c[0] {
      LexTransitive(a[1..], b[1..], c[1..]);
    }
  }

  lemma {:induction false} LexTotal(a: Bytes, b: Bytes)
    ensures a == b || LexLess(a, b) || LexLess(b, a)
  {
    if a != [] && b != [] && a[0] == b[0] {
      LexTotal(a[1..], b[1..]);
      assert a == [a[0]] + a[1..] && b == [b[0]] + b[1..];
    }
  }

  ghost predicate StrictTotalOrder<T(!new)>(less: (T, T) -> bool) {
    && (forall a :: !less(a, a))
    && (forall a, b, c :: less(a, b) && less(b, c) ==> less(a, c))
    && (forall a, b :: a == b || less(a, b) || less(b, a))
  }

  function Metric(pk: RouterId): (RouterId, RouterId) -> bool {
    (a: RouterId, b: RouterId) => Closer(pk, a, b)
  }

  lemma CloserTransitive(pk: RouterId, a: RouterId, b: RouterId, c: RouterId)
    requires Closer(pk, a, b) && Closer(pk, b, c)
    ensures Closer(pk, a, c)
  {
    hide Distance, LexLess;
    if LexLess(a, b) && LexLess(b, c) {
      LexTransitive(a, b, c);
    }
  }

  lemma CloserTotal(pk: RouterId, a: RouterId, b: RouterId)
    ensures !Closer(pk, a, a) && (a == b || Closer(pk, a, b) || Closer(pk, b, a))
  {
    hide Distance, LexLess;
    LexIrreflexive(a);
    LexTotal(a, b);
  }

  /** The metric with its tie-break orders all relays, ties in the 64-bit distance included. */
  lemma MetricIsOrder(pk: RouterId)
    ensures StrictTotalOrder(Metric(pk))
  {
    hide Closer;
    var less := Metric(pk);
    forall a: RouterId
      ensures !less(a, a)
    {
      CloserTotal(pk, a, a);
    }
    forall a: RouterId, b: RouterId, c: RouterId | less(a, b) && less(b, c)
      ensures less(a, c)
    {
      CloserTransitive(pk, a, b, c);
    }
    forall a: RouterId, b: RouterId
      ensures a == b || less(a, b) || less(b, a)
    {
      CloserTotal(pk, a, b);
    }
  }

  // ----- what near means -----

  /**
   At the highest bit in which the condensed words of a and b differ, a agrees with the key. So it
   is when a agrees with the key from bit i up and b only above it.
   */
  ghost predicate AgreesLonger(pk: RouterId, a: RouterId, b: RouterId, i: nat) {
    && i < 64
    && (forall j: nat :: i < j < 64 ==> Bit(Condense(a), j) == Bit(Condense(b), j))
    && Bit(Condense(a), i) == Bit(Condense(pk), i) && Bit(Condense(b), i) != Bit(Condense(pk), i)
  }

  /** Condensed to the same word, and smaller at the first byte in which the keys differ. */
  ghost predicate SmallerAt(a: RouterId, b: RouterId, j: nat) {
    j < 32 && Condense(a) == Condense(b) && a[..j] == b[..j] && a[j] < b[j]
  }

  lemma LongerIsCloser(pk: RouterId, a: RouterId, b: RouterId, i: nat)
    requires AgreesLonger(pk, a, b, i)
    ensures Closer(pk, a, b)
  {
    hide Distance, Condense, Bit, LexLess, Pow2;
    var l, r := Distance(pk, a), Distance(pk, b);
    forall j: nat | i <= j < 64
      ensures (j > i ==> Bit(l, j) == Bit(r, j)) && (j == i ==> Bit(l, j) == 0 && Bit(r, j) == 1)
    {
      DistanceBit(pk, a, j);
      DistanceBit(pk, b, j);
    }
    DistanceFits(pk, a);
    DistanceFits(pk, b);
    HighestBitDecides(l, r, 64, i);
  }

  /** The distance has the bits in which the condensed words differ. */
  lemma DistanceBit(pk: RouterId, a: RouterId, j: nat)
    requires j < 64
    ensures Bit(Distance(pk, a), j) == if Bit(Condense(a), j) == Bit(Condense(pk), j) then 0 else 1
  {
    hide Condense, Xor;
    XorBit(Condense(a), Condense(pk), j);
  }

  lemma {:induction false} LexAt(a: Bytes, b: Bytes, j: nat)
    requires j < |a| && j < |b| && a[..j] == b[..j] && a[j] < b[j]
    ensures LexLess(a, b)
    decreases j
  {
    if j > 0 {
      assert a[0] == a[..j][0] == b[..j][0] == b[0];
      assert a[1..][..j - 1] == a[..j][1..] == b[..j][1..] == b[1..][..j - 1];
      LexAt(a[1..], b[1..], j - 1);
    }
  }

  lemma SmallerIsCloser(pk: RouterId, a: RouterId, b: RouterId, j: nat)
    requires SmallerAt(a, b, j)
    ensures Closer(pk, a, b)
  {
    hide Condense, Xor, LexLess;
    LexAt(a, b, j);
  }

  ghost predicate Nearer(pk: RouterId, a: RouterId, b: RouterId) {
    (exists i :: AgreesLonger(pk, a, b, i)) || (exists j :: SmallerAt(a, b, j))
  }

  /** The comparison of the program is this, and nothing else. */
  lemma NearerIsCloser(pk: RouterId, a: RouterId, b: RouterId)
    ensures Nearer(pk, a, b) <==> Closer(pk, a, b)
  {
    if Nearer(pk, a, b) {
      hide Closer, AgreesLonger, SmallerAt;
      if i :| AgreesLonger(pk, a, b, i) {
        LongerIsCloser(pk, a, b, i);
      } else {
        var j :| SmallerAt(a, b, j);
        SmallerIsCloser(pk, a, b, j);
      }
    } else if Closer(pk, a, b) {
      CloserIsNearer(pk, a, b);
    }
  }

  lemma CloserIsNearer(pk: RouterId, a: RouterId, b: RouterId)
    requires Closer(pk, a, b)
    ensures Nearer(pk, a, b)
  {
    hide Distance, Condense, Bit, LexLess, Pow2, SmallerAt;
    var l, r := Distance(pk, a), Distance(pk, b);
    forall j: nat | j < 64
      ensures Bit(l, j) == Bit(r, j) <==> Bit(Condense(a), j) == Bit(Condense(b), j)
      ensures Bit(l, j) == 0 <==> Bit(Condense(a), j) == Bit(Condense(pk), j)
      ensures Bit(r, j) == 0 <==> Bit(Condense(b), j) == Bit(Condense(pk), j)
    {
      DistanceBit(pk, a, j);
      DistanceBit(pk, b, j);
      OneOrZero(Condense(a), j);
      OneOrZero(Condense(b), j);
      OneOrZero(Condense(pk), j);
    }
    if l == r {
      CondenseFits(a);
      CondenseFits(b);
      SameBits(Condense(a), Condense(b), 64);
      var j := FirstDifference(a, b);
      assert SmallerAt(a, b, j) by {
        SmallerWhen(a, b, j);
      }
    } else {
      DistanceFits(pk, a);
      DistanceFits(pk, b);
      var i := HighestDifference(l, r, 64);
      OneOrZero(l, i);
      OneOrZero(r, i);
      if Bit(l, i) == 1 {
        HighestBitDecides(r, l, 64, i);
      }
      assert AgreesLonger(pk, a, b, i);
    }
  }

  lemma OneOrZero(x: nat, j: nat)
    ensures Bit(x, j) in {0, 1}
  {
  }

  lemma SmallerWhen(a: RouterId, b: RouterId, j: nat)
    requires j < 32 && Condense(a) == Condense(b) && a[..j] == b[..j] && a[j] < b[j]
    ensures SmallerAt(a, b, j)
  {
    hide Condense;
  }

  /** Where the smaller of two keys is smaller. */
  lemma {:induction false} FirstDifference(a: Bytes, b: Bytes) returns (j: nat)
    requires |a| == |b| && LexLess(a, b)
    ensures j < |a| && a[..j] == b[..j] && a[j] < b[j]
    decreases |a|
  {
    if a[0] < b[0] {
      j := 0;
    } else {
      var k := FirstDifference(a[1..], b[1..]);
      j := k + 1;
      assert a[..j] == [a[0]] + a[1..][..k] && b[..j] == [b[0]] + b[1..][..k];
    }
  }

  /** A relay whose condensed word is that of the key is nearer than any whose word differs. */
  lemma ExactMatchNearest(pk: RouterId, a: RouterId, b: RouterId)
    requires Condense(a) == Condense(pk) && Condense(b) != Condense(pk)
    ensures Nearer(pk, a, b)
  {
    hide Condense, Bit, Pow2;
    CondenseFits(b);
    CondenseFits(pk);
    var i := HighestDifference(Condense(b), Condense(pk), 64);
    assert AgreesLonger(pk, a, b, i);
  }

  lemma {:induction false} HighestDifference(x: nat, y: nat, n: nat) returns (i: nat)
    requires x < Pow2(64) && y < Pow2(64) && n <= 64 && x != y
    requires forall j: nat :: n <= j < 64 ==> Bit(x, j) == Bit(y, j)
    ensures i < 64 && Bit(x, i) != Bit(y, i) && forall j: nat :: i < j < 64 ==> Bit(x, j) == Bit(y, j)
    decreases n
  {
    hide Bit, Pow2;
    if n == 0 {
      i := 0;
      SameBits(x, y, 64);
    } else if Bit(x, n - 1) != Bit(y, n - 1) {
      i := n - 1;
    } else {
      i := HighestDifference(x, y, n - 1);
    }
  }

  // ----- the k smallest -----

  predicate Sorted<T>(less: (T, T) -> bool, r: seq<T>) {
    forall i, j :: 0 <= i < j < |r| ==> less(r[i], r[j])
  }

  /** r is the k smallest of S, in order: all that is left out comes after all that is in. */
  ghost predicate Smallest<T(!new)>(less: (T, T) -> bool, S: set<T>, k: nat, r: seq<T>) {
    && |r| == (if k < |S| then k else |S|)
    && Elems(r) <= S && Sorted(less, r)
    && forall x, y :: x in r && y in S && y !in r ==> less(x, y)
  }

  lemma SortedCard<T(!new)>(less: (T, T) -> bool, r: seq<T>)
    requires StrictTotalOrder(less) && Sorted(less, r)
    ensures |Elems(r)| == |r|
  {
    forall i, j | 0 <= i < j < |r|
      ensures r[i] != r[j]
    {
      assert less(r[i], r[j]);
    }
    DistinctCount(r);
  }

  /** Two sorted sequences of the same elements are the same. */
  lemma {:induction false} SortedUnique<T(!new)>(less: (T, T) -> bool, a: seq<T>, b: seq<T>)
    requires StrictTotalOrder(less) && Sorted(less, a) && Sorted(less, b) && Elems(a) == Elems(b)
    ensures a == b
    decreases |a|
  {
    SortedCard(less, a);
    SortedCard(less, b);
    if a != [] {
      var x, y := a[|a| - 1], b[|b| - 1];
      assert x in Elems(a) && y in Elems(b);
      assert x == y;
      DropLast(less, a);
      DropLast(less, b);
      SortedUnique(less, a[..|a| - 1], b[..|b| - 1]);
      assert a == a[..|a| - 1] + [x] && b == b[..|b| - 1] + [y];
    }
  }

  lemma DropLast<T(!new)>(less: (T, T) -> bool, a: seq<T>)
    requires StrictTotalOrder(less) && Sorted(less, a) && a != []
    ensures Elems(a[..|a| - 1]) == Elems(a) - {a[|a| - 1]}
    ensures Sorted(less, a[..|a| - 1])
  {
  }

  /** The k smallest are determined by the set alone, so by no order of iterating over it. */
  lemma SmallestUnique<T(!new)>(less: (T, T) -> bool, S: set<T>, k: nat, a: seq<T>, b: seq<T>)
    requires StrictTotalOrder(less) && Smallest(less, S, k, a) && Smallest(less, S, k, b)
    ensures a == b
  {
    SortedCard(less, a);
    SortedCard(less, b);
    SameElements(less, S, k, a, b);
    SameElements(less, S, k, b, a);
    SortedUnique(less, a, b);
  }

  lemma SameElements<T(!new)>(less: (T, T) -> bool, S: set<T>, k: nat, a: seq<T>, b: seq<T>)
    requires StrictTotalOrder(less) && Smallest(less, S, k, a) && Smallest(less, S, k, b)
    requires |Elems(a)| == |a| && |Elems(b)| == |b|
    ensures Elems(a) <= Elems(b)
  {
    forall x | x in a
      ensures x in b
    {
      if x !in b {
        // All of b precedes x, so all of b is in a, and x besides: one too many.
        forall y | y in b
          ensures y in a
        {
          assert less(y, x);
        }
        assert Elems(b) + {x} <= Elems(a);
        SubsetCard(Elems(b) + {x}, Elems(a));
      }
    }
  }

  // ----- one relay more -----

  /**
   Registering one more relay brings in at most that relay and displaces at most one of the k;
   deregistering it is the same read backwards.
   */
  lemma OneRelayMore<T(!new)>(less: (T, T) -> bool, S: set<T>, x: T, k: nat, a: seq<T>, b: seq<T>)
    requires StrictTotalOrder(less) && x !in S
    requires Smallest(less, S, k, a) && Smallest(less, S + {x}, k, b)
    ensures Elems(b) - Elems(a) <= {x}
    ensures |Elems(a) - Elems(b)| <= 1
    ensures x !in b ==> a == b
  {
    SortedCard(less, a);
    SortedCard(less, b);
    assert |S + {x}| == |S| + 1;
    OnlyTheNew(less, S, x, k, a, b);
    AtMostOneOut(less, S, x, k, a, b);
    if x !in b {
      assert Elems(b) <= Elems(a);
      assert |b| >= |a|;
      SubsetEqual(Elems(b), Elems(a));
      SortedUnique(less, a, b);
    }
  }

  lemma SubsetEqual<T>(a: set<T>, b: set<T>)
    requires a <= b && |a| >= |b|
    ensures a == b
  {
    if a != b {
      var x :| x in b && x !in a;
      SubsetCard(a, b - {x});
    }
  }

  /** Whatever comes in besides x has all of the old k before it, and they stay. */
  lemma OldOnesStay<T(!new)>(less: (T, T) -> bool, S: set<T>, x: T, k: nat, a: seq<T>, b: seq<T>, y: T)
    requires StrictTotalOrder(less) && Smallest(less, S, k, a) && Smallest(less, S + {x}, k, b)
    requires y in b && y !in a && y in S
    ensures Elems(a) + {y} <= Elems(b)
  {
    forall z | z in a
      ensures z in b
    {
      assert z in Elems(a) && less(z, y);
    }
  }

  lemma OnlyTheNew<T(!new)>(less: (T, T) -> bool, S: set<T>, x: T, k: nat, a: seq<T>, b: seq<T>)
    requires StrictTotalOrder(less) && x !in S && |S + {x}| == |S| + 1
    requires Smallest(less, S, k, a) && Smallest(less, S + {x}, k, b)
    requires |Elems(a)| == |a| && |Elems(b)| == |b|
    ensures Elems(b) - Elems(a) <= {x}
  {
    forall y | y in Elems(b) && y !in Elems(a)
      ensures y == x
    {
      if y != x {
        if |a| == |S| {
          SubsetEqual(Elems(a), S);
        } else {
          OldOnesStay(less, S, x, k, a, b, y);
          SubsetCard(Elems(a) + {y}, Elems(b));
        }
      }
    }
  }

  lemma AtMostOneOut<T(!new)>(less: (T, T) -> bool, S: set<T>, x: T, k: nat, a: seq<T>, b: seq<T>)
    requires StrictTotalOrder(less) && x !in S && |S + {x}| == |S| + 1
    requires Smallest(less, S, k, a) && Smallest(less, S + {x}, k, b)
    requires |Elems(a)| == |a| && |Elems(b)| == |b|
    requires Elems(b) - Elems(a) <= {x}
    ensures |Elems(a) - Elems(b)| <= 1
  {
    var A, B := Elems(a), Elems(b);
    // b has at least as many elements as a, all of them but x from a.
    assert B - {x} <= A * B;
    SubsetCard(B - {x}, A * B);
    assert |A| == |A - B| + |A * B| by {
      assert A == (A - B) + A * B;
    }
  }

  // ----- find_many_closest_to -----

  /** The front of v is done: in order, and before everything behind it. */
  ghost predicate FrontDone<T>(less: (T, T) -> bool, v: seq<T>, n: nat)
    requires n <= |v|
  {
    && (forall i, j :: 0 <= i < j < n ==> less(v[i], v[j]))
    && (forall i, j :: 0 <= i < n <= j < |v| ==> less(v[i], v[j]))
  }

  /** The standard library's partial_sort: the k smallest to the front, in order. */
  method PartialSort(v: array<RouterId>, k: nat, less: (RouterId, RouterId) -> bool)
    requires k <= v.Length && StrictTotalOrder(less)
    requires forall i, j :: 0 <= i < j < v.Length ==> v[i] != v[j]
    modifies v
    ensures FrontDone(less, v[..], k)
    ensures Elems(v[..]) == old(Elems(v[..]))
    ensures forall i, j :: 0 <= i < j < v.Length ==> v[i] != v[j]
  {
    for n := 0 to k
      invariant FrontDone(less, v[..], n)
      invariant Elems(v[..]) == old(Elems(v[..]))
      invariant forall i, j :: 0 <= i < j < v.Length ==> v[i] != v[j]
    {
      var least := LeastFrom(v, n, less);
      ghost var before := v[..];
      v[n], v[least] := v[least], v[n];
      assert v[..] == before[n := before[least]][least := before[n]];
      SwapElems(before, n, least);
      FrontGrows(less, before, n, least);
    }
  }

  /** The index of the least element from n on. */
  method LeastFrom(v: array<RouterId>, n: nat, less: (RouterId, RouterId) -> bool) returns (least: nat)
    requires n < v.Length && StrictTotalOrder(less)
    requires forall i, j :: 0 <= i < j < v.Length ==> v[i] != v[j]
    ensures n <= least < v.Length
    ensures forall j :: n <= j < v.Length && j != least ==> less(v[least], v[j])
  {
    least := n;
    for i := n + 1 to v.Length
      invariant n <= least < i
      invariant forall j :: n <= j < i && j != least ==> less(v[least], v[j])
    {
      if less(v[i], v[least]) {
        least := i;
      }
    }
  }

  lemma SwapElems<T>(s: seq<T>, i: nat, j: nat)
    requires i < |s| && j < |s|
    ensures Elems(s[i := s[j]][j := s[i]]) == Elems(s)
  {
    var t := s[i := s[j]][j := s[i]];
    forall x
      ensures x in s <==> x in t
    {
      if x in s {
        var p :| 0 <= p < |s| && s[p] == x;
        assert t[if p == i then j else if p == j then i else p] == x;
      }
      if x in t {
        var p :| 0 <= p < |t| && t[p] == x;
        assert s[if p == i then j else if p == j then i else p] == x;
      }
    }
  }

  lemma FrontGrows<T>(less: (T, T) -> bool, s: seq<T>, n: nat, least: nat)
    requires n <= least < |s| && FrontDone(less, s, n)
    requires forall j :: n <= j < |s| && j != least ==> less(s[least], s[j])
    ensures FrontDone(less, s[n := s[least]][least := s[n]], n + 1)
  {
  }

  /** The registered relays in whatever order the set yields them. */
  method Listed(relays: set<RouterId>) returns (v: array<RouterId>)
    ensures fresh(v) && v.Length == |relays| && Elems(v[..]) == relays
    ensures forall i, j :: 0 <= i < j < v.Length ==> v[i] != v[j]
  {
    var s: seq<RouterId> := [];
    assert Elems(s) == {};
    hide Elems;
    var todo := relays;
    while todo != {}
      invariant todo <= relays && |s| + |todo| == |relays|
      invariant Elems(s) == relays - todo
      invariant forall i, j :: 0 <= i < j < |s| ==> s[i] != s[j]
      decreases |todo|
    {
      var x :| x in todo;
      ElemsPush(s, x);
      ElemsIn(s, x);
      s := s + [x];
      todo := todo - {x};
    }
    v := new RouterId[|s|](i requires 0 <= i < |s| => s[i]);
    assert v[..] == s;
  }

  /** find_many_closest_to: the relays closest to the key, closest first. */
  method FindManyClosestTo(registered: set<RouterId>, pk: RouterId, numRouters: int) returns (result: seq<RouterId>)
    ensures Smallest(Metric(pk), registered, if numRouters <= 0 then 0 else numRouters, result)
    ensures forall a, b :: a in registered && b in result && Nearer(pk, a, b) ==> Precedes(result, a, b)
  {
    hide Nearer, Precedes, Closer;
    if numRouters <= 0 {
      return [];
    }
    var rids := Listed(registered);
    var n := if numRouters < rids.Length then numRouters else rids.Length;
    MetricIsOrder(pk);
    PartialSort(rids, n, Metric(pk));
    result := rids[..n];
    FrontIsSmallest(Metric(pk), rids[..], n, registered, numRouters);
    assert rids[..][..n] == result;
    forall a, b | a in registered && b in result && Nearer(pk, a, b)
      ensures Precedes(result, a, b)
    {
      NearerPrecedes(registered, pk, numRouters, result, a, b);
    }
  }

  /** Both are there, the one before the other. */
  ghost predicate Precedes(s: seq<RouterId>, a: RouterId, b: RouterId) {
    exists i, j :: 0 <= i < j < |s| && s[i] == a && s[j] == b
  }

  lemma NearerPrecedes(registered: set<RouterId>, pk: RouterId, k: nat, result: seq<RouterId>, a: RouterId, b: RouterId)
    requires Smallest(Metric(pk), registered, k, result) && a in registered && b in result && Nearer(pk, a, b)
    ensures Precedes(result, a, b)
  {
    hide Nearer, Closer;
    NearerIsCloser(pk, a, b);
    MetricIsOrder(pk);
    var less := Metric(pk);
    assert less(a, b) && !less(b, a);
    assert a in result;
    var i, j :| 0 <= i < |result| && result[i] == a && 0 <= j < |result| && result[j] == b;
    assert i < j;
  }

  lemma FrontIsSmallest<T(!new)>(less: (T, T) -> bool, v: seq<T>, n: nat, S: set<T>, k: nat)
    requires n <= |v| == |S| && Elems(v) == S && FrontDone(less, v, n)
    requires n == if k < |v| then k else |v|
    ensures Smallest(less, S, k, v[..n])
  {
  }
}
