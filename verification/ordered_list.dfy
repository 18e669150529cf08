/** The `List<ObjectIndex>` operations the index relies on. Binary search, positional insert and
    removal of the first occurrence are written the way the .NET collections library performs
    them; sorting is specified as some newest-first permutation. */
module OrderedList {
  import opened Records

  /** `~x`, the bitwise complement of a two's-complement integer. */
  function Complement(x: int): int
  {
    -x - 1
  }

  /** Every record before `lo` is strictly newer than `item` and every record after `hi` strictly
      older: the invariant of the binary search on a newest-first list. */
  ghost predicate Brackets(a: seq<ObjectIndex>, item: ObjectIndex, lo: int, hi: int)
  {
    && (forall j :: 0 <= j < lo && j < |a| ==> a[j].lastModifiedUtc > item.lastModifiedUtc)
    && (forall j :: hi < j < |a| && 0 <= j ==> a[j].lastModifiedUtc < item.lastModifiedUtc)
  }

  /** On a newest-first list, a probe at `i` that is newer than `item` extends the lower bracket
      past `i`, and one that is older extends the upper bracket down to `i`. */
  lemma NarrowBrackets(a: seq<ObjectIndex>, item: ObjectIndex, lo: int, hi: int, i: int)
    requires 0 <= lo <= i <= hi < |a|
    ensures SortedNewestFirst(a) && Brackets(a, item, lo, hi) && a[i].lastModifiedUtc > item.lastModifiedUtc
            ==> Brackets(a, item, i + 1, hi)
    ensures SortedNewestFirst(a) && Brackets(a, item, lo, hi) && a[i].lastModifiedUtc < item.lastModifiedUtc
            ==> Brackets(a, item, lo, i - 1)
  {
  }

  /** `BinarySearch` over positions `lo..hi` (inclusive) under `LastModCmp`: probes the midpoint,
      returns its position on a tie, otherwise narrows to one half; an empty range yields `~lo`. */
  function BinarySearchRange(a: seq<ObjectIndex>, item: ObjectIndex, lo: int, hi: int): (r: int)
    requires 0 <= lo <= hi + 1 <= |a|
    ensures 0 <= r ==> lo <= r <= hi && a[r].lastModifiedUtc == item.lastModifiedUtc
    ensures r < 0 ==> lo <= Complement(r) <= hi + 1
    ensures r < 0 && SortedNewestFirst(a) && Brackets(a, item, lo, hi) ==>
              Brackets(a, item, Complement(r), Complement(r) - 1)
    decreases hi + 1 - lo
  {
    if lo > hi then Complement(lo)
    else
      var i := lo + (hi - lo) / 2;
      var order := LastModCmp(a[i], item);
      NarrowBrackets(a, item, lo, hi, i);
      if order == 0 then i
      else if order < 0 then BinarySearchRange(a, item, i + 1, hi)
      else BinarySearchRange(a, item, lo, i - 1)
  }

  /** `List.BinarySearch(item, comparer)`: the position of a record with the same timestamp, or
      the complement of the position before which `item` belongs. */
  function BinarySearch(a: seq<ObjectIndex>, item: ObjectIndex): (r: int)
    ensures 0 <= r ==> r < |a| && a[r].lastModifiedUtc == item.lastModifiedUtc
    ensures r < 0 ==> 0 <= Complement(r) <= |a|
    ensures r < 0 && SortedNewestFirst(a) ==>
              (forall j :: 0 <= j < Complement(r) ==> a[j].lastModifiedUtc > item.lastModifiedUtc)
              && (forall j :: Complement(r) <= j < |a| ==> a[j].lastModifiedUtc < item.lastModifiedUtc)
  {
    var r := BinarySearchRange(a, item, 0, |a| - 1);
    assert r < 0 && SortedNewestFirst(a) ==> Brackets(a, item, Complement(r), Complement(r) - 1);
    r
  }

  /** The position `i < 0 ? ~i : i` at which the index inserts `item`: on a newest-first list,
      everything before it is at least as new and everything from it on at most as new. */
  function InsertionPoint(a: seq<ObjectIndex>, item: ObjectIndex): (p: nat)
    ensures p <= |a|
    ensures SortedNewestFirst(a) ==>
              (forall j :: 0 <= j < p ==> a[j].lastModifiedUtc >= item.lastModifiedUtc)
              && (forall j :: p <= j < |a| ==> a[j].lastModifiedUtc <= item.lastModifiedUtc)
  {
    var i := BinarySearch(a, item);
    if i < 0 then Complement(i) else i
  }

  /** `List.Insert(p, x)`. */
  function Insert(a: seq<ObjectIndex>, p: nat, x: ObjectIndex): (r: seq<ObjectIndex>)
    requires p <= |a|
    ensures |r| == |a| + 1 && r[p] == x
    ensures r[..p] == a[..p] && r[p + 1..] == a[p..]
    ensures multiset(r) == multiset(a) + multiset{x}
  {
    assert a == a[..p] + a[p..];
    a[..p] + [x] + a[p..]
  }

  /** `r` is `a` with `x` inserted at position `p`. */
  ghost predicate InsertedAt(a: seq<ObjectIndex>, x: ObjectIndex, r: seq<ObjectIndex>, p: int)
  {
    0 <= p <= |a| && r == a[..p] + [x] + a[p..]
  }

  /** Inserting `x` where everything before is at least as new and everything after at most as
      new keeps a newest-first list newest first. */
  lemma InsertAtSplitKeepsSorted(a: seq<ObjectIndex>, p: nat, x: ObjectIndex)
    requires p <= |a| && SortedNewestFirst(a)
    requires forall j :: 0 <= j < p ==> a[j].lastModifiedUtc >= x.lastModifiedUtc
    requires forall j :: p <= j < |a| ==> a[j].lastModifiedUtc <= x.lastModifiedUtc
    ensures SortedNewestFirst(Insert(a, p, x))
  {
    var r := Insert(a, p, x);
    forall i, j | 0 <= i < j < |r|
      ensures r[i].lastModifiedUtc >= r[j].lastModifiedUtc
    {
      assert i < p ==> r[i] == a[i];
      assert p < i ==> r[i] == a[i - 1];
      assert j < p ==> r[j] == a[j];
      assert p < j ==> r[j] == a[j - 1];
    }
  }

  /** Inserting at the binary-search position: the list gains exactly `x` at one position, the
      earlier records keep their order, and a newest-first list stays newest first. */
  function InsertNewestFirst(a: seq<ObjectIndex>, x: ObjectIndex): (r: seq<ObjectIndex>)
    ensures exists p :: InsertedAt(a, x, r, p)
    ensures |r| == |a| + 1
    ensures multiset(r) == multiset(a) + multiset{x}
    ensures SortedNewestFirst(a) ==> SortedNewestFirst(r)
  {
    var p := InsertionPoint(a, x);
    assert InsertedAt(a, x, Insert(a, p, x), p);
    if SortedNewestFirst(a) then
      InsertAtSplitKeepsSorted(a, p, x);
      Insert(a, p, x)
    else
      Insert(a, p, x)
  }

  /** Inserting a record whose name is not yet in a list with unique names keeps them unique. */
  lemma InsertFreshNameKeepsUnique(a: seq<ObjectIndex>, p: nat, x: ObjectIndex)
    requires p <= |a|
    ensures UniqueNames(a) && x.name !in Names(a) ==> UniqueNames(Insert(a, p, x))
  {
    if UniqueNames(a) && x.name !in Names(a) {
      var r := Insert(a, p, x);
      forall i, j | 0 <= i < j < |r|
        ensures r[i].name != r[j].name
      {
        var i' := if i < p then i else i - 1;
        var j' := if j <= p then j else j - 1;
        if i == p {
          assert r[j] == a[j'];
        } else if j == p {
          assert r[i] == a[i'];
        } else {
          assert r[i] == a[i'] && r[j] == a[j'] && i' < j';
        }
      }
    }
  }

  /** `IndexOf(x)`: the first position holding `x`, or -1. */
  function IndexOf(a: seq<ObjectIndex>, x: ObjectIndex): (i: int)
    ensures -1 <= i < |a|
    ensures 0 <= i ==> a[i] == x && x !in a[..i]
    ensures i < 0 <==> x !in a
  {
    if a == [] then -1
    else if a[0] == x then 0
    else
      var k := IndexOf(a[1..], x);
      if k < 0 then -1
      else
        assert a[..k + 1] == [a[0]] + a[1..][..k];
        k + 1
  }

  /** `List.Remove(x)`: deletes the first occurrence of `x`, keeping the others in order. */
  function RemoveFirst(a: seq<ObjectIndex>, x: ObjectIndex): (r: seq<ObjectIndex>)
    ensures x !in a ==> r == a
    ensures x in a ==> exists i :: 0 <= i < |a| && a[i] == x && x !in a[..i] && r == a[..i] + a[i + 1..]
    ensures multiset(r) == multiset(a) - multiset{x}
  {
    var i := IndexOf(a, x);
    if i < 0 then a
    else
      assert a == a[..i] + [x] + a[i + 1..];
      a[..i] + a[i + 1..]
  }

  /** Deleting one position removes one copy of its record, keeps a newest-first list newest
      first and unique names unique. */
  lemma DeletePosition(a: seq<ObjectIndex>, i: nat)
    requires i < |a|
    ensures multiset(a[..i] + a[i + 1..]) == multiset(a) - multiset{a[i]}
    ensures SortedNewestFirst(a) ==> SortedNewestFirst(a[..i] + a[i + 1..])
    ensures UniqueNames(a) ==> UniqueNames(a[..i] + a[i + 1..])
  {
    var r := a[..i] + a[i + 1..];
    assert a == a[..i] + [a[i]] + a[i + 1..];
    forall p, q | 0 <= p < q < |r|
      ensures exists p', q' :: 0 <= p' < q' < |a| && r[p] == a[p'] && r[q] == a[q']
    {
      var p', q' := if p < i then p else p + 1, if q < i then q else q + 1;
      assert r[p] == a[p'] && r[q] == a[q'];
    }
  }

  /** After deleting position `i` of a list with unique names, every remaining record was
      there before and has a name other than the deleted one. */
  lemma DeleteDropsOnlyThatName(a: seq<ObjectIndex>, i: nat)
    requires i < |a| && UniqueNames(a)
    ensures forall x :: x in a[..i] + a[i + 1..] ==> x in a && x.name != a[i].name
  {
    var r := a[..i] + a[i + 1..];
    forall x | x in r
      ensures x in a && x.name != a[i].name
    {
      var q :| 0 <= q < |r| && r[q] == x;
      var q' := if q < i then q else q + 1;
      assert x == a[q'] && q' != i;
    }
  }

  /** `Remove` of a record that was not in the list undoes its `Insert`. */
  lemma RemoveUndoesInsert(a: seq<ObjectIndex>, p: nat, x: ObjectIndex)
    requires p <= |a| && x !in a
    ensures RemoveFirst(Insert(a, p, x), x) == a
  {
    var b := Insert(a, p, x);
    var i := IndexOf(b, x);
    assert b[..p] == a[..p];
    assert x !in b[..p];
    assert i == p;
    assert b[..p] + b[p + 1..] == a[..p] + a[p..] == a;
  }

  /** `Remove` of a record that was not in the list undoes its insertion at the binary-search
      position. */
  lemma RemoveUndoesInsertNewestFirst(a: seq<ObjectIndex>, x: ObjectIndex)
    requires x !in a
    ensures RemoveFirst(InsertNewestFirst(a, x), x) == a
  {
    RemoveUndoesInsert(a, InsertionPoint(a, x), x);
  }

  /** Records with the same multiplicities have the same names. */
  lemma SameRecordsSameNames(a: seq<ObjectIndex>, b: seq<ObjectIndex>)
    requires multiset(a) == multiset(b)
    ensures Names(a) == Names(b)
  {
    forall n | n in Names(a) ensures n in Names(b) {
      var y :| y in a && y.name == n;
      assert y in multiset(b);
    }
    forall n | n in Names(b) ensures n in Names(a) {
      var y :| y in b && y.name == n;
      assert y in multiset(a);
    }
  }

  /** In a list with unique names, the head's name does not occur in the tail. */
  lemma UniqueHeadNotInTail(xs: seq<ObjectIndex>)
    requires xs != [] && UniqueNames(xs)
    ensures xs[0].name !in Names(xs[1..])
  {
  }

  /** One step of the insertion sort: inserting the head into a sorted permutation of the tail
      gives a sorted permutation of the whole, with unique names when the input has them. */
  lemma SortStep(xs: seq<ObjectIndex>, rest: seq<ObjectIndex>)
    requires xs != []
    requires multiset(rest) == multiset(xs[1..]) && SortedNewestFirst(rest)
    requires UniqueNames(xs[1..]) ==> UniqueNames(rest)
    ensures multiset(InsertNewestFirst(rest, xs[0])) == multiset(xs)
    ensures SortedNewestFirst(InsertNewestFirst(rest, xs[0]))
    ensures UniqueNames(xs) ==> UniqueNames(InsertNewestFirst(rest, xs[0]))
  {
    assert xs == [xs[0]] + xs[1..];
    SameRecordsSameNames(rest, xs[1..]);
    if UniqueNames(xs) {
      UniqueHeadNotInTail(xs);
      InsertFreshNameKeepsUnique(rest, InsertionPoint(rest, xs[0]), xs[0]);
    }
  }

  /** `List.Sort(comparer)`: some newest-first permutation of the input; this one is obtained by
      inserting each record at its binary-search position. */
  function SortNewestFirst(xs: seq<ObjectIndex>): (r: seq<ObjectIndex>)
    ensures multiset(r) == multiset(xs)
    ensures SortedNewestFirst(r)
    ensures UniqueNames(xs) ==> UniqueNames(r)
    decreases |xs|
  {
    if xs == [] then []
    else
      var rest := SortNewestFirst(xs[1..]);
      SortStep(xs, rest);
      InsertNewestFirst(rest, xs[0])
  }

  /** The heads of two newest-first permutations of the same records have the same timestamp. */
  lemma SortedHeadsAgree(a: seq<ObjectIndex>, b: seq<ObjectIndex>)
    requires a != [] && b != [] && multiset(a) == multiset(b)
    requires SortedNewestFirst(a) && SortedNewestFirst(b)
    ensures a[0].lastModifiedUtc == b[0].lastModifiedUtc
  {
    assert a[0] in multiset(b);
    assert b[0] in multiset(a);
    var k :| 0 <= k < |b| && b[k] == a[0];
    var m :| 0 <= m < |a| && a[m] == b[0];
    assert a[0].lastModifiedUtc >= a[m].lastModifiedUtc;
    assert b[0].lastModifiedUtc >= b[k].lastModifiedUtc;
  }

  /** Re-inserting a record at position `k` of a newest-first list, where it ties with the head,
      lines the timestamps up with a list that has it at the front. */
  lemma AgreeAfterMovingTiedRecord(a: seq<ObjectIndex>, b: seq<ObjectIndex>, k: nat)
    requires SortedNewestFirst(b) && k < |b| && |a| == |b|
    requires a[0].lastModifiedUtc == b[0].lastModifiedUtc == b[k].lastModifiedUtc
    requires forall i :: 0 <= i < |a| - 1 ==>
               a[1..][i].lastModifiedUtc == (b[..k] + b[k + 1..])[i].lastModifiedUtc
    ensures forall i :: 0 <= i < |a| ==> a[i].lastModifiedUtc == b[i].lastModifiedUtc
  {
    var b' := b[..k] + b[k + 1..];
    forall i | 0 < i < |a|
      ensures a[i].lastModifiedUtc == b[i].lastModifiedUtc
    {
      assert a[i] == a[1..][i - 1];
      if i <= k {
        assert b'[i - 1] == b[i - 1];
        assert b[0].lastModifiedUtc >= b[i - 1].lastModifiedUtc;
        assert b[i].lastModifiedUtc >= b[k].lastModifiedUtc;
      } else {
        assert b'[i - 1] == b[i];
      }
    }
  }

  /** The sort is unstable, but that only affects the order among records with equal
      timestamps: any two newest-first permutations of the same records agree, position by
      position, on the timestamp. */
  lemma {:induction false} SortedPermutationsAgree(a: seq<ObjectIndex>, b: seq<ObjectIndex>)
    requires multiset(a) == multiset(b)
    requires SortedNewestFirst(a) && SortedNewestFirst(b)
    ensures |a| == |b|
    ensures forall i :: 0 <= i < |a| ==> a[i].lastModifiedUtc == b[i].lastModifiedUtc
    decreases |a|
  {
    assert |a| == |multiset(a)| == |multiset(b)| == |b|;
    if a != [] {
      var x := a[0];
      assert x in multiset(b);
      var k :| 0 <= k < |b| && b[k] == x;
      SortedHeadsAgree(a, b);
      var b' := b[..k] + b[k + 1..];
      DeletePosition(b, k);
      assert a == [x] + a[1..];
      SortedPermutationsAgree(a[1..], b');
      AgreeAfterMovingTiedRecord(a, b, k);
    }
  }
}
