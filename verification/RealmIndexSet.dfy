/** The two-level iterators of an index set: ranges kept in chunks, and the indexes in them. */
module RealmIndexSet {
  import opened Wrappers

  /** The indexes from `first` up to, and without, `second`. */
  datatype Range = Range(first: nat, second: nat)

  type Chunks = seq<seq<Range>>

  /** All ranges in order, whatever the chunks. */
  function Flat(data: Chunks): seq<Range> {
    if data == [] then [] else data[0] + Flat(data[1..])
  }

  predicate Ordered(rs: seq<Range>) {
    && (forall i | 0 <= i < |rs| :: rs[i].first < rs[i].second)
    && (forall i, j | 0 <= i < j < |rs| :: rs[i].second <= rs[j].first)
  }

  /** No empty chunk, no empty range, ranges ascending and disjoint. */
  predicate WellFormed(data: Chunks) {
    (forall k | 0 <= k < |data| :: data[k] != []) && Ordered(Flat(data))
  }

  // ----- places of the range iterator -----

  /** The chunk, and the range in it; no range at the end. */
  datatype Place = Place(outer: nat, inner: Option<nat>)

  predicate PlaceOk(data: Chunks, p: Place) {
    if p.outer < |data| then p.inner.Some? && p.inner.value < |data[p.outer]| else p == End(data)
  }

  function End(data: Chunks): Place {
    Place(|data|, None)
  }

  function Begin(data: Chunks): Place {
    if data == [] then End(data) else Place(0, Some(0))
  }

  function NextChunk(data: Chunks, p: Place): Place
    requires p.outer < |data|
  {
    Place(p.outer + 1, if p.outer + 1 < |data| then Some(0) else None)
  }

  function Next(data: Chunks, p: Place): Place
    requires PlaceOk(data, p) && p.outer < |data|
  {
    if p.inner.value + 1 == |data[p.outer]| then NextChunk(data, p) else p.(inner := Some(p.inner.value + 1))
  }

  function Previous(data: Chunks, p: Place): Place
    requires PlaceOk(data, p) && p != Begin(data) && forall k | 0 <= k < |data| :: data[k] != []
  {
    if p.inner.None? || p.inner.value == 0 then Place(p.outer - 1, Some(|data[p.outer - 1]| - 1))
    else p.(inner := Some(p.inner.value - 1))
  }

  /** How many ranges come before the chunk. */
  function Start(data: Chunks, k: nat): nat
    requires k <= |data|
  {
    |Flat(data[..k])|
  }

  /** How many ranges come before the place. */
  function Position(data: Chunks, p: Place): nat
    requires PlaceOk(data, p)
  {
    Start(data, p.outer) + (if p.inner.Some? then p.inner.value else 0)
  }

  lemma {:induction false} FlatSplit(data: Chunks, k: nat)
    requires k <= |data|
    ensures Flat(data) == Flat(data[..k]) + Flat(data[k..])
    decreases k
  {
    if k == 0 {
      assert data[..0] == [] && data[0..] == data;
    } else {
      FlatSplit(data[1..], k - 1);
      assert data[1..][..k-1] == data[..k][1..] && data[1..][k-1..] == data[k..];
    }
  }

  lemma {:induction false} StartOfNext(data: Chunks, k: nat)
    requires k < |data|
    ensures Start(data, k + 1) == Start(data, k) + |data[k]|
    ensures Flat(data) == Flat(data[..k]) + data[k] + Flat(data[k + 1..])
  {
    FlatSplit(data[..k + 1], k);
    assert data[..k + 1][..k] == data[..k] && data[..k + 1][k..] == [data[k]];
    assert [data[k]][1..] == [];
    assert Flat([data[k]]) == data[k] + Flat([]) == data[k];
    FlatSplit(data, k + 1);
  }

  /** The place denotes the range at its position. */
  lemma {:induction false} RangeAtPosition(data: Chunks, p: Place)
    requires PlaceOk(data, p)
    ensures p.outer < |data| ==> Position(data, p) < |Flat(data)| &&
                                 Flat(data)[Position(data, p)] == data[p.outer][p.inner.value]
    ensures p.outer == |data| ==> Position(data, p) == |Flat(data)|
  {
    if p.outer < |data| {
      StartOfNext(data, p.outer);
    } else {
      assert data[..|data|] == data;
    }
  }

  /** Going on passes exactly one range, over chunk borders and to the end. */
  lemma {:induction false} NextPassesOne(data: Chunks, p: Place)
    requires PlaceOk(data, p) && p.outer < |data| && forall k | 0 <= k < |data| :: data[k] != []
    ensures PlaceOk(data, Next(data, p)) && Position(data, Next(data, p)) == Position(data, p) + 1
  {
    StartOfNext(data, p.outer);
  }

  /** At range level `--` undoes `++`, over chunk borders and from the end. */
  lemma {:induction false} PreviousUndoesNext(data: Chunks, p: Place)
    requires PlaceOk(data, p) && p.outer < |data| && forall k | 0 <= k < |data| :: data[k] != []
    ensures PlaceOk(data, Next(data, p)) && Next(data, p) != Begin(data) && Previous(data, Next(data, p)) == p
  {
    NextPassesOne(data, p);
    assert Next(data, p) != Begin(data);
  }

  lemma {:induction false} NextUndoesPrevious(data: Chunks, p: Place)
    requires PlaceOk(data, p) && p != Begin(data) && forall k | 0 <= k < |data| :: data[k] != []
    ensures var q := Previous(data, p); PlaceOk(data, q) && q.outer < |data| && Next(data, q) == p
    ensures Position(data, Previous(data, p)) == Position(data, p) - 1
  {
    NextPassesOne(data, Previous(data, p));
  }

  // ----- indexes -----

  function RangeIndexes(r: Range): seq<nat>
    requires r.first <= r.second
    decreases r.second - r.first
  {
    if r.first == r.second then [] else [r.first] + RangeIndexes(Range(r.first + 1, r.second))
  }

  function Indexes(rs: seq<Range>): seq<nat>
    requires forall i | 0 <= i < |rs| :: rs[i].first <= rs[i].second
  {
    if rs == [] then [] else RangeIndexes(rs[0]) + Indexes(rs[1..])
  }

  lemma {:induction false} RangeIndexAt(r: Range, k: nat)
    requires r.first <= r.second
    ensures |RangeIndexes(r)| == r.second - r.first
    ensures k < |RangeIndexes(r)| ==> RangeIndexes(r)[k] == r.first + k
    decreases r.second - r.first
  {
    if r.first < r.second {
      RangeIndexAt(Range(r.first + 1, r.second), if k == 0 then 0 else k - 1);
    }
  }

  lemma {:induction false} IndexesConcat(a: seq<Range>, b: seq<Range>)
    requires forall i | 0 <= i < |a| :: a[i].first <= a[i].second
    requires forall i | 0 <= i < |b| :: b[i].first <= b[i].second
    ensures Indexes(a + b) == Indexes(a) + Indexes(b)
    decreases |a|
  {
    if a == [] {
      assert a + b == b;
    } else {
      assert (a + b)[0] == a[0] && (a + b)[1..] == a[1..] + b;
      IndexesConcat(a[1..], b);
    }
  }

  /** Is the index in one of the ranges? */
  predicate Contains(rs: seq<Range>, x: nat) {
    exists i | 0 <= i < |rs| :: rs[i].first <= x < rs[i].second
  }

  lemma {:induction false} RangeHolds(r: Range, x: nat)
    requires r.first <= r.second
    ensures x in RangeIndexes(r) <==> r.first <= x < r.second
  {
    RangeIndexAt(r, 0);
    if r.first <= x < r.second {
      RangeIndexAt(r, x - r.first);
    }
    forall k | 0 <= k < |RangeIndexes(r)| ensures r.first <= RangeIndexes(r)[k] < r.second {
      RangeIndexAt(r, k);
    }
  }

  /** The list of indexes holds exactly the indexes in the set. */
  lemma {:induction false} IndexesHoldTheSet(rs: seq<Range>, x: nat)
    requires Ordered(rs)
    ensures x in Indexes(rs) <==> Contains(rs, x)
    decreases |rs|
  {
    if rs != [] {
      IndexesHoldTheSet(rs[1..], x);
      RangeHolds(rs[0], x);
      if Contains(rs[1..], x) {
        var i :| 0 <= i < |rs[1..]| && rs[1..][i].first <= x < rs[1..][i].second;
        assert rs[i + 1].first <= x < rs[i + 1].second;
      }
      if Contains(rs, x) && !(rs[0].first <= x < rs[0].second) {
        var i :| 0 <= i < |rs| && rs[i].first <= x < rs[i].second;
        assert rs[1..][i - 1] == rs[i];
      }
    }
  }

  predicate Increasing(s: seq<nat>) {
    forall i, j | 0 <= i < j < |s| :: s[i] < s[j]
  }

  /** It is strictly increasing, so no index comes twice. */
  lemma {:induction false} IndexesIncrease(rs: seq<Range>)
    requires Ordered(rs)
    ensures Increasing(Indexes(rs))
    ensures rs != [] ==> forall k | 0 <= k < |Indexes(rs)| :: rs[0].first <= Indexes(rs)[k]
    decreases |rs|
  {
    if rs != [] {
      IndexesIncrease(rs[1..]);
      var a, b := RangeIndexes(rs[0]), Indexes(rs[1..]);
      forall k | 0 <= k < |a| ensures rs[0].first <= a[k] < rs[0].second && a[k] == rs[0].first + k {
        RangeIndexAt(rs[0], k);
      }
      forall k | 0 <= k < |b| ensures rs[0].second <= b[k] {
        assert rs[1..] != [];
        assert rs[0].second <= rs[1..][0].first <= b[k];
      }
    }
  }

  // ----- places of the index iterator -----

  predicate OffsetOk(data: Chunks, p: Place, offset: nat) {
    PlaceOk(data, p) &&
    if p.outer < |data| then
      var r := data[p.outer][p.inner.value]; r.first + offset < r.second
    else offset == 0
  }

  /** How many indexes come before. */
  function Rank(data: Chunks, p: Place, offset: nat): nat
    requires WellFormed(data) && OffsetOk(data, p, offset)
  {
    RangeAtPosition(data, p);
    |Indexes(Flat(data)[..Position(data, p)])| + offset
  }

  /** The indexes up to the end of the n-th range. */
  lemma {:induction false} IndexesThrough(rs: seq<Range>, n: nat)
    requires Ordered(rs) && n < |rs|
    ensures Indexes(rs[..n + 1]) == Indexes(rs[..n]) + RangeIndexes(rs[n])
    ensures Indexes(rs) == Indexes(rs[..n]) + RangeIndexes(rs[n]) + Indexes(rs[n + 1..])
  {
    assert [rs[n]][1..] == [] && [rs[n]][0] == rs[n];
    IndexesConcat(rs[..n], [rs[n]]);
    assert Indexes([rs[n]]) == RangeIndexes(rs[n]) + Indexes([]) == RangeIndexes(rs[n]);
    assert rs[..n + 1] == rs[..n] + [rs[n]];
    IndexesConcat(rs[..n + 1], rs[n + 1..]);
    assert rs == rs[..n + 1] + rs[n + 1..];
  }

  /** The iterator denotes the index of its rank; at the end, and only there, none is left. */
  lemma {:induction false} IndexAtRank(data: Chunks, p: Place, offset: nat)
    requires WellFormed(data) && OffsetOk(data, p, offset)
    ensures p != End(data) ==> p.outer < |data| && Rank(data, p, offset) < |Indexes(Flat(data))| &&
                               Indexes(Flat(data))[Rank(data, p, offset)] == data[p.outer][p.inner.value].first + offset
    ensures p == End(data) <==> Rank(data, p, offset) == |Indexes(Flat(data))|
  {
    var rs, n := Flat(data), Position(data, p);
    RangeAtPosition(data, p);
    if p.outer < |data| {
      IndexesThrough(rs, n);
      RangeIndexAt(rs[n], offset);
    } else {
      assert rs[..n] == rs;
    }
  }

  function IndexNext(data: Chunks, p: Place, offset: nat): (Place, nat)
    requires PlaceOk(data, p) && p.outer < |data|
  {
    var r := data[p.outer][p.inner.value];
    if r.first + offset + 1 == r.second then (Next(data, p), 0) else (p, offset + 1)
  }

  /** Going on passes exactly one index, over range and chunk borders. */
  lemma {:induction false} IndexNextPassesOne(data: Chunks, p: Place, offset: nat)
    requires WellFormed(data) && OffsetOk(data, p, offset) && p != End(data)
    ensures var (q, o) := IndexNext(data, p, offset);
            OffsetOk(data, q, o) && Rank(data, q, o) == Rank(data, p, offset) + 1
  {
    var rs, n := Flat(data), Position(data, p);
    var (q, o) := IndexNext(data, p, offset);
    RangeAtPosition(data, p);
    if q != p {
      NextPassesOne(data, p);
      RangeAtPosition(data, q);
      IndexesThrough(rs, n);
      RangeIndexAt(rs[n], 0);
      assert q.outer < |data| ==> rs[n + 1].first < rs[n + 1].second;
    }
  }

  // ----- equality of index iterators -----

  lemma {:induction false} StartsAscend(data: Chunks, j: nat, k: nat)
    requires j <= k <= |data|
    ensures Start(data, j) <= Start(data, k)
  {
    FlatSplit(data[..k], j);
    assert data[..k][..j] == data[..j];
  }

  /** A place is determined by its position. */
  lemma {:induction false} EarlierChunk(data: Chunks, p: Place, q: Place)
    requires PlaceOk(data, p) && PlaceOk(data, q) && p.outer < q.outer
    ensures Position(data, p) < Position(data, q)
  {
    StartOfNext(data, p.outer);
    StartsAscend(data, p.outer + 1, q.outer);
  }

  lemma {:induction false} PositionIsInjective(data: Chunks, p: Place, q: Place)
    requires PlaceOk(data, p) && PlaceOk(data, q)
    ensures p == q <==> Position(data, p) == Position(data, q)
  {
    if p.outer < q.outer {
      EarlierChunk(data, p, q);
    } else if q.outer < p.outer {
      EarlierChunk(data, q, p);
    }
  }

  /** The index that the iterator denotes. */
  function IndexAt(data: Chunks, p: Place, offset: nat): nat
    requires PlaceOk(data, p) && p.outer < |data|
  {
    data[p.outer][p.inner.value].first + offset
  }

  predicate InOneRange(rs: seq<Range>, x: nat, y: nat) {
    exists i | 0 <= i < |rs| :: rs[i].first <= x < rs[i].second && rs[i].first <= y < rs[i].second
  }

  /** Equality of index iterators compares the ranges only: in every set, at every two places and
      offsets, they are equal just when their indexes lie in one range. Equal iterators denote the
      same index only if their offsets agree. */
  lemma {:induction false} EqualityIgnoresOffset(data: Chunks, p: Place, o: nat, q: Place, o': nat)
    requires WellFormed(data) && OffsetOk(data, p, o) && OffsetOk(data, q, o')
    requires p != End(data) && q != End(data)
    ensures p == q <==> InOneRange(Flat(data), IndexAt(data, p, o), IndexAt(data, q, o'))
    ensures p == q ==> (Rank(data, p, o) == Rank(data, q, o') <==> o == o')
  {
    var rs, n, m := Flat(data), Position(data, p), Position(data, q);
    RangeAtPosition(data, p);
    RangeAtPosition(data, q);
    PositionIsInjective(data, p, q);
    var x, y := IndexAt(data, p, o), IndexAt(data, q, o');
    assert rs[n].first <= x < rs[n].second && rs[m].first <= y < rs[m].second;
    forall i | 0 <= i < |rs| ensures rs[i].first <= x < rs[i].second ==> i == n {
      assert i < n ==> rs[i].second <= rs[n].first;
    }
    forall i | 0 <= i < |rs| ensures rs[i].first <= y < rs[i].second ==> i == m {
      assert i < m ==> rs[i].second <= rs[m].first;
    }
  }

  // ----- the iterators -----

  /** An iterator over the ranges of a vector that does not change. */
  class ChunkedRangeVectorIterator {
    const data: Chunks
    var outer: nat
    var inner: Option<nat>

    constructor (data: Chunks, p: Place)
      requires PlaceOk(data, p)
      ensures this.data == data && Here() == p
    {
      this.data := data;
      outer, inner := p.outer, p.inner;
    }

    function Here(): Place
      reads this
    {
      Place(outer, inner)
    }

    predicate Valid()
      reads this
    {
      PlaceOk(data, Here()) && forall k | 0 <= k < |data| :: data[k] != []
    }

    function Value(): (r: Range)
      requires Valid() && outer < |data|
      reads this
      ensures Position(data, Here()) < |Flat(data)| && r == Flat(data)[Position(data, Here())]
    {
      RangeAtPosition(data, Here());
      data[outer][inner.value]
    }

    predicate Equals(it: ChunkedRangeVectorIterator)
      reads this, it
    {
      outer == it.outer && inner == it.inner
    }

    /** To the first range of the next chunk. */
    method Skip()
      requires Valid() && outer < |data|
      modifies this
      ensures Valid() && Here() == NextChunk(data, old(Here()))
      ensures Position(data, Here()) == Start(data, old(outer)) + |data[old(outer)]|
    {
      StartOfNext(data, outer);
      outer := outer + 1;
      inner := if outer < |data| then Some(0) else None;
    }

    method Increment()
      requires Valid() && outer < |data|
      modifies this
      ensures Valid() && Here() == Next(data, old(Here()))
      ensures Position(data, Here()) == old(Position(data, Here())) + 1
    {
      NextPassesOne(data, Here());
      if inner.value + 1 == |data[outer]| {
        Skip();
      } else {
        inner := Some(inner.value + 1);
      }
    }

    method Decrement()
      requires Valid() && Here() != Begin(data)
      modifies this
      ensures Valid() && Here() == Previous(data, old(Here()))
      ensures Position(data, Here()) == old(Position(data, Here())) - 1
    {
      NextUndoesPrevious(data, Here());
      if inner.None? || inner.value == 0 {
        outer := outer - 1;
        inner := Some(|data[outer]| - 1);
      } else {
        inner := Some(inner.value - 1);
      }
    }
  }

  /** An iterator over the indexes. */
  class IndexIterator {
    const ranges: ChunkedRangeVectorIterator
    var offset: nat

    constructor (data: Chunks, p: Place)
      requires WellFormed(data) && OffsetOk(data, p, 0)
      ensures Valid() && fresh(ranges) && ranges.data == data && ranges.Here() == p && offset == 0
    {
      ranges := new ChunkedRangeVectorIterator(data, p);
      offset := 0;
    }

    predicate Valid()
      reads this, ranges
    {
      WellFormed(ranges.data) && OffsetOk(ranges.data, ranges.Here(), offset)
    }

    ghost function IndexRank(): nat
      requires Valid()
      reads this, ranges
    {
      Rank(ranges.data, ranges.Here(), offset)
    }

    function Value(): (x: nat)
      requires Valid() && ranges.outer < |ranges.data|
      reads this, ranges
      ensures IndexRank() < |Indexes(Flat(ranges.data))| && x == Indexes(Flat(ranges.data))[IndexRank()]
    {
      IndexAtRank(ranges.data, ranges.Here(), offset);
      ranges.Value().first + offset
    }

    /** Compares the places of the ranges; offsets are not looked at. */
    predicate Equals(it: IndexIterator)
      reads this, ranges, it, it.ranges
    {
      ranges.Equals(it.ranges)
    }

    method Increment()
      requires Valid() && ranges.outer < |ranges.data|
      modifies this, ranges
      ensures Valid() && IndexRank() == old(IndexRank()) + 1
    {
      IndexNextPassesOne(ranges.data, ranges.Here(), offset);
      offset := offset + 1;
      if ranges.Value().first + offset == ranges.Value().second {
        ranges.Increment();
        offset := 0;
      }
    }
  }

  /** Going through `as_indexes()` comes to an end and gives every index in the set exactly once,
      in increasing order. */
  method Enumerate(data: Chunks) returns (out: seq<nat>)
    requires WellFormed(data)
    ensures out == Indexes(Flat(data))
    ensures Increasing(out) && forall x: nat :: x in out <==> Contains(Flat(data), x)
  {
    hide Indexes, Flat, Rank, Contains, Increasing;
    ghost var all := Indexes(Flat(data));
    BeginIsOk(data);
    var it := new IndexIterator(data, Begin(data));
    var end := new IndexIterator(data, End(data));
    out := [];
    IndexAtRank(data, it.ranges.Here(), it.offset);
    while !it.Equals(end)
      invariant it.Valid() && it.ranges.data == data && end.ranges.Here() == End(data)
      invariant it.IndexRank() <= |all| && out == all[..it.IndexRank()]
      invariant fresh(it) && fresh(it.ranges) && fresh(end) && end != it && end.ranges != it.ranges
      decreases |all| - it.IndexRank()
    {
      out := out + [it.Value()];
      it.Increment();
      IndexAtRank(data, it.ranges.Here(), it.offset);
    }
    IndexAtRank(data, it.ranges.Here(), it.offset);
    IndexesAreTheSet(Flat(data));
  }

  lemma {:induction false} IndexesAreTheSet(rs: seq<Range>)
    requires Ordered(rs)
    ensures Increasing(Indexes(rs)) && forall x: nat :: x in Indexes(rs) <==> Contains(rs, x)
  {
    IndexesIncrease(rs);
    forall x: nat ensures x in Indexes(rs) <==> Contains(rs, x) {
      IndexesHoldTheSet(rs, x);
    }
  }

  lemma {:induction false} BeginIsOk(data: Chunks)
    requires WellFormed(data)
    ensures OffsetOk(data, Begin(data), 0) && Rank(data, Begin(data), 0) == 0
  {
    if data != [] {
      RangeAtPosition(data, Place(0, Some(0)));
      assert data[..0] == [];
    } else {
      assert Flat(data)[..0] == [];
    }
  }
}
