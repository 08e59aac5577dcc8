/** Lists: assignment by differences, and replacing a range element by element. */
module RealmList {
  /** What is written to the store, and so told to observers. */
  datatype Change<T> = Set(at: nat, value: T) | Insert(at: nat, value: T) | Remove(at: nat)

  datatype Source<T> = SameList | Null | Elements(values: seq<T>)

  // ----- what a sequence of changes does -----

  predicate Applies<T>(s: seq<T>, c: Change<T>) {
    match c
    case Set(i, _) => i < |s|
    case Insert(i, _) => i <= |s|
    case Remove(i) => i < |s|
  }

  function Apply<T>(s: seq<T>, c: Change<T>): seq<T>
    requires Applies(s, c)
  {
    match c
    case Set(i, x) => s[i := x]
    case Insert(i, x) => s[..i] + [x] + s[i..]
    case Remove(i) => s[..i] + s[i + 1..]
  }

  predicate AllApply<T>(s: seq<T>, cs: seq<Change<T>>)
    decreases |cs|
  {
    cs != [] ==> Applies(s, cs[0]) && AllApply(Apply(s, cs[0]), cs[1..])
  }

  function ApplyAll<T>(s: seq<T>, cs: seq<Change<T>>): seq<T>
    requires AllApply(s, cs)
    decreases |cs|
  {
    if cs == [] then s else ApplyAll(Apply(s, cs[0]), cs[1..])
  }

  // ----- the two ways to assign -----

  /** The elements from `i` on of which both lists have one and that differ. */
  function Differences<T(==)>(was: seq<T>, now: seq<T>, i: nat): seq<Change<T>>
    decreases |was| - i
  {
    if i >= |was| || i >= |now| then []
    else (if was[i] == now[i] then [] else [Set(i, now[i])]) + Differences(was, now, i + 1)
  }

  function Appends<T>(now: seq<T>, i: nat): seq<Change<T>>
    decreases |now| - i
  {
    if i >= |now| then [] else [Insert(i, now[i])] + Appends(now, i + 1)
  }

  /** From the end of the list down to `n`. */
  function Trims<T>(size: nat, n: nat): seq<Change<T>> {
    if size <= n then [] else [Remove(size - 1)] + Trims(size - 1, n)
  }

  /** Overwrite what differs, extend, trim the tail. */
  function Diff<T(==)>(was: seq<T>, now: seq<T>): seq<Change<T>> {
    Differences(was, now, 0) + Appends(now, |was|) + Trims(|was|, |now|)
  }

  /** What is left of the diff when `i` elements have been assigned. */
  function Rest<T(==)>(was: seq<T>, now: seq<T>, i: nat): seq<Change<T>> {
    (if i <= |was| then Differences(was, now, i) + Appends(now, |was|) else Appends(now, i))
    + Trims(|was|, |now|)
  }

  lemma {:induction false} RestNext<T>(was: seq<T>, now: seq<T>, i: nat)
    requires i < |now|
    ensures Rest(was, now, i) ==
            (if i >= |was| then [Insert(i, now[i])] else if was[i] == now[i] then [] else [Set(i, now[i])])
            + Rest(was, now, i + 1)
  {
    if i >= |was| {
      assert Differences(was, now, i) == [];
      assert Appends(now, i) == [Insert(i, now[i])] + Appends(now, i + 1);
    }
  }

  lemma {:induction false} RestAtEnd<T>(was: seq<T>, now: seq<T>)
    ensures Rest(was, now, |now|) == Trims(|was|, |now|)
  {
    assert Appends(now, |now|) == [];
    assert |was| >= |now| ==> Appends(now, |was|) == [];
  }

  /** Clear, then append. */
  function Full<T>(was: seq<T>, now: seq<T>): seq<Change<T>> {
    Trims(|was|, 0) + Appends(now, 0)
  }

  lemma {:induction false} ApplyConcat<T>(s: seq<T>, a: seq<Change<T>>, b: seq<Change<T>>)
    requires AllApply(s, a) && AllApply(ApplyAll(s, a), b)
    ensures AllApply(s, a + b) && ApplyAll(s, a + b) == ApplyAll(ApplyAll(s, a), b)
    decreases |a|
  {
    if a == [] {
      assert a + b == b;
    } else {
      assert (a + b)[0] == a[0] && (a + b)[1..] == a[1..] + b;
      ApplyConcat(Apply(s, a[0]), a[1..], b);
    }
  }

  /** The list when the first `i` elements have been assigned. */
  function Mixed<T>(was: seq<T>, now: seq<T>, i: nat): seq<T>
    requires i <= |now|
  {
    now[..i] + (if i <= |was| then was[i..] else [])
  }

  lemma {:induction false} MixedNext<T>(was: seq<T>, now: seq<T>, i: nat)
    requires i < |now|
    ensures i < |was| ==> |Mixed(was, now, i)| > i
    ensures Mixed(was, now, i + 1) ==
            if i < |was| then Mixed(was, now, i)[i := now[i]] else Mixed(was, now, i) + [now[i]]
    ensures i < |was| ==> Mixed(was, now, i)[i] == was[i]
  {
    assert now[..i + 1] == now[..i] + [now[i]];
  }

  lemma {:induction false} MixedAtStart<T>(was: seq<T>, now: seq<T>)
    ensures Mixed(was, now, 0) == was
  {
    assert now[..0] == [];
  }

  lemma {:induction false} MixedAtEnd<T>(was: seq<T>, now: seq<T>)
    ensures Mixed(was, now, |now|)[..|now|] == now
    ensures |Mixed(was, now, |now|)| == if |now| <= |was| then |was| else |now|
  {
    assert now[..|now|] == now;
  }

  lemma {:induction false} MixedSize<T>(was: seq<T>, now: seq<T>, i: nat)
    requires i <= |now|
    ensures |Mixed(was, now, i)| == if i <= |was| then |was| else i
  {
  }

  lemma {:induction false} RestAtStart<T>(was: seq<T>, now: seq<T>)
    ensures Rest(was, now, 0) == Diff(was, now)
  {
  }

  lemma {:induction false} DifferencesOverwrite<T>(was: seq<T>, now: seq<T>, i: nat)
    requires i <= |was| && i <= |now|
    ensures var n := if |was| < |now| then |was| else |now|;
            var cs := Differences(was, now, i);
            AllApply(Mixed(was, now, i), cs) && ApplyAll(Mixed(was, now, i), cs) == Mixed(was, now, n)
    decreases |was| - i
  {
    hide Mixed, Differences, AllApply, ApplyAll;
    FirstDifference(was, now, i);
    NoChanges(Mixed(was, now, i));
    if i < |was| && i < |now| {
      DifferencesOverwrite(was, now, i + 1);
      MixedNext(was, now, i);
      var s := Mixed(was, now, i);
      if was[i] == now[i] {
        assert s[i := now[i]] == s;
      } else {
        FirstChange(s, Set(i, now[i]), Differences(was, now, i + 1));
      }
    }
  }

  lemma {:induction false} FirstDifference<T>(was: seq<T>, now: seq<T>, i: nat)
    ensures i >= |was| || i >= |now| ==> Differences(was, now, i) == []
    ensures i < |was| && i < |now| ==>
              Differences(was, now, i)
              == if was[i] == now[i] then Differences(was, now, i + 1)
                 else [Set(i, now[i])] + Differences(was, now, i + 1)
  {
  }

  lemma {:induction false} NoChanges<T>(s: seq<T>)
    ensures AllApply(s, []) && ApplyAll(s, []) == s
  {
  }

  lemma {:induction false} FirstChange<T>(s: seq<T>, c: Change<T>, cs: seq<Change<T>>)
    requires Applies(s, c) && AllApply(Apply(s, c), cs)
    ensures AllApply(s, [c] + cs) && ApplyAll(s, [c] + cs) == ApplyAll(Apply(s, c), cs)
  {
    assert ([c] + cs)[0] == c && ([c] + cs)[1..] == cs;
  }

  lemma {:induction false} AppendsExtend<T>(now: seq<T>, i: nat)
    requires i <= |now|
    ensures AllApply(now[..i], Appends(now, i)) && ApplyAll(now[..i], Appends(now, i)) == now
    decreases |now| - i
  {
    if i == |now| {
      assert now[..i] == now;
    } else {
      AppendsExtend(now, i + 1);
      var cs := Appends(now, i);
      assert Apply(now[..i], cs[0]) == now[..i + 1] && cs[1..] == Appends(now, i + 1);
    }
  }

  lemma {:induction false} TrimsCut<T>(s: seq<T>, n: nat)
    requires n <= |s|
    ensures AllApply(s, Trims(|s|, n)) && ApplyAll(s, Trims(|s|, n)) == s[..n]
    decreases |s|
  {
    if |s| == n {
      assert s[..n] == s;
    } else {
      var cs: seq<Change<T>> := Trims(|s|, n);
      var s' := s[..|s| - 1];
      assert Apply(s, cs[0]) == s' && cs[1..] == Trims(|s'|, n);
      TrimsCut(s', n);
      assert s'[..n] == s[..n];
    }
  }

  /** The changes of the diff make the list equal to the values. */
  lemma {:induction false} DiffAssigns<T>(was: seq<T>, now: seq<T>)
    ensures AllApply(was, Diff(was, now)) && ApplyAll(was, Diff(was, now)) == now
  {
    hide AllApply, ApplyAll, Differences, Appends, Trims;
    DifferencesOverwrite(was, now, 0);
    assert Mixed(was, now, 0) == was;
    var a, b, c := Differences(was, now, 0), Appends(now, |was|), Trims(|was|, |now|);
    var s := ApplyAll(was, a);
    if |was| < |now| {
      assert s == now[..|was|];
      AppendsExtend(now, |was|);
      ApplyConcat(was, a, b);
      NoTrims<T>(|was|, |now|);
      assert a + b + [] == a + b;
    } else {
      TrimsCut(s, |now|);
      ApplyConcat(was, a, c);
      NoAppends(now, |was|);
      assert a + [] + c == a + c;
      assert s[..|now|] == now;
    }
  }

  lemma {:induction false} NoTrims<T>(size: nat, n: nat)
    requires size <= n
    ensures Trims<T>(size, n) == []
  {
  }

  lemma {:induction false} NoAppends<T>(now: seq<T>, i: nat)
    requires i >= |now|
    ensures Appends(now, i) == []
  {
  }

  /** So do those of the full assignment. */
  lemma {:induction false} FullAssigns<T>(was: seq<T>, now: seq<T>)
    ensures AllApply(was, Full(was, now)) && ApplyAll(was, Full(was, now)) == now
  {
    TrimsCut(was, 0);
    AppendsExtend(now, 0);
    assert was[..0] == now[..0] == [];
    ApplyConcat(was, Trims(|was|, 0), Appends(now, 0));
  }

  lemma {:induction false} NoDifferences<T>(was: seq<T>, now: seq<T>, i: nat)
    requires |was| == |now| && i <= |was|
    ensures Differences(was, now, i) == [] <==> was[i..] == now[i..]
    decreases |was| - i
  {
    if i < |was| {
      NoDifferences(was, now, i + 1);
      assert was[i..] == [was[i]] + was[i + 1..] && now[i..] == [now[i]] + now[i + 1..];
      assert was[i] != now[i] ==> was[i..][0] != now[i..][0];
      assert was[i..] == now[i..] ==> was[i..][1..] == now[i..][1..];
      assert was[i..][1..] == was[i + 1..] && now[i..][1..] == now[i + 1..];
    }
  }

  /** Observers are told of a change by differences just when the list changes. */
  lemma {:induction false} DiffIsQuietIff<T>(was: seq<T>, now: seq<T>)
    ensures Diff(was, now) == [] <==> was == now
  {
    if |was| == |now| {
      NoDifferences(was, now, 0);
      assert was[0..] == was && now[0..] == now;
    }
  }

  // ----- ranges -----

  function Replaced<T>(s: seq<T>, lower: nat, upper: nat, xs: seq<T>): seq<T>
    requires lower <= upper <= |s|
  {
    s[..lower] + xs + s[upper..]
  }

  /** Replacing a range is removing it and inserting there. */
  lemma {:induction false} ReplaceIsRemoveThenInsert<T>(s: seq<T>, lower: nat, upper: nat, xs: seq<T>)
    requires lower <= upper <= |s|
    ensures var removed := Replaced(s, lower, upper, []);
            lower <= |removed| && Replaced(removed, lower, lower, xs) == Replaced(s, lower, upper, xs)
  {
    var removed := Replaced(s, lower, upper, []);
    assert removed[..lower] == s[..lower] && removed[lower..] == s[upper..];
  }

  /** Replacing the new elements by the former ones undoes a replacement. */
  lemma {:induction false} ReplaceBack<T>(s: seq<T>, lower: nat, upper: nat, xs: seq<T>)
    requires lower <= upper <= |s|
    ensures Replaced(Replaced(s, lower, upper, xs), lower, lower + |xs|, s[lower..upper]) == s
  {
    var t := Replaced(s, lower, upper, xs);
    assert t[..lower] == s[..lower] && t[lower + |xs|..] == s[upper..];
    assert s == s[..lower] + s[lower..upper] + s[upper..];
  }

  // ----- the list -----

  class List<T(==)> {
    var items: seq<T>
    var changes: seq<Change<T>>

    constructor (items: seq<T>)
      ensures this.items == items && changes == []
    {
      this.items, changes := items, [];
    }

    /** One write to the store. */
    method Write(c: Change<T>)
      requires Applies(items, c)
      modifies this
      ensures items == Apply(old(items), c) && changes == old(changes) + [c]
    {
      changes := changes + [c];
      match c
      case Set(i, x) => items := items[i := x];
      case Insert(i, x) => items := items[..i] + [x] + items[i..];
      case Remove(i) => items := items[..i] + items[i + 1..];
    }

    method Add(x: T)
      modifies this
      ensures items == old(items) + [x] && changes == old(changes) + [Insert(|old(items)|, x)]
    {
      Write(Insert(|items|, x));
    }

    method SetIfDifferent(i: nat, x: T)
      requires i < |items|
      modifies this
      ensures items == old(items)[i := x]
      ensures changes == old(changes) + if old(items)[i] == x then [] else [Set(i, x)]
    {
      if items[i] != x {
        Write(Set(i, x));
      }
    }

    method RemoveAll()
      modifies this
      ensures items == [] && changes == old(changes) + Trims(|old(items)|, 0)
    {
      while items != []
        invariant changes + Trims(|items|, 0) == old(changes) + Trims(|old(items)|, 0)
        decreases |items|
      {
        ghost var n := |items|;
        ghost var rest: seq<Change<T>> := Trims(n - 1, 0);
        Write(Remove(|items| - 1));
        assert Trims<T>(n, 0) == [Remove(n - 1)] + rest;
      }
      assert changes + [] == changes;
    }

    /** Both ways of assigning leave the list equal to the values; by differences only what
        differs is written. */
    method Assign(source: Source<T>, updateOnlyDiff: bool)
      modifies this
      ensures items == match source
                       case SameList => old(items)
                       case Null => []
                       case Elements(values) => values
      ensures changes == old(changes) + match source
                         case SameList => []
                         case Null => Trims(|old(items)|, 0)
                         case Elements(values) =>
                           if updateOnlyDiff then Diff(old(items), values) else Full(old(items), values)
    {
      if source.SameList? {
        return;
      }
      if source.Null? {
        RemoveAll();
        return;
      }
      var values := source.values;
      if updateOnlyDiff {
        AssignDiff(values);
      } else {
        RemoveAll();
        AppendAll(values);
        assert changes == old(changes) + (Trims(|old(items)|, 0) + Appends(values, 0));
      }
    }

    method AppendAll(values: seq<T>)
      requires items == []
      modifies this
      ensures items == values && changes == old(changes) + Appends(values, 0)
    {
      var i := 0;
      while i < |values|
        invariant 0 <= i <= |values| && items == values[..i]
        invariant changes + Appends(values, i) == old(changes) + Appends(values, 0)
      {
        ghost var rest := Appends(values, i + 1);
        Add(values[i]);
        assert Appends(values, i) == [Insert(i, values[i])] + rest;
        i := i + 1;
      }
      assert changes + [] == changes;
    }

    method AssignDiff(values: seq<T>)
      modifies this
      ensures items == values && changes == old(changes) + Diff(old(items), values)
    {
      hide Rest, Mixed, Trims, Diff, Differences, Appends;
      ghost var was := items;
      ghost var all := changes + Diff(was, values);
      var sz: nat := |items|;
      var index := 0;
      assert Mixed(was, values, 0) == was by { MixedAtStart(was, values); }
      assert Rest(was, values, 0) == Diff(was, values) by { RestAtStart(was, values); }
      while index < |values|
        invariant 0 <= index <= |values| && sz == |was|
        invariant items == Mixed(was, values, index)
        invariant changes + Rest(was, values, index) == all
      {
        MixedNext(was, values, index);
        RestNext(was, values, index);
        MixedSize(was, values, index);
        ghost var rest := Rest(was, values, index + 1);
        if index < sz {
          assert changes + (if was[index] == values[index] then [] else [Set(index, values[index])]) + rest == all;
          SetIfDifferent(index, values[index]);
        } else {
          assert changes + [Insert(index, values[index])] + rest == all;
          Add(values[index]);
        }
        index := index + 1;
      }
      RestAtEnd(was, values);
      MixedAtEnd(was, values);
      TrimTail(sz, index);
      assert changes == all;
    }

    /** `while (index < sz)` of the source: the tail goes, from the end. */
    method TrimTail(size: nat, index: nat)
      requires |items| == if index <= size then size else index
      modifies this
      ensures items == old(items)[..index] && changes == old(changes) + Trims(size, index)
    {
      var sz := size;
      while index < sz
        invariant 0 <= sz <= size && |items| == if index <= sz then sz else index
        invariant items == old(items)[..|items|] && |items| <= |old(items)|
        invariant changes + Trims(sz, index) == old(changes) + Trims(size, index)
      {
        ghost var rest: seq<Change<T>> := Trims(sz - 1, index);
        assert Trims<T>(sz, index) == [Remove(sz - 1)] + rest;
        sz := sz - 1;
        Write(Remove(sz));
      }
      assert changes + [] == changes;
    }

    /** Index by index: remove at the lower bound, then insert there, last element first. */
    method ReplaceSubrange(lower: nat, upper: nat, newElements: seq<T>)
      requires lower <= upper <= |items|
      modifies this
      ensures items == Replaced(old(items), lower, upper, newElements)
    {
      ghost var was := items;
      RemoveSubrange(lower, upper);
      var i := |newElements|;
      assert newElements[i..] == [];
      while i > 0
        invariant 0 <= i <= |newElements|
        invariant items == was[..lower] + newElements[i..] + was[upper..]
      {
        i := i - 1;
        Write(Insert(lower, newElements[i]));
        assert newElements[i..] == [newElements[i]] + newElements[i + 1..];
      }
      assert newElements[0..] == newElements;
    }

    method RemoveSubrange(lower: nat, upper: nat)
      requires lower <= upper <= |items|
      modifies this
      ensures items == Replaced(old(items), lower, upper, [])
    {
      ghost var was := items;
      var i := lower;
      while i < upper
        invariant lower <= i <= upper
        invariant items == was[..lower] + was[i..]
      {
        Write(Remove(lower));
        i := i + 1;
      }
      assert was[..lower] + [] == was[..lower];
    }

    /** In order, each element at the next index. */
    method InsertContentsOf(newElements: seq<T>, at: nat)
      requires at <= |items|
      modifies this
      ensures items == Replaced(old(items), at, at, newElements)
    {
      ghost var was := items;
      var i := 0;
      while i < |newElements|
        invariant 0 <= i <= |newElements|
        invariant items == was[..at] + newElements[..i] + was[at..]
      {
        Write(Insert(at + i, newElements[i]));
        assert newElements[..i + 1] == newElements[..i] + [newElements[i]];
        i := i + 1;
      }
      assert newElements[..i] == newElements;
    }
  }
}
