/** What the grouping index means: rows and children over whole runs, and independence of the
    order in which the articles arrive. */
module ArticlesOrder {
  import opened Wrappers
  import opened Counters
  import opened Articles

  // ----- facts about every run -----

  /** Rows are never removed or reordered. */
  lemma {:induction false} RowsOnlyGrow(adds: seq<Art>, ts: seq<Table>, i: nat, j: nat)
    requires Run(adds, ts) && i <= j <= |adds|
    ensures ts[i].rows <= ts[j].rows
    decreases j - i
  {
    if i < j {
      AddKeepsWellFormed(ts[i], adds[i], ts[i+1]);
      RowsOnlyGrow(adds, ts, i + 1, j);
    }
  }

  /** The head of a row is one of its children; all children share its key; they are sorted by
      the file numbers of the subjects they were shown with. */
  lemma {:induction false} RowsAreClasses(adds: seq<Art>, ts: seq<Table>, r: nat)
    requires Fixed(adds) && Run(adds, ts) && r in ts[|adds|].rows
    ensures var T := ts[|adds|];
            && r < |adds| && r in T.kids && Within(T.kids[r], |adds|) && r in T.kids[r]
            && (forall c | c in T.kids[r] :: SameRow(adds, c, r) && c in Shown(adds, ts))
            && (forall c | c in Shown(adds, ts) && SameRow(adds, c, r) :: c in T.kids[r])
            && (forall i, j | 0 <= i < j < |T.kids[r]| ::
                  FileNumber(adds[T.kids[r][i]].subject) <= FileNumber(adds[T.kids[r][j]].subject))
  {
    assert |ts| == |adds| + 1;
    hide Key, FileNumber, Run, Shown, CacheOk, DisplayedOk, Firsts, ClassOf;
    RunInvariant(adds, ts);
    var T, shown := ts[|adds|], Shown(adds, ts);
    RowsBelow(adds, shown, T);
    ClassMembers(adds, shown, r);
    var kids, members := T.kids[r], ClassOf(adds, shown, r);
    forall c ensures c in kids <==> c in members {
      assert c in kids <==> c in multiset(kids);
      assert c in members <==> c in multiset(members);
    }
    assert SameRow(adds, r, r);
    forall i | 0 <= i < |kids| ensures kids[i] < |adds| && T.arts[kids[i]].subject == adds[kids[i]].subject {
      assert kids[i] in members;
    }
  }

  function ChildCount(T: Table, rows: seq<nat>): nat
    requires forall i | 0 <= i < |rows| :: rows[i] in T.kids
  {
    if rows == [] then 0 else ChildCount(T, rows[..|rows| - 1]) + |T.kids[rows[|rows| - 1]]|
  }

  function ClassSizes(adds: seq<Art>, shown: seq<nat>, rows: seq<nat>): nat
    requires Within(shown, |adds|) && Within(rows, |adds|)
  {
    if rows == [] then 0
    else ClassSizes(adds, shown, rows[..|rows| - 1]) + |ClassOf(adds, shown, rows[|rows| - 1])|
  }

  /** How many of the rows a call belongs to. */
  function Hits(adds: seq<Art>, t: nat, rows: seq<nat>): nat {
    if rows == [] then 0
    else Hits(adds, t, rows[..|rows| - 1]) + (if SameRow(adds, t, rows[|rows| - 1]) then 1 else 0)
  }

  lemma {:induction false} SizesGrow(adds: seq<Art>, shown: seq<nat>, t: nat, rows: seq<nat>)
    requires Within(shown, |adds|) && Within(rows, |adds|) && t < |adds|
    ensures ClassSizes(adds, shown + [t], rows) == ClassSizes(adds, shown, rows) + Hits(adds, t, rows)
  {
    if rows != [] {
      PartitionGrows(adds, shown, t);
      SizesGrow(adds, shown, t, rows[..|rows| - 1]);
    }
  }

  lemma {:induction false} NoHits(adds: seq<Art>, t: nat, rows: seq<nat>)
    requires forall i | 0 <= i < |rows| :: !SameRow(adds, t, rows[i])
    ensures Hits(adds, t, rows) == 0
  {
    if rows != [] {
      NoHits(adds, t, rows[..|rows| - 1]);
    }
  }

  lemma {:induction false} OneHit(adds: seq<Art>, t: nat, rows: seq<nat>, v: nat)
    requires v < |rows| && SameRow(adds, t, rows[v])
    requires forall i | 0 <= i < |rows| && i != v :: !SameRow(adds, t, rows[i])
    ensures Hits(adds, t, rows) == 1
  {
    hide SameRow;
    var n := |rows| - 1;
    if v == n {
      NoHits(adds, t, rows[..n]);
    } else {
      OneHit(adds, t, rows[..n], v);
    }
  }

  predicate Rising(shown: seq<nat>) {
    forall i, j | 0 <= i < j < |shown| :: shown[i] < shown[j]
  }

  /** The position, among the rows, of the row that a shown call belongs to; it is the only one. */
  lemma {:induction false} RowIndex(adds: seq<Art>, shown: seq<nat>, t: nat) returns (v: nat)
    requires Within(shown, |adds|) && Rising(shown) && t < |adds|
    requires exists s | s in shown :: SameRow(adds, s, t)
    ensures var rows := Firsts(adds, shown);
            v < |rows| && SameRow(adds, t, rows[v])
            && forall i | 0 <= i < |rows| && i != v :: !SameRow(adds, t, rows[i])
  {
    hide Key, FileNumber;
    var rows := Firsts(adds, shown);
    var s :| s in shown && SameRow(adds, s, t);
    var r := RowOf(adds, shown, s);
    FirstsAreShown(adds, shown);
    v :| 0 <= v < |rows| && rows[v] == r;
    FirstsRising(adds, shown);
    forall i | 0 <= i < |rows| && SameRow(adds, t, rows[i]) ensures i == v {
      FirstsDistinct(adds, shown, rows[i], rows[v]);
    }
    assert SameRow(adds, t, r) by { SameRowChain(adds, t, s, r); }
  }

  lemma {:induction false} SameRowChain(adds: seq<Art>, t: nat, s: nat, r: nat)
    requires SameRow(adds, s, t) && SameRow(adds, s, r)
    ensures SameRow(adds, t, r)
  {
  }

  lemma {:induction false} FirstsRising(adds: seq<Art>, shown: seq<nat>)
    requires Within(shown, |adds|) && Rising(shown)
    ensures Rising(Firsts(adds, shown))
  {
    if shown != [] {
      var n := |shown| - 1;
      FirstsRising(adds, shown[..n]);
      FirstsAreShown(adds, shown[..n]);
      forall i | 0 <= i < |Firsts(adds, shown[..n])| ensures Firsts(adds, shown[..n])[i] < shown[n] {
        assert Firsts(adds, shown[..n])[i] in shown[..n];
      }
    }
  }

  lemma {:induction false} SizesAfterOld(adds: seq<Art>, s: seq<nat>, t: nat)
    requires Within(s, |adds|) && Rising(s) && t < |adds|
    requires exists s' | s' in s :: SameRow(adds, s', t)
    ensures Within(Firsts(adds, s + [t]), |adds|) && Within(Firsts(adds, s), |adds|)
    ensures ClassSizes(adds, s + [t], Firsts(adds, s + [t])) == ClassSizes(adds, s, Firsts(adds, s)) + 1
  {
    hide Key, FileNumber;
    FirstsAreShown(adds, s);
    PartitionGrows(adds, s, t);
    var rows := Firsts(adds, s);
    assert rows + [] == rows;
    var v := RowIndex(adds, s, t);
    SizesGrow(adds, s, t, rows);
    OneHit(adds, t, rows, v);
  }

  lemma {:induction false} SizesAfterNew(adds: seq<Art>, s: seq<nat>, t: nat)
    requires Within(s, |adds|) && t < |adds| && Within(Firsts(adds, s), |adds|)
    requires !exists s' | s' in s :: SameRow(adds, s', t)
    ensures Within(Firsts(adds, s + [t]), |adds|)
    ensures ClassSizes(adds, s + [t], Firsts(adds, s + [t])) == ClassSizes(adds, s, Firsts(adds, s)) + 1
  {
    PartitionGrows(adds, s, t);
    FirstsAreShown(adds, s);
    var rows := Firsts(adds, s);
    NewClassSize(adds, s, t);
    forall i | 0 <= i < |rows| ensures !SameRow(adds, t, rows[i]) {
      assert rows[i] in s;
    }
    SizesGrow(adds, s, t, rows);
    NoHits(adds, t, rows);
    hide Key, FileNumber, Firsts, ClassOf, SameRow;
    assert (rows + [t])[..|rows|] == rows;
  }

  /** The classes of the rows are a partition: their sizes add up. */
  lemma {:induction false} SizesAddUp(adds: seq<Art>, shown: seq<nat>)
    requires Within(shown, |adds|) && Rising(shown)
    ensures Within(Firsts(adds, shown), |adds|)
    ensures ClassSizes(adds, shown, Firsts(adds, shown)) == |shown|
  {
    FirstsAreShown(adds, shown);
    if shown != [] {
      hide Key, FileNumber, SameRow, ClassOf, ClassSizes;
      var n := |shown| - 1;
      var s, t := shown[..n], shown[n];
      assert shown == s + [t];
      SizesAddUp(adds, s);
      if exists s' | s' in s :: SameRow(adds, s', t) {
        SizesAfterOld(adds, s, t);
      } else {
        SizesAfterNew(adds, s, t);
      }
    }
  }

  lemma {:induction false} NewClassSize(adds: seq<Art>, shown: seq<nat>, t: nat)
    requires Within(shown, |adds|) && t < |adds| && !exists s | s in shown :: SameRow(adds, s, t)
    ensures |ClassOf(adds, shown + [t], t)| == 1
  {
    EmptyClass(adds, shown, t);
    PartitionGrows(adds, shown, t);
    assert SameRow(adds, t, t);
  }

  lemma {:induction false} CountsAgree(adds: seq<Art>, shown: seq<nat>, T: Table, rows: seq<nat>)
    requires Within(shown, |adds|) && Within(rows, |adds|)
    requires forall i | 0 <= i < |rows| ::
               rows[i] in T.kids && multiset(T.kids[rows[i]]) == multiset(ClassOf(adds, shown, rows[i]))
    ensures ChildCount(T, rows) == ClassSizes(adds, shown, rows)
  {
    if rows != [] {
      CountsAgree(adds, shown, T, rows[..|rows| - 1]);
      var r := rows[|rows| - 1];
      assert |T.kids[r]| == |multiset(T.kids[r])| == |multiset(ClassOf(adds, shown, r))| == |ClassOf(adds, shown, r)|;
    }
  }

  /** Conservation: the rows hold one child for every call that was neither blank nor returned
      early, over every run. */
  lemma {:induction false} ChildrenAreConserved(adds: seq<Art>, ts: seq<Table>)
    requires Fixed(adds) && Run(adds, ts)
    ensures forall i | 0 <= i < |ts[|adds|].rows| :: ts[|adds|].rows[i] in ts[|adds|].kids
    ensures ChildCount(ts[|adds|], ts[|adds|].rows) == |Shown(adds, ts)|
  {
    assert |ts| == |adds| + 1;
    hide Key, FileNumber, Run, Fixed, CacheOk, DisplayedOk;
    RunInvariant(adds, ts);
    RowsAddUp(adds, Shown(adds, ts), ts[|adds|]);
  }

  lemma {:induction false} RowsAddUp(adds: seq<Art>, shown: seq<nat>, T: Table)
    requires ShownOk(adds, shown) && Settled(adds, T.arts) && Partitioned(adds, shown, T)
    ensures forall i | 0 <= i < |T.rows| :: T.rows[i] in T.kids
    ensures ChildCount(T, T.rows) == |shown|
  {
    hide Key, FileNumber, Settled, ChildCount, ClassSizes, ClassOf, Firsts;
    RowsBelow(adds, shown, T);
    forall i | 0 <= i < |T.rows| ensures T.rows[i] < |adds| && T.rows[i] in T.kids {
      assert T.rows[i] in T.rows;
    }
    SizesAddUp(adds, shown);
    CountsAgree(adds, shown, T, T.rows);
  }

  /** A repeated call is ignored exactly when its id was first seen blank or heads a row; any
      other repeated call adds the article a second time. */
  lemma {:induction false} RepeatIgnoredIff(adds: seq<Art>, ts: seq<Table>, a: Art)
    requires Fixed(adds + [a]) && Run(adds, ts)
    requires exists t | 0 <= t < |adds| :: adds[t].id == a.id && adds[t].subject != ""
    ensures Early(ts[|adds|], a) <==>
              exists s | 0 <= s < |adds| :: adds[s].id == a.id && (adds[s].subject == "" || s in ts[|adds|].rows)
  {
    hide Key, FileNumber;
    assert (adds + [a])[..|adds|] == adds;
    FixedPrefix(adds + [a], |adds|);
    RunInvariant(adds, ts);
    OwnIdCached(adds, ts[|adds|], a);
  }

  /** Of the calls with a subject for one id some call was shown. */
  lemma {:induction false} ShownBefore(adds: seq<Art>, ts: seq<Table>, t: nat) returns (s: nat)
    requires Fixed(adds) && Run(adds, ts) && t < |adds| && adds[t].subject != ""
    ensures s < |adds| && s in Shown(adds, ts) && adds[s].id == adds[t].id && adds[s].subject != ""
    decreases |adds|
  {
    hide Key, FileNumber, Add, CacheOk, Settled, ShownOk, Partitioned;
    var n := |adds| - 1;
    FixedPrefix(adds, n);
    RunPrefix(adds, ts, n);
    assert ts[..n + 1][n] == ts[n];
    if t < n {
      s := ShownBefore(adds[..n], ts[..n + 1], t);
    } else if Early(ts[n], adds[n]) {
      RunInvariant(adds[..n], ts[..n + 1]);
      assert adds[n].id in ts[n].displayed;
      var u :| 0 <= u < |adds[..n]| && adds[..n][u].id == adds[n].id && adds[..n][u].subject != "";
      s := ShownBefore(adds[..n], ts[..n + 1], u);
    } else {
      s := n;
    }
  }

  /** A repeated call that is not ignored adds the article again: the calls shown grow by it, and
      one row holds both an earlier call for the same id and this one as children. An ignored one
      is not shown. */
  lemma {:induction false} RepeatAddsAgain(adds: seq<Art>, ts: seq<Table>, a: Art, T': Table)
    requires Fixed(adds + [a]) && Run(adds, ts) && Add(ts[|adds|], a, T')
    requires exists t | 0 <= t < |adds| :: adds[t].id == a.id && adds[t].subject != ""
    ensures Run(adds + [a], ts + [T'])
    ensures Shown(adds + [a], ts + [T']) ==
            Shown(adds, ts) + if Early(ts[|adds|], a) then [] else [|adds|]
    ensures !Early(ts[|adds|], a) ==> exists r, s :: HoldsTwice(adds, a, T', r, s)
  {
    var first :| 0 <= first < |adds| && adds[first].id == a.id && adds[first].subject != "";
    SubjectsAgree(adds, a, first);
    hide Key, FileNumber, Fixed, Early;
    var adds', ts', n := adds + [a], ts + [T'], |adds|;
    assert adds'[..n] == adds && ts'[..n + 1] == ts;
    RunGrows(adds, ts, a, T');
    if !Early(ts[n], a) {
      var r, s := ChildAgain(adds, ts, a, T', first);
      assert HoldsTwice(adds, a, T', r, s);
    }
  }

  lemma {:induction false} ChildAgain(adds: seq<Art>, ts: seq<Table>, a: Art, T': Table, first: nat)
    returns (r: nat, s: nat)
    requires Fixed(adds + [a]) && Run(adds, ts) && Run(adds + [a], ts + [T']) && !Early(ts[|adds|], a)
    requires first < |adds| && adds[first].id == a.id && adds[first].subject != ""
    requires Shown(adds + [a], ts + [T']) == Shown(adds, ts) + [|adds|]
    ensures HoldsTwice(adds, a, T', r, s)
  {
    assert |ts| == |adds| + 1;
    hide Key, FileNumber, Run, Fixed, Early, Shown, CacheOk, DisplayedOk, Settled, Firsts, ClassOf;
    var adds', ts', n := adds + [a], ts + [T'], |adds|;
    FixedOf(adds, a);
    s := ShownBefore(adds, ts, first);
    SubjectsAgree(adds, a, s);
    RunInvariant(adds, ts);
    r := RowOf(adds, Shown(adds, ts), s);
    if Key(a.subject).None? {
      assert r == s && adds[s].id == a.id && s in ts[n].rows;
      RepeatIgnoredIff(adds, ts, a);
      assert false;
    }
    RunInvariant(adds', ts');
    assert ts'[|adds'|] == T' && n in Shown(adds', ts') && s in Shown(adds', ts');
    r := RowOf(adds', Shown(adds', ts'), n);
    RowsAreClasses(adds', ts', r);
    assert adds'[s] == adds[s] && adds'[n] == a;
    SameRowAgain(adds', s, n, r);
  }

  /** Row `r` has as children call `s` and the new call, both for the id of `a`. */
  ghost predicate HoldsTwice(adds: seq<Art>, a: Art, T: Table, r: nat, s: nat) {
    && s < |adds| && adds[s].id == a.id
    && r in T.rows && r in T.kids && s in T.kids[r] && |adds| in T.kids[r]
  }

  /** Calls with one key are one row. */
  lemma {:induction false} OneClass(adds: seq<Art>, shown: seq<nat>)
    requires shown != [] && Within(shown, |adds|)
    requires forall s, t | s in shown && t in shown :: SameRow(adds, s, t)
    ensures Firsts(adds, shown) == [shown[0]] && ClassOf(adds, shown, shown[0]) == shown
  {
    hide SameRow, Firsts, ClassOf;
    var n := |shown| - 1;
    assert shown == shown[..n] + [shown[n]];
    PartitionGrows(adds, shown[..n], shown[n]);
    if n == 0 {
      NothingShown(adds, shown[0]);
      assert shown[..0] == [];
    } else {
      forall s, t | s in shown[..n] && t in shown[..n] ensures SameRow(adds, s, t) {}
      OneClass(adds, shown[..n]);
      assert shown[0] in shown[..n] && shown[0] in shown && shown[n] in shown;
      assert [shown[0]] + [] == [shown[0]];
    }
  }

  lemma {:induction false} NothingShown(adds: seq<Art>, r: nat)
    requires r < |adds|
    ensures Firsts(adds, []) == [] && ClassOf(adds, [], r) == []
  {
  }

  lemma {:induction false} PartsShareRow(a: Art, b: Art)
    requires Key(a.subject).Some? && Key(b.subject) == Key(a.subject)
    ensures Firsts([a, b], [0, 1]) == [0]
    ensures Firsts([a, b, b], [0, 1, 2]) == [0] && ClassOf([a, b, b], [0, 1, 2], 0) == [0, 1, 2]
  {
    hide Key;
    forall s, t | s in [0, 1] && t in [0, 1] ensures SameRow([a, b], s, t) {}
    forall s, t | s in [0, 1, 2] && t in [0, 1, 2] ensures SameRow([a, b, b], s, t) {}
    OneClass([a, b], [0, 1]);
    OneClass([a, b, b], [0, 1, 2]);
  }

  /** A witness: two parts of one row, "(1/2)" and "(2/2)", and the second again, give three
      children. */
  lemma {:induction false} SecondPartTwice(base: string, id: string, id': string, ts: seq<Table>)
    requires Matches(base, 0, RoundOrSquare) == [] && id != id' && Trim(base) != id && Trim(base) != id'
    requires var a, b := Art(id, base + " " + Counter("1", "2"), ""), Art(id', base + " " + Counter("2", "2"), "");
             Run([a, b, b], ts)
    ensures ts[3].rows == [0] && 0 in ts[3].kids && multiset(ts[3].kids[0]) == multiset{0, 1, 2}
  {
    hide Key, FileNumber, Run, Matches, Trim, NudeSubject, DigitsValue, Counter;
    CounterRoundTrip(base, "1", "2");
    CounterRoundTrip(base, "2", "2");
    ThreeChildren(Art(id, base + " " + Counter("1", "2"), ""), Art(id', base + " " + Counter("2", "2"), ""), ts);
  }

  lemma {:induction false} ThreeChildren(a: Art, b: Art, ts: seq<Table>)
    requires Run([a, b, b], ts) && a.subject != "" && b.subject != "" && a.id != b.id
    requires Key(a.subject).Some? && Key(b.subject) == Key(a.subject)
    requires Key(a.subject).value != a.id && Key(a.subject).value != b.id
    ensures ts[3].rows == [0] && 0 in ts[3].kids && multiset(ts[3].kids[0]) == multiset{0, 1, 2}
  {
    assert |ts| == 4;
    hide Key, FileNumber, Run, ClassOf, Firsts, CacheOk, DisplayedOk, Settled;
    var adds := [a, b, b];
    assert Fixed(adds);
    RunInvariant(adds, ts);
    ThreeShown(a, b, ts);
    PartsShareRow(a, b);
    assert 0 in ts[3].rows;
    assert multiset([0, 1, 2]) == multiset{0, 1, 2};
  }

  /** The third call is shown too: its id is cached neither by a blank call nor as a row. */
  lemma {:induction false} ThreeShown(a: Art, b: Art, ts: seq<Table>)
    requires Run([a, b, b], ts) && Fixed([a, b, b])
    requires a.subject != "" && b.subject != "" && a.id != b.id
    requires Key(a.subject).Some? && Key(b.subject) == Key(a.subject)
    ensures Shown([a, b, b], ts) == [0, 1, 2]
  {
    hide Key, FileNumber, Fixed, Early, CacheOk, Settled, DisplayedOk, ClassOf, Firsts, WellFormed, Add;
    var adds, two := [a, b, b], ts[..3];
    assert adds[..2] == [a, b] && [a, b][..1] == [a] && [a][..0] == [];
    assert ts[..3][..2] == ts[..2] && ts[..2][..1] == ts[..1];
    RunPrefix(adds, ts, 2);
    FixedPrefix(adds, 2);
    NoneEarly(a, b, ts);
    hide Run;
    assert Shown([], ts[..1]) == [] && Shown([a], ts[..2]) == [0] && Shown([a, b], two) == [0, 1];
    assert [a, b] + [b] == adds && [a, b][1] == b && two[2] == ts[2];
    RepeatIgnoredIff([a, b], two, b);
    RunInvariant([a, b], two);
    PartsShareRow(a, b);
    assert ts[2].rows == [0];
    assert forall s | 0 <= s < 2 && [a, b][s].id == b.id :: s == 1;
    assert !Early(ts[2], b);
  }

  lemma {:induction false} NoneEarly(a: Art, b: Art, ts: seq<Table>)
    requires Run([a, b, b], ts) && Fixed([a, b, b]) && a.id != b.id
    ensures !Early(ts[0], a) && !Early(ts[1], b)
  {
    hide Key, FileNumber, Add, WellFormed, Fixed, CacheOk, Settled, ShownOk, Partitioned;
    assert [a, b, b][..1] == [a] && ts[0] == EMPTY;
    RunPrefix([a, b, b], ts, 1);
    FixedPrefix([a, b, b], 1);
    RunInvariant([a], ts[..2]);
    assert ts[..2][1] == ts[1];
  }

  lemma {:induction false} RunGrows(adds: seq<Art>, ts: seq<Table>, a: Art, T': Table)
    requires Run(adds, ts) && Add(ts[|adds|], a, T')
    ensures Run(adds + [a], ts + [T'])
  {
    hide Add;
    AddKeepsWellFormed(ts[|adds|], a, T');
    var adds', ts' := adds + [a], ts + [T'];
    forall i | 0 <= i < |ts'| ensures WellFormed(ts'[i]) {
      assert ts'[i] == if i < |ts| then ts[i] else T';
    }
    forall i | 0 <= i < |adds'| ensures Add(ts'[i], adds'[i], ts'[i + 1]) {
      assert adds'[i] == if i < |adds| then adds[i] else a;
      assert ts'[i] == ts[i] && ts'[i + 1] == if i + 1 < |ts| then ts[i + 1] else T';
    }
  }

  lemma {:induction false} FixedOf(adds: seq<Art>, a: Art)
    requires Fixed(adds + [a])
    ensures Fixed(adds)
  {
    FixedPrefix(adds + [a], |adds|);
    assert (adds + [a])[..|adds|] == adds;
  }

  lemma {:induction false} SubjectsAgree(adds: seq<Art>, a: Art, s: nat)
    requires Fixed(adds + [a]) && s < |adds| && adds[s].id == a.id && adds[s].subject != ""
    ensures adds[s].subject == a.subject
  {
    var adds' := adds + [a];
    assert adds'[s] == adds[s] && adds'[|adds|] == a;
  }

  lemma {:induction false} SameRowAgain(adds: seq<Art>, s: nat, t: nat, r: nat)
    requires s < |adds| && t < |adds| && adds[s].subject == adds[t].subject && Key(adds[s].subject).Some?
    requires SameRow(adds, t, r)
    ensures SameRow(adds, s, r)
  {
    hide Key;
  }

  // ----- order independence -----

  /** What a row shows of an article. */
  datatype Card = Card(id: string, subject: string)

  datatype Label = Keyed(key: string) | Single(id: string)

  function LabelOf(c: Card): Label {
    match Key(c.subject)
    case Some(k) => Keyed(k)
    case None => Single(c.id)
  }

  function CardOf(adds: seq<Art>, t: nat): Card
    requires t < |adds|
  {
    Card(adds[t].id, adds[t].subject)
  }

  function Cards(adds: seq<Art>, s: seq<nat>): (cs: seq<Card>)
    requires Within(s, |adds|)
    ensures |cs| == |s| && forall i | 0 <= i < |s| :: cs[i] == CardOf(adds, s[i])
  {
    seq(|s|, i requires 0 <= i < |s| => CardOf(adds, s[i]))
  }

  /** The calls with a subject, in order. */
  function NonBlank(adds: seq<Art>): (s: seq<nat>)
    ensures Within(s, |adds|) && Rising(s)
    ensures forall t: nat :: t in s <==> t < |adds| && adds[t].subject != ""
  {
    if adds == [] then []
    else
      var n := |adds| - 1;
      var s := NonBlank(adds[..n]);
      assert forall i | 0 <= i < |s| :: s[i] in s;
      if adds[n].subject == "" then s else s + [n]
  }

  /** Every id is shown once; it may have been seen blank any number of times before. */
  predicate Once(adds: seq<Art>) {
    forall i, j | 0 <= i < j < |adds| && adds[i].subject != "" && adds[j].subject != "" :: adds[i].id != adds[j].id
  }

  lemma {:induction false} NotEarly(adds: seq<Art>, T: Table, a: Art)
    requires DisplayedOk(adds, T) && Once(adds + [a]) && a.subject != ""
    ensures !Early(T, a)
  {
    var adds' := adds + [a];
    forall t | 0 <= t < |adds| ensures adds[t].subject != "" ==> adds[t].id != a.id {
      assert adds'[t] == adds[t] && adds'[|adds|] == a;
    }
  }

  lemma {:induction false} OncePrefix(adds: seq<Art>, n: nat)
    requires Once(adds) && n <= |adds|
    ensures Once(adds[..n])
  {
  }

  lemma {:induction false} EveryCallShows(adds: seq<Art>, ts: seq<Table>)
    requires Fixed(adds) && Run(adds, ts) && Once(adds)
    ensures Shown(adds, ts) == NonBlank(adds)
  {
    hide Key, FileNumber, Fixed, Add, WellFormed, Early, Once, CacheOk, Settled, DisplayedOk, ShownOk, Partitioned;
    if adds != [] {
      var n := |adds| - 1;
      FixedPrefix(adds, n);
      RunPrefix(adds, ts, n);
      OncePrefix(adds, n);
      RunInvariant(adds[..n], ts[..n + 1]);
      EveryCallShows(adds[..n], ts[..n + 1]);
      assert adds == adds[..n] + [adds[n]];
      assert ts[..n + 1][n] == ts[n];
      if adds[n].subject != "" {
        NotEarly(adds[..n], ts[n], adds[n]);
      }
    }
  }

  lemma {:induction false} SameRowIsSameLabel(adds: seq<Art>, s: nat, t: nat)
    requires Once(adds) && s < |adds| && t < |adds| && adds[s].subject != "" && adds[t].subject != ""
    ensures SameRow(adds, s, t) <==> LabelOf(CardOf(adds, s)) == LabelOf(CardOf(adds, t))
  {
    hide Key, FileNumber;
    assert s < t || s == t || t < s;
  }

  function Select(cs: seq<Card>, l: Label): seq<Card> {
    if cs == [] then []
    else Select(cs[..|cs| - 1], l) + (if LabelOf(cs[|cs| - 1]) == l then [cs[|cs| - 1]] else [])
  }

  lemma {:induction false} CardsOfMore(adds: seq<Art>, shown: seq<nat>, t: nat)
    requires Within(shown, |adds|) && t < |adds|
    ensures Cards(adds, shown + [t]) == Cards(adds, shown) + [CardOf(adds, t)]
  {
  }

  lemma {:induction false} ClassIsSelection(adds: seq<Art>, shown: seq<nat>, r: nat)
    requires Once(adds) && ShownOk(adds, shown) && r < |adds| && adds[r].subject != ""
    ensures Within(ClassOf(adds, shown, r), |adds|)
    ensures Cards(adds, ClassOf(adds, shown, r)) == Select(Cards(adds, shown), LabelOf(CardOf(adds, r)))
  {
    if shown != [] {
      var n := |shown| - 1;
      SameRowIsSameLabel(adds, shown[n], r);
      hide Key, FileNumber, SameRow, LabelOf, Once;
      ClassIsSelection(adds, shown[..n], r);
      CardsOfMore(adds, ClassOf(adds, shown[..n], r), shown[n]);
      CardsOfMore(adds, shown[..n], shown[n]);
      hide Cards;
      assert shown[..n] + [shown[n]] == shown;
      var cs := Cards(adds, shown);
      assert cs[..n] == Cards(adds, shown[..n]) && cs[n] == CardOf(adds, shown[n]);
      assert ClassOf(adds, shown[..n], r) + [] == ClassOf(adds, shown[..n], r);
    }
  }

  lemma {:induction false} SelectCounts(cs: seq<Card>, l: Label, c: Card)
    ensures multiset(Select(cs, l))[c] == if LabelOf(c) == l then multiset(cs)[c] else 0
  {
    hide LabelOf;
    if cs != [] {
      var n := |cs| - 1;
      SelectCounts(cs[..n], l, c);
      assert cs == cs[..n] + [cs[n]];
      assert multiset(cs) == multiset(cs[..n]) + multiset{cs[n]};
      if LabelOf(cs[n]) == l {
        assert Select(cs, l) == Select(cs[..n], l) + [cs[n]];
        assert multiset(Select(cs, l)) == multiset(Select(cs[..n], l)) + multiset{cs[n]};
      } else {
        assert Select(cs, l) == Select(cs[..n], l);
      }
    }
  }

  lemma {:induction false} SelectPermutes(a: seq<Card>, b: seq<Card>, l: Label)
    requires multiset(a) == multiset(b)
    ensures multiset(Select(a, l)) == multiset(Select(b, l))
  {
    forall c ensures multiset(Select(a, l))[c] == multiset(Select(b, l))[c] {
      SelectCounts(a, l, c);
      SelectCounts(b, l, c);
    }
  }

  lemma {:induction false} CardsConcat(adds: seq<Art>, s: seq<nat>, t: seq<nat>)
    requires Within(s + t, |adds|) && Within(s, |adds|) && Within(t, |adds|)
    ensures Cards(adds, s + t) == Cards(adds, s) + Cards(adds, t)
  {
  }

  /** Takes one occurrence of `x` out of a sequence. */
  lemma {:induction false} TakeOut(s: seq<nat>, x: nat) returns (before: seq<nat>, after: seq<nat>)
    requires x in s
    ensures s == before + [x] + after
    ensures multiset(before + after) == multiset(s) - multiset{x}
  {
    var i :| 0 <= i < |s| && s[i] == x;
    before, after := s[..i], s[i+1..];
    assert s == before + [x] + after;
  }

  lemma {:induction false} CardsPermute(adds: seq<Art>, s: seq<nat>, s': seq<nat>)
    requires multiset(s) == multiset(s') && Within(s, |adds|) && Within(s', |adds|)
    ensures multiset(Cards(adds, s)) == multiset(Cards(adds, s'))
  {
    if s == [] {
      assert |s'| == |multiset(s')| == 0;
    } else {
      var n := |s| - 1;
      var x := s[n];
      assert s == s[..n] + [x] + [];
      assert s[..n] + [] == s[..n];
      assert x in multiset(s');
      var before, after := TakeOut(s', x);
      assert multiset(s[..n]) == multiset(s) - multiset{x};
      StillWithin(s', before, x, after, |adds|);
      hide Cards;
      CardsPermute(adds, s[..n], before + after);
      CardsSplit(adds, s', before, x, after);
      CardsSplit(adds, s, s[..n], x, []);
    }
  }

  lemma {:induction false} StillWithin(s: seq<nat>, before: seq<nat>, x: nat, after: seq<nat>, n: nat)
    requires s == before + [x] + after && Within(s, n)
    ensures Within(before + after, n)
  {
    forall i | 0 <= i < |before + after| ensures (before + after)[i] < n {
      assert (before + after)[i] == if i < |before| then s[i] else s[i + 1];
    }
  }

  lemma {:induction false} CardsSplit(adds: seq<Art>, s: seq<nat>, before: seq<nat>, x: nat, after: seq<nat>)
    requires s == before + [x] + after && Within(s, |adds|) && Within(before + after, |adds|) && x < |adds|
    ensures multiset(Cards(adds, s)) == multiset(Cards(adds, before + after)) + multiset{CardOf(adds, x)}
  {
    forall i | 0 <= i < |before| ensures before[i] < |adds| { assert s[i] == before[i]; }
    forall i | 0 <= i < |after| ensures after[i] < |adds| { assert s[i + |before| + 1] == after[i]; }
    CardsConcat(adds, before, after);
    CardsConcat(adds, before, [x]);
    CardsConcat(adds, before + [x], after);
    assert Cards(adds, [x]) == [CardOf(adds, x)];
  }

  predicate NumberSorted(cs: seq<Card>) {
    forall i, j | 0 <= i < j < |cs| :: FileNumber(cs[i].subject) <= FileNumber(cs[j].subject)
  }

  predicate NumbersDiffer(cs: seq<Card>) {
    forall i, j | 0 <= i < j < |cs| :: FileNumber(cs[i].subject) != FileNumber(cs[j].subject)
  }

  /** With distinct numbers there is only one sorted order. */
  lemma {:induction false} SortedIsUnique(a: seq<Card>, b: seq<Card>)
    requires multiset(a) == multiset(b) && NumberSorted(a) && NumberSorted(b) && NumbersDiffer(a)
    ensures a == b
  {
    hide FileNumber;
    assert |a| == |multiset(a)| == |multiset(b)| == |b|;
    if a != [] {
      SameLeast(a, b);
      assert a == [a[0]] + a[1..] && b == [b[0]] + b[1..];
      assert multiset(a[1..]) == multiset(a) - multiset{a[0]};
      assert multiset(b[1..]) == multiset(b) - multiset{b[0]};
      TailSorted(a);
      TailSorted(b);
      SortedIsUnique(a[1..], b[1..]);
    }
  }

  lemma {:induction false} TailSorted(a: seq<Card>)
    requires a != [] && NumberSorted(a)
    ensures NumberSorted(a[1..]) && (NumbersDiffer(a) ==> NumbersDiffer(a[1..]))
  {
  }

  lemma {:induction false} SameLeast(a: seq<Card>, b: seq<Card>)
    requires multiset(a) == multiset(b) && NumberSorted(a) && NumberSorted(b) && NumbersDiffer(a)
    requires a != [] && b != []
    ensures a[0] == b[0]
  {
    hide FileNumber;
    assert a[0] in multiset(b) && b[0] in multiset(a);
    var i :| 0 <= i < |b| && b[i] == a[0];
    var j :| 0 <= j < |a| && a[j] == b[0];
    assert FileNumber(b[0].subject) <= FileNumber(b[i].subject);
    assert FileNumber(a[0].subject) <= FileNumber(a[j].subject);
  }

  // ----- groupings of cards -----

  datatype RowView = RowView(title: Label, children: seq<Card>)

  ghost predicate HasCard(cs: seq<Card>, l: Label) {
    exists c | c in cs :: LabelOf(c) == l
  }

  ghost predicate HasRow(rows: seq<RowView>, l: Label) {
    exists i | 0 <= i < |rows| :: rows[i].title == l
  }

  /** `rows` groups `cs`: one row for every label that occurs, holding, sorted by number,
      exactly the cards with that label. */
  ghost predicate Groups(cs: seq<Card>, rows: seq<RowView>) {
    && (forall i, j | 0 <= i < j < |rows| :: rows[i].title != rows[j].title)
    && (forall i | 0 <= i < |rows| :: HasCard(cs, rows[i].title))
    && (forall c | c in cs :: HasRow(rows, LabelOf(c)))
    && (forall i | 0 <= i < |rows| :: NumberSorted(rows[i].children)
          && multiset(rows[i].children) == multiset(Select(cs, rows[i].title)))
  }

  /** Equal up to the order of children whose numbers are equal. */
  ghost predicate SameView(r: RowView, r': RowView) {
    && r.title == r'.title
    && multiset(r.children) == multiset(r'.children)
    && (NumbersDiffer(r.children) ==> r.children == r'.children)
  }

  ghost predicate ShownIn(r: RowView, rows: seq<RowView>) {
    exists k | 0 <= k < |rows| :: SameView(r, rows[k])
  }

  lemma {:induction false} InBoth(cs: seq<Card>, cs': seq<Card>, c: Card)
    requires multiset(cs) == multiset(cs') && c in cs
    ensures c in cs'
  {
    assert c in multiset(cs);
    assert multiset(cs')[c] > 0;
  }

  lemma {:induction false} MatchingRow(cs: seq<Card>, rows: seq<RowView>, cs': seq<Card>, rows': seq<RowView>, i: nat)
    returns (k: nat)
    requires Groups(cs, rows) && Groups(cs', rows') && multiset(cs) == multiset(cs') && i < |rows|
    ensures k < |rows'| && SameView(rows[i], rows'[k])
  {
    hide Key, FileNumber;
    assert HasCard(cs, rows[i].title);
    var c :| c in cs && LabelOf(c) == rows[i].title;
    InBoth(cs, cs', c);
    assert HasRow(rows', LabelOf(c));
    k :| 0 <= k < |rows'| && rows'[k].title == LabelOf(c);
    SelectPermutes(cs, cs', rows[i].title);
    if NumbersDiffer(rows[i].children) {
      SortedIsUnique(rows[i].children, rows'[k].children);
    }
  }

  /** A sequence without repetition fits in any sequence that has all its members. */
  lemma {:induction false} NoRepeatFits<X>(a: seq<X>, b: seq<X>)
    requires forall i, j | 0 <= i < j < |a| :: a[i] != a[j]
    requires forall i | 0 <= i < |a| :: a[i] in b
    ensures |a| <= |b|
  {
    if a != [] {
      var n := |a| - 1;
      var k :| 0 <= k < |b| && b[k] == a[n];
      var rest := b[..k] + b[k+1..];
      forall i | 0 <= i < n ensures a[..n][i] in rest {
        assert a[i] != b[k];
        var m :| 0 <= m < |b| && b[m] == a[i];
        if m < k { assert rest[m] == a[i]; } else { assert rest[m - 1] == a[i]; }
      }
      NoRepeatFits(a[..n], rest);
    }
  }

  function RowLabels(rows: seq<RowView>): (ls: seq<Label>)
    ensures |ls| == |rows| && forall i | 0 <= i < |rows| :: ls[i] == rows[i].title
  {
    seq(|rows|, i requires 0 <= i < |rows| => rows[i].title)
  }

  lemma {:induction false} NotMoreRows(cs: seq<Card>, rows: seq<RowView>, cs': seq<Card>, rows': seq<RowView>)
    requires Groups(cs, rows) && Groups(cs', rows') && multiset(cs) == multiset(cs')
    ensures |rows| <= |rows'|
  {
    hide Key, FileNumber;
    var a, b := RowLabels(rows), RowLabels(rows');
    forall i | 0 <= i < |a| ensures a[i] in b {
      var k := MatchingRow(cs, rows, cs', rows', i);
      assert b[k] == a[i];
    }
    NoRepeatFits(a, b);
  }

  /** A grouping is determined by its cards, up to the order of rows. */
  lemma {:induction false} SameGroups(cs: seq<Card>, rows: seq<RowView>, cs': seq<Card>, rows': seq<RowView>)
    requires Groups(cs, rows) && Groups(cs', rows') && multiset(cs) == multiset(cs')
    ensures |rows| == |rows'|
    ensures forall i | 0 <= i < |rows| :: ShownIn(rows[i], rows')
    ensures forall k | 0 <= k < |rows'| :: ShownIn(rows'[k], rows)
  {
    hide Key, FileNumber, Groups, NumbersDiffer;
    NotMoreRows(cs, rows, cs', rows');
    NotMoreRows(cs', rows', cs, rows);
    forall i | 0 <= i < |rows| ensures ShownIn(rows[i], rows') {
      var k := MatchingRow(cs, rows, cs', rows', i);
      assert SameView(rows[i], rows'[k]);
    }
    forall k | 0 <= k < |rows'| ensures ShownIn(rows'[k], rows) {
      var i := MatchingRow(cs', rows', cs, rows, k);
      assert SameView(rows'[k], rows[i]);
    }
  }

  // ----- the index is the grouping of what was shown -----

  ghost predicate GoodRun(adds: seq<Art>, ts: seq<Table>) {
    Fixed(adds) && Run(adds, ts) && Once(adds)
  }

  ghost predicate Viewable(adds: seq<Art>, T: Table) {
    && Within(T.rows, |adds|)
    && forall i | 0 <= i < |T.rows| :: T.rows[i] in T.kids && Within(T.kids[T.rows[i]], |adds|)
  }

  /** The rows as the outline shows them. */
  ghost function View(adds: seq<Art>, T: Table): (rows: seq<RowView>)
    requires Viewable(adds, T)
    ensures |rows| == |T.rows|
    ensures forall i | 0 <= i < |rows| ::
              rows[i] == RowView(LabelOf(CardOf(adds, T.rows[i])), Cards(adds, T.kids[T.rows[i]]))
  {
    seq(|T.rows|, i requires 0 <= i < |T.rows| =>
      RowView(LabelOf(CardOf(adds, T.rows[i])), Cards(adds, T.kids[T.rows[i]])))
  }

  /** Each row shows, sorted, exactly the articles with its label. */
  lemma {:induction false} RowContents(adds: seq<Art>, ts: seq<Table>, r: nat)
    requires GoodRun(adds, ts) && r in ts[|adds|].rows
    ensures var T := ts[|adds|];
            && r < |adds| && r in T.kids && Within(T.kids[r], |adds|) && adds[r].subject != ""
            && NumberSorted(Cards(adds, T.kids[r]))
            && multiset(Cards(adds, T.kids[r]))
            == multiset(Select(Cards(adds, NonBlank(adds)), LabelOf(CardOf(adds, r))))
  {
    hide Key, FileNumber;
    RunInvariant(adds, ts);
    EveryCallShows(adds, ts);
    RowsAreClasses(adds, ts, r);
    var T, shown := ts[|adds|], NonBlank(adds);
    RowsBelow(adds, shown, T);
    ClassIsSelection(adds, shown, r);
    CardsPermute(adds, T.kids[r], ClassOf(adds, shown, r));
  }

  lemma {:induction false} RowsDiffer(adds: seq<Art>, shown: seq<nat>, rows: seq<nat>, i: nat, j: nat)
    requires Once(adds) && ShownOk(adds, shown) && rows == Firsts(adds, shown)
    requires i < j < |rows| && Within(rows, |adds|)
    ensures LabelOf(CardOf(adds, rows[i])) != LabelOf(CardOf(adds, rows[j]))
  {
    hide Key, FileNumber;
    FirstsRising(adds, shown);
    FirstsAreShown(adds, shown);
    assert rows[i] in rows && rows[j] in rows;
    SameRowIsSameLabel(adds, rows[i], rows[j]);
    if SameRow(adds, rows[i], rows[j]) {
      FirstsDistinct(adds, shown, rows[i], rows[j]);
    }
  }

  lemma {:induction false} RowForCard(adds: seq<Art>, shown: seq<nat>, i: nat) returns (k: nat)
    requires Once(adds) && ShownOk(adds, shown) && i < |shown|
    ensures Within(Firsts(adds, shown), |adds|) && k < |Firsts(adds, shown)|
    ensures LabelOf(CardOf(adds, Firsts(adds, shown)[k])) == LabelOf(CardOf(adds, shown[i]))
  {
    hide Key, FileNumber;
    var r := RowOf(adds, shown, shown[i]);
    FirstsAreShown(adds, shown);
    k :| 0 <= k < |Firsts(adds, shown)| && Firsts(adds, shown)[k] == r;
    SameRowIsSameLabel(adds, shown[i], r);
  }

  lemma {:induction false} RunViewable(adds: seq<Art>, ts: seq<Table>)
    requires GoodRun(adds, ts)
    ensures Viewable(adds, ts[|adds|])
  {
    hide Key, FileNumber, Fixed, Add, Once;
    var T := ts[|adds|];
    forall i | 0 <= i < |T.rows|
      ensures T.rows[i] < |adds| && T.rows[i] in T.kids && Within(T.kids[T.rows[i]], |adds|)
    {
      RowContents(adds, ts, T.rows[i]);
    }
  }

  lemma {:induction false} ViewedRow(adds: seq<Art>, ts: seq<Table>, i: nat)
    requires GoodRun(adds, ts) && Viewable(adds, ts[|adds|]) && i < |ts[|adds|].rows|
    ensures var row, cs := View(adds, ts[|adds|])[i], Cards(adds, NonBlank(adds));
            && HasCard(cs, row.title)
            && NumberSorted(row.children)
            && multiset(row.children) == multiset(Select(cs, row.title))
  {
    hide Key, FileNumber, Fixed, Add, Once;
    var r, shown := ts[|adds|].rows[i], NonBlank(adds);
    RowContents(adds, ts, r);
    var k :| 0 <= k < |shown| && shown[k] == r;
    assert Cards(adds, shown)[k] in Cards(adds, shown);
  }

  lemma {:induction false} GoodRows(adds: seq<Art>, ts: seq<Table>)
    requires GoodRun(adds, ts)
    ensures ShownOk(adds, NonBlank(adds)) && ts[|adds|].rows == Firsts(adds, NonBlank(adds))
  {
    RunInvariant(adds, ts);
    EveryCallShows(adds, ts);
  }

  /** After every good run the rows group the articles shown: one row for each stripped subject
      and one for each article without exactly one counter. */
  lemma {:induction false} RunGroups(adds: seq<Art>, ts: seq<Table>)
    requires GoodRun(adds, ts)
    ensures Viewable(adds, ts[|adds|])
    ensures Groups(Cards(adds, NonBlank(adds)), View(adds, ts[|adds|]))
  {
    assert |ts| == |adds| + 1;
    RunViewable(adds, ts);
    GoodRows(adds, ts);
    hide Key, FileNumber, Run, Fixed, Once, NonBlank, NumberSorted, ShownOk, Firsts, ClassOf, Select, Cards, LabelOf;
    var T, shown := ts[|adds|], NonBlank(adds);
    var cs, rows := Cards(adds, shown), View(adds, T);
    forall i | 0 <= i < |rows|
      ensures HasCard(cs, rows[i].title)
      ensures NumberSorted(rows[i].children)
      ensures multiset(rows[i].children) == multiset(Select(cs, rows[i].title))
    {
      ViewedRow(adds, ts, i);
    }
    forall i, j | 0 <= i < j < |rows| ensures rows[i].title != rows[j].title {
      RowsDiffer(adds, shown, T.rows, i, j);
    }
    forall c | c in cs ensures HasRow(rows, LabelOf(c)) {
      CardHasRow(adds, T, shown, c);
    }
  }

  lemma {:induction false} CardHasRow(adds: seq<Art>, T: Table, shown: seq<nat>, c: Card)
    requires Viewable(adds, T) && Once(adds) && ShownOk(adds, shown) && T.rows == Firsts(adds, shown)
    requires c in Cards(adds, shown)
    ensures HasRow(View(adds, T), LabelOf(c))
  {
    hide Key, FileNumber, Once, NumberSorted, Firsts, LabelOf;
    var cs := Cards(adds, shown);
    var i :| 0 <= i < |cs| && cs[i] == c;
    var k := RowForCard(adds, shown, i);
    assert View(adds, T)[k].title == LabelOf(c);
  }

  /** Order independence: two runs that show the same articles, in whatever order and after
      whatever blank calls, end with equally many rows, and every row of one has a row of the
      other with the same label and the same children, in the same order whenever their file
      numbers differ. */
  lemma {:induction false} OrderIndependence(adds: seq<Art>, ts: seq<Table>, adds': seq<Art>, ts': seq<Table>)
    requires GoodRun(adds, ts) && GoodRun(adds', ts')
    requires multiset(Cards(adds, NonBlank(adds))) == multiset(Cards(adds', NonBlank(adds')))
    ensures Viewable(adds, ts[|adds|]) && Viewable(adds', ts'[|adds'|])
    ensures var rows, rows' := View(adds, ts[|adds|]), View(adds', ts'[|adds'|]);
            && |rows| == |rows'|
            && (forall i | 0 <= i < |rows| :: ShownIn(rows[i], rows'))
            && (forall k | 0 <= k < |rows'| :: ShownIn(rows'[k], rows))
  {
    RunGroups(adds, ts);
    RunGroups(adds', ts');
    SameGroups(Cards(adds, NonBlank(adds)), View(adds, ts[|adds|]),
               Cards(adds', NonBlank(adds')), View(adds', ts'[|adds'|]));
  }
}
