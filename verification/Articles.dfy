/** The grouping index as a state machine. Objects are named by arrival: the article handed to
    the t-th call of `addArticle` is article t, and an outline made by that call is outline t,
    whose `article` is article t for good. */
module Articles {
  import opened Wrappers
  import opened Counters

  datatype Art = Art(id: string, subject: string, contentType: string)

  /** `cache` and `rows` name outlines; `kids` gives the children of every outline made. */
  datatype Table = Table(arts: seq<Art>, cache: map<string, nat>, displayed: set<string>,
                         rows: seq<nat>, kids: map<nat, seq<nat>>)

  const EMPTY := Table([], map[], {}, [], map[])

  predicate Within(s: seq<nat>, n: nat) {
    forall i | 0 <= i < |s| :: s[i] < n
  }

  ghost predicate WellFormed(T: Table) {
    && (forall c | c in T.cache :: T.cache[c] in T.kids)
    && (forall v | v in T.kids :: v < |T.arts| && Within(T.kids[v], |T.arts|))
  }

  /** The cached outline of the same id takes over the new subject and content type. */
  function Arrive(T: Table, a: Art): Table
    requires a.id in T.cache ==> T.cache[a.id] < |T.arts|
  {
    var arts := T.arts + [a];
    if a.id in T.cache then
      var v := T.cache[a.id];
      T.(arts := arts[v := arts[v].(subject := a.subject, contentType := a.contentType)])
    else T.(arts := arts)
  }

  /** The call that returns before it adds anything. */
  predicate Early(T: Table, a: Art) {
    a.id in T.cache && a.id in T.displayed
  }

  ghost predicate SortedBy(arts: seq<Art>, s: seq<nat>)
    requires Within(s, |arts|)
  {
    forall i, j | 0 <= i < j < |s| :: FileNumber(arts[s[i]].subject) <= FileNumber(arts[s[j]].subject)
  }

  /** Children sorted by file number; any sort will do, stable or not. */
  ghost predicate Sorts(arts: seq<Art>, s: seq<nat>, s': seq<nat>)
    requires Within(s, |arts|)
  {
    multiset(s') == multiset(s) && Within(s', |arts|) && SortedBy(arts, s')
  }

  function NewRow(T: Table, a: Art, t: nat): Table {
    T.(cache := T.cache[a.id := t], kids := T.kids[t := [t]], rows := T.rows + [t])
  }

  /** Article t, with a subject, is put into a row. */
  ghost predicate Show(T1: Table, a: Art, t: nat, T': Table)
    requires t == |T1.arts| - 1
  {
    var T2 := T1.(displayed := T1.displayed + {a.id});
    match Key(a.subject)
    case None => T' == NewRow(T2, a, t)
    case Some(k) =>
      if k in T2.cache then
        var v := T2.cache[k];
        && v in T2.kids && v in T'.kids
        && Within(T2.kids[v], |T2.arts|)
        && Sorts(T2.arts, T2.kids[v] + [t], T'.kids[v])
        && T' == T2.(kids := T2.kids[v := T'.kids[v]])
      else
        var T3 := NewRow(T2, a, t);
        T' == T3.(cache := T3.cache[k := t])
  }

  /** One call of `addArticle`. */
  ghost predicate Add(T: Table, a: Art, T': Table)
    requires WellFormed(T)
  {
    var t := |T.arts|;
    var T1 := Arrive(T, a);
    if Early(T, a) then T' == T1
    else if a.subject == "" then T' == T1.(cache := T1.cache[a.id := t], kids := T1.kids[t := [t]])
    else Show(T1, a, t, T')
  }

  lemma {:induction false} AddKeepsWellFormed(T: Table, a: Art, T': Table)
    requires WellFormed(T) && Add(T, a, T')
    ensures WellFormed(T') && |T'.arts| == |T.arts| + 1
    // rows are never removed or reordered
    ensures T.rows <= T'.rows
  {
  }

  // ----- runs -----

  ghost predicate Run(adds: seq<Art>, ts: seq<Table>) {
    && |ts| == |adds| + 1
    && ts[0] == EMPTY
    && (forall i | 0 <= i < |ts| :: WellFormed(ts[i]))
    && (forall i | 0 <= i < |adds| :: Add(ts[i], adds[i], ts[i+1]))
  }

  /** The hypotheses on the calls: dictionary keys and ids do not collide, and the subject of
      an id does not change once it is there. */
  ghost predicate Fixed(adds: seq<Art>) {
    && (forall i, j | 0 <= i < |adds| && 0 <= j < |adds| :: Key(adds[i].subject) != Some(adds[j].id))
    && (forall i, j | 0 <= i < j < |adds| && adds[i].id == adds[j].id && adds[i].subject != "" ::
          adds[j].subject == adds[i].subject)
  }

  /** The calls that put a child somewhere: neither blank nor returned early. */
  function Shown(adds: seq<Art>, ts: seq<Table>): seq<nat>
    requires |ts| == |adds| + 1
  {
    if adds == [] then []
    else
      var n := |adds| - 1;
      Shown(adds[..n], ts[..n + 1])
      + (if adds[n].subject == "" || Early(ts[n], adds[n]) then [] else [n])
  }

  /** Two calls belong to one row when their subjects have the same key. */
  predicate SameRow(adds: seq<Art>, s: nat, t: nat)
  {
    && s < |adds| && t < |adds|
    && (s == t || (Key(adds[s].subject).Some? && Key(adds[s].subject) == Key(adds[t].subject)))
  }

  /** The simple partition: first of every class, in order of appearance ... */
  function Firsts(adds: seq<Art>, shown: seq<nat>): seq<nat>
    requires Within(shown, |adds|)
  {
    if shown == [] then []
    else
      var n := |shown| - 1;
      var t := shown[n];
      Firsts(adds, shown[..n])
      + (if exists s | s in shown[..n] :: SameRow(adds, s, t) then [] else [t])
  }

  /** ... and the members of the class of `r`. */
  function ClassOf(adds: seq<Art>, shown: seq<nat>, r: nat): seq<nat>
    requires r < |adds| && Within(shown, |adds|)
  {
    if shown == [] then []
    else
      var n := |shown| - 1;
      ClassOf(adds, shown[..n], r) + (if SameRow(adds, shown[n], r) then [shown[n]] else [])
  }

  // ----- the invariant -----

  ghost predicate IsId(adds: seq<Art>, c: string) {
    exists t | 0 <= t < |adds| :: adds[t].id == c
  }

  ghost predicate Settled(adds: seq<Art>, arts: seq<Art>) {
    && |arts| == |adds|
    && (forall t | 0 <= t < |adds| :: arts[t].id == adds[t].id
          && (adds[t].subject != "" ==> arts[t].subject == adds[t].subject))
  }

  /** An id is cached exactly when a blank call or a row has it. */
  ghost predicate Remembered(adds: seq<Art>, rows: seq<nat>, id: string) {
    exists s | 0 <= s < |adds| :: adds[s].id == id && (adds[s].subject == "" || s in rows)
  }

  ghost predicate CacheOk(adds: seq<Art>, T: Table) {
    && (forall c | c in T.cache && IsId(adds, c) :: T.cache[c] < |adds| && adds[T.cache[c]].id == c)
    && (forall c | c in T.cache && !IsId(adds, c) ::
          T.cache[c] in T.rows && T.cache[c] < |adds| && Key(adds[T.cache[c]].subject) == Some(c))
    && (forall t | 0 <= t < |adds| && Key(adds[t].subject).Some? :: Key(adds[t].subject).value in T.cache)
    && (forall t | 0 <= t < |adds| :: adds[t].id in T.cache <==> Remembered(adds, T.rows, adds[t].id))
  }

  ghost predicate DisplayedOk(adds: seq<Art>, T: Table) {
    forall x :: x in T.displayed <==> exists t | 0 <= t < |adds| :: adds[t].id == x && adds[t].subject != ""
  }

  ghost predicate ShownOk(adds: seq<Art>, shown: seq<nat>) {
    && Within(shown, |adds|)
    && (forall i | 0 <= i < |shown| :: adds[shown[i]].subject != "")
    && (forall i, j | 0 <= i < j < |shown| :: shown[i] < shown[j])
  }

  /** The index is the simple partition of the shown calls. */
  ghost predicate Partitioned(adds: seq<Art>, shown: seq<nat>, T: Table)
    requires ShownOk(adds, shown) && Settled(adds, T.arts)
  {
    T.rows == Firsts(adds, shown) && forall r | r in T.rows :: RowOk(adds, shown, T, r)
  }

  /** The children of a row are its class, sorted. */
  ghost predicate RowOk(adds: seq<Art>, shown: seq<nat>, T: Table, r: nat)
    requires Within(shown, |adds|)
  {
    && r in T.kids && r < |adds|
    && multiset(T.kids[r]) == multiset(ClassOf(adds, shown, r))
    && Within(T.kids[r], |T.arts|)
    && SortedBy(T.arts, T.kids[r])
  }

  ghost predicate Inv(adds: seq<Art>, shown: seq<nat>, T: Table) {
    && WellFormed(T) && Settled(adds, T.arts) && CacheOk(adds, T) && DisplayedOk(adds, T)
    && ShownOk(adds, shown) && Partitioned(adds, shown, T)
  }

  // ----- the partition grows by one call -----

  lemma {:induction false} FirstsAreShown(adds: seq<Art>, shown: seq<nat>)
    requires Within(shown, |adds|)
    ensures forall r | r in Firsts(adds, shown) :: r in shown
    ensures Within(Firsts(adds, shown), |adds|)
  {
    if shown != [] {
      FirstsAreShown(adds, shown[..|shown| - 1]);
    }
  }

  /** Every shown call has its row. */
  lemma {:induction false} RowOf(adds: seq<Art>, shown: seq<nat>, s: nat) returns (r: nat)
    requires Within(shown, |adds|) && s in shown
    ensures r in Firsts(adds, shown) && SameRow(adds, s, r)
  {
    hide Key;
    var n := |shown| - 1;
    var t := shown[n];
    if s in shown[..n] {
      r := RowOf(adds, shown[..n], s);
    } else if exists s' | s' in shown[..n] :: SameRow(adds, s', t) {
      var s' :| s' in shown[..n] && SameRow(adds, s', t);
      r := RowOf(adds, shown[..n], s');
    } else {
      r := t;
    }
  }

  lemma {:induction false} ClassMembers(adds: seq<Art>, shown: seq<nat>, r: nat)
    requires r < |adds| && Within(shown, |adds|)
    ensures forall c :: c in ClassOf(adds, shown, r) <==> c in shown && SameRow(adds, c, r)
  {
    if shown != [] {
      ClassMembers(adds, shown[..|shown| - 1], r);
    }
  }

  /** More calls do not change what earlier ones mean. */
  lemma {:induction false} PartitionStable(adds: seq<Art>, more: seq<Art>, shown: seq<nat>)
    requires Within(shown, |adds|)
    ensures Firsts(adds + more, shown) == Firsts(adds, shown)
    ensures forall r | 0 <= r < |adds| :: ClassOf(adds + more, shown, r) == ClassOf(adds, shown, r)
  {
    if shown != [] {
      PartitionStable(adds, more, shown[..|shown| - 1]);
      forall s, t | 0 <= s < |adds| && 0 <= t < |adds|
        ensures SameRow(adds + more, s, t) == SameRow(adds, s, t) {}
    }
  }

  lemma {:induction false} PartitionGrows(adds: seq<Art>, shown: seq<nat>, t: nat)
    requires t < |adds| && Within(shown, |adds|)
    ensures Firsts(adds, shown + [t])
         == Firsts(adds, shown) + (if exists s | s in shown :: SameRow(adds, s, t) then [] else [t])
    ensures forall r | 0 <= r < |adds| ::
              ClassOf(adds, shown + [t], r) == ClassOf(adds, shown, r) + (if SameRow(adds, t, r) then [t] else [])
  {
    assert (shown + [t])[..|shown|] == shown;
  }

  /** Two rows never belong to the same class. */
  lemma {:induction false} FirstsDistinct(adds: seq<Art>, shown: seq<nat>, r: nat, v: nat)
    requires Within(shown, |adds|)
    requires forall i, j | 0 <= i < j < |shown| :: shown[i] != shown[j]
    ensures r in Firsts(adds, shown) && v in Firsts(adds, shown) && SameRow(adds, r, v) ==> r == v
  {
    if shown != [] {
      var n := |shown| - 1;
      FirstsAreShown(adds, shown[..n]);
      FirstsDistinct(adds, shown[..n], r, v);
    }
  }

  // ----- the invariant is kept by every call -----

  lemma {:induction false} NoClash(adds: seq<Art>, a: Art)
    requires Fixed(adds + [a])
    ensures forall t | 0 <= t < |adds| :: Key(adds[t].subject) != Some(a.id) && Key(a.subject) != Some(adds[t].id)
    ensures Key(a.subject) != Some(a.id)
    ensures Key(a.subject).Some? ==> !IsId(adds, Key(a.subject).value)
  {
    hide Key, FileNumber;
    var adds' := adds + [a];
    assert adds'[|adds|] == a;
    forall t | 0 <= t < |adds| ensures adds'[t] == adds[t] {}
    assert Key(adds'[|adds|].subject) != Some(adds'[|adds|].id);
    forall t | 0 <= t < |adds|
      ensures Key(adds[t].subject) != Some(a.id) && Key(a.subject) != Some(adds[t].id)
    {
      assert Key(adds'[t].subject) != Some(adds'[|adds|].id);
      assert Key(adds'[|adds|].subject) != Some(adds'[t].id);
    }
  }

  lemma {:induction false} CachedIdIsOwn(adds: seq<Art>, T: Table, a: Art)
    requires Fixed(adds + [a]) && CacheOk(adds, T) && |T.arts| == |adds|
    ensures a.id in T.cache ==> IsId(adds, a.id) && T.cache[a.id] < |adds| && adds[T.cache[a.id]].id == a.id
  {
    NoClash(adds, a);
  }

  lemma {:induction false} SameSubject(adds: seq<Art>, a: Art, t: nat)
    requires Fixed(adds + [a]) && t < |adds| && adds[t].id == a.id && adds[t].subject != ""
    ensures a.subject == adds[t].subject
  {
    var adds' := adds + [a];
    assert adds'[t] == adds[t] && adds'[|adds|] == a;
  }

  lemma {:induction false} SettledStep(adds: seq<Art>, T: Table, a: Art)
    requires Fixed(adds + [a]) && CacheOk(adds, T) && Settled(adds, T.arts)
    ensures a.id in T.cache ==> T.cache[a.id] < |T.arts|
    ensures Settled(adds + [a], Arrive(T, a).arts)
  {
    CachedIdIsOwn(adds, T, a);
    if a.id in T.cache && adds[T.cache[a.id]].subject != "" {
      SameSubject(adds, a, T.cache[a.id]);
    }
  }

  /** Shown articles keep their subject, so sorted rows stay sorted. */
  lemma {:induction false} StillSorted(
      adds: seq<Art>, shown: seq<nat>, T: Table, arts: seq<Art>, more: seq<Art>, r: nat)
    requires ShownOk(adds, shown) && Settled(adds, T.arts) && Partitioned(adds, shown, T)
    requires Settled(adds + more, arts) && r in T.rows
    ensures Within(T.kids[r], |arts|) && SortedBy(arts, T.kids[r])
  {
    var s := T.kids[r];
    ClassMembers(adds, shown, r);
    forall i | 0 <= i < |s| ensures s[i] < |arts| && arts[s[i]].subject == T.arts[s[i]].subject {
      assert s[i] in multiset(s);
      assert s[i] in ClassOf(adds, shown, r);
      assert adds[s[i]].subject != "" && (adds + more)[s[i]] == adds[s[i]];
    }
  }

  lemma {:induction false} RowsBelow(adds: seq<Art>, shown: seq<nat>, T: Table)
    requires ShownOk(adds, shown) && Settled(adds, T.arts) && Partitioned(adds, shown, T)
    ensures forall r | r in T.rows :: r < |adds| && adds[r].subject != "" && r in shown && r in T.kids
  {
    FirstsAreShown(adds, shown);
  }

  lemma {:induction false} KeyOfNothing()
    ensures Key("").None?
  {
  }

  lemma {:induction false} EarlySubject(adds: seq<Art>, T: Table, a: Art)
    requires Fixed(adds + [a]) && DisplayedOk(adds, T) && CacheOk(adds, T) && a.id in T.displayed
    ensures a.subject != "" && (Key(a.subject).Some? ==> Key(a.subject).value in T.cache)
  {
    hide Key, FileNumber;
    var t :| 0 <= t < |adds| && adds[t].id == a.id && adds[t].subject != "";
    SameSubject(adds, a, t);
  }

  lemma {:induction false} EarlyStep(adds: seq<Art>, shown: seq<nat>, T: Table, a: Art, T': Table)
    requires Fixed(adds + [a]) && Inv(adds, shown, T) && Add(T, a, T') && Early(T, a)
    ensures Inv(adds + [a], shown, T')
  {
    hide Key, FileNumber, WellFormed, Fixed, CacheOk, DisplayedOk, Settled, ShownOk, Partitioned;
    AddKeepsWellFormed(T, a, T');
    SettledSize(adds, T);
    SettledStep(adds, T, a);
    RowsBelow(adds, shown, T);
    EarlySubject(adds, T, a);
    CacheKept(adds, T, T', a);
    assert T.displayed + {a.id} == T.displayed;
    DisplayedStep(adds, T, a, T');
    SamePartition(adds, shown, T, a, T');
  }

  lemma {:induction false} SettledSize(adds: seq<Art>, T: Table)
    requires Settled(adds, T.arts)
    ensures |T.arts| == |adds|
  {
  }

  lemma {:induction false} RememberedIsId(adds: seq<Art>, rows: seq<nat>, id: string)
    ensures Remembered(adds, rows, id) ==> IsId(adds, id)
  {
  }

  lemma {:induction false} OwnIdCached(adds: seq<Art>, T: Table, a: Art)
    requires Fixed(adds + [a]) && CacheOk(adds, T) && |T.arts| == |adds|
    ensures a.id in T.cache <==> Remembered(adds, T.rows, a.id)
  {
    hide Key, FileNumber;
    CachedIdIsOwn(adds, T, a);
    if IsId(adds, a.id) {
      var t :| 0 <= t < |adds| && adds[t].id == a.id;
    }
  }

  /** The cache clauses when the cache is left as it is. */
  lemma {:induction false} CacheKept(adds: seq<Art>, T: Table, T': Table, a: Art)
    requires Fixed(adds + [a]) && CacheOk(adds, T) && |T.arts| == |adds|
    requires T'.cache == T.cache && T'.rows == T.rows
    requires a.subject != "" && (Key(a.subject).Some? ==> Key(a.subject).value in T.cache)
    requires forall r | r in T.rows :: r < |adds|
    ensures CacheOk(adds + [a], T')
  {
    hide Key, FileNumber, IsId, Remembered;
    CachedIdIsOwn(adds, T, a);
    IdsGrow(adds, a, T.rows, T.rows);
    RememberedIsId(adds, T.rows, a.id);
    NoClash(adds, a);
    var adds' := adds + [a];
    forall t | 0 <= t < |adds'| ensures adds'[t].id in T.cache <==> Remembered(adds', T.rows, adds'[t].id) {
      if adds'[t].id == a.id {
        OwnIdCached(adds, T, a);
      } else {
        assert adds'[t] == adds[t];
      }
    }
  }

  /** Nothing shown: the rows are as they were. */
  lemma {:induction false} SamePartition(adds: seq<Art>, shown: seq<nat>, T: Table, a: Art, T': Table)
    requires ShownOk(adds, shown) && Settled(adds, T.arts) && Partitioned(adds, shown, T)
    requires T'.rows == T.rows && forall r | r in T.rows :: r in T'.kids && T'.kids[r] == T.kids[r]
    requires Settled(adds + [a], T'.arts)
    ensures ShownOk(adds + [a], shown) && Partitioned(adds + [a], shown, T')
  {
    PartitionStable(adds, [a], shown);
    forall r | r in T.rows ensures Within(T.kids[r], |T'.arts|) && SortedBy(T'.arts, T.kids[r]) {
      StillSorted(adds, shown, T, T'.arts, [a], r);
    }
  }

  /** How ids and remembered ids grow with one call. */
  lemma {:induction false} IdsGrow(adds: seq<Art>, a: Art, rows: seq<nat>, rows': seq<nat>)
    requires forall r | r in rows :: r < |adds|
    requires rows' == rows || rows' == rows + [|adds|]
    ensures forall c :: IsId(adds + [a], c) <==> IsId(adds, c) || c == a.id
    ensures forall c | c != a.id :: Remembered(adds + [a], rows', c) <==> Remembered(adds, rows, c)
    ensures Remembered(adds + [a], rows', a.id) <==>
              Remembered(adds, rows, a.id) || a.subject == "" || rows' != rows
  {
    var adds', n := adds + [a], |adds|;
    assert adds'[n] == a && forall t | 0 <= t < n :: adds'[t] == adds[t];
    assert forall r :: r in rows' <==> r in rows || (rows' != rows && r == n);
    forall c ensures IsId(adds', c) <==> IsId(adds, c) || c == a.id {
      if IsId(adds, c) {
        var t :| 0 <= t < n && adds[t].id == c;
        assert adds'[t].id == c;
      }
    }
    forall c ensures Remembered(adds, rows, c) ==> Remembered(adds', rows', c) {
      if Remembered(adds, rows, c) {
        var s :| 0 <= s < n && adds[s].id == c && (adds[s].subject == "" || s in rows);
        assert adds'[s].id == c && (adds'[s].subject == "" || s in rows');
      }
    }
    forall c ensures Remembered(adds', rows', c) ==>
                       Remembered(adds, rows, c) || (c == a.id && (a.subject == "" || rows' != rows))
    {
      if Remembered(adds', rows', c) {
        var s :| 0 <= s < |adds'| && adds'[s].id == c && (adds'[s].subject == "" || s in rows');
        if s < n { assert adds[s].id == c && (adds[s].subject == "" || s in rows); }
      }
    }
  }

  lemma {:induction false} BlankCache(adds: seq<Art>, T: Table, a: Art, T': Table)
    requires Fixed(adds + [a]) && CacheOk(adds, T) && |T.arts| == |adds|
    requires forall r | r in T.rows :: r < |adds|
    requires a.subject == "" && T'.rows == T.rows && T'.cache == T.cache[a.id := |adds|]
    ensures CacheOk(adds + [a], T')
  {
    KeyOfNothing();
    hide Key, FileNumber;
    NoClash(adds, a);
    IdsGrow(adds, a, T.rows, T.rows);
  }

  lemma {:induction false} BlankStep(adds: seq<Art>, shown: seq<nat>, T: Table, a: Art, T': Table)
    requires Fixed(adds + [a]) && Inv(adds, shown, T) && Add(T, a, T') && !Early(T, a) && a.subject == ""
    ensures Inv(adds + [a], shown, T')
  {
    hide Key, FileNumber, WellFormed, Fixed, CacheOk, DisplayedOk, Settled, ShownOk, Partitioned;
    SettledSize(adds, T);
    AddKeepsWellFormed(T, a, T');
    SettledStep(adds, T, a);
    RowsBelow(adds, shown, T);
    BlankCache(adds, T, a, T');
    DisplayedStep(adds, T, a, T');
    SamePartition(adds, shown, T, a, T');
  }

  lemma {:induction false} DisplayedStep(adds: seq<Art>, T: Table, a: Art, T': Table)
    requires DisplayedOk(adds, T)
    requires T'.displayed == T.displayed + (if a.subject == "" then {} else {a.id})
    ensures DisplayedOk(adds + [a], T')
  {
    var adds' := adds + [a];
    forall x ensures x in T'.displayed <==> exists t | 0 <= t < |adds'| :: adds'[t].id == x && adds'[t].subject != "" {
      if x in T.displayed {
        var t :| 0 <= t < |adds| && adds[t].id == x && adds[t].subject != "";
        assert adds'[t] == adds[t];
      }
      if x in T'.displayed && x !in T.displayed {
        assert adds'[|adds|] == a;
      }
      if exists t | 0 <= t < |adds'| :: adds'[t].id == x && adds'[t].subject != "" {
        var t :| 0 <= t < |adds'| && adds'[t].id == x && adds'[t].subject != "";
        if t < |adds| { assert adds[t].id == x && adds[t].subject != ""; }
      }
    }
  }

  /** A row whose class the new call does not belong to. */
  lemma {:induction false} RowUntouched(adds: seq<Art>, shown: seq<nat>, T: Table, arts: seq<Art>, a: Art, r: nat)
    requires ShownOk(adds, shown) && Settled(adds, T.arts) && Partitioned(adds, shown, T)
    requires Settled(adds + [a], arts) && r in T.rows && !SameRow(adds + [a], |adds|, r)
    ensures Within(T.kids[r], |arts|) && SortedBy(arts, T.kids[r])
    ensures multiset(T.kids[r]) == multiset(ClassOf(adds + [a], shown + [|adds|], r))
  {
    hide Key, FileNumber;
    StillSorted(adds, shown, T, arts, [a], r);
    PartitionStable(adds, [a], shown);
    PartitionGrows(adds + [a], shown, |adds|);
    var before := ClassOf(adds + [a], shown, r);
    assert before + [] == before;
  }

  lemma {:induction false} ShownGrows(adds: seq<Art>, shown: seq<nat>, a: Art)
    requires ShownOk(adds, shown) && a.subject != ""
    ensures ShownOk(adds + [a], shown + [|adds|])
  {
  }

  lemma {:induction false} EmptyClass(adds: seq<Art>, shown: seq<nat>, n: nat)
    requires n < |adds| && Within(shown, |adds|)
    requires forall s | s in shown :: !SameRow(adds, s, n)
    ensures ClassOf(adds, shown, n) == []
  {
    if shown != [] {
      assert shown[|shown| - 1] in shown;
      EmptyClass(adds, shown[..|shown| - 1], n);
    }
  }

  lemma {:induction false} NewRowClass(adds: seq<Art>, shown: seq<nat>, a: Art)
    requires Within(shown, |adds|) && forall s | s in shown :: !SameRow(adds + [a], s, |adds|)
    ensures Firsts(adds + [a], shown + [|adds|]) == Firsts(adds, shown) + [|adds|]
    ensures ClassOf(adds + [a], shown + [|adds|], |adds|) == [|adds|]
  {
    hide Key, ClassOf, Firsts;
    var adds', n := adds + [a], |adds|;
    PartitionStable(adds, [a], shown);
    PartitionGrows(adds', shown, n);
    EmptyClass(adds', shown, n);
    assert SameRow(adds', n, n);
    assert [] + [n] == [n];
  }

  /** A call that opens a row: its class had no member so far. */
  lemma {:induction false} NewRowPartition(adds: seq<Art>, shown: seq<nat>, T: Table, a: Art, T': Table)
    requires ShownOk(adds, shown) && Settled(adds, T.arts) && Partitioned(adds, shown, T)
    requires a.subject != "" && Settled(adds + [a], T'.arts)
    requires forall s | s in shown :: !SameRow(adds + [a], s, |adds|)
    requires T'.rows == T.rows + [|adds|] && T'.kids == T.kids[|adds| := [|adds|]]
    ensures ShownOk(adds + [a], shown + [|adds|]) && Partitioned(adds + [a], shown + [|adds|], T')
  {
    assert Within(shown, |adds|);
    hide Key, FileNumber, ClassOf, Firsts, SortedBy, SameRow, ShownOk, RowOk;
    var adds', n := adds + [a], |adds|;
    ShownGrows(adds, shown, a);
    NewRowClass(adds, shown, a);
    assert RowOk(adds', shown + [n], T', n) by { NewRowOk(adds', shown + [n], T', n); }
    RowsBelow(adds, shown, T);
    forall r | r in T.rows ensures RowOk(adds', shown + [n], T', r) {
      assert r in shown && !SameRow(adds', r, n);
      RowIsNoOther(adds', r, n);
      RowUntouched(adds, shown, T, T'.arts, a, r);
      OldRowOk(adds', shown + [n], T, T', r);
    }
  }

  lemma {:induction false} NewRowOk(adds: seq<Art>, shown: seq<nat>, T: Table, n: nat)
    requires Within(shown, |adds|) && n < |adds| && n < |T.arts|
    requires n in T.kids && T.kids[n] == [n] && ClassOf(adds, shown, n) == [n]
    ensures RowOk(adds, shown, T, n)
  {
  }

  lemma {:induction false} OldRowOk(adds: seq<Art>, shown: seq<nat>, T: Table, T': Table, r: nat)
    requires Within(shown, |adds|) && r < |adds| && r in T.kids && r in T'.kids && T'.kids[r] == T.kids[r]
    requires Within(T.kids[r], |T'.arts|) && SortedBy(T'.arts, T.kids[r])
    requires multiset(T.kids[r]) == multiset(ClassOf(adds, shown, r))
    ensures RowOk(adds, shown, T', r)
  {
  }

  lemma {:induction false} RowIsNoOther(adds: seq<Art>, s: nat, t: nat)
    requires s < |adds| && t < |adds| && !SameRow(adds, s, t)
    ensures !SameRow(adds, t, s)
  {
    hide Key;
  }

  lemma {:induction false} ClassIsNew(adds: seq<Art>, shown: seq<nat>, T: Table, a: Art)
    requires ShownOk(adds, shown) && CacheOk(adds, T)
    requires Key(a.subject).Some? ==> Key(a.subject).value !in T.cache
    ensures forall s | s in shown :: !SameRow(adds + [a], s, |adds|)
  {
    hide Key, FileNumber;
    forall s | s in shown ensures !SameRow(adds + [a], s, |adds|) {
      assert s < |adds| && (adds + [a])[s] == adds[s] && (adds + [a])[|adds|] == a;
    }
  }

  lemma {:induction false} NewRowStep(adds: seq<Art>, shown: seq<nat>, T: Table, a: Art, T': Table)
    requires Fixed(adds + [a]) && Inv(adds, shown, T) && Add(T, a, T') && !Early(T, a) && a.subject != ""
    requires Key(a.subject).Some? ==> Key(a.subject).value !in T.cache
    ensures Inv(adds + [a], shown + [|adds|], T')
  {
    hide Key, FileNumber, WellFormed, Fixed, CacheOk, DisplayedOk, Settled, ShownOk, Partitioned;
    SettledSize(adds, T);
    var adds', n := adds + [a], |adds|;
    AddKeepsWellFormed(T, a, T');
    SettledStep(adds, T, a);
    RowsBelow(adds, shown, T);
    IdsGrow(adds, a, T.rows, T'.rows);
    NoClash(adds, a);
    DisplayedStep(adds, T, a, T');
    ClassIsNew(adds, shown, T, a);
    NewRowPartition(adds, shown, T, a, T');
    NewRowCache(adds, T, a, T');
  }

  lemma {:induction false} NewRowCache(adds: seq<Art>, T: Table, a: Art, T': Table)
    requires Fixed(adds + [a]) && CacheOk(adds, T) && |T.arts| == |adds|
    requires forall r | r in T.rows :: r < |adds|
    requires Key(a.subject).Some? ==> Key(a.subject).value !in T.cache
    requires T'.rows == T.rows + [|adds|]
    requires T'.cache == (if Key(a.subject).Some? then T.cache[a.id := |adds|][Key(a.subject).value := |adds|]
                          else T.cache[a.id := |adds|])
    ensures CacheOk(adds + [a], T')
  {
    hide Key, FileNumber, IsId, Remembered;
    var adds', n := adds + [a], |adds|;
    NoClash(adds, a);
    IdsGrow(adds, a, T.rows, T'.rows);
    assert adds'[n] == a && forall t | 0 <= t < n :: adds'[t] == adds[t];
    forall t | 0 <= t < |adds'| ensures adds'[t].id in T'.cache <==> Remembered(adds', T'.rows, adds'[t].id) {
      if adds'[t].id != a.id {
        assert t < n && Key(a.subject) != Some(adds[t].id);
      }
    }
  }

  lemma {:induction false} CachedKeyIsRow(adds: seq<Art>, T: Table, a: Art)
    requires Fixed(adds + [a]) && CacheOk(adds, T)
    requires Key(a.subject).Some? && Key(a.subject).value in T.cache
    ensures var v := T.cache[Key(a.subject).value];
            v in T.rows && v < |adds| && Key(adds[v].subject) == Key(a.subject)
  {
    hide Key, FileNumber;
    NoClash(adds, a);
  }

  lemma {:induction false} AppendStep(adds: seq<Art>, shown: seq<nat>, T: Table, a: Art, T': Table)
    requires Fixed(adds + [a]) && Inv(adds, shown, T) && Add(T, a, T') && !Early(T, a) && a.subject != ""
    requires Key(a.subject).Some? && Key(a.subject).value in T.cache
    ensures Inv(adds + [a], shown + [|adds|], T')
  {
    hide Key, FileNumber, WellFormed, Fixed, CacheOk, DisplayedOk, Settled, ShownOk, Partitioned;
    SettledSize(adds, T);
    AddKeepsWellFormed(T, a, T');
    SettledStep(adds, T, a);
    RowsBelow(adds, shown, T);
    NoClash(adds, a);
    CacheKept(adds, T, T', a);
    DisplayedStep(adds, T, a, T');
    CachedKeyIsRow(adds, T, a);
    AppendPartition(adds, shown, T, a, T', T.cache[Key(a.subject).value]);
  }

  /** A call that joins a row: exactly that row's class grows. */
  lemma {:induction false} AppendPartition(adds: seq<Art>, shown: seq<nat>, T: Table, a: Art, T': Table, v: nat)
    requires ShownOk(adds, shown) && Settled(adds, T.arts) && Partitioned(adds, shown, T)
    requires a.subject != "" && Settled(adds + [a], T'.arts)
    requires v in T.rows && v < |adds| && Key(a.subject).Some? && Key(adds[v].subject) == Key(a.subject)
    requires v in T'.kids && Sorts(T'.arts, T.kids[v] + [|adds|], T'.kids[v])
    requires T'.rows == T.rows && T'.kids == T.kids[v := T'.kids[v]]
    ensures ShownOk(adds + [a], shown + [|adds|]) && Partitioned(adds + [a], shown + [|adds|], T')
  {
    hide Key, FileNumber, ClassOf, Firsts;
    var adds', n := adds + [a], |adds|;
    RowsBelow(adds, shown, T);
    ShownGrows(adds, shown, a);
    PartitionStable(adds, [a], shown);
    PartitionGrows(adds', shown, n);
    assert adds'[v] == adds[v] && adds'[n] == a;
    assert v in shown && SameRow(adds', v, n) && SameRow(adds', n, v);
    assert Firsts(adds', shown) + [] == Firsts(adds', shown);
    forall r | r in T.rows && r != v
      ensures Within(T.kids[r], |T'.arts|) && SortedBy(T'.arts, T.kids[r])
      ensures multiset(T.kids[r]) == multiset(ClassOf(adds', shown + [n], r))
    {
      RowApart(adds, shown, a, r, v);
      RowUntouched(adds, shown, T, T'.arts, a, r);
    }
  }

  lemma {:induction false} RowApart(adds: seq<Art>, shown: seq<nat>, a: Art, r: nat, v: nat)
    requires ShownOk(adds, shown) && r in Firsts(adds, shown) && v in Firsts(adds, shown) && r != v
    requires r < |adds| && SameRow(adds + [a], |adds|, v)
    ensures !SameRow(adds + [a], |adds|, r)
  {
    var adds' := adds + [a];
    FirstsAreShown(adds, shown);
    assert adds'[r] == adds[r] && adds'[v] == adds[v];
    if SameRow(adds', |adds|, r) {
      FirstsDistinct(adds, shown, r, v);
    }
  }

  /** Every call keeps the invariant; what it shows is at most itself. */
  lemma {:induction false} InvStep(adds: seq<Art>, shown: seq<nat>, T: Table, a: Art, T': Table)
    requires Fixed(adds + [a]) && Inv(adds, shown, T) && Add(T, a, T')
    ensures Inv(adds + [a], shown + (if a.subject == "" || Early(T, a) then [] else [|adds|]), T')
  {
    assert shown + [] == shown;
    if Early(T, a) {
      EarlyStep(adds, shown, T, a, T');
    } else if a.subject == "" {
      BlankStep(adds, shown, T, a, T');
    } else if Key(a.subject).Some? && Key(a.subject).value in T.cache {
      AppendStep(adds, shown, T, a, T');
    } else {
      NewRowStep(adds, shown, T, a, T');
    }
  }

  lemma {:induction false} FixedPrefix(adds: seq<Art>, n: nat)
    requires Fixed(adds) && n <= |adds|
    ensures Fixed(adds[..n])
  {
  }

  lemma {:induction false} RunPrefix(adds: seq<Art>, ts: seq<Table>, n: nat)
    requires Run(adds, ts) && n <= |adds|
    ensures Run(adds[..n], ts[..n + 1])
  {
  }

  lemma {:induction false} EmptyInv()
    ensures Inv([], [], EMPTY)
  {
  }

  /** The invariant over every run: after any calls whose subjects are fixed, the rows are the
      simple partition of the shown calls. */
  lemma {:induction false} RunInvariant(adds: seq<Art>, ts: seq<Table>)
    requires Fixed(adds) && Run(adds, ts)
    ensures Inv(adds, Shown(adds, ts), ts[|adds|])
  {
    EmptyInv();
    hide Key, FileNumber, WellFormed, Fixed, Add, Early, Inv;
    if adds != [] {
      var n := |adds| - 1;
      FixedPrefix(adds, n);
      RunPrefix(adds, ts, n);
      RunInvariant(adds[..n], ts[..n + 1]);
      assert adds == adds[..n] + [adds[n]];
      assert Add(ts[n], adds[n], ts[n + 1]);
      InvStep(adds[..n], Shown(adds[..n], ts[..n + 1]), ts[n], adds[n], ts[n + 1]);
    }
  }
}
