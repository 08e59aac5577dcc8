/** What the articles of the grouping index show: what a later call for the same id changes, and
    what stays. */
module ArticlesTypes {
  import opened Wrappers
  import opened Counters
  import opened Articles
  import opened ArticlesOrder

  /** One call, without any hypothesis: the article stored is the one given; the article of the
      outline cached under its id takes over subject and content type, before a repeated call
      returns too; no other article changes. */
  lemma {:induction false} AddTakesOver(T: Table, a: Art, T': Table)
    requires WellFormed(T) && Add(T, a, T')
    ensures |T'.arts| == |T.arts| + 1 && T'.arts[|T.arts|] == a
    ensures forall v | 0 <= v < |T.arts| ::
              T'.arts[v] == if a.id in T.cache && T.cache[a.id] == v
                            then Art(T.arts[v].id, a.subject, a.contentType) else T.arts[v]
  {
    hide Key, FileNumber;
  }

  /** What one call does to the cache. */
  lemma {:induction false} AddCaches(T: Table, a: Art, T': Table)
    requires WellFormed(T) && Add(T, a, T')
    ensures T'.rows == T.rows || T'.rows == T.rows + [|T.arts|]
    ensures forall c | c in T'.cache && (c !in T.cache || T'.cache[c] != T.cache[c]) ::
              && T'.cache[c] == |T.arts| && !Early(T, a) && (c == a.id || Some(c) == Key(a.subject))
              && (a.subject == "" || T'.rows == T.rows + [|T.arts|])
    ensures forall c | c in T.cache :: c in T'.cache
    ensures T'.rows == T.rows + [|T.arts|] ==> a.id in T'.cache && T'.cache[a.id] == |T.arts|
  {
    hide FileNumber;
  }

  // ----- over every run -----

  /** The content type of the last call with the id. */
  function LastType(adds: seq<Art>, id: string): Option<string> {
    if adds == [] then None
    else
      var last := adds[|adds| - 1];
      if last.id == id then Some(last.contentType) else LastType(adds[..|adds| - 1], id)
  }

  /** An outline is cached under the id of its row, or was made by a blank call. */
  ghost predicate CacheFollows(adds: seq<Art>, T: Table) {
    && (forall r | r in T.rows :: r < |adds| && adds[r].id in T.cache && T.cache[adds[r].id] == r)
    && (forall c | c in T.cache :: T.cache[c] < |adds| && (T.cache[c] in T.rows || adds[T.cache[c]].subject == ""))
  }

  /** Rows show the type given last for their id, articles that joined a row their own. */
  ghost predicate TypesFollow(adds: seq<Art>, T: Table) {
    && |T.arts| == |adds|
    && (forall r | r in T.rows :: r < |adds| && Some(T.arts[r].contentType) == LastType(adds, adds[r].id))
    && (forall t | 0 <= t < |adds| && adds[t].subject != "" && t !in T.rows :: T.arts[t] == adds[t])
  }

  lemma {:induction false} RowIdIsDisplayed(adds: seq<Art>, T: Table, a: Art, r: nat)
    requires Fixed(adds + [a]) && DisplayedOk(adds, T) && CacheFollows(adds, T)
    requires r in T.rows && adds[r].subject != ""
    ensures a.id == adds[r].id ==> Early(T, a)
    ensures Key(a.subject) != Some(adds[r].id)
  {
    hide Key, FileNumber;
    assert (adds + [a])[r] == adds[r] && (adds + [a])[|adds|] == a;
  }

  lemma {:induction false} RowStaysCached(adds: seq<Art>, shown: seq<nat>, T: Table, a: Art, T': Table, r: nat)
    requires Fixed(adds + [a]) && Inv(adds, shown, T) && CacheFollows(adds, T) && Add(T, a, T') && r in T'.rows
    ensures r <= |adds| && (adds + [a])[r].id in T'.cache && T'.cache[(adds + [a])[r].id] == r
  {
    AddCaches(T, a, T');
    RowsBelow(adds, shown, T);
    SettledSize(adds, T);
    hide Key, FileNumber, Add, Early, Fixed, CacheOk, DisplayedOk, Settled, ShownOk, Partitioned;
    if r in T.rows {
      RowIdIsDisplayed(adds, T, a, r);
      assert (adds + [a])[r] == adds[r];
    }
  }

  lemma {:induction false} CacheFollowsStep(adds: seq<Art>, shown: seq<nat>, T: Table, a: Art, T': Table)
    requires Fixed(adds + [a]) && Inv(adds, shown, T) && CacheFollows(adds, T) && Add(T, a, T')
    ensures CacheFollows(adds + [a], T')
  {
    AddCaches(T, a, T');
    SettledSize(adds, T);
    hide Key, FileNumber, Add, Early, Fixed, CacheOk, DisplayedOk, Settled, ShownOk, Partitioned;
    var adds' := adds + [a];
    forall r | r in T'.rows ensures r < |adds'| && adds'[r].id in T'.cache && T'.cache[adds'[r].id] == r {
      RowStaysCached(adds, shown, T, a, T', r);
    }
    forall c | c in T'.cache
      ensures T'.cache[c] < |adds'| && (T'.cache[c] in T'.rows || adds'[T'.cache[c]].subject == "")
    {
      if c in T.cache && T'.cache[c] == T.cache[c] {
        assert adds'[T.cache[c]] == adds[T.cache[c]];
      }
    }
  }

  /** Whose article the new call changes: that of the row of its id, or of a blank call. */
  lemma {:induction false} TakesOverOwn(adds: seq<Art>, shown: seq<nat>, T: Table, a: Art)
    requires Fixed(adds + [a]) && Inv(adds, shown, T) && CacheFollows(adds, T)
    ensures a.id in T.cache && T.cache[a.id] in T.rows ==> adds[T.cache[a.id]].id == a.id
  {
    hide FileNumber;
    CachedIdIsOwn(adds, T, a);
  }

  lemma {:induction false} RowTypesStep(adds: seq<Art>, T: Table, a: Art, T': Table, r: nat)
    requires WellFormed(T) && Add(T, a, T') && CacheFollows(adds, T) && TypesFollow(adds, T) && r in T'.rows
    requires a.id in T.cache && T.cache[a.id] in T.rows ==> adds[T.cache[a.id]].id == a.id
    ensures r <= |adds| && r < |T'.arts|
    ensures Some(T'.arts[r].contentType) == LastType(adds + [a], (adds + [a])[r].id)
  {
    AddTakesOver(T, a, T');
    AddCaches(T, a, T');
    hide Key, FileNumber, Add, Early, WellFormed;
    var adds', n := adds + [a], |adds|;
    assert adds'[..n] == adds && adds'[n] == a;
    if r in T.rows {
      assert adds'[r] == adds[r];
    }
  }

  lemma {:induction false} JoinedTypesStep(adds: seq<Art>, T: Table, a: Art, T': Table, t: nat)
    requires WellFormed(T) && Add(T, a, T') && CacheFollows(adds, T) && TypesFollow(adds, T)
    requires t <= |adds| && (adds + [a])[t].subject != "" && t !in T'.rows
    ensures t < |T'.arts| && T'.arts[t] == (adds + [a])[t]
  {
    AddTakesOver(T, a, T');
    AddCaches(T, a, T');
    hide Key, FileNumber, Add, Early, WellFormed, LastType;
    assert t < |adds| ==> (adds + [a])[t] == adds[t];
  }

  lemma {:induction false} TypesFollowStep(adds: seq<Art>, shown: seq<nat>, T: Table, a: Art, T': Table)
    requires Fixed(adds + [a]) && Inv(adds, shown, T) && CacheFollows(adds, T) && TypesFollow(adds, T) && Add(T, a, T')
    ensures TypesFollow(adds + [a], T')
  {
    hide Key, FileNumber, Add, Fixed, CacheOk, DisplayedOk, Settled, ShownOk, Partitioned, WellFormed, CacheFollows;
    AddTakesOver(T, a, T');
    TakesOverOwn(adds, shown, T, a);
    forall r | r in T'.rows
      ensures r <= |adds| && r < |T'.arts| && Some(T'.arts[r].contentType) == LastType(adds + [a], (adds + [a])[r].id)
    {
      RowTypesStep(adds, T, a, T', r);
    }
    forall t | 0 <= t <= |adds| && (adds + [a])[t].subject != "" && t !in T'.rows
      ensures T'.arts[t] == (adds + [a])[t]
    {
      JoinedTypesStep(adds, T, a, T', t);
    }
  }

  lemma {:induction false} FollowsRun(adds: seq<Art>, ts: seq<Table>)
    requires Fixed(adds) && Run(adds, ts)
    ensures CacheFollows(adds, ts[|adds|]) && TypesFollow(adds, ts[|adds|])
  {
    EmptyFollows();
    hide Key, FileNumber, WellFormed, Fixed, Add, Early, Inv, CacheFollows, TypesFollow;
    if adds != [] {
      var n := |adds| - 1;
      FixedPrefix(adds, n);
      RunPrefix(adds, ts, n);
      FollowsRun(adds[..n], ts[..n + 1]);
      RunInvariant(adds[..n], ts[..n + 1]);
      assert adds == adds[..n] + [adds[n]];
      assert Add(ts[n], adds[n], ts[n + 1]);
      var shown := Shown(adds[..n], ts[..n + 1]);
      CacheFollowsStep(adds[..n], shown, ts[n], adds[n], ts[n + 1]);
      TypesFollowStep(adds[..n], shown, ts[n], adds[n], ts[n + 1]);
    }
  }

  lemma {:induction false} EmptyFollows()
    ensures CacheFollows([], EMPTY) && TypesFollow([], EMPTY)
  {
  }

  /** Over every run: a row shows the subject of its id, and the content type of the last call for
      its id, whether that call was ignored or not. */
  lemma {:induction false} RowsShowLastType(adds: seq<Art>, ts: seq<Table>, r: nat)
    requires Fixed(adds) && Run(adds, ts) && r in ts[|adds|].rows
    ensures var T := ts[|adds|];
            && r < |adds| && r < |T.arts| && T.arts[r].id == adds[r].id && T.arts[r].subject == adds[r].subject != ""
            && Some(T.arts[r].contentType) == LastType(adds, adds[r].id)
  {
    RunInvariant(adds, ts);
    RowsBelow(adds, Shown(adds, ts), ts[|adds|]);
    FollowsRun(adds, ts);
  }

  /** An article that joined a row is not remembered: it keeps what it was added with, whatever is
      added for its id later. */
  lemma {:induction false} JoinedKeepsType(adds: seq<Art>, ts: seq<Table>, t: nat)
    requires Fixed(adds) && Run(adds, ts) && t < |adds| && adds[t].subject != "" && t !in ts[|adds|].rows
    ensures t < |ts[|adds|].arts| && ts[|adds|].arts[t] == adds[t]
  {
    FollowsRun(adds, ts);
  }

  /** A witness: an article shown with one content type and added again with another. */
  lemma {:induction false} TypeIsRefreshed(id: string, subject: string, ts: seq<Table>)
    requires subject != "" && Key(subject) != Some(id)
    requires Run([Art(id, subject, "N/A"), Art(id, subject, "text/plain")], ts)
    ensures ts[2].rows == [0] && |ts[2].arts| == 2 && ts[2].arts[0].contentType == "text/plain"
  {
    hide Key, FileNumber;
    var a, b := Art(id, subject, "N/A"), Art(id, subject, "text/plain");
    assert Add(ts[0], a, ts[1]) by { assert [a, b][0] == a; }
    assert Add(ts[1], b, ts[2]) by { assert [a, b][1] == b; }
  }
}
