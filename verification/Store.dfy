/** The article store: find-or-create, and the write transactions of the reader commands. The
    store is open; filters compare texts; a date is a number of the caller's choice. */
module Store {
  import opened Wrappers
  import Counters
  import NewsModel

  /** Records refer to each other by their place in the store. */
  datatype Article = Article(group: nat, id: string, subject: Option<string>, contentType: Option<string>,
                             size: Option<int>, date: Option<int>)

  datatype Group = Group(id: string, name: string, first: Option<int>, last: Option<int>, canPost: Option<bool>,
                         articles: seq<nat>)

  datatype Records = Records(groups: seq<Group>, articles: seq<Article>)

  type Header = map<string, string>

  // ----- find or create -----

  /** The places of the articles with the id, from `i` on. */
  function Matches(articles: seq<Article>, id: string, i: nat): (r: seq<nat>)
    ensures forall k | 0 <= k < |r| :: i <= r[k] < |articles| && articles[r[k]].id == id
    ensures r == [] <==> forall j | i <= j < |articles| :: articles[j].id != id
    decreases |articles| - i
  {
    if i >= |articles| then []
    else (if articles[i].id == id then [i] else []) + Matches(articles, id, i + 1)
  }

  function Enter(groups: seq<Group>, g: nat, a: nat): seq<Group>
    requires g < |groups|
  {
    groups[g := groups[g].(articles := groups[g].articles + [a])]
  }

  /** An article is found only if exactly one has the id. */
  function FindOrCreate(s: Records, g: nat, id: string): (r: (Records, nat, bool))
    requires g < |s.groups|
    ensures r.1 < |r.0.articles| && |r.0.groups| == |s.groups|
  {
    var found := Matches(s.articles, id, 0);
    if |found| == 1 then (s, found[0], false)
    else
      var n := |s.articles|;
      (Records(Enter(s.groups, g, n), s.articles + [Article(g, id, Some(""), Some(""), None, None)]), n, true)
  }

  /** One id of a batch: a new article is entered in the group once more. */
  function TakeId(s: Records, g: nat, id: string): (r: Records)
    requires g < |s.groups|
    ensures |r.groups| == |s.groups|
  {
    var (s', a, isNew) := FindOrCreate(s, g, id);
    if isNew then s'.(groups := Enter(s'.groups, g, a)) else s'
  }

  function TakeIds(s: Records, g: nat, ids: seq<string>): (r: Records)
    requires g < |s.groups|
    ensures |r.groups| == |s.groups|
    decreases |ids|
  {
    if ids == [] then s else TakeIds(TakeId(s, g, ids[0]), g, ids[1..])
  }

  function Lookup(h: Header, key: string): Option<string> {
    if key in h then Some(h[key]) else None
  }

  /** The size: of two header fields the second counts; a text that is no number counts as 0. */
  function SizeOf(h: Header, before: Option<int>): Option<int> {
    var given := if "X-Received-Bytes" in h then Some(h["X-Received-Bytes"]) else Lookup(h, "Bytes");
    if given.None? then before
    else
      var n := Counters.IntOf(given.value);
      Some(if n.Some? then n.value else 0)
  }

  /** The date stays when there is none in the header, or none that can be read. */
  function DateIn(h: Header, before: Option<int>, dateOf: string -> Option<int>): Option<int> {
    if "Date" in h && dateOf(h["Date"]).Some? then dateOf(h["Date"]) else before
  }

  function Described(a: Article, h: Header, dateOf: string -> Option<int>): Article {
    a.(subject := Lookup(h, "Subject"), contentType := Lookup(h, "Content-Type"), size := SizeOf(h, a.size),
       date := DateIn(h, a.date, dateOf))
  }

  function TakeHeader(s: Records, g: nat, id: string, h: Header, dateOf: string -> Option<int>): (r: Records)
    requires g < |s.groups|
    ensures |r.groups| == |s.groups|
  {
    var (s', a, _) := FindOrCreate(s, g, id);
    s'.(articles := s'.articles[a := Described(s'.articles[a], h, dateOf)])
  }

  function FindGroup(groups: seq<Group>, name: string, i: nat): (r: Option<nat>)
    ensures r.Some? ==> i <= r.value < |groups| && groups[r.value].name == name
    ensures r.None? ==> forall j | i <= j < |groups| :: groups[j].name != name
    decreases |groups| - i
  {
    if i >= |groups| then None else if groups[i].name == name then Some(i) else FindGroup(groups, name, i + 1)
  }

  /** One listed group; a new one gets the given fresh id. */
  function TakeGroup(groups: seq<Group>, l: NewsModel.Listed, uuid: string): seq<Group> {
    var found := FindGroup(groups, l.name, 0);
    var gs := if found.Some? then groups else groups + [Group(uuid, l.name, None, None, None, [])];
    var n := if found.Some? then found.value else |groups|;
    gs[n := gs[n].(first := Some(l.first), last := Some(l.last), canPost := Some(l.canPost))]
  }

  function TakeGroups(groups: seq<Group>, ls: seq<NewsModel.Listed>, uuids: seq<string>): seq<Group>
    requires |ls| == |uuids|
    decreases |ls|
  {
    if ls == [] then groups else TakeGroups(TakeGroup(groups, ls[0], uuids[0]), ls[1..], uuids[1..])
  }

  // ----- uniqueness -----

  predicate UniqueIds(s: Records) {
    forall i, j | 0 <= i < j < |s.articles| :: s.articles[i].id != s.articles[j].id
  }

  predicate UniqueNames(groups: seq<Group>) {
    forall i, j | 0 <= i < j < |groups| :: groups[i].name != groups[j].name
  }

  function Ids(s: Records): set<string> {
    set a | a in s.articles :: a.id
  }

  /** With unique ids an article is found just when its id is there. */
  lemma {:induction false} FoundIff(s: Records, id: string, i: nat)
    requires UniqueIds(s)
    ensures |Matches(s.articles, id, i)| == if exists j | i <= j < |s.articles| :: s.articles[j].id == id then 1 else 0
    decreases |s.articles| - i
  {
    if i < |s.articles| {
      FoundIff(s, id, i + 1);
    }
  }

  lemma {:induction false} FindOrCreateFinds(s: Records, g: nat, id: string)
    requires g < |s.groups| && UniqueIds(s)
    ensures var (s', a, isNew) := FindOrCreate(s, g, id);
            && (isNew <==> id !in Ids(s)) && s'.articles[a].id == id
            && UniqueIds(s') && Ids(s') == Ids(s) + {id}
  {
    FoundIff(s, id, 0);
    var (s', a, isNew) := FindOrCreate(s, g, id);
    if id in Ids(s) {
      var x :| x in s.articles && x.id == id;
      var j :| 0 <= j < |s.articles| && s.articles[j] == x;
    } else {
      assert forall j | 0 <= j < |s.articles| :: s.articles[j] in s.articles;
      assert s'.articles[|s.articles|].id == id;
      assert Ids(s') == Ids(s) + {id} by {
        forall x | x in Ids(s') ensures x in Ids(s) + {id} {
          var y :| y in s'.articles && y.id == x;
        }
        forall y | y in s.articles ensures y in s'.articles {}
        assert s'.articles[|s.articles|] in s'.articles;
      }
    }
  }

  /** A batch keeps ids unique and adds exactly its ids. */
  lemma {:induction false} BatchAddsItsIds(s: Records, g: nat, ids: seq<string>)
    requires g < |s.groups| && UniqueIds(s)
    ensures var s' := TakeIds(s, g, ids);
            UniqueIds(s') && Ids(s') == Ids(s) + set id | id in ids
    decreases |ids|
  {
    hide FindOrCreate, UniqueIds, Ids;
    if ids != [] {
      FindOrCreateFinds(s, g, ids[0]);
      var s1 := TakeId(s, g, ids[0]);
      assert UniqueIds(s1) && Ids(s1) == Ids(s) + {ids[0]} by { SameArticles(s, g, ids[0]); }
      BatchAddsItsIds(s1, g, ids[1..]);
      assert (set id | id in ids) == {ids[0]} + set id | id in ids[1..];
    }
  }

  lemma {:induction false} SameArticles(s: Records, g: nat, id: string)
    requires g < |s.groups|
    ensures TakeId(s, g, id).articles == FindOrCreate(s, g, id).0.articles
    ensures UniqueIds(TakeId(s, g, id)) == UniqueIds(FindOrCreate(s, g, id).0)
    ensures Ids(TakeId(s, g, id)) == Ids(FindOrCreate(s, g, id).0)
  {
  }

  lemma {:induction false} KnownIdsChangeNothing(s: Records, g: nat, ids: seq<string>)
    requires g < |s.groups| && UniqueIds(s) && forall id | id in ids :: id in Ids(s)
    ensures TakeIds(s, g, ids) == s
    decreases |ids|
  {
    if ids != [] {
      FindOrCreateFinds(s, g, ids[0]);
      assert ids[0] in ids;
      KnownIdsChangeNothing(s, g, ids[1..]);
    }
  }

  /** Repeating a batch, for whatever group, creates nothing and enters nothing. */
  lemma {:induction false} RepeatedBatchChangesNothing(s: Records, g: nat, ids: seq<string>, again: nat)
    requires g < |s.groups| && again < |s.groups| && UniqueIds(s)
    ensures TakeIds(TakeIds(s, g, ids), again, ids) == TakeIds(s, g, ids)
  {
    BatchAddsItsIds(s, g, ids);
    KnownIdsChangeNothing(TakeIds(s, g, ids), again, ids);
  }

  // ----- two records with one id: no transaction makes them, and none heals them -----

  /** Ids are unique just when no query finds more than one article. */
  lemma {:induction false} UniqueIff(s: Records)
    ensures UniqueIds(s) <==> forall id :: |Matches(s.articles, id, 0)| <= 1
  {
    hide Matches;
    if UniqueIds(s) {
      forall id ensures |Matches(s.articles, id, 0)| <= 1 {
        FoundIff(s, id, 0);
      }
    } else {
      var i, j :| 0 <= i < j < |s.articles| && s.articles[i].id == s.articles[j].id;
      var id := s.articles[i].id;
      MatchesHold(s.articles, id, 0, i);
      MatchesHold(s.articles, id, 0, j);
      assert |Matches(s.articles, id, 0)| > 1;
    }
  }

  lemma {:induction false} MatchesHold(articles: seq<Article>, id: string, i: nat, j: nat)
    requires i <= j < |articles| && articles[j].id == id
    ensures j in Matches(articles, id, i)
    decreases |articles| - i
  {
    if i < j {
      MatchesHold(articles, id, i + 1, j);
    }
  }

  /** What a call does to the number of articles with an id, in any store: only a single article is
      found, so of two or more each call makes one more. A store that transactions made has no two
      (`EveryRunKeepsStore`): they can only be there before. */
  lemma {:induction false} DuplicatesMultiply(s: Records, g: nat, id: string, other: string)
    requires g < |s.groups|
    ensures var (s', a, isNew) := FindOrCreate(s, g, id);
            && (isNew <==> |Matches(s.articles, id, 0)| != 1)
            && |Matches(s'.articles, other, 0)|
               == |Matches(s.articles, other, 0)| + (if isNew && other == id then 1 else 0)
  {
    if |Matches(s.articles, id, 0)| != 1 {
      MatchesSnoc(s.articles, FindOrCreate(s, g, id).0.articles[|s.articles|], other, 0);
    }
  }

  /** A batch adds to two or more articles with an id as many as it names that id. */
  lemma {:induction false} BatchMultiplies(s: Records, g: nat, ids: seq<string>, id: string)
    requires g < |s.groups| && |Matches(s.articles, id, 0)| >= 2
    ensures |Matches(TakeIds(s, g, ids).articles, id, 0)| == |Matches(s.articles, id, 0)| + multiset(ids)[id]
    decreases |ids|
  {
    hide Matches, FindOrCreate;
    if ids != [] {
      var s1 := TakeId(s, g, ids[0]);
      DuplicatesMultiply(s, g, ids[0], id);
      SameArticles(s, g, ids[0]);
      BatchMultiplies(s1, g, ids[1..], id);
      assert ids == [ids[0]] + ids[1..];
    }
  }

  predicate IdsGrow(s: Records, s': Records) {
    |s.articles| <= |s'.articles| && forall a | 0 <= a < |s.articles| :: s'.articles[a].id == s.articles[a].id
  }

  lemma {:induction false} MatchesGrow(s: Records, s': Records, id: string, i: nat)
    requires IdsGrow(s, s')
    ensures |Matches(s.articles, id, i)| <= |Matches(s'.articles, id, i)|
    decreases |s.articles| - i
  {
    if i < |s.articles| {
      MatchesGrow(s, s', id, i + 1);
    }
  }

  lemma {:induction false} BatchGrows(s: Records, g: nat, ids: seq<string>)
    requires g < |s.groups|
    ensures IdsGrow(s, TakeIds(s, g, ids))
    decreases |ids|
  {
    hide Matches;
    if ids != [] {
      BatchGrows(TakeId(s, g, ids[0]), g, ids[1..]);
    }
  }

  lemma {:induction false} MatchesNext(found: seq<nat>, articles: seq<Article>, id: string, i: nat)
    requires i < |articles|
    ensures found + Matches(articles, id, i)
         == (if articles[i].id == id then found + [i] else found) + Matches(articles, id, i + 1)
  {
    var more := Matches(articles, id, i + 1);
    assert found + ([] + more) == found + more && found + ([i] + more) == found + [i] + more;
  }

  lemma {:induction false} MatchesEnd(articles: seq<Article>, id: string)
    ensures Matches(articles, id, |articles|) == []
  {
  }

  lemma {:induction false} MatchesSnoc(articles: seq<Article>, x: Article, id: string, i: nat)
    requires i <= |articles|
    ensures Matches(articles + [x], id, i) == Matches(articles, id, i) + if x.id == id then [|articles|] else []
    decreases |articles| - i
  {
    if i < |articles| {
      MatchesSnoc(articles, x, id, i + 1);
    } else {
      assert Matches(articles + [x], id, i + 1) == [];
    }
  }

  // ----- entries in the groups -----

  function Count(list: seq<nat>, a: nat): nat {
    multiset(list)[a]
  }

  /** How often the article is entered in the list of the group. */
  function Entries(s: Records, i: nat, a: nat): nat
    requires i < |s.groups|
  {
    Count(s.groups[i].articles, a)
  }

  /** Only articles in the store are entered. */
  predicate EntriesOk(s: Records) {
    forall i, k | 0 <= i < |s.groups| && 0 <= k < |s.groups[i].articles| :: s.groups[i].articles[k] < |s.articles|
  }

  /** Nothing has changed in the groups but the list of group `g`. */
  predicate OnlyListOf(s: Records, s': Records, g: nat)
    requires g < |s.groups|
  {
    && |s'.groups| == |s.groups|
    && (forall i | 0 <= i < |s.groups| && i != g :: s'.groups[i] == s.groups[i])
    && s'.groups[g] == s.groups[g].(articles := s'.groups[g].articles)
  }

  /** New articles belong to group `g` and are entered in its list so often, all others as before. */
  predicate EntersNew(s: Records, s': Records, g: nat, times: nat)
    requires g < |s.groups| && |s'.groups| == |s.groups| && |s.articles| <= |s'.articles|
  {
    && (forall a | 0 <= a < |s.articles| :: Entries(s', g, a) == Entries(s, g, a))
    && (forall a | |s.articles| <= a < |s'.articles| :: Entries(s', g, a) == times && s'.articles[a].group == g)
  }

  lemma {:induction false} EnterAddsOne(list: seq<nat>, n: nat, a: nat)
    ensures Count(list + [n], a) == Count(list, a) + if a == n then 1 else 0
  {
  }

  lemma {:induction false} NotEntered(s: Records, i: nat)
    requires EntriesOk(s) && i < |s.groups|
    ensures forall a: nat | a >= |s.articles| :: Entries(s, i, a) == 0
  {
    forall a: nat | a >= |s.articles| ensures Entries(s, i, a) == 0 {
      assert a !in s.groups[i].articles;
    }
  }

  /** Each article of a batch that is new belongs to the group and is entered in its list twice;
      all others stay entered as often as before, and no other group changes. */
  lemma {:induction false} BatchEntersTwice(s: Records, g: nat, ids: seq<string>)
    requires g < |s.groups| && EntriesOk(s)
    ensures var s' := TakeIds(s, g, ids);
            EntriesOk(s') && s.articles <= s'.articles && OnlyListOf(s, s', g) && EntersNew(s, s', g, 2)
    decreases |ids|
  {
    hide Entries, EntriesOk, FindOrCreate;
    if ids != [] {
      TakeIdEnters(s, g, ids[0]);
      BatchEntersTwice(TakeId(s, g, ids[0]), g, ids[1..]);
    }
  }

  lemma {:induction false} TakeIdEnters(s: Records, g: nat, id: string)
    requires g < |s.groups| && EntriesOk(s)
    ensures var s' := TakeId(s, g, id);
            && EntriesOk(s') && s.articles <= s'.articles && |s'.articles| <= |s.articles| + 1
            && OnlyListOf(s, s', g) && EntersNew(s, s', g, 2)
  {
    var n, list := |s.articles|, s.groups[g].articles;
    NotEntered(s, g);
    forall a: nat ensures Count(list + [n] + [n], a) == Count(list, a) + (if a == n then 2 else 0) {
      EnterAddsOne(list, n, a);
      EnterAddsOne(list + [n], n, a);
    }
  }

  /** An article that a header makes belongs to the group and is entered in its list once. */
  lemma {:induction false} HeaderEntersOnce(
      s: Records, g: nat, id: string, h: Header, dateOf: string -> Option<int>)
    requires g < |s.groups| && EntriesOk(s)
    ensures var s' := TakeHeader(s, g, id, h, dateOf);
            && EntriesOk(s') && |s.articles| <= |s'.articles| && OnlyListOf(s, s', g) && EntersNew(s, s', g, 1)
            && forall a | 0 <= a < |s.articles| :: s'.articles[a].group == s.articles[a].group
  {
    hide SizeOf, DateIn;
    var n, list := |s.articles|, s.groups[g].articles;
    NotEntered(s, g);
    forall a: nat ensures Count(list + [n], a) == Count(list, a) + (if a == n then 1 else 0) {
      EnterAddsOne(list, n, a);
    }
  }

  lemma {:induction false} HeaderAddsItsId(
      s: Records, g: nat, id: string, h: Header, dateOf: string -> Option<int>)
    requires g < |s.groups| && UniqueIds(s)
    ensures var s' := TakeHeader(s, g, id, h, dateOf);
            && UniqueIds(s') && Ids(s') == Ids(s) + {id}
            && exists a | 0 <= a < |s'.articles| ::
                 s'.articles[a].id == id && s'.articles[a].subject == Lookup(h, "Subject")
  {
    FindOrCreateFinds(s, g, id);
    var (s1, a, isNew) := FindOrCreate(s, g, id);
    var s' := TakeHeader(s, g, id, h, dateOf);
    assert s'.articles[a].id == id && s'.articles[a].subject == Lookup(h, "Subject");
    IdsOfSame(s1, s');
  }

  lemma {:induction false} IdsOfSame(s: Records, t: Records)
    requires |s.articles| == |t.articles| && forall i | 0 <= i < |s.articles| :: s.articles[i].id == t.articles[i].id
    ensures Ids(s) == Ids(t) && UniqueIds(s) == UniqueIds(t)
  {
  }

  lemma {:induction false} TakeGroupKeeps(groups: seq<Group>, l: NewsModel.Listed, uuid: string)
    requires UniqueNames(groups)
    ensures var gs := TakeGroup(groups, l, uuid);
            && UniqueNames(gs) && |groups| <= |gs| <= |groups| + 1
            && (forall i | 0 <= i < |gs| :: gs[i].articles == if i < |groups| then groups[i].articles else [])
            && (forall i | 0 <= i < |groups| :: gs[i].name == groups[i].name && gs[i].id == groups[i].id)
            && exists n | 0 <= n < |gs| :: gs[n].name == l.name
  {
    var found := FindGroup(groups, l.name, 0);
    var n := if found.Some? then found.value else |groups|;
    assert TakeGroup(groups, l, uuid)[n].name == l.name;
  }

  /** The articles of the groups that are listed are not touched, every listed name has its group,
      and names stay unique. */
  lemma {:induction false} TakeGroupsKeeps(groups: seq<Group>, ls: seq<NewsModel.Listed>, uuids: seq<string>)
    requires |ls| == |uuids| && UniqueNames(groups)
    ensures var gs := TakeGroups(groups, ls, uuids);
            && UniqueNames(gs) && |groups| <= |gs|
            && (forall i | 0 <= i < |gs| :: gs[i].articles == if i < |groups| then groups[i].articles else [])
            && (forall i | 0 <= i < |groups| :: gs[i].name == groups[i].name && gs[i].id == groups[i].id)
            && (forall k | 0 <= k < |ls| :: FindGroup(gs, ls[k].name, 0).Some?)
    decreases |ls|
  {
    hide TakeGroup, UniqueNames, FindGroup;
    if ls != [] {
      var g1 := TakeGroup(groups, ls[0], uuids[0]);
      TakeGroupKeeps(groups, ls[0], uuids[0]);
      TakeGroupsKeeps(g1, ls[1..], uuids[1..]);
      var gs := TakeGroups(groups, ls, uuids);
      var n :| 0 <= n < |g1| && g1[n].name == ls[0].name;
      assert gs[n].name == ls[0].name;
      forall k | 0 <= k < |ls| ensures FindGroup(gs, ls[k].name, 0).Some? {
        assert k > 0 ==> ls[k] == ls[1..][k - 1];
      }
    }
  }

  // ----- transactions -----

  datatype Transaction =
    | IdsTransaction(group: nat, ids: seq<string>)
    | HeaderTransaction(group: nat, id: string, header: Header)
    | GroupsTransaction(listed: seq<NewsModel.Listed>, uuids: seq<string>)

  /** A transaction for a group that is not there does nothing. */
  function Commit(s: Records, t: Transaction, dateOf: string -> Option<int>): Records {
    match t
    case IdsTransaction(g, ids) => if g < |s.groups| then TakeIds(s, g, ids) else s
    case HeaderTransaction(g, id, h) => if g < |s.groups| then TakeHeader(s, g, id, h, dateOf) else s
    case GroupsTransaction(ls, uuids) => if |ls| == |uuids| then s.(groups := TakeGroups(s.groups, ls, uuids)) else s
  }

  function CommitAll(s: Records, ts: seq<Transaction>, dateOf: string -> Option<int>): Records
    decreases |ts|
  {
    if ts == [] then s else CommitAll(Commit(s, ts[0], dateOf), ts[1..], dateOf)
  }

  /** One record for each article id and for each group name; every article is entered in the list
      of its own group, once or twice, and in no other. */
  predicate StoreOk(s: Records) {
    && UniqueIds(s) && UniqueNames(s.groups) && EntriesOk(s)
    && forall a | 0 <= a < |s.articles| :: OwnEntries(s, a)
  }

  predicate OwnEntries(s: Records, a: nat)
    requires a < |s.articles|
  {
    && s.articles[a].group < |s.groups| && 1 <= Entries(s, s.articles[a].group, a) <= 2
    && forall i | 0 <= i < |s.groups| && i != s.articles[a].group :: Entries(s, i, a) == 0
  }

  /** What every transaction keeps. */
  predicate Kept(s: Records, s': Records) {
    && StoreOk(s') && |s.articles| <= |s'.articles| && |s.groups| <= |s'.groups| && Ids(s) <= Ids(s')
    && (forall a | 0 <= a < |s.articles| ::
          s'.articles[a].id == s.articles[a].id && s'.articles[a].group == s.articles[a].group)
    && forall i, a | 0 <= i < |s.groups| && 0 <= a < |s.articles| :: Entries(s', i, a) == Entries(s, i, a)
  }

  lemma {:induction false} EntersKeeps(s: Records, s': Records, g: nat, times: nat)
    requires StoreOk(s) && g < |s.groups| && 1 <= times <= 2 && |s.articles| <= |s'.articles| && EntriesOk(s')
    requires OnlyListOf(s, s', g) && EntersNew(s, s', g, times)
    requires forall a | 0 <= a < |s.articles| :: s'.articles[a].group == s.articles[a].group
    ensures forall a | 0 <= a < |s'.articles| :: OwnEntries(s', a)
    ensures forall i, a | 0 <= i < |s.groups| && 0 <= a < |s.articles| :: Entries(s', i, a) == Entries(s, i, a)
    ensures UniqueNames(s'.groups)
  {
    hide UniqueIds, EntriesOk;
    forall i, a | 0 <= i < |s.groups| && 0 <= a < |s.articles| ensures Entries(s', i, a) == Entries(s, i, a) {
      assert i != g ==> s'.groups[i] == s.groups[i];
    }
    forall a | 0 <= a < |s'.articles| ensures OwnEntries(s', a) {
      if a < |s.articles| {
        assert OwnEntries(s, a);
      } else {
        forall i | 0 <= i < |s'.groups| && i != g ensures Entries(s', i, a) == 0 {
          NotEntered(s, i);
          assert s'.groups[i] == s.groups[i] && Entries(s, i, a) == 0;
        }
      }
    }
    assert forall i | 0 <= i < |s.groups| :: s'.groups[i].name == s.groups[i].name;
  }

  lemma {:induction false} BatchKeeps(s: Records, g: nat, ids: seq<string>)
    requires StoreOk(s) && g < |s.groups|
    ensures Kept(s, TakeIds(s, g, ids))
  {
    hide Entries, TakeIds, Ids, OwnEntries;
    BatchAddsItsIds(s, g, ids);
    BatchEntersTwice(s, g, ids);
    EntersKeeps(s, TakeIds(s, g, ids), g, 2);
  }

  lemma {:induction false} HeaderKeeps(s: Records, g: nat, id: string, h: Header, dateOf: string -> Option<int>)
    requires StoreOk(s) && g < |s.groups|
    ensures Kept(s, TakeHeader(s, g, id, h, dateOf))
  {
    hide Entries, TakeHeader, Ids, OwnEntries;
    HeaderAddsItsId(s, g, id, h, dateOf);
    HeaderEntersOnce(s, g, id, h, dateOf);
    HeaderKeepsIds(s, g, id, h, dateOf);
    EntersKeeps(s, TakeHeader(s, g, id, h, dateOf), g, 1);
  }

  lemma {:induction false} HeaderKeepsIds(s: Records, g: nat, id: string, h: Header, dateOf: string -> Option<int>)
    requires g < |s.groups|
    ensures forall a | 0 <= a < |s.articles| :: TakeHeader(s, g, id, h, dateOf).articles[a].id == s.articles[a].id
  {
  }

  lemma {:induction false} GroupsKeep(s: Records, ls: seq<NewsModel.Listed>, uuids: seq<string>)
    requires StoreOk(s) && |ls| == |uuids|
    ensures Kept(s, s.(groups := TakeGroups(s.groups, ls, uuids)))
  {
    hide TakeGroups, Ids, UniqueNames;
    var s' := s.(groups := TakeGroups(s.groups, ls, uuids));
    TakeGroupsKeeps(s.groups, ls, uuids);
    GroupsKeepIds(s, ls, uuids);
    forall i, a | 0 <= i < |s'.groups| && 0 <= a < |s.articles|
      ensures Entries(s', i, a) == if i < |s.groups| then Entries(s, i, a) else 0
    {
      assert s'.groups[i].articles == if i < |s.groups| then s.groups[i].articles else [];
    }
    forall a | 0 <= a < |s.articles| ensures OwnEntries(s', a) {
      assert OwnEntries(s, a);
    }
  }

  lemma {:induction false} CommitKeeps(s: Records, t: Transaction, dateOf: string -> Option<int>)
    requires StoreOk(s)
    ensures Kept(s, Commit(s, t, dateOf))
  {
    hide TakeIds, TakeGroups, TakeHeader;
    match t
    case IdsTransaction(g, ids) =>
      if g < |s.groups| { BatchKeeps(s, g, ids); }
    case HeaderTransaction(g, id, h) =>
      if g < |s.groups| { HeaderKeeps(s, g, id, h, dateOf); }
    case GroupsTransaction(ls, uuids) =>
      if |ls| == |uuids| { GroupsKeep(s, ls, uuids); }
  }

  lemma {:induction false} GroupsKeepIds(s: Records, ls: seq<NewsModel.Listed>, uuids: seq<string>)
    requires |ls| == |uuids|
    ensures Ids(s.(groups := TakeGroups(s.groups, ls, uuids))) == Ids(s)
  {
  }

  /** Over every sequence of transactions: ids and names stay unique, no record goes, and an
      article's entries, in the list of its own group only, are what the transaction that made it
      left: two for a batch of ids, one for a header. */
  lemma {:induction false} EveryRunKeepsStore(s: Records, ts: seq<Transaction>, dateOf: string -> Option<int>)
    requires StoreOk(s)
    ensures Kept(s, CommitAll(s, ts, dateOf))
    decreases |ts|
  {
    hide Entries, Commit, StoreOk, Ids;
    if ts != [] {
      CommitKeeps(s, ts[0], dateOf);
      EveryRunKeepsStore(Commit(s, ts[0], dateOf), ts[1..], dateOf);
    }
  }

  /** No transaction removes one of two articles with one id. */
  lemma {:induction false} DuplicatesStay(s: Records, ts: seq<Transaction>, dateOf: string -> Option<int>, id: string)
    ensures |Matches(CommitAll(s, ts, dateOf).articles, id, 0)| >= |Matches(s.articles, id, 0)|
    decreases |ts|
  {
    hide Matches, Commit;
    if ts != [] {
      CommitGrows(s, ts[0], dateOf);
      MatchesGrow(s, Commit(s, ts[0], dateOf), id, 0);
      DuplicatesStay(Commit(s, ts[0], dateOf), ts[1..], dateOf, id);
    }
  }

  lemma {:induction false} CommitGrows(s: Records, t: Transaction, dateOf: string -> Option<int>)
    ensures IdsGrow(s, Commit(s, t, dateOf))
  {
    hide TakeIds, TakeGroups, Matches;
    if t.IdsTransaction? && t.group < |s.groups| {
      BatchGrows(s, t.group, t.ids);
    }
  }

  // ----- the store object -----

  class ReaderBox {
    var groups: seq<Group>
    var articles: seq<Article>

    constructor ()
      ensures State() == Records([], []) && StoreOk(State())
    {
      groups, articles := [], [];
    }

    ghost function State(): Records
      reads this
    {
      Records(groups, articles)
    }

    /** The filter of a query: all articles with the id. */
    method ArticlesWithId(id: string) returns (found: seq<nat>)
      ensures found == Matches(articles, id, 0)
    {
      hide Matches;
      found := [];
      var i := 0;
      ghost var all := Matches(articles, id, 0);
      while i < |articles|
        invariant 0 <= i <= |articles| && found + Matches(articles, id, i) == all
      {
        MatchesNext(found, articles, id, i);
        if articles[i].id == id {
          found := found + [i];
        }
        i := i + 1;
      }
      MatchesEnd(articles, id);
      assert found + [] == found;
    }

    method FindOrCreateGroupArticle(g: nat, id: string) returns (a: nat, isNew: bool)
      requires g < |groups|
      modifies this
      ensures (State(), a, isNew) == FindOrCreate(old(State()), g, id)
    {
      var found := ArticlesWithId(id);
      if |found| == 1 {
        return found[0], false;
      }
      a, isNew := |articles|, true;
      groups := Enter(groups, g, a);
      articles := articles + [Article(g, id, Some(""), Some(""), None, None)];
    }

    method FindOrCreateGroup(name: string, uuid: string) returns (n: nat, isNew: bool)
      modifies this`groups
      ensures n < |groups| && isNew == FindGroup(old(groups), name, 0).None?
      ensures isNew ==> n == |old(groups)| && groups == old(groups) + [Group(uuid, name, None, None, None, [])]
      ensures !isNew ==> Some(n) == FindGroup(old(groups), name, 0) && groups == old(groups)
    {
      n := 0;
      while n < |groups|
        invariant 0 <= n <= |groups| && FindGroup(groups, name, n) == FindGroup(groups, name, 0)
      {
        if groups[n].name == name {
          return n, false;
        }
        n := n + 1;
      }
      groups := groups + [Group(uuid, name, None, None, None, [])];
      isNew := true;
    }

    /** The batch of ids of LISTGROUP, in one transaction. */
    method AddArticleIds(g: nat, ids: seq<string>) returns (newArticles: seq<nat>)
      requires g < |groups|
      modifies this
      ensures State() == TakeIds(old(State()), g, ids)
      ensures |articles| == |old(articles)| + |newArticles|
      ensures forall k | 0 <= k < |newArticles| :: newArticles[k] == |old(articles)| + k
    {
      hide FindOrCreate;
      newArticles := [];
      var i := 0;
      assert ids[0..] == ids;
      while i < |ids|
        invariant 0 <= i <= |ids| && g < |groups|
        invariant TakeIds(State(), g, ids[i..]) == TakeIds(old(State()), g, ids)
        invariant |articles| == |old(articles)| + |newArticles|
        invariant forall k | 0 <= k < |newArticles| :: newArticles[k] == |old(articles)| + k
      {
        assert ids[i..][0] == ids[i] && ids[i..][1..] == ids[i + 1..];
        CreatedIsLast(State(), g, ids[i]);
        var a, isNew := FindOrCreateGroupArticle(g, ids[i]);
        if isNew {
          newArticles := newArticles + [a];
          groups := Enter(groups, g, a);
        }
        i := i + 1;
      }
    }

    /** One header, in one transaction. */
    method AddHeader(g: nat, id: string, h: Header, dateOf: string -> Option<int>)
      requires g < |groups|
      modifies this
      ensures State() == TakeHeader(old(State()), g, id, h, dateOf)
    {
      var a, _ := FindOrCreateGroupArticle(g, id);
      var article := articles[a].(subject := Lookup(h, "Subject"), contentType := Lookup(h, "Content-Type"));
      if "Bytes" in h {
        var bytes := Counters.IntOf(h["Bytes"]);
        article := article.(size := Some(if bytes.Some? then bytes.value else 0));
      }
      if "Date" in h {
        var date := dateOf(h["Date"]);
        if date.Some? {
          article := article.(date := date);
        }
      }
      if "X-Received-Bytes" in h {
        var bytes := Counters.IntOf(h["X-Received-Bytes"]);
        article := article.(size := Some(if bytes.Some? then bytes.value else 0));
      }
      articles := articles[a := article];
    }

    /** The groups of LIST, in one transaction. */
    method AddGroups(ls: seq<NewsModel.Listed>, uuids: seq<string>)
      requires |ls| == |uuids|
      modifies this`groups
      ensures groups == TakeGroups(old(groups), ls, uuids)
    {
      var i := 0;
      assert ls[0..] == ls && uuids[0..] == uuids;
      while i < |ls|
        invariant 0 <= i <= |ls|
        invariant TakeGroups(groups, ls[i..], uuids[i..]) == TakeGroups(old(groups), ls, uuids)
      {
        assert ls[i..][0] == ls[i] && ls[i..][1..] == ls[i + 1..];
        assert uuids[i..][0] == uuids[i] && uuids[i..][1..] == uuids[i + 1..];
        var n, _ := FindOrCreateGroup(ls[i].name, uuids[i]);
        groups := groups[n := groups[n].(first := Some(ls[i].first), last := Some(ls[i].last),
                                                canPost := Some(ls[i].canPost))];
        i := i + 1;
      }
    }
  }

  lemma {:induction false} CreatedIsLast(s: Records, g: nat, id: string)
    requires g < |s.groups|
    ensures var (s', a, isNew) := FindOrCreate(s, g, id);
            && (isNew ==> a == |s.articles|) && |s'.articles| == |s.articles| + (if isNew then 1 else 0)
  {
  }
}
