/** What the records hold after a transaction: the fields of an article that a header describes, of
    an article that is new, and of the groups that were listed. */
module StoreFields {
  import opened Wrappers
  import Counters
  import NewsModel
  import opened Store

  // ----- a header -----

  /** The article with the id, after its header: subject and content type are the ones given or none;
      every other article keeps all its fields; there is one more article if and only if the id was
      not there. */
  lemma {:induction false} HeaderSetsTexts(
      s: Records, g: nat, id: string, h: Header, dateOf: string -> Option<int>, a: nat)
    requires g < |s.groups| && UniqueIds(s) && a < |TakeHeader(s, g, id, h, dateOf).articles|
    ensures var s' := TakeHeader(s, g, id, h, dateOf);
            && |s'.articles| == |s.articles| + (if id in Ids(s) then 0 else 1)
            && (exists b :: 0 <= b < |s'.articles| && s'.articles[b].id == id)
            && (s'.articles[a].id != id ==> a < |s.articles| && s'.articles[a] == s.articles[a])
            && (s'.articles[a].id == id ==>
                  && s'.articles[a].subject == (if "Subject" in h then Some(h["Subject"]) else None)
                  && s'.articles[a].contentType == (if "Content-Type" in h then Some(h["Content-Type"]) else None)
                  && s'.articles[a].group == (if a < |s.articles| then s.articles[a].group else g))
  {
    hide SizeOf, DateIn, UniqueIds, Ids;
    Touched(s, g, id);
    var b := FindOrCreate(s, g, id).1;
    assert TakeHeader(s, g, id, h, dateOf).articles[b].id == id;
  }

  /** Which article is meant: the one with the id, or the new one behind all others. */
  lemma {:induction false} Touched(s: Records, g: nat, id: string)
    requires g < |s.groups| && UniqueIds(s)
    ensures var (s', b, isNew) := FindOrCreate(s, g, id);
            && isNew == (id !in Ids(s)) && (isNew ==> b == |s.articles|) && s'.articles[b].id == id
            && (forall c | 0 <= c < |s'.articles| && s'.articles[c].id == id :: c == b)
            && s'.articles == s.articles + (if isNew then [Article(g, id, Some(""), Some(""), None, None)] else [])
  {
    FindOrCreateFinds(s, g, id);
    var (s', b, isNew) := FindOrCreate(s, g, id);
    forall c | 0 <= c < |s'.articles| && s'.articles[c].id == id ensures c == b {
      assert s'.articles[c].id == s'.articles[b].id;
      assert c < b || b < c || c == b;
    }
    assert isNew ==> b == |s.articles|;
    assert s.articles + [] == s.articles;
  }

  /** Its size: the number that the received bytes give, else the bytes; a text that is no number
      counts as 0; without either the size stays, and a new article has none. */
  lemma {:induction false} HeaderSetsSize(
      s: Records, g: nat, id: string, h: Header, dateOf: string -> Option<int>, a: nat)
    requires g < |s.groups| && UniqueIds(s) && a < |TakeHeader(s, g, id, h, dateOf).articles|
    requires TakeHeader(s, g, id, h, dateOf).articles[a].id == id
    ensures var size := TakeHeader(s, g, id, h, dateOf).articles[a].size;
            && ("X-Received-Bytes" in h ==> Counts(size, h["X-Received-Bytes"]))
            && ("X-Received-Bytes" !in h && "Bytes" in h ==> Counts(size, h["Bytes"]))
            && ("X-Received-Bytes" !in h && "Bytes" !in h ==>
                  size == if a < |s.articles| then s.articles[a].size else None)
  {
    hide DateIn, UniqueIds, Ids;
    Touched(s, g, id);
  }

  predicate Counts(size: Option<int>, text: string) {
    && size.Some?
    && (Counters.IntOf(text).Some? ==> size == Counters.IntOf(text))
    && (Counters.IntOf(text).None? ==> size == Some(0))
  }

  /** A size that is written in decimal is the number written, if it fits 64 bits. */
  lemma {:induction false} DecimalSize(
      s: Records, g: nat, id: string, h: Header, dateOf: string -> Option<int>, a: nat, n: nat)
    requires g < |s.groups| && UniqueIds(s) && a < |TakeHeader(s, g, id, h, dateOf).articles|
    requires TakeHeader(s, g, id, h, dateOf).articles[a].id == id
    requires if "X-Received-Bytes" in h then h["X-Received-Bytes"] == Counters.Decimal(n)
             else "Bytes" in h && h["Bytes"] == Counters.Decimal(n)
    ensures TakeHeader(s, g, id, h, dateOf).articles[a].size == Some(if n <= Counters.INT_MAX then n as int else 0)
  {
    hide TakeHeader, UniqueIds;
    HeaderSetsSize(s, g, id, h, dateOf, a);
    Counters.DecimalReadsBack(n);
    var d := Counters.Decimal(n);
    assert Counters.IsDigit(d[0]) && Counters.AllDigits(d);
  }

  /** Its date: the one given, if there is one and it can be read; otherwise it stays, and a new
      article has none. */
  lemma {:induction false} HeaderSetsDate(
      s: Records, g: nat, id: string, h: Header, dateOf: string -> Option<int>, a: nat)
    requires g < |s.groups| && UniqueIds(s) && a < |TakeHeader(s, g, id, h, dateOf).articles|
    requires TakeHeader(s, g, id, h, dateOf).articles[a].id == id
    ensures var date := TakeHeader(s, g, id, h, dateOf).articles[a].date;
            && ("Date" in h && dateOf(h["Date"]).Some? ==> date == dateOf(h["Date"]))
            && ("Date" !in h || dateOf(h["Date"]).None? ==>
                  date == if a < |s.articles| then s.articles[a].date else None)
  {
    hide SizeOf, UniqueIds, Ids;
    Touched(s, g, id);
  }

  // ----- a batch of ids -----

  /** A batch leaves every article that is there as it is. The new ones come after them, belong to
      the group, have an id of the batch and no other field: the texts are empty, size and date
      absent. */
  lemma {:induction false} BatchArticles(s: Records, g: nat, ids: seq<string>)
    requires g < |s.groups|
    ensures var s' := TakeIds(s, g, ids);
            && s.articles <= s'.articles
            && forall a | |s.articles| <= a < |s'.articles| ::
                 && s'.articles[a].id in ids
                 && s'.articles[a] == Article(g, s'.articles[a].id, Some(""), Some(""), None, None)
    decreases |ids|
  {
    if ids != [] {
      var s1 := TakeId(s, g, ids[0]);
      BatchArticles(s1, g, ids[1..]);
      hide TakeIds, Matches;
      var s' := TakeIds(s1, g, ids[1..]);
      forall a | |s.articles| <= a < |s'.articles|
        ensures s'.articles[a].id in ids
        ensures s'.articles[a] == Article(g, s'.articles[a].id, Some(""), Some(""), None, None)
      {
        if a < |s1.articles| {
          assert s'.articles[a] == s1.articles[a];
          assert s1.articles[a] == Article(g, ids[0], Some(""), Some(""), None, None);
        } else {
          assert s'.articles[a].id in ids[1..];
        }
      }
    }
  }

  /** Two batches are one: ids are taken in order, each after those before it. */
  lemma {:induction false} BatchesCompose(s: Records, g: nat, a: seq<string>, b: seq<string>)
    requires g < |s.groups|
    ensures TakeIds(s, g, a + b) == TakeIds(TakeIds(s, g, a), g, b)
    decreases |a|
  {
    hide TakeId;
    if a == [] {
      assert a + b == b;
    } else {
      assert (a + b)[0] == a[0] && (a + b)[1..] == a[1..] + b;
      BatchesCompose(TakeId(s, g, a[0]), g, a[1..], b);
    }
  }

  /** The list of the group goes on with the new articles, in order, each two times in a row. */
  lemma {:induction false} BatchGoesOnTheList(s: Records, g: nat, ids: seq<string>)
    requires g < |s.groups|
    ensures var s' := TakeIds(s, g, ids);
            var list, list' := s.groups[g].articles, s'.groups[g].articles;
            && |s.articles| <= |s'.articles| && list <= list'
            && |list'| == |list| + 2 * (|s'.articles| - |s.articles|)
            && forall k | |list| <= k < |list'| :: list'[k] == |s.articles| + (k - |list|) / 2
    decreases |ids|
  {
    if ids != [] {
      var s1 := TakeId(s, g, ids[0]);
      OneGoesOnTheList(s, g, ids[0]);
      BatchGoesOnTheList(s1, g, ids[1..]);
      hide TakeIds, TakeId;
      var s' := TakeIds(s1, g, ids[1..]);
      var list, list1, list' := s.groups[g].articles, s1.groups[g].articles, s'.groups[g].articles;
      forall k | |list| <= k < |list'| ensures list'[k] == |s.articles| + (k - |list|) / 2 {
        if k < |list1| {
          assert list'[k] == list1[k];
        } else {
          assert (k - |list|) / 2 == (k - |list1|) / 2 + (|s1.articles| - |s.articles|);
        }
      }
    }
  }

  lemma {:induction false} OneGoesOnTheList(s: Records, g: nat, id: string)
    requires g < |s.groups|
    ensures var s' := TakeId(s, g, id);
            || s' == s
            || (|s'.articles| == |s.articles| + 1
                && s'.groups[g].articles == s.groups[g].articles + [|s.articles|, |s.articles|])
  {
    hide Matches;
    var list, n := s.groups[g].articles, |s.articles|;
    assert list + [n] + [n] == list + [n, n];
  }

  /** A header that makes an article puts it at the end of that list. */
  lemma {:induction false} HeaderGoesOnTheList(s: Records, g: nat, id: string, h: Header, dateOf: string -> Option<int>)
    requires g < |s.groups|
    ensures var s' := TakeHeader(s, g, id, h, dateOf);
            s'.groups[g].articles ==
              s.groups[g].articles + (if |s'.articles| > |s.articles| then [|s.articles|] else [])
  {
    hide Matches, SizeOf, DateIn;
    assert s.groups[g].articles + [] == s.groups[g].articles;
  }

  // ----- a batch of groups -----

  /** The last listing of a name. */
  function LastListing(ls: seq<NewsModel.Listed>, name: string): Option<NewsModel.Listed> {
    if ls == [] then None
    else if ls[|ls| - 1].name == name then Some(ls[|ls| - 1])
    else LastListing(ls[..|ls| - 1], name)
  }

  lemma {:induction false} FirstListing(ls: seq<NewsModel.Listed>, name: string)
    requires ls != []
    ensures LastListing(ls, name) == if LastListing(ls[1..], name).Some? then LastListing(ls[1..], name)
                                     else if ls[0].name == name then Some(ls[0]) else None
    decreases |ls|
  {
    if |ls| > 1 {
      FirstListing(ls[..|ls| - 1], name);
      assert ls[..|ls| - 1][1..] == ls[1..][..|ls| - 2];
    }
  }

  /** One listing: the group of that name takes it over, or is made with it; no other changes. */
  lemma {:induction false} ListingIsTaken(groups: seq<Group>, l: NewsModel.Listed, uuid: string)
    requires UniqueNames(groups)
    ensures var gs := TakeGroup(groups, l, uuid);
            && |groups| <= |gs| <= |groups| + 1
            && (forall i | 0 <= i < |groups| :: groups[i].name == l.name ==> |gs| == |groups|)
            && forall i | 0 <= i < |gs| ::
                 if i >= |groups| then
                   gs[i] == Group(uuid, l.name, Some(l.first), Some(l.last), Some(l.canPost), [])
                 else if groups[i].name == l.name then
                   gs[i] == Group(groups[i].id, l.name, Some(l.first), Some(l.last), Some(l.canPost),
                                  groups[i].articles)
                 else gs[i] == groups[i]
  {
  }

  /** After a batch the group of each listed name has first and last number and posting flag of its
      last listing; a group whose name is not listed is as it was. */
  lemma {:induction false} GroupsHoldLastListing(
      groups: seq<Group>, ls: seq<NewsModel.Listed>, uuids: seq<string>, i: nat)
    requires |ls| == |uuids| && UniqueNames(groups) && i < |TakeGroups(groups, ls, uuids)|
    ensures |groups| <= |TakeGroups(groups, ls, uuids)|
    ensures var group := TakeGroups(groups, ls, uuids)[i];
            var last := LastListing(ls, group.name);
            && (last.Some? ==> && group.first == Some(last.value.first) && group.last == Some(last.value.last)
                               && group.canPost == Some(last.value.canPost))
            && (last.None? ==> i < |groups| && group == groups[i])
            && (i < |groups| ==> group.name == groups[i].name && group.id == groups[i].id
                                 && group.articles == groups[i].articles)
            && (i >= |groups| ==> group.articles == [])
    decreases |ls|
  {
    hide TakeGroup, UniqueNames, FindGroup;
    if ls != [] {
      var g1 := TakeGroup(groups, ls[0], uuids[0]);
      TakeGroupKeeps(groups, ls[0], uuids[0]);
      ListingIsTaken(groups, ls[0], uuids[0]);
      GroupsHoldLastListing(g1, ls[1..], uuids[1..], i);
      FirstListing(ls, TakeGroups(groups, ls, uuids)[i].name);
    }
  }

  /** Two batches of groups are one. */
  lemma {:induction false} ListingsCompose(
      groups: seq<Group>, a: seq<NewsModel.Listed>, ua: seq<string>, b: seq<NewsModel.Listed>, ub: seq<string>)
    requires |a| == |ua| && |b| == |ub|
    ensures TakeGroups(groups, a + b, ua + ub) == TakeGroups(TakeGroups(groups, a, ua), b, ub)
    decreases |a|
  {
    hide TakeGroup;
    if a == [] {
      assert a + b == b && ua + ub == ub;
    } else {
      assert (a + b)[1..] == a[1..] + b && (ua + ub)[1..] == ua[1..] + ub;
      ListingsCompose(TakeGroup(groups, a[0], ua[0]), a[1..], ua[1..], b, ub);
    }
  }
}
