/** The view model itself: objects that are shared and updated in place, proved to take exactly
    the steps of the grouping index. */
module ArticlesTable {
  import opened Wrappers
  import opened Counters
  import opened Articles

  class ArticleVM {
    var id: string
    var subject: string
    var contentType: string
    /** The number of the call that this view object is made for. */
    ghost const arrival: nat

    constructor (id: string, subject: string, contentType: string, ghost arrival: nat)
      ensures Value() == Art(id, subject, contentType) && this.arrival == arrival
    {
      this.id, this.subject, this.contentType, this.arrival := id, subject, contentType, arrival;
    }

    ghost function Value(): Art
      reads this
    {
      Art(id, subject, contentType)
    }
  }

  class ArticleOutlineVM {
    var article: ArticleVM
    var children: seq<ArticleVM>
    /** The arrival number of its article. */
    ghost const token: nat

    constructor (article: ArticleVM)
      ensures this.article == article && children == [article] && token == article.arrival
    {
      this.article, children, token := article, [article], article.arrival;
    }
  }

  /** The arrival numbers of some articles. */
  ghost function Tokens(s: seq<ArticleVM>): (ts: seq<nat>)
    ensures |ts| == |s| && forall i | 0 <= i < |s| :: ts[i] == s[i].arrival
  {
    seq(|s|, i requires 0 <= i < |s| => s[i].arrival)
  }

  lemma {:induction false} TokensConcat(s: seq<ArticleVM>, t: seq<ArticleVM>)
    ensures Tokens(s + t) == Tokens(s) + Tokens(t)
  {
  }

  lemma {:induction false} TakeOut(s: seq<ArticleVM>, x: ArticleVM)
    returns (before: seq<ArticleVM>, after: seq<ArticleVM>)
    requires x in s
    ensures s == before + ([x] + after)
    ensures multiset(before + after) == multiset(s) - multiset{x}
  {
    var i :| 0 <= i < |s| && s[i] == x;
    before, after := s[..i], s[i+1..];
    assert s == before + ([x] + after);
  }

  /** A permutation of articles permutes their arrival numbers. */
  lemma {:induction false} TokensPermute(s: seq<ArticleVM>, s': seq<ArticleVM>)
    requires multiset(s) == multiset(s')
    ensures multiset(Tokens(s)) == multiset(Tokens(s'))
  {
    hide Tokens;
    if s == [] {
      assert |s'| == |multiset(s')| == 0;
    } else {
      var x := s[0];
      assert s == [x] + s[1..];
      assert x in multiset(s');
      var before, after := TakeOut(s', x);
      assert multiset(s[1..]) == multiset(s) - multiset{x};
      TokensPermute(s[1..], before + after);
      TokensConcat(before, after);
      TokensConcat([x], after);
      TokensConcat(before, [x] + after);
      TokensConcat([x], s[1..]);
    }
  }

  ghost predicate NumberSorted(s: seq<ArticleVM>)
    reads s
  {
    forall i, j | 0 <= i < j < |s| :: FileNumber(s[i].subject) <= FileNumber(s[j].subject)
  }

  function Insert(s: seq<ArticleVM>, k: nat, x: ArticleVM): (r: seq<ArticleVM>)
    requires k <= |s|
    ensures |r| == |s| + 1 && forall j | 0 <= j < |r| :: r[j] == if j < k then s[j] else if j == k then x else s[j-1]
    ensures multiset(r) == multiset(s) + multiset{x}
  {
    assert s == s[..k] + s[k..];
    s[..k] + [x] + s[k..]
  }

  method InsertByNumber(s: seq<ArticleVM>, x: ArticleVM) returns (r: seq<ArticleVM>)
    requires NumberSorted(s)
    ensures multiset(r) == multiset(s) + multiset{x} && NumberSorted(r)
  {
    hide FileNumber;
    var k := |s|;
    while k > 0 && FileNumber(s[k-1].subject) > FileNumber(x.subject)
      invariant 0 <= k <= |s|
      invariant forall j | k <= j < |s| :: FileNumber(x.subject) < FileNumber(s[j].subject)
    {
      k := k - 1;
    }
    r := Insert(s, k, x);
  }

  /** The sort of the children; only its contract is used. */
  method SortByNumber(s: seq<ArticleVM>) returns (sorted: seq<ArticleVM>)
    ensures multiset(sorted) == multiset(s) && NumberSorted(sorted)
  {
    sorted := [];
    var i := 0;
    while i < |s|
      invariant 0 <= i <= |s|
      invariant multiset(sorted) == multiset(s[..i]) && NumberSorted(sorted)
    {
      assert s[..i+1] == s[..i] + [s[i]];
      sorted := InsertByNumber(sorted, s[i]);
      i := i + 1;
    }
    assert s[..i] == s;
  }

  class ArticlesTableVM {
    var articleCache: map<string, ArticleOutlineVM>
    var displayedCache: map<string, string>
    var articles: seq<ArticleOutlineVM>

    /** Every article ever added, by arrival number, and every outline made. */
    ghost var arrived: seq<ArticleVM>
    ghost var made: set<ArticleOutlineVM>

    /** The parts of the state as the grouping index sees it. */
    ghost var arts: seq<Art>
    ghost var cache: map<string, nat>
    ghost var displayed: set<string>
    ghost var rows: seq<nat>
    ghost var kids: map<nat, seq<nat>>

    ghost function Model(): Table
      reads this
    {
      Table(arts, cache, displayed, rows, kids)
    }

    ghost predicate Arrived(s: seq<ArticleVM>)
      reads `arrived
    {
      forall i | 0 <= i < |s| :: s[i].arrival < |arrived| && arrived[s[i].arrival] == s[i]
    }

    ghost predicate ArtsMatch()
      reads `arrived, `arts, arrived
    {
      |arts| == |arrived| && forall i | 0 <= i < |arrived| :: arrived[i].arrival == i && arrived[i].Value() == arts[i]
    }

    ghost predicate CachesMatch()
      reads `articleCache, `displayedCache, `cache, `displayed, `made
    {
      && articleCache.Keys == cache.Keys && displayedCache.Keys == displayed
      && forall c | c in articleCache :: articleCache[c] in made && articleCache[c].token == cache[c]
    }

    ghost predicate RowsMatch()
      reads `articles, `rows, `made
    {
      |articles| == |rows| && forall i | 0 <= i < |articles| :: articles[i] in made && articles[i].token == rows[i]
    }

    ghost predicate OutlineMatches(o: ArticleOutlineVM)
      reads `arrived, `kids, o
    {
      && o.token < |arrived| && o.article == arrived[o.token]
      && o.token in kids && Tokens(o.children) == kids[o.token] && Arrived(o.children)
    }

    ghost predicate OutlinesMatch()
      reads `made, `kids, `arrived, made
    {
      && (forall o | o in made :: OutlineMatches(o))
      && (forall o, p | o in made && p in made && o.token == p.token :: o == p)
      && (forall v | v in kids :: v < |arrived| && Within(kids[v], |arrived|))
    }

    ghost predicate Valid()
      reads this, made, arrived
    {
      ArtsMatch() && CachesMatch() && RowsMatch() && OutlinesMatch()
    }

    constructor ()
      ensures Valid() && Model() == EMPTY && arrived == []
    {
      articleCache, displayedCache, articles := map[], map[], [];
      arrived, made, arts, cache, displayed, rows, kids := [], {}, [], map[], {}, [], map[];
    }

    lemma {:induction false} ModelIsWellFormed()
      requires Valid()
      ensures WellFormed(Model())
    {
      forall c | c in cache ensures cache[c] in kids {
        assert OutlineMatches(articleCache[c]);
      }
    }

    /** Lines 41-43: a cached outline of the same id takes over subject and content type. */
    method Refresh(article: ArticleVM)
      requires Valid() && article.arrival == |arrived|
      modifies `arts, `arrived, arrived
      ensures Valid() && WellFormed(old(Model())) && |old(arrived)| !in kids
      ensures |old(arts)| == |old(arrived)| && |arts| == |arrived|
      ensures Model() == Arrive(old(Model()), old(article.Value()))
      ensures arrived == old(arrived) + [article] && article.Value() == old(article.Value())
    {
      ModelIsWellFormed();
      assert |arrived| !in kids;
      hide ArtsMatch, OutlinesMatch, RowsMatch, WellFormed;
      Enroll(article);
      if article.id in articleCache {
        OursArticle(articleCache[article.id]);
        TakeOver(articleCache[article.id], article);
      }
    }

    lemma {:induction false} OursArticle(o: ArticleOutlineVM)
      requires OutlinesMatch() && o in made
      ensures o.token < |arrived| && o.article == arrived[o.token]
    {
      assert OutlineMatches(o);
    }

    method TakeOver(cArticle: ArticleOutlineVM, article: ArticleVM)
      requires Valid() && cArticle in made && article in arrived
      requires cArticle.token < |arrived| && cArticle.article == arrived[cArticle.token]
      modifies `arts, cArticle.article
      ensures Valid()
      ensures old(cArticle.token < |arts|) && arts == old(arts)[cArticle.token :=
                old(arts[cArticle.token].(subject := article.subject, contentType := article.contentType))]
      ensures article != old(cArticle.article) ==> article.Value() == old(article.Value())
    {
      hide CachesMatch, RowsMatch;
      ghost var subject, contentType := article.subject, article.contentType;
      cArticle.article.contentType := article.contentType;
      cArticle.article.subject := article.subject;
      arts := arts[cArticle.token := arts[cArticle.token].(subject := subject, contentType := contentType)];
    }

    ghost method Enroll(article: ArticleVM)
      requires Valid() && article.arrival == |arrived|
      modifies `arts, `arrived
      ensures Valid() && arrived == old(arrived) + [article] && arts == old(arts) + [article.Value()]
    {
      arts, arrived := arts + [article.Value()], arrived + [article];
      forall o | o in made ensures OutlineMatches(o) {
        assert old(OutlineMatches(o));
      }
    }

    /** A new outline for the article that arrived last. */
    method MakeOutline(article: ArticleVM) returns (vm: ArticleOutlineVM)
      requires Valid() && arrived != [] && article == arrived[|arrived| - 1] && |arrived| - 1 !in kids
      requires article.arrival == |arrived| - 1
      modifies `made, `kids
      ensures Valid() && fresh(vm) && made == old(made) + {vm}
      ensures vm in made && vm.token == |arrived| - 1
      ensures kids == old(kids)[|arrived| - 1 := [|arrived| - 1]]
    {
      hide ArtsMatch;
      ghost var t := |arrived| - 1;
      vm := new ArticleOutlineVM(article);
      assert Tokens(vm.children) == [t];
      made := made + {vm};
      kids := kids[t := [t]];
      forall o | o in made ensures OutlineMatches(o) {
        if o != vm { assert old(OutlineMatches(o)); }
      }
    }

    lemma {:induction false} SortedTokens(s: seq<ArticleVM>)
      requires ArtsMatch() && Arrived(s) && NumberSorted(s)
      ensures Within(Tokens(s), |arts|) && SortedBy(arts, Tokens(s))
    {
      hide FileNumber;
      forall i | 0 <= i < |s| ensures arts[s[i].arrival].subject == s[i].subject {
        assert arrived[s[i].arrival].Value() == arts[s[i].arrival];
      }
    }

    lemma {:induction false} ArrivedPermutes(s: seq<ArticleVM>, s': seq<ArticleVM>)
      requires Arrived(s) && multiset(s) == multiset(s')
      ensures Arrived(s')
    {
      forall i | 0 <= i < |s'| ensures s'[i].arrival < |arrived| && arrived[s'[i].arrival] == s'[i] {
        assert s'[i] in multiset(s');
        assert s'[i] in s;
      }
    }

    method SetChildren(o: ArticleOutlineVM, children: seq<ArticleVM>)
      requires Valid() && o in made && Arrived(children)
      modifies `kids, o`children
      ensures Valid() && o.children == children && o.token in old(kids)
      ensures kids == old(kids)[o.token := Tokens(children)]
    {
      hide CachesMatch, RowsMatch;
      o.children := children;
      kids := kids[o.token := Tokens(children)];
    }

    lemma {:induction false} OursChildren(o: ArticleOutlineVM)
      requires OutlinesMatch() && o in made
      ensures o.token in kids && kids[o.token] == Tokens(o.children) && Arrived(o.children)
    {
      assert OutlineMatches(o);
    }

    lemma {:induction false} TokensWithin(s: seq<ArticleVM>)
      requires ArtsMatch() && Arrived(s)
      ensures Within(Tokens(s), |arts|)
    {
    }

    /** Lines 66-70: append and sort. */
    method Append(multiArticle: ArticleOutlineVM, article: ArticleVM)
      requires Valid() && multiArticle in made && Arrived([article])
      modifies `kids, multiArticle`children
      ensures Valid()
      ensures var v := multiArticle.token;
              && v in kids && v in old(kids)
              && Within(old(kids)[v], |arts|) && Within(old(kids)[v] + [article.arrival], |arts|)
              && Sorts(arts, old(kids)[v] + [article.arrival], kids[v])
              && kids == old(kids)[v := kids[v]]
    {
      hide Key, FileNumber, CachesMatch, RowsMatch, ArtsMatch, NumberSorted;
      OursChildren(multiArticle);
      hide OutlinesMatch;
      var longer := multiArticle.children + [article];
      assert Arrived(longer) by { assert [article][0] == article; }
      TokensConcat(multiArticle.children, [article]);
      assert Tokens([article]) == [article.arrival];
      var sorted := SortByNumber(longer);
      TokensPermute(longer, sorted);
      ArrivedPermutes(longer, sorted);
      TokensWithin(multiArticle.children);
      TokensWithin(longer);
      SortedTokens(sorted);
      SetChildren(multiArticle, sorted);
    }

    /** Lines 72-74 and 79-81: a row of its own, also found under its id. */
    method AddRow(article: ArticleVM) returns (vm: ArticleOutlineVM)
      requires Valid() && arrived != [] && article == arrived[|arrived| - 1] && |arrived| - 1 !in kids
      requires article.arrival == |arrived| - 1
      modifies `made, `kids, `articleCache, `cache, `articles, `rows
      ensures Valid() && vm in made && vm.token == |arrived| - 1 && fresh(made - old(made))
      ensures Model() == NewRow(old(Model()), article.Value(), |arrived| - 1)
    {
      hide ArtsMatch, OutlinesMatch;
      vm := MakeOutline(article);
      articleCache, cache := articleCache[article.id := vm], cache[article.id := vm.token];
      articles, rows := articles + [vm], rows + [vm.token];
    }

    method Remember(key: string, vm: ArticleOutlineVM)
      requires Valid() && vm in made
      modifies `articleCache, `cache
      ensures Valid() && cache == old(cache)[key := vm.token]
    {
      hide ArtsMatch, OutlinesMatch, RowsMatch;
      articleCache, cache := articleCache[key := vm], cache[key := vm.token];
    }

    lemma {:induction false} CacheKeys()
      requires CachesMatch()
      ensures articleCache.Keys == cache.Keys && displayedCache.Keys == displayed
      ensures forall c | c in articleCache :: articleCache[c] in made && articleCache[c].token == cache[c]
    {
    }

    method MarkDisplayed(id: string)
      requires Valid()
      modifies `displayedCache, `displayed
      ensures Valid() && displayed == old(displayed) + {id}
    {
      hide ArtsMatch, OutlinesMatch, RowsMatch;
      displayedCache, displayed := displayedCache[id := id], displayed + {id};
    }

    /** Lines 55-82: the article joins the row of its key or opens a row. */
    method ShowArticle(article: ArticleVM)
      requires Valid()
      requires arrived != [] && article == arrived[|arrived| - 1] && |arrived| - 1 !in kids
      requires article.arrival == |arrived| - 1
      requires |arrived| == |arts|
      modifies `displayedCache, `displayed, `made, `kids, `articleCache, `cache, `articles, `rows, made
      ensures Valid() && fresh(made - old(made))
      ensures Show(old(Model()), article.Value(), |arrived| - 1, Model())
    {
      hide Key, FileNumber, ArtsMatch, OutlinesMatch, RowsMatch, CachesMatch, Sorts, WellFormed;
      ghost var a, t, T1 := article.Value(), |arrived| - 1, Model();
      MarkDisplayed(article.id);
      CacheKeys();
      ghost var T2 := Model();
      assert T2 == T1.(displayed := T1.displayed + {a.id});
      var key := Key(article.subject);
      if key.Some? {
        if key.value in articleCache {
          Append(articleCache[key.value], article);
          assert Model() == T2.(kids := T2.kids[T2.cache[key.value] := kids[T2.cache[key.value]]]);
        } else {
          var vm := AddRow(article);
          Remember(key.value, vm);
          assert Model() == NewRow(T2, a, t).(cache := NewRow(T2, a, t).cache[key.value := t]);
        }
      } else {
        var vm := AddRow(article);
      }
    }

    /** Lines 48-53: an article without a subject is remembered by its id. */
    method KeepBlank(article: ArticleVM)
      requires Valid() && arrived != [] && article == arrived[|arrived| - 1] && |arrived| - 1 !in kids
      requires article.arrival == |arrived| - 1
      modifies `made, `kids, `articleCache, `cache
      ensures Valid() && fresh(made - old(made))
      ensures var t, T1 := |arrived| - 1, old(Model());
              Model() == T1.(cache := T1.cache[article.id := t], kids := T1.kids[t := [t]])
    {
      hide ArtsMatch, OutlinesMatch, RowsMatch, CachesMatch;
      var vm := MakeOutline(article);
      Remember(article.id, vm);
    }

    /** One call takes exactly one step of the grouping index. Every call is given a view object
        of its own. */
    method AddArticle(article: ArticleVM)
      requires Valid() && article.arrival == |arrived|
      modifies this, made, arrived
      ensures Valid() && fresh(made - old(made))
      ensures arrived == old(arrived) + [article] && article.Value() == old(article.Value())
      ensures WellFormed(old(Model())) && Add(old(Model()), old(article.Value()), Model())
    {
      hide Key, FileNumber, ArtsMatch, OutlinesMatch, RowsMatch, CachesMatch, Show, WellFormed;
      Refresh(article);
      CacheKeys();
      if article.id in articleCache && article.id in displayedCache {
        return;
      }
      if article.subject == "" {
        KeepBlank(article);
        return;
      }
      ShowArticle(article);
    }
  }

  /** Any calls at all, each with a view object of its own, make a run of the grouping index. */
  method Replay(adds: seq<Art>) returns (table: ArticlesTableVM, ghost ts: seq<Table>)
    ensures table.Valid() && Run(adds, ts) && table.Model() == ts[|adds|]
  {
    hide Key, FileNumber, Add;
    table := new ArticlesTableVM();
    ts := [EMPTY];
    var i := 0;
    while i < |adds|
      invariant 0 <= i <= |adds| && |ts| == i + 1
      invariant fresh(table) && fresh(table.made) && (forall j | 0 <= j < |table.arrived| :: fresh(table.arrived[j]))
      invariant table.Valid() && |table.arrived| == i
      invariant ts[0] == EMPTY && table.Model() == ts[i]
      invariant forall j | 0 <= j <= i :: WellFormed(ts[j])
      invariant forall j | 0 <= j < i :: Add(ts[j], adds[j], ts[j+1])
    {
      var article := new ArticleVM(adds[i].id, adds[i].subject, adds[i].contentType, i);
      table.AddArticle(article);
      table.ModelIsWellFormed();
      ts := ts + [table.Model()];
      i := i + 1;
    }
  }
}
