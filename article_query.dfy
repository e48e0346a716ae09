/** The article listing: an optional tag filter and author filter over the
    articles table, newest first, then an optional offset and limit. */
module ArticleQuery {
  import opened Common
  import opened Entities

  /** The query-string parameters of a listing. A parameter that is absent, an
      empty string or the number 0 is falsy and is ignored. */
  datatype ListQuery = ListQuery(
    tag: Option<string>,
    author: Option<string>,
    limit: Option<nat>,
    offset: Option<nat>)

  datatype ArticlesPage = ArticlesPage(articles: seq<Article>, articlesCount: nat)

  predicate TruthyText(p: Option<string>) { p.Some? && p.value != "" }
  predicate TruthyNumber(p: Option<nat>) { p.Some? && p.value != 0 }

  /** The filters a listing resolves to: a tag pattern and an author id. */
  datatype Criteria = Criteria(tag: Option<string>, authorId: Option<int>)

  predicate Keeps(c: Criteria, a: Article)
  {
    && (c.tag.Some? ==> Contains(JoinTags(a.tagList), c.tag.value))
    && (c.authorId.Some? ==> a.authorId == c.authorId.value)
  }

  /** The articles a filter keeps, in table order. */
  function Select(table: seq<Article>, c: Criteria): (r: seq<Article>)
    ensures forall a :: a in r ==> a in table && Keeps(c, a)
    ensures forall a :: multiset(r)[a] == if Keeps(c, a) then multiset(table)[a] else 0
  {
    if table == [] then []
    else
      assert table == [table[0]] + table[1..];
      if Keeps(c, table[0]) then [table[0]] + Select(table[1..], c)
      else Select(table[1..], c)
  }

  /** Newest first: `createdAt` never increases along the sequence. */
  predicate NewestFirst(s: seq<Article>)
  {
    forall i, j :: 0 <= i < j < |s| ==> s[i].createdAt >= s[j].createdAt
  }

  /** An article no older than every article of a newest-first sequence can lead it. */
  lemma PrependNewest(x: Article, s: seq<Article>)
    requires NewestFirst(s)
    requires forall y :: y in s ==> x.createdAt >= y.createdAt
    ensures NewestFirst([x] + s)
  {
    forall i, j | 0 <= i < j < |[x] + s| ensures ([x] + s)[i].createdAt >= ([x] + s)[j].createdAt {
      if i > 0 {
        assert ([x] + s)[i] == s[i - 1] && ([x] + s)[j] == s[j - 1];
      } else {
        assert ([x] + s)[j] == s[j - 1];
        assert s[j - 1] in s;
      }
    }
  }

  /** The first article of a newest-first sequence is no older than any of it. */
  lemma HeadIsNewest(s: seq<Article>)
    requires NewestFirst(s) && s != []
    ensures forall y :: y in s ==> s[0].createdAt >= y.createdAt
  {
    forall y | y in s ensures s[0].createdAt >= y.createdAt {
      var m :| 0 <= m < |s| && s[m] == y;
    }
  }

  /** Puts `a` in front of the first article that is not newer than it, so an
      article dated the same as `a` stays behind it. */
  function InsertByDate(a: Article, s: seq<Article>): (r: seq<Article>)
    requires NewestFirst(s)
    ensures NewestFirst(r)
    ensures forall x :: x in r <==> x in s || x == a
    ensures multiset(r) == multiset(s) + multiset{a}
  {
    if s == [] || a.createdAt >= s[0].createdAt then
      PrependNewest(a, s);
      [a] + s
    else
      var rest := InsertByDate(a, s[1..]);
      assert s == [s[0]] + s[1..];
      HeadIsNewest(s);
      PrependNewest(s[0], rest);
      [s[0]] + rest
  }

  /** The order the listing returns: newest first, ties in table order. */
  function SortNewestFirst(s: seq<Article>): (r: seq<Article>)
    ensures NewestFirst(r)
    ensures forall x :: x in r <==> x in s
    ensures multiset(r) == multiset(s)
  {
    if s == [] then []
    else
      assert s == [s[0]] + s[1..];
      InsertByDate(s[0], SortNewestFirst(s[1..]))
  }

  /** Skips `offset` articles, then keeps at most `limit`; a falsy parameter
      leaves its side unrestricted. */
  function Window(s: seq<Article>, offset: Option<nat>, limit: Option<nat>): (r: seq<Article>)
    ensures var skip := if TruthyNumber(offset) then offset.value else 0;
      && (skip <= |s| ==> r <= s[skip..])
      && (skip > |s| ==> r == [])
      && (TruthyNumber(limit) ==> |r| == (if skip > |s| then 0 else Min(limit.value, |s| - skip)))
      && (!TruthyNumber(limit) ==> r == (if skip > |s| then [] else s[skip..]))
    ensures forall x :: x in r ==> x in s
    ensures NewestFirst(s) ==> NewestFirst(r)
  {
    var rest := if TruthyNumber(offset) then (if offset.value <= |s| then s[offset.value..] else []) else s;
    var r := if TruthyNumber(limit) && limit.value < |rest| then rest[..limit.value] else rest;
    assert forall k :: 0 <= k < |r| ==> r[k] == s[|s| - |rest| + k];
    r
  }

  function Min(x: int, y: int): int { if x <= y then x else y }

  /** The author filter can be resolved: absent, or naming a known user. */
  predicate AuthorResolves(users: map<string, User>, query: ListQuery)
  {
    TruthyText(query.author) ==> query.author.value in users
  }

  /** The filters of a listing, its author resolved to that user's id. */
  function CriteriaOf(users: map<string, User>, query: ListQuery): (c: Criteria)
    requires AuthorResolves(users, query)
    ensures c.tag.Some? <==> TruthyText(query.tag)
    ensures c.authorId.Some? <==> TruthyText(query.author)
    ensures c.tag.Some? ==> c.tag.value == query.tag.value
    ensures c.authorId.Some? ==> c.authorId.value == users[query.author.value].id
  {
    Criteria(
      if TruthyText(query.tag) then query.tag else None,
      if TruthyText(query.author) then Some(users[query.author.value].id) else None)
  }

  /** The articles the filters of a listing keep, in table order. */
  function Matching(articles: seq<Article>, users: map<string, User>, query: ListQuery): seq<Article>
    requires AuthorResolves(users, query)
  {
    Select(articles, CriteriaOf(users, query))
  }

  /** The listing: resolve the author filter, filter, order newest first, then
      apply the window. Looking up an unknown author is not guarded in the
      service: the missing user is dereferenced and the request fails. The
      count is that of the filtered articles, before the window. */
  function FindAll(articles: seq<Article>, users: map<string, User>, query: ListQuery): (r: Result<ArticlesPage>)
    ensures r.Err? <==> !AuthorResolves(users, query)
    ensures r.Err? ==> r.error == AuthorNotFound
    ensures r.Ok? ==>
      && NewestFirst(r.value.articles)
      && (forall a :: a in r.value.articles ==> a in articles)
      && (TruthyText(query.tag) ==> forall a :: a in r.value.articles ==>
            Contains(JoinTags(a.tagList), query.tag.value))
      && (TruthyText(query.author) ==> forall a :: a in r.value.articles ==>
            a.authorId == users[query.author.value].id)
      && (TruthyNumber(query.limit) ==> |r.value.articles| <= query.limit.value)
  {
    if !AuthorResolves(users, query) then Err(AuthorNotFound)
    else
      var kept := Matching(articles, users, query);
      Ok(ArticlesPage(Window(SortNewestFirst(kept), query.offset, query.limit), |kept|))
  }

  /** Without a truthy limit or offset the listing holds every article the
      filters keep, each as often as in the table, and nothing else. */
  lemma ListingIsComplete(articles: seq<Article>, users: map<string, User>, query: ListQuery)
    requires AuthorResolves(users, query)
    requires !TruthyNumber(query.limit) && !TruthyNumber(query.offset)
    ensures var page := FindAll(articles, users, query).value.articles;
      forall a :: multiset(page)[a] ==
        if (TruthyText(query.tag) ==> Contains(JoinTags(a.tagList), query.tag.value))
           && (TruthyText(query.author) ==> a.authorId == users[query.author.value].id)
        then multiset(articles)[a] else 0
  {
    var c := CriteriaOf(users, query);
    var ordered := SortNewestFirst(Select(articles, c));
    assert Window(ordered, query.offset, query.limit) == ordered;
  }

  /** Cutting a newest-first sequence in two leaves the newer part in front. */
  lemma CutNewestFirst(s: seq<Article>, n: nat)
    requires NewestFirst(s) && n <= |s|
    ensures multiset(s) == multiset(s[..n]) + multiset(s[n..])
    ensures forall x, y :: x in s[..n] && y in s[n..] ==> x.createdAt >= y.createdAt
  {
    assert s == s[..n] + s[n..];
    forall x, y | x in s[..n] && y in s[n..] ensures x.createdAt >= y.createdAt {
      var i :| 0 <= i < n && s[..n][i] == x;
      var j :| 0 <= j < |s| - n && s[n..][j] == y;
      assert s[i] == x && s[n + j] == y;
    }
  }

  /** A truthy offset skips the newest matching articles: the page holds the
      rest of them, and every skipped one is at least as new as every one shown. */
  lemma OffsetSkipsNewest(articles: seq<Article>, users: map<string, User>, query: ListQuery)
    requires AuthorResolves(users, query)
    requires TruthyNumber(query.offset) && !TruthyNumber(query.limit)
    ensures var page := FindAll(articles, users, query).value.articles;
      var matching := Matching(articles, users, query);
      && |page| == (if query.offset.value <= |matching| then |matching| - query.offset.value else 0)
      && multiset(page) <= multiset(matching)
      && forall x, y :: x in multiset(matching) - multiset(page) && y in page ==> x.createdAt >= y.createdAt
  {
    var matching := Matching(articles, users, query);
    var ordered := SortNewestFirst(matching);
    var o := query.offset.value;
    var page := Window(ordered, query.offset, query.limit);
    FindAllPage(articles, users, query);
    assert |multiset(ordered)| == |multiset(matching)|;
    if o <= |ordered| {
      assert page == ordered[o..];
      CutNewestFirst(ordered, o);
      assert multiset(matching) == multiset(ordered[..o]) + multiset(page);
      assert multiset(matching) - multiset(page) == multiset(ordered[..o]);
    } else {
      assert page == [];
    }
  }

  /** The first `n` articles of a newest-first ordering of `matching` are no
      older than any of the matching articles left out. */
  lemma FrontIsNewest(matching: seq<Article>, ordered: seq<Article>, n: nat)
    requires NewestFirst(ordered) && multiset(ordered) == multiset(matching) && n <= |ordered|
    ensures multiset(ordered[..n]) <= multiset(matching)
    ensures forall x, y :: x in ordered[..n] && y in multiset(matching) - multiset(ordered[..n]) ==>
      x.createdAt >= y.createdAt
  {
    CutNewestFirst(ordered, n);
    assert multiset(matching) - multiset(ordered[..n]) == multiset(ordered[n..]);
  }

  /** A truthy limit keeps the newest matching articles: at most `limit` of
      them, and every one shown is at least as new as every one left out. */
  lemma LimitKeepsNewest(articles: seq<Article>, users: map<string, User>, query: ListQuery)
    requires AuthorResolves(users, query)
    requires TruthyNumber(query.limit) && !TruthyNumber(query.offset)
    ensures var page := FindAll(articles, users, query).value.articles;
      var matching := Matching(articles, users, query);
      && |page| == Min(query.limit.value, |matching|)
      && multiset(page) <= multiset(matching)
      && forall x, y :: x in page && y in multiset(matching) - multiset(page) ==> x.createdAt >= y.createdAt
  {
    var matching := Matching(articles, users, query);
    var ordered := SortNewestFirst(matching);
    assert |multiset(ordered)| == |multiset(matching)|;
    var n := Min(query.limit.value, |ordered|);
    FindAllPage(articles, users, query);
    assert Window(ordered, query.offset, query.limit) == ordered[..n];
    FrontIsNewest(matching, ordered, n);
  }

  /** Unfolds a resolvable listing into its window of the ordered matches. */
  lemma FindAllPage(articles: seq<Article>, users: map<string, User>, query: ListQuery)
    requires AuthorResolves(users, query)
    ensures FindAll(articles, users, query).Ok?
    ensures FindAll(articles, users, query).value.articles
      == Window(SortNewestFirst(Matching(articles, users, query)), query.offset, query.limit)
  {
  }

  /** With both parameters truthy, the window is a slice: at most `limit`
      articles, starting right after the first `offset`. */
  lemma WindowIsSlice(s: seq<Article>, offset: Option<nat>, limit: Option<nat>)
    requires TruthyNumber(offset) && TruthyNumber(limit)
    ensures offset.value <= |s| ==>
      Window(s, offset, limit) == s[offset.value..][..Min(limit.value, |s| - offset.value)]
    ensures offset.value > |s| ==> Window(s, offset, limit) == []
  {
  }

  /** With both a truthy offset and a truthy limit, the page is the run of the
      newest-first matching articles that starts after the first `offset` and
      holds at most `limit` of them. */
  lemma OffsetThenLimit(articles: seq<Article>, users: map<string, User>, query: ListQuery)
    requires AuthorResolves(users, query)
    requires TruthyNumber(query.offset) && TruthyNumber(query.limit)
    ensures var page := FindAll(articles, users, query).value.articles;
      var ordered := SortNewestFirst(Matching(articles, users, query));
      && (query.offset.value <= |ordered| ==>
            page == ordered[query.offset.value..][..Min(query.limit.value, |ordered| - query.offset.value)])
      && (query.offset.value > |ordered| ==> page == [])
  {
    FindAllPage(articles, users, query);
    WindowIsSlice(SortNewestFirst(Matching(articles, users, query)), query.offset, query.limit);
  }
}
