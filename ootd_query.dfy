/** OotdQueryServiceImpl: the community feed with keyset pagination, the monthly list of
    the hard-coded member, and the random similar-weather ootds. */
module OotdQuery {
  import opened Wrappers
  import opened Errors
  import opened Text
  import opened Hashtags
  import opened OotdStore

  /** The member the monthly and similar queries are hard-coded to. */
  const HardCodedMember: nat := 1

  /** The largest Java int. */
  const IntMax: int := 0x7fff_ffff

  /** Lookups outside the tables: a member's nickname, and the S3 presigned URL of a key. */
  datatype Lookups = Lookups(nickname: nat -> string, presign: string -> string)

  /** getOotdDTO as the feed fills it. */
  datatype Item = Item(id: nat, nickname: string, image: Option<string>, hashtags: seq<string>, createdAt: DateTime)

  /** getCommunityOotdListDTO. */
  datatype Feed = Feed(items: seq<Item>, nextCursor: Option<nat>, hasNext: bool)

  /** Every tag row's category has a Korean name. */
  ghost predicate ValidTags(tags: seq<TagRow>, catalogue: Catalogue) {
    forall k | 0 <= k < |tags| :: tags[k].hashtag.category < |catalogue|
  }

  /** The Korean names of a list of categories. */
  function KoreanNames(catalogue: Catalogue, cs: seq<nat>): (r: seq<string>)
    requires forall i | 0 <= i < |cs| :: cs[i] < |catalogue|
    ensures |r| == |cs| && forall i | 0 <= i < |cs| :: r[i] == catalogue[cs[i]]
  {
    seq(|cs|, i requires 0 <= i < |cs| => catalogue[cs[i]])
  }

  /** The categories of ootd id among the first n tag rows, in row order. */
  function CategoriesUpTo(tags: seq<TagRow>, n: nat, id: nat): (r: seq<nat>)
    requires n <= |tags|
    ensures forall c | c in r :: exists k | 0 <= k < n :: tags[k].hashtag.category == c
  {
    if n == 0 then []
    else if tags[n - 1].ootd == id then CategoriesUpTo(tags, n - 1, id) + [tags[n - 1].hashtag.category]
    else CategoriesUpTo(tags, n - 1, id)
  }

  /** The Korean names of ootd id's categories among the first n tag rows. */
  function TagNamesUpTo(tags: seq<TagRow>, catalogue: Catalogue, n: nat, id: nat): (r: seq<string>)
    requires n <= |tags| && ValidTags(tags, catalogue)
  {
    var cs := CategoriesUpTo(tags, n, id);
    assert forall i | 0 <= i < |cs| :: cs[i] < |catalogue| by {
      forall i | 0 <= i < |cs| ensures cs[i] < |catalogue| {
        assert cs[i] in cs;
        var k :| 0 <= k < |tags| && tags[k].hashtag.category == cs[i];
      }
    }
    KoreanNames(catalogue, cs)
  }

  /** The item's hashtags: the Korean names of the ootd's categories, in row order; none for
      an ootd without hashtags. */
  function TagNames(tags: seq<TagRow>, catalogue: Catalogue, id: nat): (r: seq<string>)
    requires ValidTags(tags, catalogue)
  {
    TagNamesUpTo(tags, catalogue, |tags|, id)
  }

  /** One more tag row adds its name to its own ootd's list only. */
  lemma TagNamesStep(tags: seq<TagRow>, catalogue: Catalogue, n: nat, id: nat)
    requires n < |tags| && ValidTags(tags, catalogue)
    ensures TagNamesUpTo(tags, catalogue, n + 1, id)
      == TagNamesUpTo(tags, catalogue, n, id) + (if tags[n].ootd == id then [catalogue[tags[n].hashtag.category]] else [])
  {
  }

  /** findCategoriesByOotdIds: the tag rows among the first n whose ootd is in ids. */
  function TagViews(tags: seq<TagRow>, n: nat, ids: set<nat>): (r: seq<TagRow>)
    requires n <= |tags|
    ensures forall k | 0 <= k < |r| :: r[k].ootd in ids && r[k] in tags[..n]
  {
    if n == 0 then []
    else if tags[n - 1].ootd in ids then TagViews(tags, n - 1, ids) + [tags[n - 1]]
    else TagViews(tags, n - 1, ids)
  }

  /** The categories of the first n rows depend only on those rows. */
  lemma {:induction false} CategoriesPrefix(s: seq<TagRow>, t: seq<TagRow>, n: nat, id: nat)
    requires n <= |s| && n <= |t| && s[..n] == t[..n]
    ensures CategoriesUpTo(s, n, id) == CategoriesUpTo(t, n, id)
  {
    if n > 0 {
      assert s[n - 1] == s[..n][n - 1] == t[n - 1];
      assert s[..n - 1] == s[..n][..n - 1];
      assert t[..n - 1] == t[..n][..n - 1];
      CategoriesPrefix(s, t, n - 1, id);
    }
  }

  /** Restricting the tag rows to a set of ootds keeps each of those ootds' categories. */
  lemma {:induction false} TagViewsKeepCategories(tags: seq<TagRow>, n: nat, ids: set<nat>, id: nat)
    requires n <= |tags| && id in ids
    ensures CategoriesUpTo(TagViews(tags, n, ids), |TagViews(tags, n, ids)|, id) == CategoriesUpTo(tags, n, id)
  {
    if n > 0 {
      TagViewsKeepCategories(tags, n - 1, ids, id);
      var v := TagViews(tags, n - 1, ids);
      if tags[n - 1].ootd in ids {
        var v' := v + [tags[n - 1]];
        assert v'[..|v|] == v[..|v|];
        CategoriesPrefix(v', v, |v|, id);
      }
    }
  }

  /** The item's image: a presigned URL for a stored non-blank key, otherwise none. */
  function ImageOf(images: map<nat, string>, presign: string -> string, id: nat): (r: Option<string>)
    ensures r.Some? <==> id in images && !IsBlank(images[id])
    ensures r.Some? ==> r.value == presign(images[id])
  {
    if id in images && !IsBlank(images[id]) then Some(presign(images[id])) else None
  }

  /** One feed item per page row. */
  function ItemOf(o: Ootd, images: map<nat, string>, tags: seq<TagRow>, catalogue: Catalogue, lookups: Lookups): Item
    requires ValidTags(tags, catalogue)
  {
    Item(o.id, lookups.nickname(o.member), ImageOf(images, lookups.presign, o.id), TagNames(tags, catalogue, o.id), o.createdAt)
  }

  /** The items of a page, in page order. */
  function ItemsOf(page: seq<Ootd>, images: map<nat, string>, tags: seq<TagRow>, catalogue: Catalogue, lookups: Lookups): (r: seq<Item>)
    requires ValidTags(tags, catalogue)
    ensures |r| == |page| && forall i | 0 <= i < |page| :: r[i].id == page[i].id
  {
    seq(|page|, i requires 0 <= i < |page| => ItemOf(page[i], images, tags, catalogue, lookups))
  }

  /** The categories the feed filters by: none for a missing or empty tag list, otherwise
      every tag parsed. */
  function FeedCategories(catalogue: Catalogue, koreanTags: Option<seq<Option<string>>>): (r: Result<seq<nat>, Failure>)
    ensures (koreanTags.None? || koreanTags.value == []) ==> r == Ok([])
    ensures koreanTags.Some? && koreanTags.value != [] ==> r == ParseAll(catalogue, koreanTags.value)
  {
    if koreanTags.None? || koreanTags.value == [] then Ok([]) else ParseCategoryList(catalogue, koreanTags)
  }

  /** The filter of the page query: the category queries only for a non-empty list. */
  function FilterOf(categories: seq<nat>): (f: Option<set<nat>>)
    ensures f.None? <==> categories == []
    ensures f.Some? ==> forall c :: c in f.value <==> c in categories
  {
    if categories == [] then None else Some(set c | c in categories)
  }

  /** size + 1 as a Java int, which wraps around at the largest int. */
  function PageSizeOf(size: int): (p: int)
    requires -IntMax - 1 <= size <= IntMax
    ensures -IntMax - 1 <= p <= IntMax
    ensures p >= 1 <==> 0 <= size < IntMax
    ensures 0 <= size < IntMax ==> p == size + 1
  {
    if size == IntMax then -IntMax - 1 else size + 1
  }

  /** getCommunityOotds, as a function of the tables: parse the tags, ask for size + 1 rows
      (PageRequest refuses a page size below one), keep size of them, and build the items. */
  function CommunityFeed(rows: seq<Ootd>, tags: seq<TagRow>, images: map<nat, string>, catalogue: Catalogue,
                         lookups: Lookups, cursor: Option<int>, size: int, koreanTags: Option<seq<Option<string>>>): (r: Result<Feed, Failure>)
    requires -IntMax - 1 <= size <= IntMax
    requires ValidTags(tags, catalogue)
    ensures FeedCategories(catalogue, koreanTags).Err? ==> r == Err(FeedCategories(catalogue, koreanTags).error)
    ensures FeedCategories(catalogue, koreanTags).Ok? ==> (r.Err? <==> size < 0 || size == IntMax)
    ensures FeedCategories(catalogue, koreanTags).Ok? && r.Err? ==> r.error == RuntimeErr(IllegalArgument)
    ensures r.Ok? ==> |r.value.items| <= size && (r.value.items == [] ==> r.value.nextCursor.None? && !r.value.hasNext)
  {
    match FeedCategories(catalogue, koreanTags)
    case Err(e) => Err(e)
    case Ok(categories) =>
      var pageSize := PageSizeOf(size);
      if pageSize < 1 then Err(RuntimeErr(IllegalArgument))
      else Ok(FeedOfPage(Page(rows, tags, cursor, FilterOf(categories), pageSize), size, images, tags, catalogue, lookups))
  }

  /** The feed built from the size + 1 rows fetched: hasNext when more than size came back,
      the rows cut to size, and the cursor set to the last item's id only when there is a
      next page. */
  function FeedOfPage(page: seq<Ootd>, size: nat, images: map<nat, string>, tags: seq<TagRow>, catalogue: Catalogue,
                      lookups: Lookups): (f: Feed)
    requires ValidTags(tags, catalogue)
    ensures |f.items| <= size && (f.items == [] ==> f.nextCursor.None? && !f.hasNext)
  {
    var hasNext := |page| > size;
    var kept := if hasNext then page[..size] else page;
    if kept == [] then Feed([], None, false)
    else
      var items := ItemsOf(kept, images, tags, catalogue, lookups);
      Feed(items, if hasNext then Some(items[|items| - 1].id) else None, hasNext)
  }

  /** A successful feed is the first size selected rows, in descending id order; hasNext
      holds exactly when size is positive and more rows are selected, and then the cursor
      is the last item's id. */
  lemma {:induction false} CommunityFeedPage(rows: seq<Ootd>, tags: seq<TagRow>, images: map<nat, string>, catalogue: Catalogue,
                                             lookups: Lookups, cursor: Option<int>, size: int, koreanTags: Option<seq<Option<string>>>)
    requires -IntMax - 1 <= size <= IntMax
    requires ValidTags(tags, catalogue)
    requires CommunityFeed(rows, tags, images, catalogue, lookups, cursor, size, koreanTags).Ok?
    ensures var feed := CommunityFeed(rows, tags, images, catalogue, lookups, cursor, size, koreanTags).value;
      var m := Matching(rows, tags, cursor, FilterOf(FeedCategories(catalogue, koreanTags).value), |rows|);
      && 0 <= size
      && feed.items == ItemsOf(Take(m, size), images, tags, catalogue, lookups)
      && (feed.hasNext <==> 0 < size < |m|)
      && (feed.hasNext ==> feed.nextCursor == Some(m[size - 1].id))
      && (!feed.hasNext ==> feed.nextCursor.None?)
  {
    var m := Matching(rows, tags, cursor, FilterOf(FeedCategories(catalogue, koreanTags).value), |rows|);
    var page := Take(m, size + 1);
    if |page| > size {
      assert page[..size] == Take(m, size);
    } else {
      assert page == Take(m, size);
    }
  }

  /** Following nextCursor continues the feed: the next call's items are the rows right
      after the current ones, so the two calls together list the first 2 * size rows. */
  lemma CommunityFeedContinues(rows: seq<Ootd>, tags: seq<TagRow>, images: map<nat, string>, catalogue: Catalogue,
                               lookups: Lookups, cursor: Option<int>, size: int, koreanTags: Option<seq<Option<string>>>)
    requires -IntMax - 1 <= size <= IntMax
    requires ValidTags(tags, catalogue) && Ascending(rows)
    requires CommunityFeed(rows, tags, images, catalogue, lookups, cursor, size, koreanTags).Ok?
    requires CommunityFeed(rows, tags, images, catalogue, lookups, cursor, size, koreanTags).value.hasNext
    ensures var feed := CommunityFeed(rows, tags, images, catalogue, lookups, cursor, size, koreanTags).value;
      var next := CommunityFeed(rows, tags, images, catalogue, lookups, Some(feed.nextCursor.value), size, koreanTags);
      var m := Matching(rows, tags, cursor, FilterOf(FeedCategories(catalogue, koreanTags).value), |rows|);
      && next.Ok?
      && feed.items + next.value.items == ItemsOf(Take(m, 2 * size), images, tags, catalogue, lookups)
  {
    var feed := CommunityFeed(rows, tags, images, catalogue, lookups, cursor, size, koreanTags).value;
    var filter := FilterOf(FeedCategories(catalogue, koreanTags).value);
    var m := Matching(rows, tags, cursor, filter, |rows|);
    CommunityFeedPage(rows, tags, images, catalogue, lookups, cursor, size, koreanTags);
    var x := m[size - 1].id;
    assert Page(rows, tags, cursor, filter, size) == Take(m, size);
    PagesContinue(rows, tags, cursor, filter, size, size);
    var m2 := Matching(rows, tags, Some(x), filter, |rows|);
    assert Take(m, size) + Take(m2, size) == Take(m, 2 * size);
    var next := CommunityFeed(rows, tags, images, catalogue, lookups, Some(x), size, koreanTags);
    CommunityFeedPage(rows, tags, images, catalogue, lookups, Some(x), size, koreanTags);
    ItemsOfAppend(Take(m, size), Take(m2, size), images, tags, catalogue, lookups);
  }

  /** Items of two pages are the items of the pages joined. */
  lemma ItemsOfAppend(a: seq<Ootd>, b: seq<Ootd>, images: map<nat, string>, tags: seq<TagRow>, catalogue: Catalogue, lookups: Lookups)
    requires ValidTags(tags, catalogue)
    ensures ItemsOf(a, images, tags, catalogue, lookups) + ItemsOf(b, images, tags, catalogue, lookups)
      == ItemsOf(a + b, images, tags, catalogue, lookups)
  {
  }

  /** getOrDefault(id, List.of()) on the hashtag map. */
  function NamesOr(hashtagMap: map<nat, seq<string>>, id: nat): seq<string> {
    if id in hashtagMap then hashtagMap[id] else []
  }

  /** presignedUrlMap.get(id). */
  function UrlOr(presigned: map<nat, string>, id: nat): Option<string> {
    if id in presigned then Some(presigned[id]) else None
  }

  /** The first loop of getCommunityOotds: a presigned URL for each id whose stored key is
      non-blank. */
  method PresignedUrls(ootdIds: seq<nat>, images: map<nat, string>, presign: string -> string)
    returns (presigned: map<nat, string>)
    ensures forall j | 0 <= j < |ootdIds| :: UrlOr(presigned, ootdIds[j]) == ImageOf(images, presign, ootdIds[j])
  {
    presigned := map[];
    var i := 0;
    while i < |ootdIds|
      invariant 0 <= i <= |ootdIds|
      invariant forall id | id in presigned :: ImageOf(images, presign, id) == Some(presigned[id])
      invariant forall j | 0 <= j < i :: UrlOr(presigned, ootdIds[j]) == ImageOf(images, presign, ootdIds[j])
    {
      var id := ootdIds[i];
      if id in images && !IsBlank(images[id]) {
        presigned := presigned[id := presign(images[id])];
      }
      i := i + 1;
    }
  }

  /** The second loop of getCommunityOotds: computeIfAbsent(ootdId, new list).add(name) for
      each tag view, so each ootd maps to its Korean names in view order. */
  method GroupNames(views: seq<TagRow>, catalogue: Catalogue) returns (hashtagMap: map<nat, seq<string>>)
    requires ValidTags(views, catalogue)
    ensures forall id :: NamesOr(hashtagMap, id) == TagNames(views, catalogue, id)
  {
    hashtagMap := map[];
    var i := 0;
    while i < |views|
      invariant 0 <= i <= |views|
      invariant forall id :: NamesOr(hashtagMap, id) == TagNamesUpTo(views, catalogue, i, id)
    {
      var v := views[i];
      forall id ensures TagNamesUpTo(views, catalogue, i + 1, id)
        == TagNamesUpTo(views, catalogue, i, id) + (if v.ootd == id then [catalogue[v.hashtag.category]] else [])
      {
        TagNamesStep(views, catalogue, i, id);
      }
      var before := hashtagMap;
      hashtagMap := hashtagMap[v.ootd := NamesOr(hashtagMap, v.ootd) + [catalogue[v.hashtag.category]]];
      forall id ensures NamesOr(hashtagMap, id) == TagNamesUpTo(views, catalogue, i + 1, id) {
        if id != v.ootd {
          assert NamesOr(hashtagMap, id) == NamesOr(before, id);
        }
      }
      i := i + 1;
    }
  }

  /** The rest of getCommunityOotds once the page is cut: the two map-filling loops over
      the page's ids, then one item per row in page order. */
  method AssembleItems(page: seq<Ootd>, images: map<nat, string>, tags: seq<TagRow>, catalogue: Catalogue, lookups: Lookups)
    returns (items: seq<Item>)
    requires ValidTags(tags, catalogue)
    ensures items == ItemsOf(page, images, tags, catalogue, lookups)
  {
    var ootdIds := seq(|page|, k requires 0 <= k < |page| => page[k].id);
    var idSet := set id | id in ootdIds;
    var presigned := PresignedUrls(ootdIds, images, lookups.presign);
    var views := TagViews(tags, |tags|, idSet);
    assert ValidTags(views, catalogue) by {
      forall k | 0 <= k < |views| ensures views[k].hashtag.category < |catalogue| {
        assert tags[..|tags|] == tags;
        var j :| 0 <= j < |tags| && tags[j] == views[k];
      }
    }
    var hashtagMap := GroupNames(views, catalogue);
    items := seq(|page|, k requires 0 <= k < |page| =>
      Item(page[k].id, lookups.nickname(page[k].member), UrlOr(presigned, page[k].id),
           NamesOr(hashtagMap, page[k].id), page[k].createdAt));
    forall k | 0 <= k < |page|
      ensures items[k] == ItemOf(page[k], images, tags, catalogue, lookups)
    {
      assert ootdIds[k] == page[k].id;
      TagViewsKeepCategories(tags, |tags|, idSet, page[k].id);
    }
  }

  /** getCommunityOotds: parse the tags, fetch size + 1 rows of the page query, cut them to
      size, then fill the presigned-URL map and the hashtag map in two loops and map the
      rows to items. */
  method GetCommunityOotds(rows: seq<Ootd>, tags: seq<TagRow>, images: map<nat, string>, catalogue: Catalogue,
                           lookups: Lookups, cursor: Option<int>, size: int, koreanTags: Option<seq<Option<string>>>)
    returns (r: Result<Feed, Failure>)
    requires -IntMax - 1 <= size <= IntMax
    requires ValidTags(tags, catalogue)
    ensures r == CommunityFeed(rows, tags, images, catalogue, lookups, cursor, size, koreanTags)
  {
    var categories: seq<nat> := [];
    if koreanTags.Some? && koreanTags.value != [] {
      var parsed := ParseCategoryList(catalogue, koreanTags);
      if parsed.Err? {
        return Err(parsed.error);
      }
      categories := parsed.value;
    }
    assert FeedCategories(catalogue, koreanTags) == Ok(categories);
    var pageSize := PageSizeOf(size);
    if pageSize < 1 {
      return Err(RuntimeErr(IllegalArgument));
    }
    var page := Page(rows, tags, cursor, FilterOf(categories), pageSize);
    var feed := BuildFeed(page, size, images, tags, catalogue, lookups);
    r := Ok(feed);
  }

  /** The second half of getCommunityOotds: cut the fetched rows to size and assemble the
      items and the cursor. */
  method BuildFeed(page: seq<Ootd>, size: nat, images: map<nat, string>, tags: seq<TagRow>, catalogue: Catalogue,
                   lookups: Lookups)
    returns (feed: Feed)
    requires ValidTags(tags, catalogue)
    ensures feed == FeedOfPage(page, size, images, tags, catalogue, lookups)
  {
    var kept := page;
    var hasNext := |kept| > size;
    if hasNext {
      kept := kept[..size];
    }
    if kept == [] {
      return Feed([], None, false);
    }
    var items := AssembleItems(kept, images, tags, catalogue, lookups);
    var nextCursor := if hasNext then Some(items[|items| - 1].id) else None;
    feed := Feed(items, nextCursor, hasNext);
  }

  /** getMonthlyOotdDTO. */
  datatype MonthlyItem = MonthlyItem(id: nat, date: DateTime)

  /** getMonthlyOotds(year, month): the window first (a DateTimeException for a bad year or
      month), then the hard-coded member must exist, then the member's ootds in the window. */
  function MonthlyOotds(rows: seq<Ootd>, members: set<nat>, year: int, month: int): (r: Result<seq<MonthlyItem>, Failure>)
    ensures MonthWindow(year, month).Err? ==> r == Err(RuntimeErr(DateTimeOutOfRange))
    ensures MonthWindow(year, month).Ok? && HardCodedMember !in members ==> r == Err(OotdErr(OotdMemberNotFound))
    ensures r.Ok? <==> MonthWindow(year, month).Ok? && HardCodedMember in members
  {
    match MonthWindow(year, month)
    case Err(e) => Err(e)
    case Ok(window) =>
      if HardCodedMember !in members then Err(OotdErr(OotdMemberNotFound))
      else
        var found := InMonth(rows, HardCodedMember, window.0, window.1);
        Ok(seq(|found|, i requires 0 <= i < |found| => MonthlyItem(found[i].id, found[i].createdAt)))
  }

  /** The monthly list holds exactly the hard-coded member's ootds created in that calendar
      month up to 23:59:59.999 of its last day. */
  lemma MonthlyOotdsExact(rows: seq<Ootd>, members: set<nat>, year: int, month: int, o: Ootd)
    requires MonthlyOotds(rows, members, year, month).Ok?
    requires o in rows && ValidDateTime(o.createdAt)
    requires forall p | p in rows :: p.id == o.id ==> p == o
    ensures MonthlyItem(o.id, o.createdAt) in MonthlyOotds(rows, members, year, month).value <==>
      && o.member == HardCodedMember
      && o.createdAt.year == year && o.createdAt.month == month
      && !(o.createdAt.day == LengthOfMonth(year, month) && o.createdAt.hour == 23 && o.createdAt.minute == 59
           && o.createdAt.second == 59 && o.createdAt.nano > 999_000_000)
  {
    var window := MonthWindow(year, month).value;
    var found := InMonth(rows, HardCodedMember, window.0, window.1);
    var items := MonthlyOotds(rows, members, year, month).value;
    MonthWindowCovers(year, month, o.createdAt);
    if MonthlyItem(o.id, o.createdAt) in items {
      var i :| 0 <= i < |items| && items[i] == MonthlyItem(o.id, o.createdAt);
      assert found[i] in found;
      assert found[i] == o;
    }
    if o.member == HardCodedMember && Between(o.createdAt, window.0, window.1) {
      var i :| 0 <= i < |found| && found[i] == o;
      assert items[i] == MonthlyItem(o.id, o.createdAt);
    }
  }

  /** getSimilarOotdDTO. */
  datatype SimilarItem = SimilarItem(id: nat, image: Option<string>, hashtags: seq<string>)

  /** One similar row as the service maps it: a presigned URL for a non-blank key, and the
      aggregated category codes as they are stored. */
  function SimilarOf(o: Ootd, images: map<nat, string>, tags: seq<TagRow>, codes: Catalogue, presign: string -> string): SimilarItem
    requires ValidTags(tags, codes)
  {
    SimilarItem(o.id, ImageOf(images, presign, o.id), TagNames(tags, codes, o.id))
  }

  /** The rows the similar-weather query may return, before its random order and limit. */
  function SimilarCandidates(rows: seq<Ootd>, tags: seq<TagRow>, images: map<nat, string>,
                             minTemp: int, maxTemp: int, rain: bool): (c: set<Ootd>)
    ensures forall o :: o in c <==> o in rows && SimilarWeather(o, images, tags, HardCodedMember, minTemp, maxTemp, rain)
  {
    set o | o in rows && SimilarWeather(o, images, tags, HardCodedMember, minTemp, maxTemp, rain)
  }

  /** Distinct rows of a table with ascending ids have distinct ids. */
  lemma DistinctRowsDistinctIds(rows: seq<Ootd>, a: Ootd, b: Ootd)
    requires Ascending(rows) && a in rows && b in rows && a != b
    ensures a.id != b.id
  {
    var i :| 0 <= i < |rows| && rows[i] == a;
    var j :| 0 <= j < |rows| && rows[j] == b;
  }

  /** getRandomSimilarOotds(minTemp, maxTemp, rain): ORDER BY RANDOM() LIMIT 4 over the
      candidates, as four (or fewer) arbitrary picks without repetition. */
  method GetRandomSimilarOotds(rows: seq<Ootd>, tags: seq<TagRow>, images: map<nat, string>, codes: Catalogue,
                               presign: string -> string, minTemp: int, maxTemp: int, rain: bool)
    returns (items: seq<SimilarItem>)
    requires ValidTags(tags, codes) && Ascending(rows)
    ensures var c := SimilarCandidates(rows, tags, images, minTemp, maxTemp, rain);
      && |items| == (if |c| < 4 then |c| else 4)
      && (forall i | 0 <= i < |items| :: exists o | o in c :: items[i] == SimilarOf(o, images, tags, codes, presign))
      && (forall i, j | 0 <= i < j < |items| :: items[i].id != items[j].id)
  {
    var c := SimilarCandidates(rows, tags, images, minTemp, maxTemp, rain);
    var remaining := c;
    ghost var chosen: seq<Ootd> := [];
    items := [];
    while |items| < 4 && remaining != {}
      invariant remaining <= c && |items| == |chosen| && |chosen| + |remaining| == |c| && |items| <= 4
      invariant forall i | 0 <= i < |chosen| ::
        (chosen[i] in c && chosen[i] !in remaining && items[i] == SimilarOf(chosen[i], images, tags, codes, presign))
      invariant forall i, j | 0 <= i < j < |chosen| :: chosen[i] != chosen[j]
      decreases |remaining|
    {
      var o :| o in remaining;
      assert |remaining - {o}| == |remaining| - 1;
      items := items + [SimilarOf(o, images, tags, codes, presign)];
      chosen := chosen + [o];
      remaining := remaining - {o};
    }
    assert |items| == (if |c| < 4 then |c| else 4);
    forall i, j | 0 <= i < j < |items| ensures items[i].id != items[j].id {
      DistinctRowsDistinctIds(rows, chosen[i], chosen[j]);
    }
  }
}
