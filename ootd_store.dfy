/** The ootd tables and the queries of OotdRepository: the month range, the keyset pages
    with and without a category filter, and the similar-weather selection. Ids are
    assigned in increasing order, so a table is a sequence with ascending ids. */
module OotdStore {
  import opened Wrappers
  import opened Errors
  import opened Hashtags

  /** A LocalDateTime, field by field. */
  datatype DateTime = DateTime(year: int, month: int, day: int, hour: int, minute: int, second: int, nano: int)

  /** The ISO proleptic leap-year rule. */
  predicate IsLeap(year: int) {
    year % 4 == 0 && (year % 100 != 0 || year % 400 == 0)
  }

  /** lengthOfMonth for a month 1..12. */
  function LengthOfMonth(year: int, month: int): (n: int)
    ensures 28 <= n <= 31
    ensures month == 2 ==> (n == 29 <==> IsLeap(year))
  {
    if month == 2 then (if IsLeap(year) then 29 else 28)
    else if month == 4 || month == 6 || month == 9 || month == 11 then 30
    else 31
  }

  /** A date-time LocalDateTime can hold. */
  predicate ValidDateTime(d: DateTime) {
    && -999_999_999 <= d.year <= 999_999_999
    && 1 <= d.month <= 12 && 1 <= d.day <= LengthOfMonth(d.year, d.month)
    && 0 <= d.hour < 24 && 0 <= d.minute < 60 && 0 <= d.second < 60
    && 0 <= d.nano < 1_000_000_000
  }

  /** The chronological order of LocalDateTime (isBefore or equal). */
  predicate AtOrBefore(a: DateTime, b: DateTime) {
    a.year < b.year || (a.year == b.year &&
    (a.month < b.month || (a.month == b.month &&
    (a.day < b.day || (a.day == b.day &&
    (a.hour < b.hour || (a.hour == b.hour &&
    (a.minute < b.minute || (a.minute == b.minute &&
    (a.second < b.second || (a.second == b.second && a.nano <= b.nano)))))))))))
  }

  /** The closed interval of a JPQL BETWEEN. */
  predicate Between(d: DateTime, lo: DateTime, hi: DateTime) {
    AtOrBefore(lo, d) && AtOrBefore(d, hi)
  }

  /** getMonthlyOotds' window: LocalDateTime.of(year, month, 1, 0, 0, 0) to the last day of
      that month at 23:59:59.999; an out-of-range year or month is a DateTimeException. */
  function MonthWindow(year: int, month: int): (r: Result<(DateTime, DateTime), Failure>)
    ensures r.Err? <==> !(-999_999_999 <= year <= 999_999_999 && 1 <= month <= 12)
    ensures r.Err? ==> r.error == RuntimeErr(DateTimeOutOfRange)
    ensures r.Ok? ==> ValidDateTime(r.value.0) && ValidDateTime(r.value.1) && AtOrBefore(r.value.0, r.value.1)
  {
    if !(-999_999_999 <= year <= 999_999_999 && 1 <= month <= 12) then Err(RuntimeErr(DateTimeOutOfRange))
    else Ok((DateTime(year, month, 1, 0, 0, 0, 0),
             DateTime(year, month, LengthOfMonth(year, month), 23, 59, 59, 999_000_000)))
  }

  /** A valid date-time is in the window of (year, month) exactly when it falls in that month,
      except for the last 999999 nanoseconds of the month, which lie after 23:59:59.999. */
  lemma MonthWindowCovers(year: int, month: int, d: DateTime)
    requires MonthWindow(year, month).Ok? && ValidDateTime(d)
    ensures Between(d, MonthWindow(year, month).value.0, MonthWindow(year, month).value.1) <==>
      && d.year == year && d.month == month
      && !(d.day == LengthOfMonth(year, month) && d.hour == 23 && d.minute == 59 && d.second == 59
           && d.nano > 999_000_000)
  {
  }

  /** An ootd row. */
  datatype Ootd = Ootd(id: nat, member: nat, minTemperature: int, maxTemperature: int, isRain: bool,
                       humidity: int, weatherDescription: string, createdAt: DateTime)

  /** An ootd_hashtag row joined with its hashtag. */
  datatype TagRow = TagRow(ootd: nat, hashtag: Hashtag)

  /** Ids strictly increase along the table. */
  ghost predicate Ascending(rows: seq<Ootd>) {
    forall i, j | 0 <= i < j < |rows| :: rows[i].id < rows[j].id
  }

  /** Ids strictly decrease along a page. */
  ghost predicate Descending(page: seq<Ootd>) {
    forall i, j | 0 <= i < j < |page| :: page[i].id > page[j].id
  }

  /** findByMemberIdAndCreatedAtBetween: the member's ootds created in [start, end], in
      table order. */
  function InMonth(rows: seq<Ootd>, member: nat, start: DateTime, end: DateTime): (r: seq<Ootd>)
    ensures forall o | o in r :: o in rows && o.member == member && Between(o.createdAt, start, end)
    ensures forall o | o in rows && o.member == member && Between(o.createdAt, start, end) :: o in r
  {
    if rows == [] then []
    else
      var rest := InMonth(rows[1..], member, start, end);
      if rows[0].member == member && Between(rows[0].createdAt, start, end) then [rows[0]] + rest else rest
  }

  /** The exists-subquery of the category pages: some hashtag of the ootd is in cats. */
  predicate HasCategoryIn(tags: seq<TagRow>, id: nat, cats: set<nat>) {
    exists k | 0 <= k < |tags| :: tags[k].ootd == id && tags[k].hashtag.category in cats
  }

  /** The where-clause of the four page queries: below the cursor if there is one, and
      tagged with one of the categories if there is a filter. */
  predicate Selected(o: Ootd, tags: seq<TagRow>, cursor: Option<int>, filter: Option<set<nat>>) {
    (cursor.None? || o.id < cursor.value) && (filter.None? || HasCategoryIn(tags, o.id, filter.value))
  }

  /** The selected rows among the first n, in descending id order. */
  function Matching(rows: seq<Ootd>, tags: seq<TagRow>, cursor: Option<int>, filter: Option<set<nat>>, n: nat): (r: seq<Ootd>)
    requires n <= |rows|
    ensures |r| <= n
  {
    if n == 0 then []
    else if Selected(rows[n - 1], tags, cursor, filter) then [rows[n - 1]] + Matching(rows, tags, cursor, filter, n - 1)
    else Matching(rows, tags, cursor, filter, n - 1)
  }

  /** Matching holds exactly the selected rows among the first n. */
  lemma {:induction false} MatchingMembers(rows: seq<Ootd>, tags: seq<TagRow>, cursor: Option<int>, filter: Option<set<nat>>, n: nat)
    requires n <= |rows|
    ensures forall o | o in Matching(rows, tags, cursor, filter, n) ::
      Selected(o, tags, cursor, filter) && exists k | 0 <= k < n :: rows[k] == o
    ensures forall k | 0 <= k < n && Selected(rows[k], tags, cursor, filter) :: rows[k] in Matching(rows, tags, cursor, filter, n)
  {
    if n > 0 {
      MatchingMembers(rows, tags, cursor, filter, n - 1);
    }
  }

  /** Matching returns ids in strictly descending order. */
  lemma {:induction false} MatchingDescending(rows: seq<Ootd>, tags: seq<TagRow>, cursor: Option<int>, filter: Option<set<nat>>, n: nat)
    requires n <= |rows| && Ascending(rows)
    ensures Descending(Matching(rows, tags, cursor, filter, n))
    ensures forall o | o in Matching(rows, tags, cursor, filter, n) :: n > 0 && o.id <= rows[n - 1].id
  {
    if n > 0 {
      MatchingDescending(rows, tags, cursor, filter, n - 1);
      MatchingMembers(rows, tags, cursor, filter, n - 1);
      var rest := Matching(rows, tags, cursor, filter, n - 1);
      forall o | o in rest ensures o.id < rows[n - 1].id {
        var k :| 0 <= k < n - 1 && rows[k] == o;
      }
    }
  }

  /** The first limit elements of s (a Pageable with that page size, page 0). */
  function Take<T>(s: seq<T>, limit: nat): (r: seq<T>)
    ensures |r| == if |s| <= limit then |s| else limit
    ensures r == s[..|r|]
  {
    if |s| <= limit then s else s[..limit]
  }

  /** findFirstPageAll, findNextPageAll, findFirstPageByCategories and
      findNextPageByCategories: the selected rows in descending id order, at most limit. */
  function Page(rows: seq<Ootd>, tags: seq<TagRow>, cursor: Option<int>, filter: Option<set<nat>>, limit: nat): (r: seq<Ootd>)
  {
    Take(Matching(rows, tags, cursor, filter, |rows|), limit)
  }

  /** A page lists ootds of the table, each selected, in descending id order, at most limit
      of them; every selected ootd not on a page is below all of the page's ids when the
      page is full. */
  lemma PageSound(rows: seq<Ootd>, tags: seq<TagRow>, cursor: Option<int>, filter: Option<set<nat>>, limit: nat)
    requires Ascending(rows)
    ensures var p := Page(rows, tags, cursor, filter, limit);
      && |p| <= limit && Descending(p)
      && (forall o | o in p :: o in rows && Selected(o, tags, cursor, filter))
      && (|p| < limit ==> forall o | o in rows && Selected(o, tags, cursor, filter) :: o in p)
  {
    var m := Matching(rows, tags, cursor, filter, |rows|);
    MatchingDescending(rows, tags, cursor, filter, |rows|);
    MatchingMembers(rows, tags, cursor, filter, |rows|);
    forall o | o in rows && Selected(o, tags, cursor, filter) ensures o in m {
      var k :| 0 <= k < |rows| && rows[k] == o;
    }
    forall o | o in Page(rows, tags, cursor, filter, limit) ensures o in rows {
      assert o in m;
      var k :| 0 <= k < |rows| && rows[k] == o;
    }
  }

  /** The selected rows with ids below x are the selected rows that follow x's position. */
  lemma {:induction false} MatchingBelow(rows: seq<Ootd>, tags: seq<TagRow>, cursor: Option<int>, filter: Option<set<nat>>, n: nat, x: int)
    requires n <= |rows| && (cursor.None? || x <= cursor.value)
    ensures Matching(rows, tags, Some(x), filter, n) == BelowOf(Matching(rows, tags, cursor, filter, n), x)
  {
    if n > 0 {
      MatchingBelow(rows, tags, cursor, filter, n - 1, x);
      var o := rows[n - 1];
      var rest := Matching(rows, tags, cursor, filter, n - 1);
      assert Selected(o, tags, Some(x), filter) <==> Selected(o, tags, cursor, filter) && o.id < x;
      if Selected(o, tags, cursor, filter) {
        assert ([o] + rest)[1..] == rest;
        assert BelowOf([o] + rest, x) == if o.id < x then [o] + BelowOf(rest, x) else BelowOf(rest, x);
      }
    }
  }

  /** The elements of s with ids below x, in order. */
  function BelowOf(s: seq<Ootd>, x: int): seq<Ootd> {
    if s == [] then []
    else if s[0].id < x then [s[0]] + BelowOf(s[1..], x) else BelowOf(s[1..], x)
  }

  /** In a descending sequence, the elements below the id at position l - 1 are those after it. */
  lemma {:induction false} BelowOfDescending(s: seq<Ootd>, l: nat)
    requires Descending(s) && 0 < l <= |s|
    ensures BelowOf(s, s[l - 1].id) == s[l..]
  {
    if l == 1 {
      AllBelow(s[1..], s[0].id);
    } else {
      assert s[1..][l - 2] == s[l - 1];
      BelowOfDescending(s[1..], l - 1);
      assert s[1..][l - 1..] == s[l..];
    }
  }

  /** Keeping the ids below x keeps everything when every id is below x. */
  lemma {:induction false} AllBelow(s: seq<Ootd>, x: int)
    requires forall k | 0 <= k < |s| :: s[k].id < x
    ensures BelowOf(s, x) == s
  {
    if s != [] {
      AllBelow(s[1..], x);
    }
  }

  /** Keyset pagination loses and repeats nothing: a full first page followed by the page
      whose cursor is its last id is the first limit1 + limit2 selected rows. */
  lemma PagesContinue(rows: seq<Ootd>, tags: seq<TagRow>, cursor: Option<int>, filter: Option<set<nat>>, limit1: nat, limit2: nat)
    requires Ascending(rows)
    requires |Page(rows, tags, cursor, filter, limit1)| == limit1 > 0
    ensures var p1 := Page(rows, tags, cursor, filter, limit1);
      p1 + Page(rows, tags, Some(p1[limit1 - 1].id), filter, limit2)
        == Take(Matching(rows, tags, cursor, filter, |rows|), limit1 + limit2)
  {
    var m := Matching(rows, tags, cursor, filter, |rows|);
    assert Page(rows, tags, cursor, filter, limit1) == m[..limit1];
    var x := m[limit1 - 1].id;
    assert cursor.None? || x < cursor.value by {
      MatchingMembers(rows, tags, cursor, filter, |rows|);
      assert m[limit1 - 1] in m;
    }
    MatchingBelow(rows, tags, cursor, filter, |rows|, x);
    MatchingDescending(rows, tags, cursor, filter, |rows|);
    BelowOfDescending(m, limit1);
    TakeAfterPrefix(m, limit1, limit2);
  }

  /** A prefix followed by a page of the rest is a longer prefix. */
  lemma TakeAfterPrefix<T>(s: seq<T>, l1: nat, l2: nat)
    requires l1 <= |s|
    ensures s[..l1] + Take(s[l1..], l2) == Take(s, l1 + l2)
  {
    if |s| > l1 + l2 {
      assert s[l1..][..l2] == s[l1..l1 + l2];
      assert s[..l1] + s[l1..l1 + l2] == s[..l1 + l2];
    } else {
      assert s[..l1] + s[l1..] == s;
    }
  }

  /** Consecutive pages never overlap: every id on the next page is below every id on the
      page whose last id is its cursor. */
  lemma PagesDisjoint(rows: seq<Ootd>, tags: seq<TagRow>, cursor: Option<int>, filter: Option<set<nat>>, limit1: nat, limit2: nat)
    requires Ascending(rows)
    requires |Page(rows, tags, cursor, filter, limit1)| == limit1 > 0
    ensures var p1 := Page(rows, tags, cursor, filter, limit1);
      forall a, b | a in p1 && b in Page(rows, tags, Some(p1[limit1 - 1].id), filter, limit2) :: b.id < a.id
  {
    var p1 := Page(rows, tags, cursor, filter, limit1);
    PageSound(rows, tags, cursor, filter, limit1);
    forall a, b | a in p1 && b in Page(rows, tags, Some(p1[limit1 - 1].id), filter, limit2)
      ensures b.id < a.id
    {
      PageSound(rows, tags, Some(p1[limit1 - 1].id), filter, limit2);
      var i :| 0 <= i < |p1| && p1[i] == a;
      assert a.id >= p1[limit1 - 1].id;
    }
  }

  /** The average temperature of the similar-weather query: SQL integer division of an
      integer sum, which truncates toward zero (Dafny's own division rounds down). */
  function TruncatedHalf(x: int): (r: int)
    ensures x >= 0 ==> 0 <= 2 * r <= x < 2 * r + 2
    ensures x < 0 ==> 2 * r - 2 < x <= 2 * r <= 0
  {
    if x >= 0 then x / 2 else -((-x) / 2)
  }

  /** The ootd has at least one hashtag row. */
  predicate HasAnyTag(tags: seq<TagRow>, id: nat) {
    exists k | 0 <= k < |tags| :: tags[k].ootd == id
  }

  /** The where-clause and inner joins of findRandomSimilarByMemberWithImageAndTags. */
  predicate SimilarWeather(o: Ootd, images: map<nat, string>, tags: seq<TagRow>, member: nat,
                           minTemp: int, maxTemp: int, rain: bool)
  {
    && o.member == member
    && minTemp <= TruncatedHalf(o.minTemperature + o.maxTemperature) <= maxTemp
    && o.isRain == rain
    && o.id in images
    && HasAnyTag(tags, o.id)
  }
}
