/** HashtagQueryServiceImpl: parsing Korean hashtag names into categories, and looking the
    categories up in the hashtag table. */
module Hashtags {
  import opened Wrappers
  import opened Errors
  import opened Text

  /** The Korean names of the HashtagCategory constants, in declaration order; a category is
      its position in this list. The enum itself is not part of this model, so its names
      are a parameter. */
  type Catalogue = seq<string>

  /** A hashtag row: its id and its category (unique in the table). */
  datatype Hashtag = Hashtag(id: nat, category: nat)

  /** The first position at or after i holding name t. */
  function FindName(names: Catalogue, t: string, i: nat): (r: Option<nat>)
    requires i <= |names|
    ensures r.Some? ==> i <= r.value < |names| && names[r.value] == t
    ensures forall j | i <= j < |names| && (r.None? || j < r.value) :: names[j] != t
    decreases |names| - i
  {
    if i == |names| then None
    else if names[i] == t then Some(i)
    else FindName(names, t, i + 1)
  }

  /** parseCategoryOrThrow(input): a null or blank input is BLANK_EXIST; otherwise the first
      category whose Korean name equals the trimmed input, or NOT_FOUND. */
  function ParseCategory(catalogue: Catalogue, input: Option<string>): (r: Result<nat, Failure>)
    ensures (input.None? || IsBlank(input.value)) ==> r == Err(HashtagErr(BlankExist))
    ensures r.Ok? ==>
      && input.Some? && !IsBlank(input.value)
      && r.value < |catalogue| && catalogue[r.value] == Trim(input.value)
      && forall j | 0 <= j < r.value :: catalogue[j] != Trim(input.value)
    ensures (input.Some? && !IsBlank(input.value) && forall j | 0 <= j < |catalogue| :: catalogue[j] != Trim(input.value))
      ==> r == Err(HashtagErr(HashtagNotFound))
    ensures r.Ok? <==>
      input.Some? && !IsBlank(input.value) && exists j | 0 <= j < |catalogue| :: catalogue[j] == Trim(input.value)
  {
    if input.None? || IsBlank(input.value) then Err(HashtagErr(BlankExist))
    else
      match FindName(catalogue, Trim(input.value), 0)
      case Some(c) => Ok(c)
      case None => Err(HashtagErr(HashtagNotFound))
  }

  /** A string without trimmable characters at its ends trims to itself. */
  lemma TrimOfTrimmed(s: string)
    requires s == [] || (!IsTrimmable(s[0]) && !IsTrimmable(s[|s| - 1]))
    ensures Trim(s) == s
  {
    if s != [] {
      assert TrimStartIndex(s, 0) == 0;
      assert TrimEndIndex(s, 0, |s|) == |s|;
    }
  }

  /** Parsing a category's own Korean name gives that category back when the names are
      distinct, non-blank and free of surrounding spaces. */
  lemma ParseCategoryOfName(catalogue: Catalogue, c: nat)
    requires c < |catalogue| && !IsBlank(catalogue[c])
    requires !IsTrimmable(catalogue[c][0]) && !IsTrimmable(catalogue[c][|catalogue[c]| - 1])
    requires forall i, j | 0 <= i < j < |catalogue| :: catalogue[i] != catalogue[j]
    ensures ParseCategory(catalogue, Some(catalogue[c])) == Ok(c)
  {
    TrimOfTrimmed(catalogue[c]);
  }

  /** Characters trim removes, on either side of a name, do not change what it parses to. */
  lemma ParseCategoryIgnoresPadding(catalogue: Catalogue, pre: string, s: string, post: string)
    requires s != [] && !IsTrimmable(s[0]) && !IsTrimmable(s[|s| - 1])
    requires forall i | 0 <= i < |pre| :: IsTrimmable(pre[i])
    requires forall i | 0 <= i < |post| :: IsTrimmable(post[i])
    ensures ParseCategory(catalogue, Some(pre + s + post)) == ParseCategory(catalogue, Some(s))
  {
    var p := pre + s + post;
    TrimPadded(pre, s, post);
    TrimPadded([], s, []);
    assert [] + s + [] == s;
    assert !IsBlank(p) by { assert p[|pre|] == s[0]; }
    assert !IsBlank(s) by { assert !IsWhitespace(s[0]); }
  }

  /** An input that keeps something after trimming parses exactly as its trimmed text does:
      the parse looks only at the trimmed input. */
  lemma ParseCategoryOfTrimmed(catalogue: Catalogue, input: string)
    requires Trim(input) != []
    ensures ParseCategory(catalogue, Some(input)) == ParseCategory(catalogue, Some(Trim(input)))
  {
    TrimTwice(input);
    TrimIsMiddle(input);
    var t := Trim(input);
    assert !IsBlank(t) by { assert !IsWhitespace(t[0]); }
    assert !IsBlank(input) by {
      TrimEmptyIff(input);
      var k :| 0 <= k < |input| && !IsTrimmable(input[k]);
      assert !IsWhitespace(input[k]);
    }
  }

  /** The stream map of parseCategoryListOrThrow over a non-null list: every element parsed
      in order, stopping at the first failure. */
  function ParseAll(catalogue: Catalogue, xs: seq<Option<string>>): (r: Result<seq<nat>, Failure>)
    ensures r.Ok? ==> |r.value| == |xs| && forall i | 0 <= i < |xs| :: ParseCategory(catalogue, xs[i]) == Ok(r.value[i])
    ensures r.Err? ==> exists k | 0 <= k < |xs| ::
      && ParseCategory(catalogue, xs[k]) == Err(r.error)
      && forall j | 0 <= j < k :: ParseCategory(catalogue, xs[j]).Ok?
  {
    if xs == [] then Ok([])
    else
      match ParseCategory(catalogue, xs[0])
      case Err(e) => Err(e)
      case Ok(c) =>
        match ParseAll(catalogue, xs[1..])
        case Err(e) =>
          ghost var k :| 0 <= k < |xs[1..]| && ParseCategory(catalogue, xs[1..][k]) == Err(e)
            && forall j | 0 <= j < k :: ParseCategory(catalogue, xs[1..][j]).Ok?;
          assert ParseCategory(catalogue, xs[k + 1]) == Err(e);
          assert forall j | 1 <= j < k + 1 :: xs[j] == xs[1..][j - 1];
          Err(e)
        case Ok(cs) => Ok([c] + cs)
  }

  /** parseCategoryListOrThrow(raw): null is the empty list. */
  function ParseCategoryList(catalogue: Catalogue, raw: Option<seq<Option<string>>>): (r: Result<seq<nat>, Failure>)
    ensures raw.None? ==> r == Ok([])
    ensures raw.Some? ==> r == ParseAll(catalogue, raw.value)
  {
    if raw.None? then Ok([]) else ParseAll(catalogue, raw.value)
  }

  /** If every element parses, the list parses, to the elements' categories in order. */
  lemma {:induction false} ParseAllSucceeds(catalogue: Catalogue, xs: seq<Option<string>>)
    requires forall i | 0 <= i < |xs| :: ParseCategory(catalogue, xs[i]).Ok?
    ensures ParseAll(catalogue, xs).Ok?
  {
    if xs != [] {
      ParseAllSucceeds(catalogue, xs[1..]);
    }
  }

  /** The categories of the first n hashtag rows. */
  function CategoriesUpTo(table: seq<Hashtag>, n: nat): (r: set<nat>)
    requires n <= |table|
    ensures forall i | 0 <= i < n :: table[i].category in r
  {
    if n == 0 then {} else CategoriesUpTo(table, n - 1) + {table[n - 1].category}
  }

  /** Every category of the first n rows is the category of one of them. */
  lemma {:induction false} CategoryAt(table: seq<Hashtag>, n: nat, c: nat) returns (i: nat)
    requires n <= |table| && c in CategoriesUpTo(table, n)
    ensures i < n && table[i].category == c
  {
    if table[n - 1].category == c {
      i := n - 1;
    } else {
      i := CategoryAt(table, n - 1, c);
    }
  }

  /** The categories present in the hashtag table. */
  function Categories(table: seq<Hashtag>): set<nat> {
    CategoriesUpTo(table, |table|)
  }

  /** The unique constraint on the category column. */
  ghost predicate UniqueCategories(table: seq<Hashtag>) {
    forall i, j | 0 <= i < j < |table| :: table[i].category != table[j].category
  }

  /** findByCategoryIn over the first n rows, in table order. */
  function FindUpTo(table: seq<Hashtag>, n: nat, cats: set<nat>): (r: seq<Hashtag>)
    requires n <= |table|
    ensures forall k | 0 <= k < |r| :: r[k].category in cats && r[k] in table[..n]
  {
    if n == 0 then []
    else if table[n - 1].category in cats then FindUpTo(table, n - 1, cats) + [table[n - 1]]
    else FindUpTo(table, n - 1, cats)
  }

  /** findByCategoryIn(cats): the rows whose category is among cats. */
  function FindByCategoryIn(table: seq<Hashtag>, cats: set<nat>): (r: seq<Hashtag>)
    ensures forall k | 0 <= k < |r| :: r[k].category in cats && r[k] in table
  {
    assert table[..|table|] == table;
    FindUpTo(table, |table|, cats)
  }

  /** findAllByCategoriesOrThrow(categories): no lookup for an empty collection; otherwise
      the rows found, or NOT_FOUND when their number differs from the number of distinct
      categories asked for. Its one caller, createOotd, passes a HashSet, which is how the
      collection is modelled. */
  function FindAllByCategories(table: seq<Hashtag>, cats: set<nat>): (r: Result<seq<Hashtag>, Failure>)
    ensures cats == {} ==> r == Ok([])
    ensures r.Err? ==> r.error == HashtagErr(HashtagNotFound)
    ensures r.Ok? ==> forall k | 0 <= k < |r.value| :: r.value[k].category in cats && r.value[k] in table
  {
    if cats == {} then Ok([])
    else
      var found := FindByCategoryIn(table, cats);
      if |found| != |cats| then Err(HashtagErr(HashtagNotFound)) else Ok(found)
  }

  /** With unique categories, the lookup finds one row per asked category that exists. */
  lemma {:induction false} FindUpToCount(table: seq<Hashtag>, n: nat, cats: set<nat>)
    requires n <= |table| && UniqueCategories(table)
    ensures |FindUpTo(table, n, cats)| == |cats * CategoriesUpTo(table, n)|
  {
    if n == 0 {
      assert cats * CategoriesUpTo(table, 0) == {};
    } else {
      FindUpToCount(table, n - 1, cats);
      var c := table[n - 1].category;
      var before := cats * CategoriesUpTo(table, n - 1);
      NewCategory(table, n);
      if c in cats {
        assert cats * CategoriesUpTo(table, n) == before + {c};
        assert c !in before;
      } else {
        assert cats * CategoriesUpTo(table, n) == before;
      }
    }
  }

  /** With unique categories, each row brings a category the rows before it lack. */
  lemma NewCategory(table: seq<Hashtag>, n: nat)
    requires 0 < n <= |table| && UniqueCategories(table)
    ensures table[n - 1].category !in CategoriesUpTo(table, n - 1)
  {
    if table[n - 1].category in CategoriesUpTo(table, n - 1) {
      var i := CategoryAt(table, n - 1, table[n - 1].category);
      assert false;
    }
  }

  /** The lookup succeeds exactly when every asked category has a hashtag row; then the rows
      are exactly one per asked category. */
  lemma FindAllByCategoriesOkIff(table: seq<Hashtag>, cats: set<nat>)
    requires UniqueCategories(table)
    ensures FindAllByCategories(table, cats).Ok? <==> cats <= Categories(table)
    ensures FindAllByCategories(table, cats).Ok? ==>
      |FindAllByCategories(table, cats).value| == |cats|
      && forall c | c in cats :: exists k | 0 <= k < |FindAllByCategories(table, cats).value| ::
           FindAllByCategories(table, cats).value[k].category == c
  {
    var all := Categories(table);
    FindUpToCount(table, |table|, cats);
    assert table[..|table|] == table;
    SplitCount(cats, all);
    if cats <= all {
      assert cats * all == cats;
      var found := FindByCategoryIn(table, cats);
      forall c | c in cats
        ensures exists k | 0 <= k < |found| :: found[k].category == c
      {
        CategoryFound(table, |table|, cats, c);
      }
    } else {
      var c :| c in cats && c !in all;
      assert c in cats - all;
    }
  }

  /** The asked categories split into those present and those missing. */
  lemma SplitCount(cats: set<nat>, all: set<nat>)
    ensures |cats| == |cats * all| + |cats - all|
  {
    assert cats == (cats * all) + (cats - all);
    assert (cats * all) * (cats - all) == {};
  }

  /** A row of an asked category is among the rows found. */
  lemma {:induction false} CategoryFound(table: seq<Hashtag>, n: nat, cats: set<nat>, c: nat)
    requires n <= |table| && c in cats && c in CategoriesUpTo(table, n)
    ensures exists k | 0 <= k < |FindUpTo(table, n, cats)| :: FindUpTo(table, n, cats)[k].category == c
  {
    var r := FindUpTo(table, n, cats);
    if table[n - 1].category == c {
      assert r[|r| - 1].category == c;
    } else {
      CategoryFound(table, n - 1, cats, c);
      var k :| 0 <= k < |FindUpTo(table, n - 1, cats)| && FindUpTo(table, n - 1, cats)[k].category == c;
      assert r[k] == FindUpTo(table, n - 1, cats)[k];
    }
  }

  /** The rows found have pairwise distinct categories. */
  lemma {:induction false} FindUpToDistinct(table: seq<Hashtag>, n: nat, cats: set<nat>)
    requires n <= |table| && UniqueCategories(table)
    ensures UniqueCategories(FindUpTo(table, n, cats))
  {
    if n > 0 {
      FindUpToDistinct(table, n - 1, cats);
      var rest := FindUpTo(table, n - 1, cats);
      forall k | 0 <= k < |rest| ensures rest[k].category != table[n - 1].category {
        var j :| 0 <= j < n - 1 && table[..n - 1][j] == rest[k];
      }
    }
  }

  /** The distinct elements of a list (new HashSet<>(list)). */
  function SetOf(cs: seq<nat>): (r: set<nat>)
    ensures forall c :: c in r <==> c in cs
  {
    set c | c in cs
  }

  /** A list has at least as many elements as its set of elements. */
  lemma {:induction false} SetOfSize(cs: seq<nat>)
    ensures |SetOf(cs)| <= |cs|
  {
    if cs != [] {
      SetOfSize(cs[1..]);
      assert SetOf(cs) == SetOf(cs[1..]) + {cs[0]};
    }
  }
}
