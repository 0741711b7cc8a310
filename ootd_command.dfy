/** OotdCommandServiceImpl.createOotd: check the member, parse and look up at most six
    hashtags, build the Ootd entity with its image and hashtag mappings, and save it. */
module OotdCommand {
  import opened Wrappers
  import opened Errors
  import opened Text
  import opened Hashtags
  import opened OotdStore

  /** The most raw hashtags a request may carry. */
  const MaxHashtags: nat := 6

  /** CreateOotdDTO; a null key or hashtag list is None. */
  datatype CreateRequest = CreateRequest(minTemperature: int, maxTemperature: int, humidity: int, rain: bool,
                                         key: Option<string>, weatherDescription: string,
                                         hashtags: Option<seq<Option<string>>>)

  /** The getOotdDTO createOotd returns. */
  datatype Created = Created(id: nat, nickname: string, image: string, hashtags: seq<string>, createdAt: DateTime)

  /** The hashtag list of the request, with null read as empty. */
  function RawTags(req: CreateRequest): (r: seq<Option<string>>)
    ensures req.hashtags.Some? ==> r == req.hashtags.value
    ensures req.hashtags.None? ==> r == []
  {
    if req.hashtags.None? then [] else req.hashtags.value
  }

  /** Whether an image is attached: a non-null, non-blank key. */
  predicate HasImageKey(req: CreateRequest) {
    req.key.Some? && !IsBlank(req.key.value)
  }

  /** The hashtag rows createOotd maps to: too many raw tags fail first, then parsing, then
      the catalogue lookup of the distinct categories. */
  function CreateHashtags(catalogue: Catalogue, table: seq<Hashtag>, req: CreateRequest): (r: Result<seq<Hashtag>, Failure>)
    ensures |RawTags(req)| > MaxHashtags ==> r == Err(HashtagErr(TooManyHashtags))
    ensures |RawTags(req)| <= MaxHashtags && ParseAll(catalogue, RawTags(req)).Err? ==> r == Err(ParseAll(catalogue, RawTags(req)).error)
    ensures |RawTags(req)| <= MaxHashtags && ParseAll(catalogue, RawTags(req)).Ok? ==>
      r == FindAllByCategories(table, SetOf(ParseAll(catalogue, RawTags(req)).value))
  {
    var raw := RawTags(req);
    if |raw| > MaxHashtags then Err(HashtagErr(TooManyHashtags))
    else
      match ParseCategoryList(catalogue, Some(raw))
      case Err(e) => Err(e)
      case Ok(categories) => FindAllByCategories(table, SetOf(categories))
  }

  /** Duplicate tags collapse: the rows found are one per distinct category named, each
      category once, so there are at most six of them. */
  lemma CreateHashtagsDeduplicated(catalogue: Catalogue, table: seq<Hashtag>, req: CreateRequest)
    requires UniqueCategories(table)
    requires CreateHashtags(catalogue, table, req).Ok?
    ensures var found := CreateHashtags(catalogue, table, req).value;
      var named := SetOf(ParseAll(catalogue, RawTags(req)).value);
      && UniqueCategories(found)
      && |found| == |named| <= MaxHashtags
      && (forall k | 0 <= k < |found| :: found[k].category in named)
      && (forall c | c in named :: exists k | 0 <= k < |found| :: found[k].category == c)
  {
    var categories := ParseAll(catalogue, RawTags(req)).value;
    var named := SetOf(categories);
    FindAllByCategoriesOkIff(table, named);
    SetOfSize(categories);
    if named != {} {
      assert table[..|table|] == table;
      FindUpToDistinct(table, |table|, named);
    }
  }

  /** The Ootd entity while createOotd builds it. */
  class OotdEntity {
    const member: nat
    const minTemperature: int
    const maxTemperature: int
    const weatherDescription: string
    const isRain: bool
    const humidity: int
    var image: Option<string>
    var ootdHashtags: seq<Hashtag>

    /** Ootd.builder()...build(): no image and an empty mapping list. */
    constructor (member: nat, minTemperature: int, maxTemperature: int, weatherDescription: string, isRain: bool, humidity: int)
      ensures this.member == member && this.minTemperature == minTemperature && this.maxTemperature == maxTemperature
      ensures this.weatherDescription == weatherDescription && this.isRain == isRain && this.humidity == humidity
      ensures image.None? && ootdHashtags == []
    {
      this.member := member;
      this.minTemperature := minTemperature;
      this.maxTemperature := maxTemperature;
      this.weatherDescription := weatherDescription;
      this.isRain := isRain;
      this.humidity := humidity;
      image := None;
      ootdHashtags := [];
    }

    /** setImage with an OotdImage holding key. */
    method SetImage(key: string)
      modifies this
      ensures image == Some(key) && ootdHashtags == old(ootdHashtags)
    {
      image := Some(key);
    }

    /** getOotdHashtags().add(mapping) for a mapping to hashtag h. */
    method AddHashtag(h: Hashtag)
      modifies this
      ensures ootdHashtags == old(ootdHashtags) + [h] && image == old(image)
    {
      ootdHashtags := ootdHashtags + [h];
    }
  }

  /** The response's hashtags: the Korean name of each mapping's category, in list order. */
  function DisplayNames(catalogue: Catalogue, hs: seq<Hashtag>): (r: seq<string>)
    requires forall k | 0 <= k < |hs| :: hs[k].category < |catalogue|
    ensures |r| == |hs| && forall k | 0 <= k < |hs| :: r[k] == catalogue[hs[k].category]
  {
    seq(|hs|, k requires 0 <= k < |hs| => catalogue[hs[k].category])
  }

  /** The ootd_hashtag rows of a saved ootd, one per mapping, in list order. */
  function MappingRows(id: nat, hs: seq<Hashtag>): (r: seq<TagRow>)
    ensures |r| == |hs| && forall i | 0 <= i < |hs| :: r[i] == TagRow(id, hs[i])
  {
    seq(|hs|, i requires 0 <= i < |hs| => TagRow(id, hs[i]))
  }

  /** The ootd, ootd_image and ootd_hashtag tables, with the next identity value. */
  class OotdTables {
    var rows: seq<Ootd>
    var images: map<nat, string>
    var tags: seq<TagRow>
    var nextId: nat

    /** Ids ascend and lie below the next identity value, and so do the ids the image and
        mapping rows refer to. */
    ghost predicate Valid()
      reads this
    {
      && Ascending(rows)
      && (forall k | 0 <= k < |rows| :: rows[k].id < nextId)
      && (forall id | id in images :: id < nextId)
      && (forall k | 0 <= k < |tags| :: tags[k].ootd < nextId)
    }

    constructor ()
      ensures Valid() && rows == [] && images == map[] && tags == [] && nextId == 0
    {
      rows, images, tags, nextId := [], map[], [], 0;
    }

    /** ootdRepository.save(ootd): a fresh id and the creation time, with the image and the
        mappings saved by cascade. */
    method Save(e: OotdEntity, now: DateTime) returns (saved: Ootd)
      requires Valid()
      modifies this
      ensures Valid()
      ensures saved == Ootd(old(nextId), e.member, e.minTemperature, e.maxTemperature, e.isRain, e.humidity,
                            e.weatherDescription, now)
      ensures rows == old(rows) + [saved] && nextId == old(nextId) + 1
      ensures images == if e.image.Some? then old(images)[saved.id := e.image.value] else old(images)
      ensures tags == old(tags) + MappingRows(saved.id, e.ootdHashtags)
    {
      saved := Ootd(nextId, e.member, e.minTemperature, e.maxTemperature, e.isRain, e.humidity, e.weatherDescription, now);
      rows := rows + [saved];
      if e.image.Some? {
        images := images[saved.id := e.image.value];
      }
      tags := tags + MappingRows(saved.id, e.ootdHashtags);
      nextId := nextId + 1;
    }
  }

  /** The entity createOotd builds: the request's weather fields copied, the image set only
      for a non-blank key, then one mapping appended per hashtag found. */
  method BuildOotd(memberId: nat, req: CreateRequest, hashtags: seq<Hashtag>) returns (ootd: OotdEntity)
    ensures fresh(ootd)
    ensures ootd.member == memberId && ootd.minTemperature == req.minTemperature
    ensures ootd.maxTemperature == req.maxTemperature && ootd.weatherDescription == req.weatherDescription
    ensures ootd.isRain == req.rain && ootd.humidity == req.humidity
    ensures ootd.image == if HasImageKey(req) then Some(req.key.value) else None
    ensures ootd.ootdHashtags == hashtags
  {
    ootd := new OotdEntity(memberId, req.minTemperature, req.maxTemperature, req.weatherDescription, req.rain, req.humidity);
    if req.key.Some? && !IsBlank(req.key.value) {
      ootd.SetImage(req.key.value);
    }
    var i := 0;
    while i < |hashtags|
      invariant 0 <= i <= |hashtags|
      invariant ootd.ootdHashtags == hashtags[..i]
      invariant ootd.image == if HasImageKey(req) then Some(req.key.value) else None
      modifies ootd
    {
      ootd.AddHashtag(hashtags[i]);
      i := i + 1;
    }
    assert hashtags[..i] == hashtags;
  }

  /** createOotd(request, member). Every error before the save leaves the tables as they
      were; after the save, a missing image makes getImage().getKey() fail on null. */
  method CreateOotd(store: OotdTables, table: seq<Hashtag>, catalogue: Catalogue, nicknames: map<nat, string>,
                    memberId: nat, req: CreateRequest, now: DateTime)
    returns (r: Result<Created, Failure>)
    requires store.Valid()
    requires forall k | 0 <= k < |table| :: table[k].category < |catalogue|
    modifies store
    ensures store.Valid()
    ensures memberId !in nicknames ==> r == Err(OotdErr(OotdMemberNotFound))
    ensures memberId in nicknames && CreateHashtags(catalogue, table, req).Err? ==>
      r == Err(CreateHashtags(catalogue, table, req).error)
    ensures (memberId !in nicknames || CreateHashtags(catalogue, table, req).Err?) ==>
      store.rows == old(store.rows) && store.images == old(store.images) && store.tags == old(store.tags)
      && store.nextId == old(store.nextId)
    ensures memberId in nicknames && CreateHashtags(catalogue, table, req).Ok? ==>
      var found := CreateHashtags(catalogue, table, req).value;
      var id := old(store.nextId);
      && store.rows == old(store.rows) + [Ootd(id, memberId, req.minTemperature, req.maxTemperature, req.rain,
                                               req.humidity, req.weatherDescription, now)]
      && store.images == (if HasImageKey(req) then old(store.images)[id := req.key.value] else old(store.images))
      && store.tags == old(store.tags) + MappingRows(id, found)
      && store.nextId == id + 1
      && r == (if HasImageKey(req)
               then Ok(Created(id, nicknames[memberId], req.key.value, DisplayNames(catalogue, found), now))
               else Err(RuntimeErr(NullReference)))
  {
    if memberId !in nicknames {
      return Err(OotdErr(OotdMemberNotFound));
    }
    var rawTags := RawTags(req);
    if |rawTags| > MaxHashtags {
      return Err(HashtagErr(TooManyHashtags));
    }
    var parsed := ParseCategoryList(catalogue, Some(rawTags));
    if parsed.Err? {
      return Err(parsed.error);
    }
    var lookedUp := FindAllByCategories(table, SetOf(parsed.value));
    if lookedUp.Err? {
      return Err(lookedUp.error);
    }
    var hashtags := lookedUp.value;

    assert CreateHashtags(catalogue, table, req) == Ok(hashtags);
    var ootd := BuildOotd(memberId, req, hashtags);
    var saved := store.Save(ootd, now);

    var mappings := ootd.ootdHashtags;
    var displays := DisplayNames(catalogue, mappings);
    if ootd.image.None? {
      return Err(RuntimeErr(NullReference));
    }
    r := Ok(Created(saved.id, nicknames[saved.member], ootd.image.value, displays, saved.createdAt));
  }
}
