/** OotdLikeCommandServiceImpl and OotdLikeQueryServiceImpl: the like table, a set of
    (ootd, member) pairs, with an idempotent like, an idempotent unlike and the reads. */
module Likes {
  import opened Wrappers
  import opened Errors

  /** An ootd_like row; the unique constraint on (ootd_id, member_id) makes the table a set. */
  datatype Like = Like(ootd: nat, member: nat)

  /** StateDTO: whether the member has liked the ootd, and its number of likes. */
  datatype State = State(liked: bool, likeCount: nat)

  /** The members who like ootd o. */
  function LikersOf(likes: set<Like>, o: nat): (r: set<nat>)
    ensures forall m :: m in r <==> Like(o, m) in likes
  {
    set l | l in likes && l.ootd == o :: l.member
  }

  /** countByOotd_Id(o): one row per liking member. */
  function LikeCount(likes: set<Like>, o: nat): nat {
    |LikersOf(likes, o)|
  }

  /** state(ootdId, memberId): the count, and liked only for a given member whose pair is
      stored; a missing member id is not looked up. */
  function StateOf(likes: set<Like>, ootdId: nat, memberId: Option<nat>): (s: State)
    ensures s.likeCount == |LikersOf(likes, ootdId)|
    ensures memberId.None? ==> !s.liked
    ensures memberId.Some? ==> (s.liked <==> memberId.value in LikersOf(likes, ootdId))
  {
    State(memberId.Some? && Like(ootdId, memberId.value) in likes, LikeCount(likes, ootdId))
  }

  /** count(ootdId): the CountDTO's number, the same as the state's. */
  function Count(likes: set<Like>, ootdId: nat): (n: nat)
    ensures forall m: Option<nat> :: n == StateOf(likes, ootdId, m).likeCount
  {
    LikeCount(likes, ootdId)
  }

  /** The ootd_like table. */
  class LikeTable {
    var likes: set<Like>

    constructor ()
      ensures likes == {}
    {
      likes := {};
    }

    /** existsByOotd_IdAndMember_Id(o, m). */
    function ExistsBy(o: nat, m: nat): (b: bool)
      reads this
      ensures b <==> m in LikersOf(likes, o)
    {
      Like(o, m) in likes
    }

    /** countByOotd_Id(o). */
    function CountBy(o: nat): (n: nat)
      reads this
      ensures n == |LikersOf(likes, o)|
    {
      LikeCount(likes, o)
    }

    /** save of a new row; a row for a pair already stored violates the unique constraint,
        and the service swallows that violation, so the table ends the same either way. */
    method Save(l: Like)
      modifies this
      ensures likes == old(likes) + {l}
    {
      likes := likes + {l};
    }

    /** deleteByOotdIdAndMemberId(o, m): deletes the row if there is one. */
    method DeleteBy(o: nat, m: nat)
      modifies this
      ensures likes == old(likes) - {Like(o, m)}
    {
      likes := likes - {Like(o, m)};
    }
  }

  /** like(ootdId, memberId): a missing ootd, then a missing member, are errors; the pair is
      stored unless present, and the state reports liked with the count afterwards. */
  method LikeOotd(table: LikeTable, ootds: set<nat>, members: set<nat>, ootdId: nat, memberId: nat)
    returns (r: Result<State, Failure>)
    modifies table
    ensures ootdId !in ootds ==> r == Err(OotdErr(OotdNotFound))
    ensures ootdId in ootds && memberId !in members ==> r == Err(OotdErr(OotdMemberNotFound))
    ensures r.Err? ==> table.likes == old(table.likes)
    ensures ootdId in ootds && memberId in members ==>
      && table.likes == old(table.likes) + {Like(ootdId, memberId)}
      && r == Ok(State(true, LikeCount(table.likes, ootdId)))
      && r.value == StateOf(table.likes, ootdId, Some(memberId))
  {
    if ootdId !in ootds {
      return Err(OotdErr(OotdNotFound));
    }
    if memberId !in members {
      return Err(OotdErr(OotdMemberNotFound));
    }
    if !table.ExistsBy(ootdId, memberId) {
      table.Save(Like(ootdId, memberId));
    }
    var count := table.CountBy(ootdId);
    r := Ok(State(true, count));
  }

  /** unlike(ootdId, memberId): the same two checks; the pair is deleted if present, and the
      state reports not liked with the count afterwards. */
  method UnlikeOotd(table: LikeTable, ootds: set<nat>, members: set<nat>, ootdId: nat, memberId: nat)
    returns (r: Result<State, Failure>)
    modifies table
    ensures ootdId !in ootds ==> r == Err(OotdErr(OotdNotFound))
    ensures ootdId in ootds && memberId !in members ==> r == Err(OotdErr(OotdMemberNotFound))
    ensures r.Err? ==> table.likes == old(table.likes)
    ensures ootdId in ootds && memberId in members ==>
      && table.likes == old(table.likes) - {Like(ootdId, memberId)}
      && r == Ok(State(false, LikeCount(table.likes, ootdId)))
      && r.value == StateOf(table.likes, ootdId, Some(memberId))
  {
    if ootdId !in ootds {
      return Err(OotdErr(OotdNotFound));
    }
    if memberId !in members {
      return Err(OotdErr(OotdMemberNotFound));
    }
    table.DeleteBy(ootdId, memberId);
    var count := table.CountBy(ootdId);
    r := Ok(State(false, count));
  }

  /** Liking adds one to the count exactly when the member had not liked the ootd. */
  lemma LikeCountAfterLike(likes: set<Like>, o: nat, m: nat)
    ensures LikeCount(likes + {Like(o, m)}, o) == LikeCount(likes, o) + (if Like(o, m) in likes then 0 else 1)
  {
    var before := LikersOf(likes, o);
    var after := LikersOf(likes + {Like(o, m)}, o);
    assert after == before + {m};
    if Like(o, m) in likes {
      assert after == before;
    } else {
      assert m !in before;
      assert |before + {m}| == |before| + 1;
    }
  }

  /** Unliking takes one from the count exactly when the member had liked the ootd. */
  lemma LikeCountAfterUnlike(likes: set<Like>, o: nat, m: nat)
    ensures LikeCount(likes - {Like(o, m)}, o) == LikeCount(likes, o) - (if Like(o, m) in likes then 1 else 0)
  {
    var before := LikersOf(likes, o);
    var after := LikersOf(likes - {Like(o, m)}, o);
    assert after == before - {m};
    if Like(o, m) in likes {
      assert m in before;
      assert |before - {m}| == |before| - 1;
    } else {
      assert after == before;
    }
  }

  /** Liking or unliking one ootd leaves the likes of every other ootd as they were. */
  lemma OtherOotdsUntouched(likes: set<Like>, o: nat, m: nat, other: nat)
    requires other != o
    ensures LikersOf(likes + {Like(o, m)}, other) == LikersOf(likes, other)
    ensures LikersOf(likes - {Like(o, m)}, other) == LikersOf(likes, other)
  {
  }

  /** Sequences of calls, over the tables LikeOotd and UnlikeOotd leave behind (a like adds
      the pair, an unlike removes it): a second like leaves the table and the response of
      the first, and so does a second unlike; an unlike after the like of a new pair
      restores the table, and its response reports the count from before the like; a like
      after the unlike of a stored pair restores the table and the count. */
  lemma LikeUnlikeLaws(likes: set<Like>, o: nat, m: nat)
    ensures var once := likes + {Like(o, m)};
      && once + {Like(o, m)} == once
      && StateOf(once + {Like(o, m)}, o, Some(m)) == StateOf(once, o, Some(m)) == State(true, LikeCount(once, o))
    ensures var once := likes - {Like(o, m)};
      && once - {Like(o, m)} == once
      && StateOf(once - {Like(o, m)}, o, Some(m)) == StateOf(once, o, Some(m)) == State(false, LikeCount(once, o))
    ensures Like(o, m) !in likes ==>
      && LikeCount(likes + {Like(o, m)}, o) == LikeCount(likes, o) + 1
      && likes + {Like(o, m)} - {Like(o, m)} == likes
      && StateOf(likes + {Like(o, m)} - {Like(o, m)}, o, Some(m)) == State(false, LikeCount(likes, o))
    ensures Like(o, m) in likes ==>
      && LikeCount(likes - {Like(o, m)}, o) + 1 == LikeCount(likes, o)
      && likes - {Like(o, m)} + {Like(o, m)} == likes
      && StateOf(likes - {Like(o, m)} + {Like(o, m)}, o, Some(m)) == State(true, LikeCount(likes, o))
  {
    LikeCountAfterLike(likes, o, m);
    LikeCountAfterUnlike(likes, o, m);
  }
}
