/** CommentCommandServiceImpl: adding a comment or reply, and deleting a comment together
    with its whole subtree, over the comment table and the closure table. */
module CommentCommand {
  import opened Wrappers
  import opened Errors
  import opened CommentClosure

  /** The closure rows after adding comment n under the given parent: the parent's links
      shifted one level down (replies only), then n's self link. */
  function NewLinks(links: set<Link>, parent: Option<nat>, n: nat): set<Link> {
    links + (if parent.Some? then Shifted(links, parent.value, n) else {}) + {Link(n, n, 0)}
  }

  /** Every check of add passes: the ootd and the member exist, and a parent, if given,
      exists and belongs to the same ootd. */
  predicate AddAllowed(rows: Rows, ootds: set<nat>, members: set<nat>, ootdId: nat, memberId: nat, parentId: Option<nat>) {
    ootdId in ootds && memberId in members &&
    (parentId.Some? ==> parentId.value in rows && rows[parentId.value].ootd == ootdId)
  }

  /** Adding a row with a fresh id changes no ancestor of an existing comment. */
  lemma {:induction false} AncestorExtend(rows: Rows, nextId: nat, n: nat, c: Comment, d: nat, k: nat)
    requires WellFormed(rows, nextId) && n !in rows && d in rows
    ensures Ancestor(rows[n := c], d, k) == Ancestor(rows, d, k)
    decreases k
  {
    if k > 0 && rows[d].parent.Some? {
      AncestorExtend(rows, nextId, n, c, rows[d].parent.value, k - 1);
    }
  }

  /** Under the invariant both inserts of add succeed, so its unique-constraint failure
      path is never taken. */
  lemma AddInsertsSucceed(rows: Rows, links: set<Link>, nextId: nat, parent: Option<nat>)
    requires Consistent(rows, links, nextId)
    requires parent.Some? ==> parent.value in rows
    ensures parent.Some? ==> forall l | l in Shifted(links, parent.value, nextId) :: !HasPair(links, l.ancestor, nextId)
    ensures !HasPair(links + (if parent.Some? then Shifted(links, parent.value, nextId) else {}), nextId, nextId)
  {
    var n := nextId;
    forall l | l in links ensures l.descendant != n {
    }
    if parent.Some? {
      var p := parent.value;
      forall l | l in Shifted(links, p, n) ensures l.ancestor != n {
        ShiftedFrom(links, p, n, l);
        AncestorBelow(rows, nextId, p, l.depth - 1);
      }
    }
  }

  /** After add a closure row still names a real ancestor at its depth. */
  lemma AddLinkSound(rows: Rows, links: set<Link>, nextId: nat, c: Comment, l: Link)
    requires Consistent(rows, links, nextId)
    requires c.parent.Some? ==> c.parent.value in rows
    requires l in NewLinks(links, c.parent, nextId)
    ensures l.descendant in rows[nextId := c] && Ancestor(rows[nextId := c], l.descendant, l.depth) == Some(l.ancestor)
  {
    var n := nextId;
    assert n !in rows;
    if l in links {
      AncestorExtend(rows, nextId, n, c, l.descendant, l.depth);
    } else if l != Link(n, n, 0) {
      var p := c.parent.value;
      ShiftedFrom(links, p, n, l);
      AncestorExtend(rows, nextId, n, c, p, l.depth - 1);
    }
  }

  /** After add an ancestor of a comment has its closure row. */
  lemma AddLinkComplete(rows: Rows, links: set<Link>, nextId: nat, c: Comment, d: nat, k: nat)
    requires Consistent(rows, links, nextId)
    requires c.parent.Some? ==> c.parent.value in rows
    requires d in rows[nextId := c] && Ancestor(rows[nextId := c], d, k).Some?
    ensures Link(Ancestor(rows[nextId := c], d, k).value, d, k) in NewLinks(links, c.parent, nextId)
  {
    var n := nextId;
    assert n !in rows;
    if d != n {
      AncestorExtend(rows, nextId, n, c, d, k);
      assert Link(Ancestor(rows, d, k).value, d, k) in links;
    } else if k > 0 {
      var p := c.parent.value;
      AncestorExtend(rows, nextId, n, c, p, k - 1);
      var l := Link(Ancestor(rows, p, k - 1).value, p, k - 1);
      assert l in links;
      ShiftedContains(links, p, n, l);
    }
  }

  /** add keeps the invariant: the new comment's closure rows are exactly its ancestors. */
  lemma AddPreservesConsistent(rows: Rows, links: set<Link>, nextId: nat, c: Comment)
    requires Consistent(rows, links, nextId)
    requires c.parent.Some? ==> c.parent.value in rows && rows[c.parent.value].ootd == c.ootd
    ensures Consistent(rows[nextId := c], NewLinks(links, c.parent, nextId), nextId + 1)
  {
    var rows2, links2 := rows[nextId := c], NewLinks(links, c.parent, nextId);
    forall l | l in links2
      ensures l.descendant in rows2 && Ancestor(rows2, l.descendant, l.depth) == Some(l.ancestor)
    {
      AddLinkSound(rows, links, nextId, c, l);
    }
    forall d: nat, k: nat | d in rows2 && Ancestor(rows2, d, k).Some?
      ensures Link(Ancestor(rows2, d, k).value, d, k) in links2
    {
      AddLinkComplete(rows, links, nextId, c, d, k);
    }
  }

  /** A comment outside the deleted subtree keeps all its ancestors. */
  lemma {:induction false} AncestorRestrict(rows: Rows, nextId: nat, c: nat, d: nat, k: nat)
    requires WellFormed(rows, nextId) && d in rows && d !in SubtreeOf(rows, c)
    ensures Ancestor(rows - SubtreeOf(rows, c), d, k) == Ancestor(rows, d, k)
    decreases k
  {
    if k > 0 && rows[d].parent.Some? {
      var p := rows[d].parent.value;
      if p in SubtreeOf(rows, c) {
        SubtreeDownwardClosed(rows, c, p, d, 1);
      }
      AncestorRestrict(rows, nextId, c, p, k - 1);
    }
  }

  /** deleteCascade keeps the invariant: removing a whole subtree and every closure row
      touching it leaves the closure of the remaining comments. */
  lemma DeletePreservesConsistent(rows: Rows, links: set<Link>, nextId: nat, c: nat)
    requires Consistent(rows, links, nextId)
    ensures Consistent(rows - SubtreeOf(rows, c), Untouched(links, SubtreeOf(rows, c)), nextId)
  {
    var s := SubtreeOf(rows, c);
    var rows2 := rows - s;
    var links2 := Untouched(links, s);
    forall d | d in rows2 && rows2[d].parent.Some?
      ensures rows2[d].parent.value in rows2
    {
      var p := rows[d].parent.value;
      if p in s {
        SubtreeDownwardClosed(rows, c, p, d, 1);
      }
    }
    forall l | l in links2
      ensures l.descendant in rows2 && Ancestor(rows2, l.descendant, l.depth) == Some(l.ancestor)
    {
      AncestorRestrict(rows, nextId, c, l.descendant, l.depth);
    }
    forall d: nat, k: nat | d in rows2 && Ancestor(rows2, d, k).Some?
      ensures Link(Ancestor(rows2, d, k).value, d, k) in links2
    {
      AncestorRestrict(rows, nextId, c, d, k);
      var a := Ancestor(rows, d, k).value;
      if a in s {
        SubtreeDownwardClosed(rows, c, a, d, k);
      }
    }
  }

  /** add(ootdId, memberId, parentId, content): checks the ootd, the member and the parent
      in that order, saves the comment stamped with now, and writes its closure rows; a
      unique-constraint failure rolls the whole transaction back. Returns the new id. */
  method Add(comments: CommentTable, closure: ClosureTable, ootds: set<nat>, members: set<nat>,
             ootdId: nat, memberId: nat, parentId: Option<nat>, content: string, now: int)
    returns (r: Result<nat, Failure>)
    requires comments.Valid() && closure.Valid()
    modifies comments, closure
    ensures comments.Valid() && closure.Valid()
    ensures ootdId !in ootds ==> r == Err(OotdErr(OotdNotFound))
    ensures ootdId in ootds && memberId !in members ==> r == Err(CommentErr(CommentMemberNotFound))
    ensures ootdId in ootds && memberId in members && parentId.Some? && parentId.value !in old(comments.rows) ==>
              r == Err(CommentErr(ParentNotFound))
    ensures (ootdId in ootds && memberId in members && parentId.Some? && parentId.value in old(comments.rows)
             && old(comments.rows)[parentId.value].ootd != ootdId) ==>
              r == Err(CommentErr(ParentMismatch))
    ensures r.Ok? ==> AddAllowed(old(comments.rows), ootds, members, ootdId, memberId, parentId)
    ensures r.Ok? ==>
              && r.value == old(comments.nextId)
              && comments.rows == old(comments.rows)[r.value := Comment(ootdId, memberId, parentId, content, now)]
              && comments.nextId == old(comments.nextId) + 1
              && closure.links == NewLinks(old(closure.links), parentId, r.value)
    ensures r.Err? ==> comments.rows == old(comments.rows) && closure.links == old(closure.links)
    ensures r.Err? && r != Err(RuntimeErr(DuplicateLink)) ==> comments.nextId == old(comments.nextId)
    ensures Consistent(old(comments.rows), old(closure.links), old(comments.nextId)) ==>
      Consistent(comments.rows, closure.links, comments.nextId)
      && (AddAllowed(old(comments.rows), ootds, members, ootdId, memberId, parentId) ==> r.Ok?)
  {
    if ootdId !in ootds {
      return Err(OotdErr(OotdNotFound));
    }
    if memberId !in members {
      return Err(CommentErr(CommentMemberNotFound));
    }
    if parentId.Some? {
      if parentId.value !in comments.rows {
        return Err(CommentErr(ParentNotFound));
      }
      if comments.rows[parentId.value].ootd != ootdId {
        return Err(CommentErr(ParentMismatch));
      }
    }
    ghost var wasConsistent := Consistent(comments.rows, closure.links, comments.nextId);
    var savedRows, savedLinks := comments.rows, closure.links;
    var c := Comment(ootdId, memberId, parentId, content, now);
    var newId := comments.Save(c);
    if wasConsistent {
      AddInsertsSucceed(savedRows, savedLinks, newId, parentId);
      AddPreservesConsistent(savedRows, savedLinks, newId, c);
    }
    var ok := true;
    if parentId.Some? {
      ok := closure.InsertAncestorLinksFromParent(parentId.value, newId);
    }
    if ok {
      ok := closure.InsertSelfLink(newId);
    }
    if !ok {
      // the transaction rolls back; the identity value stays consumed
      comments.rows := savedRows;
      closure.links := savedLinks;
      return Err(RuntimeErr(DuplicateLink));
    }
    r := Ok(newId);
  }

  /** deleteCascade(commentId, requesterId): only the author may delete; the comment and
      every comment below it go, with every closure row that touches one of them. */
  method DeleteCascade(comments: CommentTable, closure: ClosureTable, commentId: nat, requesterId: nat)
    returns (r: Result<(), Failure>)
    requires comments.Valid() && closure.Valid()
    modifies comments, closure
    ensures comments.Valid() && closure.Valid()
    ensures commentId !in old(comments.rows) ==> r == Err(CommentErr(CommentNotFound))
    ensures commentId in old(comments.rows) && old(comments.rows)[commentId].author != requesterId
      ==> r == Err(CommentErr(ForbiddenNotAuthor))
    ensures commentId in old(comments.rows) && old(comments.rows)[commentId].author == requesterId ==> r.Ok?
    ensures r.Err? ==> comments.rows == old(comments.rows) && closure.links == old(closure.links)
    ensures r.Ok? ==>
      comments.rows == old(comments.rows) - SubtreeIds(old(closure.links), commentId)
      && closure.links == Untouched(old(closure.links), SubtreeIds(old(closure.links), commentId))
    ensures comments.nextId == old(comments.nextId)
    ensures Consistent(old(comments.rows), old(closure.links), old(comments.nextId)) ==>
      Consistent(comments.rows, closure.links, comments.nextId)
      && (r.Ok? ==> comments.rows == old(comments.rows) - SubtreeOf(old(comments.rows), commentId)
                    && commentId !in comments.rows)
  {
    if commentId !in comments.rows {
      return Err(CommentErr(CommentNotFound));
    }
    if comments.rows[commentId].author != requesterId {
      return Err(CommentErr(ForbiddenNotAuthor));
    }
    var ids := SubtreeIds(closure.links, commentId);
    if Consistent(comments.rows, closure.links, comments.nextId) {
      SubtreeIdsExact(comments.rows, closure.links, comments.nextId, commentId);
      SelfLinkPresent(comments.rows, closure.links, comments.nextId, commentId);
      DeletePreservesConsistent(comments.rows, closure.links, comments.nextId, commentId);
    }
    if ids == {} {
      return Ok(());
    }
    closure.DeleteLinksForIds(ids);
    comments.DeleteAllByIdInBatch(ids);
    r := Ok(());
  }
}
