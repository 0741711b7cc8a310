/** The two comment tables and their repositories: the comment rows (CommentRepository)
    and the closure table of (ancestor, descendant, depth) links (CommentClosureRepository),
    with the invariant that ties the closure table to the rows' parent references. */
module CommentClosure {
  import opened Wrappers

  /** A comment row. createdAt is the creation instant; only its order matters here. */
  datatype Comment = Comment(ootd: nat, author: nat, parent: Option<nat>, content: string, createdAt: int)

  /** A closure row: ancestor lies depth parent-steps above descendant (depth 0: itself). */
  datatype Link = Link(ancestor: nat, descendant: nat, depth: nat)

  /** The comment table, keyed by id. */
  type Rows = map<nat, Comment>

  // ---------------------------------------------------------------------------------
  // The ancestor relation of the parent references
  // ---------------------------------------------------------------------------------

  /** The comment reached from d by following k parent references, if every step exists. */
  function Ancestor(rows: Rows, d: nat, k: nat): Option<nat>
    decreases k
  {
    if k == 0 then Some(d)
    else if d in rows && rows[d].parent.Some? then Ancestor(rows, rows[d].parent.value, k - 1)
    else None
  }

  /** The comment table's own integrity: every id is below the next identity value, and a
      reply's parent exists, was created earlier (smaller id) and belongs to the same ootd. */
  ghost predicate WellFormed(rows: Rows, nextId: nat) {
    forall id | id in rows ::
      id < nextId &&
      (rows[id].parent.Some? ==>
        var p := rows[id].parent.value;
        p in rows && p < id && rows[p].ootd == rows[id].ootd)
  }

  /** The closure table is exactly the reflexive-transitive ancestor relation of the parent
      references, with depth equal to the number of steps. */
  ghost predicate ClosureExact(rows: Rows, links: set<Link>) {
    (forall l | l in links :: l.descendant in rows && Ancestor(rows, l.descendant, l.depth) == Some(l.ancestor))
    && (forall d: nat, k: nat | d in rows && Ancestor(rows, d, k).Some? :: Link(Ancestor(rows, d, k).value, d, k) in links)
  }

  /** The invariant the comment service keeps over both tables. */
  ghost predicate Consistent(rows: Rows, links: set<Link>, nextId: nat) {
    WellFormed(rows, nextId) && ClosureExact(rows, links)
  }

  /** The closure table holds a row for the pair (a, d). */
  predicate HasPair(links: set<Link>, a: nat, d: nat) {
    exists l | l in links :: l.ancestor == a && l.descendant == d
  }

  /** The unique constraint on comment_closure(ancestor_id, descendant_id). */
  ghost predicate PairsUnique(links: set<Link>) {
    forall l1, l2 | l1 in links && l2 in links && l1.ancestor == l2.ancestor && l1.descendant == l2.descendant :: l1 == l2
  }

  /** The comments below c, c included, by the parent references (a reference definition that
      does not look at the closure table). */
  ghost function SubtreeOf(rows: Rows, c: nat): set<nat> {
    set d | d in rows && exists k: nat :: Ancestor(rows, d, k) == Some(c)
  }

  /** Following i steps and then j more is following i + j steps. */
  lemma {:induction false} AncestorCompose(rows: Rows, d: nat, i: nat, j: nat)
    ensures Ancestor(rows, d, i + j) == (if Ancestor(rows, d, i).Some? then Ancestor(rows, Ancestor(rows, d, i).value, j) else None)
    decreases i
  {
    if i > 0 && d in rows && rows[d].parent.Some? {
      AncestorCompose(rows, rows[d].parent.value, i - 1, j);
    }
  }

  /** In a well-formed table every ancestor of a comment is a comment, and a proper ancestor
      has a smaller id and the same ootd. */
  lemma {:induction false} AncestorBelow(rows: Rows, nextId: nat, d: nat, k: nat)
    requires WellFormed(rows, nextId) && d in rows && Ancestor(rows, d, k).Some?
    ensures Ancestor(rows, d, k).value in rows
    ensures rows[Ancestor(rows, d, k).value].ootd == rows[d].ootd
    ensures k == 0 <==> Ancestor(rows, d, k).value == d
    ensures k > 0 ==> Ancestor(rows, d, k).value < d
    decreases k
  {
    if k > 0 {
      var p := rows[d].parent.value;
      AncestorBelow(rows, nextId, p, k - 1);
    }
  }

  /** Under the invariant two closure rows never share an (ancestor, descendant) pair: the
      unique constraint of the closure table can never fire. */
  lemma ConsistentPairsUnique(rows: Rows, links: set<Link>, nextId: nat)
    requires Consistent(rows, links, nextId)
    ensures PairsUnique(links)
  {
    forall l1, l2 | l1 in links && l2 in links && l1.ancestor == l2.ancestor && l1.descendant == l2.descendant
      ensures l1 == l2
    {
      if l1.depth != l2.depth {
        var lo, hi := if l1.depth < l2.depth then l1 else l2, if l1.depth < l2.depth then l2 else l1;
        var d, a := lo.descendant, lo.ancestor;
        AncestorCompose(rows, d, lo.depth, hi.depth - lo.depth);
        AncestorBelow(rows, nextId, d, lo.depth);
        AncestorBelow(rows, nextId, a, hi.depth - lo.depth);
        assert false;
      }
    }
  }

  /** Under the invariant every comment has its self link, so the subtree lookup of an
      existing comment is never empty. */
  lemma SelfLinkPresent(rows: Rows, links: set<Link>, nextId: nat, c: nat)
    requires Consistent(rows, links, nextId) && c in rows
    ensures Link(c, c, 0) in links
    ensures c in SubtreeIds(links, c)
  {
    assert Ancestor(rows, c, 0) == Some(c);
  }

  /** Under the invariant the closure lookup of c returns exactly the comments below c by
      the parent references, at every depth. */
  lemma SubtreeIdsExact(rows: Rows, links: set<Link>, nextId: nat, c: nat)
    requires Consistent(rows, links, nextId)
    ensures SubtreeIds(links, c) == SubtreeOf(rows, c)
  {
    forall d | d in SubtreeOf(rows, c) ensures d in SubtreeIds(links, c) {
      var k: nat :| Ancestor(rows, d, k) == Some(c);
      assert Link(c, d, k) in links;
    }
  }

  /** The subtree of c is closed under taking children: whatever has an ancestor in it is in it. */
  lemma SubtreeDownwardClosed(rows: Rows, c: nat, a: nat, d: nat, k: nat)
    requires a in SubtreeOf(rows, c) && d in rows && Ancestor(rows, d, k) == Some(a)
    ensures d in SubtreeOf(rows, c)
  {
    var j: nat :| Ancestor(rows, a, j) == Some(c);
    AncestorCompose(rows, d, k, j);
  }

  // ---------------------------------------------------------------------------------
  // The closure repository: the three statements that change the table, one query
  // ---------------------------------------------------------------------------------

  /** The rows insertAncestorLinksFromParent(p, n) selects and inserts: every link ending
      at p, re-targeted to n one level deeper. */
  function Shifted(links: set<Link>, p: nat, n: nat): (r: set<Link>)
    ensures forall l | l in r :: l.descendant == n && l.depth >= 1
  {
    set l | l in links && l.descendant == p :: Link(l.ancestor, n, l.depth + 1)
  }

  /** Every shifted link comes from a link ending at p, one level shallower. */
  lemma ShiftedFrom(links: set<Link>, p: nat, n: nat, l: Link)
    requires l in Shifted(links, p, n)
    ensures l.descendant == n && l.depth >= 1 && Link(l.ancestor, p, l.depth - 1) in links
  {
  }

  /** Every link ending at p has its shifted copy. */
  lemma ShiftedContains(links: set<Link>, p: nat, n: nat, l: Link)
    requires l in links && l.descendant == p
    ensures Link(l.ancestor, n, l.depth + 1) in Shifted(links, p, n)
  {
  }

  /** Inserting the shifted links keeps the pairs unique when none of their pairs is present. */
  lemma ShiftedKeepsPairsUnique(links: set<Link>, p: nat, n: nat)
    requires PairsUnique(links)
    requires forall l | l in Shifted(links, p, n) :: !HasPair(links, l.ancestor, n)
    ensures PairsUnique(links + Shifted(links, p, n))
  {
    var copied := Shifted(links, p, n);
    forall l1, l2 | l1 in links + copied && l2 in links + copied && l1.ancestor == l2.ancestor && l1.descendant == l2.descendant
      ensures l1 == l2
    {
      if l1 in copied && l2 in copied {
        ShiftedFrom(links, p, n, l1);
        ShiftedFrom(links, p, n, l2);
        var m1, m2 := Link(l1.ancestor, p, l1.depth - 1), Link(l2.ancestor, p, l2.depth - 1);
        assert m1 == m2;
      }
    }
  }

  /** findSubtreeIds(c): the descendants of every link whose ancestor is c. */
  function SubtreeIds(links: set<Link>, c: nat): (r: set<nat>)
    ensures forall d :: d in r <==> HasPair(links, c, d)
  {
    set l | l in links && l.ancestor == c :: l.descendant
  }

  /** The rows deleteLinksForIds(ids) keeps: those touching none of ids. */
  function Untouched(links: set<Link>, ids: set<nat>): (r: set<Link>)
    ensures r <= links
    ensures forall l | l in links :: l in r <==> (l.ancestor !in ids && l.descendant !in ids)
  {
    set l | l in links && l.ancestor !in ids && l.descendant !in ids
  }

  /** The comment_closure table. */
  class ClosureTable {
    var links: set<Link>

    /** The database's unique constraint on (ancestor_id, descendant_id). */
    ghost predicate Valid()
      reads this
    {
      PairsUnique(links)
    }

    constructor ()
      ensures Valid() && links == {}
    {
      links := {};
    }

    /** insertSelfLink(n): adds (n, n, 0), or fails on the unique constraint when the pair
        (n, n) is already present, leaving the table as it was. */
    method InsertSelfLink(n: nat) returns (ok: bool)
      requires Valid()
      modifies this
      ensures Valid()
      ensures ok <==> !HasPair(old(links), n, n)
      ensures links == if ok then old(links) + {Link(n, n, 0)} else old(links)
    {
      if HasPair(links, n, n) {
        ok := false;
      } else {
        links := links + {Link(n, n, 0)};
        ok := true;
      }
    }

    /** insertAncestorLinksFromParent(p, n): one set-based insert of Shifted(links, p, n); it
        fails as a whole when one of those pairs is already present. */
    method InsertAncestorLinksFromParent(p: nat, n: nat) returns (ok: bool)
      requires Valid()
      modifies this
      ensures Valid()
      ensures ok <==> forall l | l in Shifted(old(links), p, n) :: !HasPair(old(links), l.ancestor, n)
      ensures links == if ok then old(links) + Shifted(old(links), p, n) else old(links)
    {
      var copied := Shifted(links, p, n);
      ok := forall l | l in copied :: !HasPair(links, l.ancestor, n);
      if ok {
        ShiftedKeepsPairsUnique(links, p, n);
        links := links + copied;
      }
    }

    /** deleteLinksForIds(ids): removes every row whose ancestor or descendant is in ids. */
    method DeleteLinksForIds(ids: set<nat>)
      requires Valid()
      modifies this
      ensures Valid()
      ensures links == Untouched(old(links), ids)
    {
      links := Untouched(links, ids);
    }
  }

  // ---------------------------------------------------------------------------------
  // The comment repository
  // ---------------------------------------------------------------------------------

  /** The comment table with its identity column. */
  class CommentTable {
    var rows: Rows
    var nextId: nat

    /** Identity values are handed out above every existing id. */
    ghost predicate Valid()
      reads this
    {
      forall id | id in rows :: id < nextId
    }

    constructor ()
      ensures Valid() && rows == map[] && nextId == 1
    {
      rows := map[];
      nextId := 1;
    }

    /** save of a new Comment: the row gets the next identity value. */
    method Save(c: Comment) returns (id: nat)
      requires Valid()
      modifies this
      ensures Valid()
      ensures id == old(nextId) && id !in old(rows)
      ensures rows == old(rows)[id := c] && nextId == old(nextId) + 1
    {
      id := nextId;
      rows := rows[id := c];
      nextId := nextId + 1;
    }

    /** deleteAllByIdInBatch(ids). */
    method DeleteAllByIdInBatch(ids: set<nat>)
      requires Valid()
      modifies this
      ensures Valid()
      ensures rows == old(rows) - ids && nextId == old(nextId)
    {
      rows := rows - ids;
    }
  }

  /** A fetched comment: its id and its row. */
  datatype Row = Row(id: nat, c: Comment)

  /** The ids of the comments on one ootd. */
  function OnOotd(rows: Rows, ootdId: nat): (r: set<nat>)
    ensures forall id :: id in r <==> id in rows && rows[id].ootd == ootdId
  {
    set id | id in rows && rows[id].ootd == ootdId
  }

  /** The (createdAt, id) order of the fetch query: a comes strictly before b. */
  predicate Before(rows: Rows, a: nat, b: nat)
    requires a in rows && b in rows
  {
    rows[a].createdAt < rows[b].createdAt || (rows[a].createdAt == rows[b].createdAt && a < b)
  }

  /** m is the earliest of ids. */
  predicate IsEarliest(rows: Rows, ids: set<nat>, m: nat)
    requires ids <= rows.Keys
  {
    m in ids && forall y | y in ids :: y == m || Before(rows, m, y)
  }

  /** Every non-empty set of comments has an earliest member. */
  lemma {:induction false} EarliestExists(rows: Rows, ids: set<nat>)
    requires ids != {} && ids <= rows.Keys
    ensures exists m :: IsEarliest(rows, ids, m)
    decreases ids
  {
    var x :| x in ids;
    if ids == {x} {
      assert IsEarliest(rows, ids, x);
    } else {
      var rest := ids - {x};
      EarliestExists(rows, rest);
      var m :| IsEarliest(rows, rest, m);
      if Before(rows, x, m) {
        forall y | y in ids ensures y == x || Before(rows, x, y) {
          if y != x && y != m {
            assert y in rest;
          }
        }
        assert IsEarliest(rows, ids, x);
      } else {
        forall y | y in ids ensures y == m || Before(rows, m, y) {
          if y != x {
            assert y in rest;
          }
        }
        assert IsEarliest(rows, ids, m);
      }
    }
  }

  /** The earliest comment of a non-empty set, in (createdAt, id) order. */
  function Earliest(rows: Rows, ids: set<nat>): (m: nat)
    requires ids != {} && ids <= rows.Keys
    ensures m in ids && forall y | y in ids :: y == m || Before(rows, m, y)
  {
    EarliestExists(rows, ids);
    var m :| IsEarliest(rows, ids, m);
    m
  }

  /** Putting the earliest of ids in front of a sorted listing of the others keeps it
      sorted. */
  lemma PrependEarliest(rows: Rows, ids: set<nat>, m: nat, rest: seq<nat>)
    requires ids <= rows.Keys && m in ids && forall y | y in ids :: y == m || Before(rows, m, y)
    requires forall i | 0 <= i < |rest| :: rest[i] in ids - {m}
    requires forall i, j | 0 <= i < j < |rest| :: Before(rows, rest[i], rest[j])
    ensures forall i, j | 0 <= i < j < |[m] + rest| :: Before(rows, ([m] + rest)[i], ([m] + rest)[j])
  {
    var r := [m] + rest;
    forall i, j | 0 <= i < j < |r| ensures Before(rows, r[i], r[j]) {
      assert r[j] == rest[j - 1];
      if i > 0 {
        assert r[i] == rest[i - 1];
      }
    }
  }

  /** The ids of a set of comments listed by createdAt ascending, then id ascending. */
  function InCreationOrder(rows: Rows, ids: set<nat>): (r: seq<nat>)
    requires ids <= rows.Keys
    ensures |r| == |ids|
    ensures forall i | 0 <= i < |r| :: r[i] in ids
    ensures forall x | x in ids :: x in r
    ensures forall i, j | 0 <= i < j < |r| :: Before(rows, r[i], r[j])
    decreases ids
  {
    if ids == {} then []
    else
      var m := Earliest(rows, ids);
      var rest := InCreationOrder(rows, ids - {m});
      assert |ids - {m}| == |ids| - 1;
      PrependEarliest(rows, ids, m, rest);
      [m] + rest
  }

  /** The ids of a fetched list, in order. */
  function IdsOf(r: seq<Row>): (ids: seq<nat>)
    ensures |ids| == |r| && forall i | 0 <= i < |r| :: ids[i] == r[i].id
  {
    seq(|r|, i requires 0 <= i < |r| => r[i].id)
  }

  /** The rows of the given ids, in the same order. */
  function RowsOf(rows: Rows, ids: seq<nat>): (r: seq<Row>)
    requires forall i | 0 <= i < |ids| :: ids[i] in rows
    ensures IdsOf(r) == ids
    ensures forall i | 0 <= i < |r| :: r[i].c == rows[r[i].id]
  {
    if ids == [] then [] else [Row(ids[0], rows[ids[0]])] + RowsOf(rows, ids[1..])
  }

  /** findAllByOotdIdWithMember(ootdId): every comment on the ootd exactly once, ordered by
      createdAt and then id. */
  function FindAllByOotdIdWithMember(rows: Rows, ootdId: nat): (r: seq<Row>)
    ensures |r| == |OnOotd(rows, ootdId)|
    ensures forall i | 0 <= i < |r| :: r[i].id in rows && r[i].c == rows[r[i].id] && r[i].c.ootd == ootdId
    ensures forall id | id in OnOotd(rows, ootdId) :: id in IdsOf(r)
    ensures forall i, j | 0 <= i < j < |r| :: Before(rows, r[i].id, r[j].id)
  {
    RowsOf(rows, InCreationOrder(rows, OnOotd(rows, ootdId)))
  }

  /** countByOotdId(ootdId). */
  function CountByOotdId(rows: Rows, ootdId: nat): (n: nat)
    ensures n == |FindAllByOotdIdWithMember(rows, ootdId)|
  {
    |OnOotd(rows, ootdId)|
  }
}
