/** CommentQueryServiceImpl: the comments of an ootd assembled into a reply tree, and the
    comment count. */
module CommentQuery {
  import opened Wrappers
  import opened CommentClosure

  /** A CommentDTO. The DTOs are shared objects: a node sits in the id map and, by
      reference, in its parent's children list or in the roots list, and that list keeps
      growing after the node is placed. Here children holds the ids of the child nodes, so
      the map of nodes together with the roots list is that object graph. */
  datatype Node = Node(id: nat, nickname: string, createdAt: int, content: string, children: seq<nat>)

  /** The same DTOs seen as the nested tree the response serialises. */
  datatype Tree = Tree(id: nat, nickname: string, createdAt: int, content: string, replies: seq<Tree>)

  /** The DTO first made for a fetched row, with an empty children list. */
  function Leaf(r: Row, nickname: nat -> string): Node {
    Node(r.id, nickname(r.c.author), r.c.createdAt, r.c.content, [])
  }

  // ---------------------------------------------------------------------------------
  // Reference definitions over the fetched list
  // ---------------------------------------------------------------------------------

  /** The fetched ids. */
  function Known(all: seq<Row>): (ids: set<nat>)
    ensures forall j | 0 <= j < |all| :: all[j].id in ids
  {
    set j | 0 <= j < |all| :: all[j].id
  }

  /** A fetched row is listed among the roots when it has no parent, or when its parent is
      not among the fetched ids. */
  predicate IsRootIn(r: Row, known: set<nat>) {
    r.c.parent.None? || r.c.parent.value !in known
  }

  /** The ids of the rows among the first n fetched ones whose parent is p, in fetch order. */
  function ChildIds(all: seq<Row>, n: nat, p: nat): seq<nat>
    requires n <= |all|
  {
    if n == 0 then []
    else if all[n - 1].c.parent == Some(p) then ChildIds(all, n - 1, p) + [all[n - 1].id]
    else ChildIds(all, n - 1, p)
  }

  /** The ids of the rows among the first n fetched ones that are roots, in fetch order. */
  function RootIds(all: seq<Row>, n: nat): seq<nat>
    requires n <= |all|
  {
    if n == 0 then []
    else if IsRootIn(all[n - 1], Known(all)) then RootIds(all, n - 1) + [all[n - 1].id]
    else RootIds(all, n - 1)
  }

  /** The rows among the first n fetched ones whose parent is p, in fetch order. */
  function ChildRows(all: seq<Row>, n: nat, p: nat): (r: seq<Row>)
    requires n <= |all|
    ensures |r| <= n
  {
    if n == 0 then []
    else if all[n - 1].c.parent == Some(p) then ChildRows(all, n - 1, p) + [all[n - 1]]
    else ChildRows(all, n - 1, p)
  }

  /** The rows among the first n fetched ones that are roots, in fetch order. */
  function RootRows(all: seq<Row>, n: nat): (r: seq<Row>)
    requires n <= |all|
    ensures |r| <= n
  {
    if n == 0 then []
    else if IsRootIn(all[n - 1], Known(all)) then RootRows(all, n - 1) + [all[n - 1]]
    else RootRows(all, n - 1)
  }

  lemma IdsOfSnoc(a: seq<Row>, r: Row)
    ensures IdsOf(a + [r]) == IdsOf(a) + [r.id]
  {
    assert |IdsOf(a + [r])| == |IdsOf(a) + [r.id]|;
    forall i | 0 <= i < |a| + 1 ensures IdsOf(a + [r])[i] == (IdsOf(a) + [r.id])[i] {
    }
  }

  lemma {:induction false} ChildRowsFacts(all: seq<Row>, n: nat, p: nat)
    requires n <= |all|
    ensures IdsOf(ChildRows(all, n, p)) == ChildIds(all, n, p)
    ensures forall i | 0 <= i < |ChildRows(all, n, p)| ::
      ChildRows(all, n, p)[i] in all[..n] && ChildRows(all, n, p)[i].c.parent == Some(p)
  {
    if n > 0 {
      ChildRowsFacts(all, n - 1, p);
      assert all[..n] == all[..n - 1] + [all[n - 1]];
      if all[n - 1].c.parent == Some(p) {
        IdsOfSnoc(ChildRows(all, n - 1, p), all[n - 1]);
      }
    }
  }

  lemma {:induction false} RootRowsFacts(all: seq<Row>, n: nat)
    requires n <= |all|
    ensures IdsOf(RootRows(all, n)) == RootIds(all, n)
    ensures forall i | 0 <= i < |RootRows(all, n)| ::
      RootRows(all, n)[i] in all[..n] && IsRootIn(RootRows(all, n)[i], Known(all))
  {
    if n > 0 {
      RootRowsFacts(all, n - 1);
      assert all[..n] == all[..n - 1] + [all[n - 1]];
      if IsRootIn(all[n - 1], Known(all)) {
        IdsOfSnoc(RootRows(all, n - 1), all[n - 1]);
      }
    }
  }

  /** The fetched rows whose parent is p, in fetch order. */
  function ChildrenOf(all: seq<Row>, p: nat): (r: seq<Row>)
    ensures IdsOf(r) == ChildIds(all, |all|, p)
    ensures forall i | 0 <= i < |r| :: r[i] in all && r[i].c.parent == Some(p)
  {
    ChildRowsFacts(all, |all|, p);
    assert all[..|all|] == all;
    ChildRows(all, |all|, p)
  }

  /** The roots of the fetched list, in fetch order. */
  function RootsOf(all: seq<Row>): (r: seq<Row>)
    ensures IdsOf(r) == RootIds(all, |all|)
    ensures forall i | 0 <= i < |r| :: r[i] in all && IsRootIn(r[i], Known(all))
  {
    RootRowsFacts(all, |all|);
    assert all[..|all|] == all;
    RootRows(all, |all|)
  }

  /** No two fetched rows share an id. */
  ghost predicate DistinctIds(all: seq<Row>) {
    forall i, j | 0 <= i < j < |all| :: all[i].id != all[j].id
  }

  /** Every reply was created after (has a larger id than) its parent. */
  ghost predicate ParentBelow(all: seq<Row>) {
    forall i | 0 <= i < |all| :: all[i].c.parent.Some? ==> all[i].c.parent.value < all[i].id
  }

  /** An upper bound of the fetched ids. */
  function MaxId(all: seq<Row>): (m: nat)
    ensures forall i | 0 <= i < |all| :: all[i].id <= m
  {
    if all == [] then 0
    else
      var m := MaxId(all[1..]);
      assert forall i | 1 <= i < |all| :: all[i] == all[1..][i - 1];
      if all[0].id > m then all[0].id else m
  }

  /** The tree rooted at a fetched row: the row and, below it, the trees of its children in
      fetch order. */
  function TreeOf(all: seq<Row>, r: Row, nickname: nat -> string): (t: Tree)
    requires ParentBelow(all) && r in all
    ensures t.id == r.id && |t.replies| == |ChildIds(all, |all|, r.id)|
    ensures forall j | 0 <= j < |t.replies| :: t.replies[j].id == ChildIds(all, |all|, r.id)[j]
    decreases MaxId(all) - r.id
  {
    var ch := ChildrenOf(all, r.id);
    Tree(r.id, nickname(r.c.author), r.c.createdAt, r.c.content,
         seq(|ch|, j requires 0 <= j < |ch| => TreeOf(all, ch[j], nickname)))
  }

  /** The response of getAllComments as nested trees: one tree per root. */
  function Forest(all: seq<Row>, nickname: nat -> string): (ts: seq<Tree>)
    requires ParentBelow(all)
    ensures |ts| == |RootIds(all, |all|)|
    ensures forall j | 0 <= j < |ts| :: ts[j].id == RootIds(all, |all|)[j]
  {
    var rs := RootsOf(all);
    seq(|rs|, j requires 0 <= j < |rs| => TreeOf(all, rs[j], nickname))
  }

  /** The ids of a tree in pre-order. */
  function Flatten(t: Tree): seq<nat>
    decreases t, 1
  {
    [t.id] + FlattenAll(t.replies)
  }

  /** The ids of a list of trees in pre-order. */
  function FlattenAll(ts: seq<Tree>): seq<nat>
    decreases ts, 0
  {
    if ts == [] then [] else Flatten(ts[0]) + FlattenAll(ts[1..])
  }

  // ---------------------------------------------------------------------------------
  // getAllComments and countByOotd
  // ---------------------------------------------------------------------------------

  /** The fetched list has distinct ids and every reply's parent among them, so the tree has
      no orphans: in a well-formed table the roots are exactly the comments without a
      parent. */
  lemma FetchedIsForest(rows: Rows, nextId: nat, ootdId: nat)
    requires WellFormed(rows, nextId)
    ensures var all := FindAllByOotdIdWithMember(rows, ootdId);
      && DistinctIds(all) && ParentBelow(all)
      && (forall i | 0 <= i < |all| && all[i].c.parent.Some? :: all[i].c.parent.value in Known(all))
      && (forall i | 0 <= i < |all| :: IsRootIn(all[i], Known(all)) <==> all[i].c.parent.None?)
  {
    var all := FindAllByOotdIdWithMember(rows, ootdId);
    FetchedDistinct(rows, ootdId);
    forall i | 0 <= i < |all|
      ensures all[i].c.parent.Some? ==> all[i].c.parent.value < all[i].id && all[i].c.parent.value in Known(all)
    {
      FetchedParent(rows, nextId, ootdId, all, i);
    }
  }

  /** The parent of a fetched reply was fetched too, and has a smaller id. */
  lemma FetchedParent(rows: Rows, nextId: nat, ootdId: nat, all: seq<Row>, i: nat)
    requires WellFormed(rows, nextId) && all == FindAllByOotdIdWithMember(rows, ootdId) && i < |all|
    ensures all[i].c.parent.Some? ==> all[i].c.parent.value < all[i].id && all[i].c.parent.value in Known(all)
  {
    var id := all[i].id;
    assert id in rows && rows[id] == all[i].c;
    if all[i].c.parent.Some? {
      var p := all[i].c.parent.value;
      assert p in OnOotd(rows, ootdId);
      var ids := IdsOf(all);
      assert p in ids;
      var j :| 0 <= j < |ids| && ids[j] == p;
      assert all[j].id == p;
    }
  }

  /** The fetch order is strict, so the fetched ids are distinct. */
  lemma FetchedDistinct(rows: Rows, ootdId: nat)
    ensures DistinctIds(FindAllByOotdIdWithMember(rows, ootdId))
  {
    var all := FindAllByOotdIdWithMember(rows, ootdId);
    forall i, j | 0 <= i < j < |all| ensures all[i].id != all[j].id {
      assert Before(rows, all[i].id, all[j].id);
    }
  }

  /** getAllComments(ootdId): one DTO per fetched comment, then each attached to its
      parent's children list, or listed as a root when it has no parent or its parent was
      not fetched. */
  method GetAllComments(rows: Rows, ootdId: nat, nickname: nat -> string)
    returns (roots: seq<nat>, nodes: map<nat, Node>)
    ensures var all := FindAllByOotdIdWithMember(rows, ootdId);
      && nodes.Keys == Known(all)
      && (forall i | 0 <= i < |all| ::
            nodes[all[i].id] == Leaf(all[i], nickname).(children := ChildIds(all, |all|, all[i].id)))
      && roots == RootIds(all, |all|)
  {
    var all := FindAllByOotdIdWithMember(rows, ootdId);
    FetchedDistinct(rows, ootdId);
    var leaves := IndexNodes(all, nickname);
    roots, nodes := LinkNodes(all, leaves);
    AttachedAll(all, nickname, leaves, nodes);
  }

  /** At the end of the second pass every DTO holds all its children. */
  lemma AttachedAll(all: seq<Row>, nickname: nat -> string, leaves: map<nat, Node>, nodes: map<nat, Node>)
    requires leaves.Keys == Known(all)
    requires forall j | 0 <= j < |all| :: leaves[all[j].id] == Leaf(all[j], nickname)
    requires AttachedUpTo(all, leaves, nodes, |all|)
    ensures nodes.Keys == Known(all)
    ensures forall i | 0 <= i < |all| ::
      nodes[all[i].id] == Leaf(all[i], nickname).(children := ChildIds(all, |all|, all[i].id))
  {
    forall i | 0 <= i < |all|
      ensures nodes[all[i].id] == Leaf(all[i], nickname).(children := ChildIds(all, |all|, all[i].id))
    {
      var x := all[i].id;
      assert nodes[x] == leaves[x].(children := ChildIds(all, |all|, x));
    }
  }

  /** After n rows of the second pass, each DTO holds the children attached so far and is
      otherwise as first made. */
  ghost predicate AttachedUpTo(all: seq<Row>, leaves: map<nat, Node>, nodes: map<nat, Node>, n: nat)
    requires n <= |all|
  {
    nodes.Keys == leaves.Keys &&
    forall x | x in leaves :: nodes[x] == leaves[x].(children := ChildIds(all, n, x))
  }

  /** One step of the second pass: the DTO of row i goes to its parent's children list when
      the parent was fetched. */
  lemma AttachStep(all: seq<Row>, leaves: map<nat, Node>, nodes: map<nat, Node>, nodes2: map<nat, Node>, i: nat)
    requires i < |all| && leaves.Keys == Known(all) && AttachedUpTo(all, leaves, nodes, i)
    requires var c := all[i];
      if c.c.parent.Some? && c.c.parent.value in nodes then
        var p := c.c.parent.value;
        nodes2 == nodes[p := nodes[p].(children := nodes[p].children + [c.id])]
      else nodes2 == nodes
    ensures AttachedUpTo(all, leaves, nodes2, i + 1)
  {
  }

  /** One step of the second pass on the roots list: row i is appended unless its parent
      has a DTO. */
  lemma RootStep(all: seq<Row>, nodes: map<nat, Node>, roots: seq<nat>, roots2: seq<nat>, i: nat)
    requires i < |all| && nodes.Keys == Known(all) && roots == RootIds(all, i)
    requires roots2 == if all[i].c.parent.Some? && all[i].c.parent.value in nodes then roots else roots + [all[i].id]
    ensures roots2 == RootIds(all, i + 1)
  {
  }

  /** The first pass of getAllComments: one DTO per fetched row, keyed by id. */
  method IndexNodes(all: seq<Row>, nickname: nat -> string) returns (nodes: map<nat, Node>)
    requires DistinctIds(all)
    ensures nodes.Keys == Known(all)
    ensures forall j | 0 <= j < |all| :: nodes[all[j].id] == Leaf(all[j], nickname)
  {
    nodes := map[];
    var i := 0;
    while i < |all|
      invariant 0 <= i <= |all|
      invariant nodes.Keys == set j | 0 <= j < i :: all[j].id
      invariant forall j | 0 <= j < i :: nodes[all[j].id] == Leaf(all[j], nickname)
    {
      nodes := nodes[all[i].id := Leaf(all[i], nickname)];
      i := i + 1;
    }
  }

  /** The second pass of getAllComments: each row's DTO is appended to its parent's
      children, or to the roots when it has no parent or the parent was not fetched. */
  method LinkNodes(all: seq<Row>, leaves: map<nat, Node>) returns (roots: seq<nat>, nodes: map<nat, Node>)
    requires leaves.Keys == Known(all)
    requires forall x | x in leaves :: leaves[x].children == []
    ensures AttachedUpTo(all, leaves, nodes, |all|)
    ensures roots == RootIds(all, |all|)
  {
    nodes := leaves;
    roots := [];
    var i := 0;
    while i < |all|
      invariant 0 <= i <= |all|
      invariant nodes.Keys == Known(all)
      invariant AttachedUpTo(all, leaves, nodes, i)
      invariant roots == RootIds(all, i)
    {
      var c := all[i];
      ghost var before, rootsBefore := nodes, roots;
      if c.c.parent.Some? && c.c.parent.value in nodes {
        var p := c.c.parent.value;
        nodes := nodes[p := nodes[p].(children := nodes[p].children + [c.id])];
      } else {
        roots := roots + [c.id];
      }
      AttachStep(all, leaves, before, nodes, i);
      RootStep(all, before, rootsBefore, roots, i);
      i := i + 1;
    }
  }

  // ---------------------------------------------------------------------------------
  // Every fetched comment appears in the response exactly once
  // ---------------------------------------------------------------------------------

  /** The parent of fetched comment x, when that parent was fetched too. */
  ghost function ParentIn(all: seq<Row>, x: nat): Option<nat> {
    if exists i | 0 <= i < |all| :: all[i].id == x then
      var i :| 0 <= i < |all| && all[i].id == x;
      if all[i].c.parent.Some? && all[i].c.parent.value in Known(all) then all[i].c.parent else None
    else None
  }

  /** The fetched comment k parent steps above x, if there is one. */
  ghost function Up(all: seq<Row>, x: nat, k: nat): Option<nat>
    decreases k
  {
    if k == 0 then Some(x)
    else match ParentIn(all, x)
      case None => None
      case Some(p) => Up(all, p, k - 1)
  }

  /** x lies in the tree of y. */
  ghost predicate Under(all: seq<Row>, y: nat, x: nat) {
    exists k: nat :: Up(all, x, k) == Some(y)
  }

  lemma ParentInRow(all: seq<Row>, i: nat)
    requires DistinctIds(all) && i < |all|
    ensures ParentIn(all, all[i].id) ==
      if all[i].c.parent.Some? && all[i].c.parent.value in Known(all) then all[i].c.parent else None
  {
  }

  lemma ParentInFacts(all: seq<Row>, x: nat)
    requires ParentBelow(all) && ParentIn(all, x).Some?
    ensures x in Known(all) && ParentIn(all, x).value in Known(all) && ParentIn(all, x).value < x
  {
  }

  lemma {:induction false} UpCompose(all: seq<Row>, x: nat, i: nat, j: nat)
    ensures Up(all, x, i + j) == if Up(all, x, i).Some? then Up(all, Up(all, x, i).value, j) else None
    decreases i
  {
    if i > 0 && ParentIn(all, x).Some? {
      UpCompose(all, ParentIn(all, x).value, i - 1, j);
    }
  }

  /** Walking up strictly decreases the id and stays among the fetched comments. */
  lemma {:induction false} UpBelow(all: seq<Row>, x: nat, k: nat)
    requires ParentBelow(all) && k > 0 && Up(all, x, k).Some?
    ensures x in Known(all) && Up(all, x, k).value in Known(all) && Up(all, x, k).value < x
    decreases k
  {
    ParentInFacts(all, x);
    var p := ParentIn(all, x).value;
    if k > 1 {
      UpBelow(all, p, k - 1);
    }
  }

  /** The walk up never revisits a comment, so the number of steps to an ancestor is
      unique. */
  lemma UpUnique(all: seq<Row>, x: nat, k1: nat, k2: nat)
    requires ParentBelow(all) && Up(all, x, k1).Some? && Up(all, x, k1) == Up(all, x, k2)
    ensures k1 == k2
  {
    if k1 != k2 {
      var lo, hi := if k1 < k2 then k1 else k2, if k1 < k2 then k2 else k1;
      UpCompose(all, x, lo, hi - lo);
      UpBelow(all, Up(all, x, lo).value, hi - lo);
    }
  }

  /** A fetched comment lies below the top of its chain of fetched parents. */
  lemma {:induction false} TopExists(all: seq<Row>, x: nat) returns (z: nat, k: nat)
    requires ParentBelow(all) && x in Known(all)
    ensures Up(all, x, k) == Some(z) && z in Known(all) && ParentIn(all, z).None?
    decreases x
  {
    match ParentIn(all, x)
    case None =>
      z, k := x, 0;
    case Some(p) =>
      ParentInFacts(all, x);
      var k1;
      z, k1 := TopExists(all, p);
      k := k1 + 1;
  }

  /** The number of the given rows whose tree holds x. */
  ghost function CountUnder(all: seq<Row>, cs: seq<Row>, x: nat): nat {
    if cs == [] then 0 else (if Under(all, cs[0].id, x) then 1 else 0) + CountUnder(all, cs[1..], x)
  }

  lemma {:induction false} FlattenAllCount(all: seq<Row>, ts: seq<Tree>, cs: seq<Row>, x: nat)
    requires |ts| == |cs|
    requires forall j | 0 <= j < |ts| :: multiset(Flatten(ts[j]))[x] == if Under(all, cs[j].id, x) then 1 else 0
    ensures multiset(FlattenAll(ts))[x] == CountUnder(all, cs, x)
  {
    if ts != [] {
      FlattenAllCount(all, ts[1..], cs[1..], x);
    }
  }

  lemma IdsOfCons(cs: seq<Row>)
    requires cs != []
    ensures IdsOf(cs) == [cs[0].id] + IdsOf(cs[1..])
  {
    assert |IdsOf(cs)| == |[cs[0].id] + IdsOf(cs[1..])|;
  }

  /** When exactly the rows with id z hold x, the count is the number of occurrences of z. */
  lemma {:induction false} CountUnderIds(all: seq<Row>, cs: seq<Row>, x: nat, z: nat)
    requires forall j | 0 <= j < |cs| :: Under(all, cs[j].id, x) <==> cs[j].id == z
    ensures CountUnder(all, cs, x) == multiset(IdsOf(cs))[z]
  {
    if cs != [] {
      IdsOfCons(cs);
      CountUnderIds(all, cs[1..], x, z);
    }
  }

  lemma {:induction false} CountUnderNone(all: seq<Row>, cs: seq<Row>, x: nat)
    requires forall j | 0 <= j < |cs| :: !Under(all, cs[j].id, x)
    ensures CountUnder(all, cs, x) == 0
  {
    if cs != [] {
      CountUnderNone(all, cs[1..], x);
    }
  }

  /** A child of p occurs once among p's children. */
  lemma {:induction false} ChildIdsCount(all: seq<Row>, n: nat, p: nat, iz: nat)
    requires DistinctIds(all) && n <= |all| && iz < |all| && all[iz].c.parent == Some(p)
    ensures multiset(ChildIds(all, n, p))[all[iz].id] == if iz < n then 1 else 0
  {
    if n > 0 {
      ChildIdsCount(all, n - 1, p, iz);
    }
  }

  /** A root occurs once among the roots. */
  lemma {:induction false} RootIdsCount(all: seq<Row>, n: nat, iz: nat)
    requires DistinctIds(all) && n <= |all| && iz < |all| && IsRootIn(all[iz], Known(all))
    ensures multiset(RootIds(all, n))[all[iz].id] == if iz < n then 1 else 0
  {
    if n > 0 {
      RootIdsCount(all, n - 1, iz);
    }
  }

  /** Every child of r has r as its fetched parent. */
  lemma ChildrenPointUp(all: seq<Row>, r: Row)
    requires DistinctIds(all) && r in all
    ensures forall j | 0 <= j < |ChildrenOf(all, r.id)| :: ParentIn(all, ChildrenOf(all, r.id)[j].id) == Some(r.id)
  {
    var ch := ChildrenOf(all, r.id);
    assert r.id in Known(all);
    forall j | 0 <= j < |ch| ensures ParentIn(all, ch[j].id) == Some(r.id) {
      var ic :| 0 <= ic < |all| && all[ic] == ch[j];
      ParentInRow(all, ic);
    }
  }

  /** No child's tree holds x when r's tree does not, or when x is r itself. */
  lemma NoChildHolds(all: seq<Row>, r: Row, x: nat)
    requires DistinctIds(all) && ParentBelow(all) && r in all
    requires x == r.id || !Under(all, r.id, x)
    ensures CountUnder(all, ChildrenOf(all, r.id), x) == 0
  {
    var ch := ChildrenOf(all, r.id);
    ChildrenPointUp(all, r);
    forall j | 0 <= j < |ch| ensures !Under(all, ch[j].id, x) {
      if Under(all, ch[j].id, x) {
        var k: nat :| Up(all, x, k) == Some(ch[j].id);
        UpCompose(all, x, k, 1);
        assert Up(all, x, k + 1) == Some(r.id);
        if x == r.id {
          UpBelow(all, x, k + 1);
        }
      }
    }
    CountUnderNone(all, ch, x);
  }

  /** The only child of the k-th ancestor of x whose tree holds x is the (k-1)-th. */
  lemma OnlyChildOnPath(all: seq<Row>, x: nat, k: nat, z: nat, y: nat)
    requires ParentBelow(all) && k > 0 && Up(all, x, k - 1) == Some(z) && Up(all, x, k).Some?
    requires ParentIn(all, y) == Up(all, x, k) && Under(all, y, x)
    ensures y == z
  {
    var kj: nat :| Up(all, x, kj) == Some(y);
    UpCompose(all, x, kj, 1);
    UpUnique(all, x, kj + 1, k);
  }

  /** When x is strictly below r, exactly one child's tree holds x. */
  lemma OneChildHolds(all: seq<Row>, r: Row, x: nat)
    requires DistinctIds(all) && ParentBelow(all) && r in all
    requires x != r.id && Under(all, r.id, x)
    ensures CountUnder(all, ChildrenOf(all, r.id), x) == 1
  {
    var ch := ChildrenOf(all, r.id);
    ChildrenPointUp(all, r);
    var k: nat :| Up(all, x, k) == Some(r.id);
    assert k > 0;
    UpCompose(all, x, k - 1, 1);
    var z := Up(all, x, k - 1).value;
    ParentInFacts(all, z);
    var iz :| 0 <= iz < |all| && all[iz].id == z;
    ParentInRow(all, iz);
    forall j | 0 <= j < |ch| ensures Under(all, ch[j].id, x) <==> ch[j].id == z {
      if Under(all, ch[j].id, x) {
        OnlyChildOnPath(all, x, k, z, ch[j].id);
      }
    }
    CountUnderIds(all, ch, x, z);
    ChildIdsCount(all, |all|, r.id, iz);
  }

  /** The tree of a fetched row holds exactly the comments below it, each once. */
  lemma {:induction false} TreeCount(all: seq<Row>, r: Row, nickname: nat -> string, x: nat)
    requires DistinctIds(all) && ParentBelow(all) && r in all
    ensures multiset(Flatten(TreeOf(all, r, nickname)))[x] == if Under(all, r.id, x) then 1 else 0
    decreases MaxId(all) - r.id
  {
    var ch := ChildrenOf(all, r.id);
    var t := TreeOf(all, r, nickname);
    forall j | 0 <= j < |ch|
      ensures multiset(Flatten(t.replies[j]))[x] == if Under(all, ch[j].id, x) then 1 else 0
    {
      TreeCount(all, ch[j], nickname, x);
    }
    FlattenAllCount(all, t.replies, ch, x);
    assert Up(all, r.id, 0) == Some(r.id);
    if x == r.id || !Under(all, r.id, x) {
      NoChildHolds(all, r, x);
    } else {
      OneChildHolds(all, r, x);
    }
  }

  /** Every root has no fetched parent. */
  lemma RootsPointNowhere(all: seq<Row>)
    requires DistinctIds(all)
    ensures forall j | 0 <= j < |RootsOf(all)| :: ParentIn(all, RootsOf(all)[j].id).None?
  {
    var rs := RootsOf(all);
    forall j | 0 <= j < |rs| ensures ParentIn(all, rs[j].id).None? {
      var ic :| 0 <= ic < |all| && all[ic] == rs[j];
      ParentInRow(all, ic);
    }
  }

  /** Of the comments without a fetched parent, only the top of x's chain holds x. */
  lemma OnlyRootOnPath(all: seq<Row>, x: nat, kz: nat, z: nat, y: nat)
    requires Up(all, x, kz) == Some(z) && ParentIn(all, z).None?
    requires ParentIn(all, y).None? && Under(all, y, x)
    ensures y == z
  {
    var kj: nat :| Up(all, x, kj) == Some(y);
    if kj < kz {
      UpCompose(all, x, kj, kz - kj);
    } else if kz < kj {
      UpCompose(all, x, kz, kj - kz);
    }
  }

  /** A fetched comment lies in exactly one root's tree. */
  lemma OneRootHolds(all: seq<Row>, x: nat)
    requires DistinctIds(all) && ParentBelow(all) && x in Known(all)
    ensures CountUnder(all, RootsOf(all), x) == 1
  {
    var rs := RootsOf(all);
    RootsPointNowhere(all);
    var z, kz := TopExists(all, x);
    var iz :| 0 <= iz < |all| && all[iz].id == z;
    ParentInRow(all, iz);
    forall j | 0 <= j < |rs| ensures Under(all, rs[j].id, x) <==> rs[j].id == z {
      if Under(all, rs[j].id, x) {
        OnlyRootOnPath(all, x, kz, z, rs[j].id);
      }
    }
    CountUnderIds(all, rs, x, z);
    RootIdsCount(all, |all|, iz);
  }

  /** No root's tree holds an id that was not fetched. */
  lemma NoRootHolds(all: seq<Row>, x: nat)
    requires ParentBelow(all) && x !in Known(all)
    ensures CountUnder(all, RootsOf(all), x) == 0
  {
    var rs := RootsOf(all);
    forall j | 0 <= j < |rs| ensures !Under(all, rs[j].id, x) {
      if Under(all, rs[j].id, x) {
        var kj: nat :| Up(all, x, kj) == Some(rs[j].id);
        if kj > 0 {
          UpBelow(all, x, kj);
        }
      }
    }
    CountUnderNone(all, rs, x);
  }

  /** The nested response holds every fetched comment exactly once, and nothing else. */
  lemma ForestCount(all: seq<Row>, nickname: nat -> string, x: nat)
    requires DistinctIds(all) && ParentBelow(all)
    ensures multiset(FlattenAll(Forest(all, nickname)))[x] == if x in Known(all) then 1 else 0
  {
    var rs := RootsOf(all);
    var ts := Forest(all, nickname);
    forall j | 0 <= j < |rs|
      ensures multiset(Flatten(ts[j]))[x] == if Under(all, rs[j].id, x) then 1 else 0
    {
      TreeCount(all, rs[j], nickname, x);
    }
    FlattenAllCount(all, ts, rs, x);
    if x in Known(all) {
      OneRootHolds(all, x);
    } else {
      NoRootHolds(all, x);
    }
  }

  /** In a well-formed table, the tree getAllComments returns for an ootd lists every
      comment of that ootd exactly once. */
  lemma ResponseListsEachCommentOnce(rows: Rows, nextId: nat, ootdId: nat, nickname: nat -> string, x: nat)
    requires WellFormed(rows, nextId)
    ensures var all := FindAllByOotdIdWithMember(rows, ootdId);
      ParentBelow(all)
      && multiset(FlattenAll(Forest(all, nickname)))[x] == if x in OnOotd(rows, ootdId) then 1 else 0
  {
    var all := FindAllByOotdIdWithMember(rows, ootdId);
    FetchedIsForest(rows, nextId, ootdId);
    ForestCount(all, nickname, x);
    if x in OnOotd(rows, ootdId) {
      var ids := IdsOf(all);
      assert x in ids;
      var j :| 0 <= j < |ids| && ids[j] == x;
      assert all[j].id == x;
    }
  }

  /** countByOotd(ootdId): the number of comments getAllComments fetches. */
  function CountByOotd(rows: Rows, ootdId: nat): (n: nat)
    ensures n == |FindAllByOotdIdWithMember(rows, ootdId)|
  {
    CountByOotdId(rows, ootdId)
  }
}
