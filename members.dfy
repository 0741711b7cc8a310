/** The member table and its member_token rows, with the lookups the services use
    (findByEmail, findById, existsByEmail, existsByNickname). The email column carries no
    unique constraint, so findByEmail can match several rows. */
module Members {
  import opened Wrappers
  import opened Errors

  /** AccountScope */
  datatype AccountScope = Public | FollowersOnly

  /** A member row; a null profile image URL is None. */
  datatype Member = Member(id: nat, email: string, password: string, nickname: string,
                           profileImageUrl: Option<string>, accountScope: AccountScope, isEmailVerified: bool)

  /** A member_token row: the refresh token signup records for the member. */
  datatype MemberToken = MemberToken(member: nat, refreshToken: string, revoked: bool)

  /** existsByEmail(email). */
  predicate ExistsByEmail(rows: seq<Member>, email: string) {
    exists k | 0 <= k < |rows| :: rows[k].email == email
  }

  /** existsByNickname(nickname). */
  predicate ExistsByNickname(rows: seq<Member>, nickname: string) {
    exists k | 0 <= k < |rows| :: rows[k].nickname == nickname
  }

  /** The rows with the given email, in table order. */
  function WithEmail(rows: seq<Member>, email: string): (r: seq<Member>)
    ensures |r| <= |rows|
    ensures forall i | 0 <= i < |r| :: r[i].email == email && r[i] in rows
  {
    if rows == [] then []
    else (if rows[0].email == email then [rows[0]] else []) + WithEmail(rows[1..], email)
  }

  /** No two rows share an email. */
  predicate UniqueEmails(rows: seq<Member>) {
    forall i, j | 0 <= i < j < |rows| :: rows[i].email != rows[j].email
  }

  /** The matches of an email are empty exactly when no row has it, and hold at most one
      row when emails are unique. */
  lemma WithEmailCount(rows: seq<Member>, email: string)
    ensures WithEmail(rows, email) == [] <==> !ExistsByEmail(rows, email)
    ensures UniqueEmails(rows) ==> |WithEmail(rows, email)| <= 1
  {
    WithEmailEmptyIff(rows, email);
    if UniqueEmails(rows) {
      WithEmailAtMostOne(rows, email);
    }
  }

  /** No match exactly when no row has the email. */
  lemma {:induction false} WithEmailEmptyIff(rows: seq<Member>, email: string)
    ensures WithEmail(rows, email) == [] <==> !ExistsByEmail(rows, email)
  {
    if rows != [] {
      var tail := rows[1..];
      WithEmailEmptyIff(tail, email);
      if ExistsByEmail(rows, email) && rows[0].email != email {
        var k :| 0 <= k < |rows| && rows[k].email == email;
        assert tail[k - 1].email == email;
      }
      if ExistsByEmail(tail, email) {
        var k :| 0 <= k < |tail| && tail[k].email == email;
        assert rows[k + 1].email == email;
      }
    }
  }

  /** With unique emails an email matches at most one row. */
  lemma {:induction false} WithEmailAtMostOne(rows: seq<Member>, email: string)
    requires UniqueEmails(rows)
    ensures |WithEmail(rows, email)| <= 1
  {
    if rows != [] {
      var tail := rows[1..];
      assert UniqueEmails(tail) by {
        forall i, j | 0 <= i < j < |tail| ensures tail[i].email != tail[j].email {
          assert tail[i] == rows[i + 1] && tail[j] == rows[j + 1];
        }
      }
      WithEmailAtMostOne(tail, email);
      if rows[0].email == email {
        forall k | 0 <= k < |tail| ensures tail[k].email != email {
          assert tail[k] == rows[k + 1];
        }
        WithEmailEmptyIff(tail, email);
      }
    }
  }

  /** findByEmail(email): no row is an empty Optional, one row is that member, and several
      rows make the query fail with IncorrectResultSizeDataAccessException. */
  function FindByEmail(rows: seq<Member>, email: string): (r: Result<Option<Member>, Failure>)
    ensures r == Ok(None) <==> !ExistsByEmail(rows, email)
    ensures r.Ok? && r.value.Some? ==> r.value.value in rows && r.value.value.email == email
    ensures r.Err? ==> r.error == RuntimeErr(IncorrectResultSize) && !UniqueEmails(rows)
  {
    WithEmailCount(rows, email);
    var matches := WithEmail(rows, email);
    if |matches| == 0 then Ok(None)
    else if |matches| == 1 then Ok(Some(matches[0]))
    else Err(RuntimeErr(IncorrectResultSize))
  }

  /** The position of the row with the given id, if any. */
  function IndexOfId(rows: seq<Member>, id: int): (r: Option<nat>)
    ensures r.Some? ==> r.value < |rows| && rows[r.value].id == id
    ensures r.None? ==> forall k | 0 <= k < |rows| :: rows[k].id != id
  {
    if rows == [] then None
    else if rows[|rows| - 1].id == id then Some(|rows| - 1)
    else IndexOfId(rows[..|rows| - 1], id)
  }

  /** findById(id): the member with that primary key, if any. */
  function FindById(rows: seq<Member>, id: int): (r: Option<Member>)
    ensures r.Some? ==> r.value in rows && r.value.id == id
    ensures r.None? ==> forall k | 0 <= k < |rows| :: rows[k].id != id
  {
    match IndexOfId(rows, id)
    case Some(k) => Some(rows[k])
    case None => None
  }

  /** Ids strictly ascend in table order (identity column). */
  predicate IdsAscend(rows: seq<Member>) {
    forall i, j | 0 <= i < j < |rows| :: rows[i].id < rows[j].id
  }

  /** With ascending ids, looking up the id of a row finds that row. */
  lemma IndexOfIdUnique(rows: seq<Member>, k: nat)
    requires IdsAscend(rows) && k < |rows|
    ensures IndexOfId(rows, rows[k].id) == Some(k)
  {
    var i := IndexOfId(rows, rows[k].id);
    if i.Some? && i.value != k {
      assert false;
    }
  }

  /** With ascending ids, the row found by id is that row, a row replaced in place under
      the same id is found again, and every other id finds what it found before. */
  lemma FindByIdAfterReplace(rows: seq<Member>, k: nat, m: Member, id: int)
    requires IdsAscend(rows) && k < |rows| && m.id == rows[k].id
    ensures FindById(rows, rows[k].id) == Some(rows[k])
    ensures FindById(rows[k := m], m.id) == Some(m)
    ensures id != m.id ==> FindById(rows[k := m], id) == FindById(rows, id)
  {
    var r := rows[k := m];
    assert IdsAscend(r) by {
      forall i, j | 0 <= i < j < |r| ensures r[i].id < r[j].id {
        assert r[i].id == rows[i].id && r[j].id == rows[j].id;
      }
    }
    IndexOfIdUnique(rows, k);
    IndexOfIdUnique(r, k);
    if id != m.id && IndexOfId(rows, id).Some? {
      var j := IndexOfId(rows, id).value;
      assert j != k && r[j] == rows[j];
      IndexOfIdUnique(rows, j);
      IndexOfIdUnique(r, j);
    }
    if id != m.id && IndexOfId(r, id).Some? {
      var j := IndexOfId(r, id).value;
      assert j != k && r[j] == rows[j];
    }
  }

  /** Adding a row with a fresh email keeps emails unique. */
  lemma InsertKeepsEmailsUnique(rows: seq<Member>, m: Member)
    requires UniqueEmails(rows) && !ExistsByEmail(rows, m.email)
    ensures UniqueEmails(rows + [m])
  {
    var r := rows + [m];
    forall i, j | 0 <= i < j < |r| ensures r[i].email != r[j].email {
      if j == |rows| {
        assert rows[i].email != m.email;
      } else {
        assert r[i] == rows[i] && r[j] == rows[j];
      }
    }
  }

  /** The member table. */
  class MemberTable {
    var rows: seq<Member>
    var tokens: seq<MemberToken>
    var nextId: nat

    /** Ids ascend and lie below the next identity value. */
    ghost predicate Valid()
      reads this
    {
      IdsAscend(rows) && forall k | 0 <= k < |rows| :: rows[k].id < nextId
    }

    constructor ()
      ensures Valid() && rows == [] && tokens == [] && nextId == 0
    {
      rows, tokens, nextId := [], [], 0;
    }

    /** save of a new member: it gets the next identity value. */
    method Insert(m: Member) returns (saved: Member)
      requires Valid()
      modifies this
      ensures Valid()
      ensures saved == m.(id := old(nextId))
      ensures rows == old(rows) + [saved] && nextId == old(nextId) + 1 && tokens == old(tokens)
    {
      saved := m.(id := nextId);
      rows := rows + [saved];
      nextId := nextId + 1;
    }

    /** save of a loaded member: the row with its id is replaced. */
    method Update(m: Member)
      requires Valid() && IndexOfId(rows, m.id).Some?
      modifies this
      ensures Valid()
      ensures rows == old(rows)[IndexOfId(old(rows), m.id).value := m]
      ensures nextId == old(nextId) && tokens == old(tokens)
    {
      var k := IndexOfId(rows, m.id).value;
      rows := rows[k := m];
      assert forall i | 0 <= i < |rows| :: rows[i].id == old(rows)[i].id;
    }

    /** A member_token row saved by cascade with its member. */
    method AddToken(t: MemberToken)
      modifies this
      ensures tokens == old(tokens) + [t] && rows == old(rows) && nextId == old(nextId)
    {
      tokens := tokens + [t];
    }
  }
}
