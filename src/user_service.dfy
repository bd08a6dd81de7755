/** UserServiceImpl over its JPA repository. The repository's table is the
    map `users`, `order` is the order `findAll` returns rows in, and
    `nextId` is the next value of the IDENTITY column. */
module UserService {
  import opened Common
  import opened Seqs
  import opened Users

  /** The query's condition: the row exists and its e-mail is `email`. */
  function EmailIs(users: map<int, User>, email: string): int -> bool {
    id => id in users && users[id].email == email
  }

  /** The ids of the stored users whose e-mail is `email`, in row order. */
  function EmailMatches(users: map<int, User>, order: seq<int>, email: string): seq<int> {
    Filter(order, EmailIs(users, email))
  }

  /** One DTO per id, in order. */
  function Rows(users: map<int, User>, ids: seq<int>): (r: seq<UserDto>)
    requires forall i :: 0 <= i < |ids| ==> ids[i] in users
    ensures |r| == |ids|
    ensures forall i :: 0 <= i < |ids| ==> r[i] == FromUser(users[ids[i]])
  {
    seq(|ids|, i requires 0 <= i < |ids| => FromUser(users[ids[i]]))
  }

  /** Two different stored users have the e-mail `email`. */
  ghost predicate EmailShared(users: map<int, User>, email: string) {
    exists a, c :: a in users && c in users && a != c && users[a].email == email && users[c].email == email
  }

  /** With every row listed once, the query matches more than one row exactly
      when two users share the e-mail. */
  lemma MatchesShared(users: map<int, User>, order: seq<int>, email: string)
    requires Distinct(order)
    requires forall id :: id in users ==> id in order
    ensures |EmailMatches(users, order, email)| > 1 <==> EmailShared(users, email)
  {
    var p := EmailIs(users, email);
    var matches := EmailMatches(users, order, email);
    FilterDistinct(order, p);
    if EmailShared(users, email) {
      var a, c :| a in users && c in users && a != c && users[a].email == email && users[c].email == email;
      FilterMembership(order, p, a);
      FilterMembership(order, p, c);
      TwoMembers(matches, a, c);
    }
    if |matches| > 1 {
      var a, c := matches[0], matches[1];
      FilterMembership(order, p, a);
      FilterMembership(order, p, c);
      assert a in users && c in users && a != c && users[a].email == email && users[c].email == email;
    }
  }

  /** A sequence holding two different values has more than one element. */
  lemma TwoMembers<T>(s: seq<T>, a: T, c: T)
    requires a in s && c in s && a != c
    ensures |s| > 1
  {
    var i :| 0 <= i < |s| && s[i] == a;
    var j :| 0 <= j < |s| && s[j] == c;
    assert i != j;
  }

  class UserRepositoryService {
    var users: map<int, User>
    var order: seq<int>
    var nextId: int

    /** Every row is listed once, carries its own id, and lies below the next id. */
    ghost predicate Valid()
      reads this
    {
      && Distinct(order)
      && (forall id :: id in users ==> id in order)
      && (forall i :: 0 <= i < |order| ==> order[i] in users)
      && (forall id :: id in users ==> users[id].id == Some(id) && id < nextId)
    }

    constructor ()
      ensures Valid() && users == map[] && order == []
    {
      users := map[];
      order := [];
      nextId := 1;
    }

    /** `findAll`: a DTO per row, in row order. */
    function FindAll(): (r: seq<UserDto>)
      requires Valid()
      reads this
      ensures |r| == |order|
    {
      Rows(users, order)
    }

    /** Every stored user appears in `findAll` once, and nothing else does. */
    lemma FindAllListsEveryUser()
      requires Valid()
      ensures forall id :: id in users ==> FromUser(users[id]) in FindAll()
      ensures forall i :: 0 <= i < |FindAll()| ==> FindAll()[i].id.Some? && FindAll()[i].id.value in users
                                                     && FindAll()[i] == FromUser(users[FindAll()[i].id.value])
      ensures Distinct(FindAll())
    {
      var all := FindAll();
      forall id | id in users ensures FromUser(users[id]) in all {
        var i :| 0 <= i < |order| && order[i] == id;
        assert all[i] == FromUser(users[id]);
      }
      forall i | 0 <= i < |all| ensures all[i].id == Some(order[i]) {
        var key := order[i];
        assert users[key].id == Some(key);
      }

    }

    /** `findUserById`: a null id is refused by the repository, an absent
        one is "Usuário não encontrado". */
    function FindUserById(id: Option<int>): (r: Outcome<UserDto>)
      requires Valid()
      reads this
      ensures r.Done? <==> id.Some? && id.value in users
      ensures r.Done? ==> r.value.id == id && r.value == FromUser(users[id.value])
      ensures id.None? ==> r == Thrown(NullId)
      ensures id.Some? && id.value !in users ==> r == Thrown(UserNotFound)
    {
      if id.None? then Thrown(NullId)
      else if id.value !in users then Thrown(UserNotFound)
      else
        var key := id.value;
        assert users[key].id == Some(key);
        Done(FromUser(users[key]))
    }

    /** `findUserByEmail`: the query returns at most one row; several
        matching rows make it fail. */
    function FindUserByEmail(email: string): (r: Outcome<UserDto>)
      requires Valid()
      reads this
      ensures r.Done? ==> r.value.email == email && r.value.id.Some? && r.value.id.value in users
                          && r.value == FromUser(users[r.value.id.value])
      ensures r == Thrown(UserNotFound) <==> forall id :: id in users ==> users[id].email != email
    {
      var matches := EmailMatches(users, order, email);
      if |matches| == 0 then
        assert forall x :: x in users ==> users[x].email != email by {
          forall x | x in users ensures users[x].email != email {
            FilterMembership(order, EmailIs(users, email), x);
          }
        }
        Thrown(UserNotFound)
      else
        assert matches[0] in matches;
        var first := matches[0];
        FilterMembership(order, EmailIs(users, email), first);
        assert users[first].id == Some(first);
        if |matches| > 1 then Thrown(EmailNotUnique)
        else Done(FromUser(users[matches[0]]))
    }

    /** When exactly one user has the e-mail, the lookup finds that user. */
    lemma FindUserByEmailUnique(id: int)
      requires Valid() && id in users
      requires forall other :: other in users && other != id ==> users[other].email != users[id].email
      ensures FindUserByEmail(users[id].email) == Done(FromUser(users[id]))
    {
      var email := users[id].email;
      assert id in order;
      forall i | 0 <= i < |order| ensures EmailIs(users, email)(order[i]) <==> order[i] == id {
        var other := order[i];
        assert other in users;
      }
      FilterSingle(order, EmailIs(users, email), id);
    }

    /** Two users sharing the e-mail make the single-result query fail, and
        that is the only way it fails with `EmailNotUnique`. */
    lemma FindUserByEmailShared(email: string)
      requires Valid()
      ensures FindUserByEmail(email) == Thrown(EmailNotUnique) <==> EmailShared(users, email)
    {
      var matches := EmailMatches(users, order, email);
      MatchesShared(users, order, email);
      assert FindUserByEmail(email) == Thrown(EmailNotUnique) <==> |matches| > 1;
    }

    /** `saveUser`: inserts `toUser(dto)` under a fresh id, whatever id the
        DTO carried, and answers with the stored row. */
    method SaveUser(dto: UserDto) returns (r: UserDto)
      requires Valid()
      modifies this
      ensures Valid()
      ensures r == dto.(id := Some(old(nextId)))
      ensures old(nextId) !in old(users)
      ensures users == old(users)[old(nextId) := ToUser(dto).(id := Some(old(nextId)))]
      ensures order == old(order) + [old(nextId)]
      ensures FindUserById(r.id) == Done(r)
    {
      var id := nextId;
      var user := ToUser(dto).(id := Some(id));
      users := users[id := user];
      order := order + [id];
      nextId := nextId + 1;
      r := FromUser(user);
    }

    /** `updateUser`: looks the DTO's id up first; then overwrites that row
        with `toUser(dto)` under the same id, which also resets its
        `open_network` flag. */
    method UpdateUser(dto: UserDto) returns (r: Outcome<UserDto>)
      requires Valid()
      modifies this
      ensures Valid()
      ensures old(FindUserById(dto.id)).Thrown? ==>
        r == Thrown(old(FindUserById(dto.id)).failure) && users == old(users) && order == old(order) && nextId == old(nextId)
      ensures old(FindUserById(dto.id)).Done? ==>
        && r == Done(dto)
        && users == old(users)[dto.id.value := ToUser(dto).(id := dto.id)]
        && !users[dto.id.value].openNetwork
        && order == old(order) && nextId == old(nextId)
    {
      var found := FindUserById(dto.id);
      if found.Thrown? {
        return Thrown(found.failure);
      }
      var userToUpdate := ToUser(dto).(id := found.value.id);
      users := users[found.value.id.value := userToUpdate];
      r := Done(FromUser(userToUpdate));
    }

    /** `deleteUser`: refuses an absent id; otherwise removes that row only. */
    method DeleteUser(id: Option<int>) returns (r: Outcome<()>)
      requires Valid()
      modifies this
      ensures Valid()
      ensures id.None? ==> r == Thrown(NullId) && users == old(users) && order == old(order)
      ensures id.Some? && id.value !in old(users) ==> r == Thrown(UserNotFound) && users == old(users) && order == old(order)
      ensures id.Some? && id.value in old(users) ==>
        && r == Done(())
        && users == old(users) - {id.value}
        && order == Filter(old(order), x => x != id.value)
      ensures nextId == old(nextId)
    {
      if id.None? {
        return Thrown(NullId);
      }
      if id.value !in users {
        return Thrown(UserNotFound);
      }
      ghost var keep := (x: int) => x != id.value;
      forall x ensures x in Filter(order, keep) <==> x in order && keep(x) {
        FilterMembership(order, keep, x);
      }
      FilterDistinct(order, keep);
      ghost var kept := Filter(order, keep);
      assert forall i :: 0 <= i < |kept| ==> kept[i] in kept;
      users := users - {id.value};
      order := Filter(order, x => x != id.value);
      r := Done(());
    }
  }
}
