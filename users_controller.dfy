/**
 * UsersController: list, get, create, full-replace update and delete over the `Users`
 * table. The table is the `users` field; SaveChanges commits pending changes only when
 * they satisfy the table's declared constraints, as the store does.
 */
module Controllers {
  import opened Wrappers
  import opened Text
  import opened Schema
  import opened Dtos

  /** The outcome of an action: the success bodies, and the error statuses it returns.
      ServerError is an exception from the store that no action catches. */
  datatype Response =
    | OkList(users: seq<UserResponse>)
    | Ok(user: UserResponse)
    | Created(id: int, user: UserResponse)
    | NoContent
    | BadRequest
    | NotFound
    | Conflict
    | ServerError

  /** FirstName, LastName or Email is null, empty or white space only. */
  predicate HasBlankField(p: UserPayload) {
    IsNullOrWhiteSpace(p.firstName) || IsNullOrWhiteSpace(p.lastName) || IsNullOrWhiteSpace(p.email)
  }

  /** The row CreateUser adds: trimmed names and email, the submitted nationality and
      score, and the creation time. Its strings are non-empty and trimmed, since the
      payload passed the blank check. */
  function NewUser(id: int, p: UserPayload, now: int): (u: User)
    requires !HasBlankField(p)
    ensures u.id == id && u.createdAt == now
    ensures Normalised(u)
  {
    TrimOfNonBlank(p.firstName);
    TrimOfNonBlank(p.lastName);
    TrimOfNonBlank(p.email);
    User(id, Trim(p.firstName.value), Trim(p.lastName.value), Trim(p.email.value),
         p.nationality, p.totalScore, now)
  }

  /** Row `u` after UpdateUser overwrites its five mutable fields: Id and CreatedAt are
      kept, and the new strings are non-empty and trimmed. */
  function Overwrite(u: User, p: UserPayload): (v: User)
    requires !HasBlankField(p)
    ensures v.id == u.id && v.createdAt == u.createdAt
    ensures Normalised(v)
  {
    TrimOfNonBlank(p.firstName);
    TrimOfNonBlank(p.lastName);
    TrimOfNonBlank(p.email);
    u.(firstName := Trim(p.firstName.value), lastName := Trim(p.lastName.value),
       email := Trim(p.email.value), nationality := p.nationality, totalScore := p.totalScore)
  }

  /** A row other than `id` has this Email: the query at UpdateUser's uniqueness check. */
  predicate EmailHeldByOther(t: Table, email: string, id: int) {
    exists k :: k in t && t[k].email == email && t[k].id != id
  }

  /** The string fields a create or update stores: non-empty, without surrounding white
      space. */
  predicate Normalised(u: User) {
    && u.firstName != [] && NoSurroundingWhiteSpace(u.firstName)
    && u.lastName != [] && NoSurroundingWhiteSpace(u.lastName)
    && u.email != [] && NoSurroundingWhiteSpace(u.email)
  }

  /** An update that passes validation always fits the columns: the length limits of
      UserUpdateDto are those of the table, and trimming only shortens. */
  lemma ValidUpdateFitsColumns(u: User, p: UserPayload, isEmail: string -> bool)
    requires UpdatePayloadValid(p, isEmail) && !HasBlankField(p)
    ensures FitsColumns(Overwrite(u, p))
  {
  }

  /** Resubmitting a row's own Email never conflicts. */
  lemma OwnEmailNeverConflicts(t: Table, id: int)
    requires TableValid(t) && id in t
    ensures !EmailHeldByOther(t, t[id].email, id)
  {
  }

  /** With an Email that has no surrounding white space, CreateUser's check on the
      submitted Email is a check on the stored one, so inserting keeps Emails unique. */
  lemma CreateKeepsEmailsUnique(t: Table, id: int, p: UserPayload, now: int)
    requires UniqueEmails(t) && id !in t && !HasBlankField(p)
    requires NoSurroundingWhiteSpace(p.email.value)
    requires !EmailInUse(t, p.email.value)
    ensures UniqueEmails(t[id := NewUser(id, p, now)])
  {
    TrimLeavesTrimmed(p.email.value);
  }

  /** The same for UpdateUser: a check on the submitted Email that passes keeps Emails
      unique when that Email has no surrounding white space. */
  lemma UpdateKeepsEmailsUnique(t: Table, id: int, p: UserPayload)
    requires TableValid(t) && id in t && !HasBlankField(p)
    requires NoSurroundingWhiteSpace(p.email.value)
    requires !EmailHeldByOther(t, p.email.value, id)
    ensures UniqueEmails(t[id := Overwrite(t[id], p)])
  {
    TrimLeavesTrimmed(p.email.value);
    var t' := t[id := Overwrite(t[id], p)];
    forall j | j in t && j != id ensures t'[j].email != t'[id].email {
      assert t[j].id == j;
    }
  }

  /** Without the store's unique index, CreateUser's check would let a duplicate in: the
      table holds "a@b.com", the request submits " a@b.com", no row holds the submitted
      Email, and the trimmed row repeats the stored one. */
  lemma CheckBeforeTrimAdmitsDuplicate()
    ensures var t := map[1 := User(1, "Ada", "Byron", "a@b.com", Nationality(0), 0.0, 0)];
      var p := UserPayload(Some("Ada"), Some("Byron"), Some(" a@b.com"), Nationality(0), 0.0);
      && TableValid(t)
      && !HasBlankField(p)
      && !EmailInUse(t, p.email.value)
      && !UniqueEmails(t[2 := NewUser(2, p, 0)])
  {
    var t := map[1 := User(1, "Ada", "Byron", "a@b.com", Nationality(0), 0.0, 0)];
    var p := UserPayload(Some("Ada"), Some("Byron"), Some(" a@b.com"), Nationality(0), 0.0);
    assert !IsWhiteSpace('A') && !IsWhiteSpace('B') && !IsWhiteSpace('a');
    assert !HasBlankField(p) by {
      assert p.firstName.value[0] == 'A' && p.lastName.value[0] == 'B' && p.email.value[1] == 'a';
    }
    assert p.email.value != "a@b.com";
    PaddedEmailTrims();
    var t' := t[2 := NewUser(2, p, 0)];
    assert t'[1].email == t'[2].email;
  }

  /** Trimming the padded Email of CheckBeforeTrimAdmitsDuplicate gives the stored one. */
  lemma PaddedEmailTrims()
    ensures Trim(" a@b.com") == "a@b.com"
  {
    var stored := "a@b.com";
    var submitted := " a@b.com";
    assert submitted[1..] == stored;
    assert !IsWhiteSpace(stored[0]) && !IsWhiteSpace(stored[|stored| - 1]);
    TrimLeavesTrimmed(stored);
  }

  /** A listing that names only rows of the table, names every row, and names none
      twice has exactly one entry per row. */
  lemma {:induction false} ListingCountsRows(list: seq<UserResponse>, keys: set<int>)
    requires forall i :: 0 <= i < |list| ==> list[i].id in keys
    requires forall k :: k in keys ==> exists i :: 0 <= i < |list| && list[i].id == k
    requires forall i, j :: 0 <= i < j < |list| ==> list[i].id != list[j].id
    ensures |list| == |keys|
  {
    if list == [] {
      assert forall k :: k !in keys;
      assert keys == {};
    } else {
      var n := |list| - 1;
      var init := list[..n];
      forall k | k in keys - {list[n].id} ensures exists i :: 0 <= i < |init| && init[i].id == k {
        var i :| 0 <= i < |list| && list[i].id == k;
        assert init[i].id == k;
      }
      ListingCountsRows(init, keys - {list[n].id});
    }
  }

  class UsersController {
    /** The `Users` table. */
    var users: Table
    /** The next value of the identity column that assigns Ids. */
    var nextId: int

    ghost predicate Valid()
      reads this
    {
      TableValid(users) && 0 < nextId && forall id :: id in users ==> 0 < id < nextId
    }

    /** The controller over the context's existing table `t`, whose identity column
        hands out `next` as the next Id. */
    constructor (t: Table, next: int)
      requires TableValid(t) && 0 < next
      requires forall id :: id in t ==> 0 < id < next
      ensures Valid() && users == t && nextId == next
    {
      users := t;
      nextId := next;
    }

    /** SaveChanges: the store commits the pending table when it satisfies every declared
        constraint and otherwise throws, leaving the table as it was. The store is taken
        to enforce the declared lengths and the unique index alike. */
    method SaveChanges(pending: Table) returns (saved: bool)
      modifies this`users
      ensures saved <==> TableValid(pending)
      ensures users == if saved then pending else old(users)
    {
      saved := TableValid(pending);
      if saved {
        users := pending;
      }
    }

    /** GET /api/users: every row once, as a response body. The store yields the rows
        by a scan of the key, in ascending Id. */
    method GetUsers() returns (r: Response)
      requires Valid()
      ensures r.OkList? && |r.users| == |users|
      ensures forall i :: 0 <= i < |r.users| ==>
        r.users[i].id in users && r.users[i] == ToResponse(users[r.users[i].id])
      ensures forall id :: id in users ==> exists i :: 0 <= i < |r.users| && r.users[i].id == id
      ensures forall i, j :: 0 <= i < j < |r.users| ==> r.users[i].id != r.users[j].id
    {
      var list: seq<UserResponse> := [];
      ghost var listed: set<int> := {};
      ghost var position: map<int, nat> := map[];
      var next := 1;
      while next < nextId
        invariant 1 <= next <= nextId
        invariant listed <= users.Keys
        invariant forall id :: id in listed ==> id < next
        invariant forall id :: id in users && id < next ==> id in listed
        invariant forall i :: 0 <= i < |list| ==>
          list[i].id in listed && list[i] == ToResponse(users[list[i].id])
        invariant forall id :: id in listed ==>
          id in position && position[id] < |list| && list[position[id]].id == id
        invariant forall i, j :: 0 <= i < j < |list| ==> list[i].id < list[j].id
      {
        if next in users {
          position := position[next := |list|];
          list := list + [ToResponse(users[next])];
          listed := listed + {next};
        }
        next := next + 1;
      }
      forall id | id in users ensures exists i :: 0 <= i < |list| && list[i].id == id {
        assert list[position[id]].id == id;
      }
      ListingCountsRows(list, users.Keys);
      r := OkList(list);
    }

    /** GET /api/users/{id}: NotFound exactly when no row has the Id; otherwise the
        row's fields. */
    method GetUser(id: int) returns (r: Response)
      requires Valid()
      ensures r == NotFound <==> id !in users
      ensures id in users ==> r == Ok(ToResponse(users[id]))
    {
      if id !in users {
        return NotFound;
      }
      r := Ok(ToResponse(users[id]));
    }

    /** POST /api/users. `modelStateValid` is the framework's validation of the request
        body; `now` is the current UTC time. */
    method CreateUser(dto: UserPayload, modelStateValid: bool, now: int) returns (r: Response)
      requires Valid()
      modifies this
      ensures Valid()
      ensures !modelStateValid || HasBlankField(dto) ==>
        r == BadRequest && users == old(users) && nextId == old(nextId)
      ensures modelStateValid && !HasBlankField(dto) && EmailInUse(old(users), dto.email.value) ==>
        r == Conflict && users == old(users) && nextId == old(nextId)
      ensures modelStateValid && !HasBlankField(dto) && !EmailInUse(old(users), dto.email.value) ==>
        var row := NewUser(old(nextId), dto, now);
        if FitsColumns(row) && !EmailInUse(old(users), row.email) then
          && r == Created(row.id, ToResponse(row))
          && row.id !in old(users)
          && users == old(users)[row.id := row]
          && nextId == old(nextId) + 1
        else
          r == ServerError && users == old(users) && nextId == old(nextId)
      ensures r.Created? ==> r.id in users && Normalised(users[r.id])
    {
      if !modelStateValid {
        return BadRequest;
      }
      if IsNullOrWhiteSpace(dto.firstName) || IsNullOrWhiteSpace(dto.lastName) || IsNullOrWhiteSpace(dto.email) {
        return BadRequest;
      }
      if EmailInUse(users, dto.email.value) {
        return Conflict;
      }
      var user := NewUser(nextId, dto, now);
      InsertValid(users, user);
      var saved := SaveChanges(users[user.id := user]);
      if !saved {
        return ServerError;
      }
      nextId := nextId + 1;
      r := Created(user.id, ToResponse(user));
    }

    /** PUT /api/users/{id}: validation, then the lookup, then the uniqueness check, each
        failure leaving the table unchanged; on success only row `id` changes. The
        framework's email format check is `isEmail`. */
    method UpdateUser(id: int, dto: UserPayload, isEmail: string -> bool) returns (r: Response)
      requires Valid()
      modifies this
      ensures Valid() && nextId == old(nextId)
      ensures !UpdatePayloadValid(dto, isEmail) || HasBlankField(dto) ==>
        r == BadRequest && users == old(users)
      ensures UpdatePayloadValid(dto, isEmail) && !HasBlankField(dto) && id !in old(users) ==>
        r == NotFound && users == old(users)
      ensures UpdatePayloadValid(dto, isEmail) && !HasBlankField(dto) && id in old(users) ==>
        if EmailHeldByOther(old(users), dto.email.value, id) then
          r == Conflict && users == old(users)
        else
          var row := Overwrite(old(users)[id], dto);
          if EmailHeldByOther(old(users), row.email, id) then
            r == ServerError && users == old(users)
          else
            r == NoContent && users == old(users)[id := row]
      ensures r == Conflict ==> exists k :: k in old(users) && k != id && old(users)[k].email == dto.email.value
      ensures r == NoContent ==>
        && id in users && Normalised(users[id])
        && users[id].id == id && users[id].createdAt == old(users)[id].createdAt
    {
      if !UpdatePayloadValid(dto, isEmail) {
        return BadRequest;
      }
      if IsNullOrWhiteSpace(dto.firstName) || IsNullOrWhiteSpace(dto.lastName) || IsNullOrWhiteSpace(dto.email) {
        return BadRequest;
      }
      if id !in users {
        return NotFound;
      }
      if EmailHeldByOther(users, dto.email.value, id) {
        return Conflict;
      }
      var user := Overwrite(users[id], dto);
      ValidUpdateFitsColumns(users[id], dto, isEmail);
      ReplaceValid(users, user);
      var saved := SaveChanges(users[id := user]);
      if !saved {
        return ServerError;
      }
      r := NoContent;
    }

    /** DELETE /api/users/{id}: NotFound with the table unchanged when no row has the Id;
        otherwise exactly that row is removed. */
    method DeleteUser(id: int) returns (r: Response)
      requires Valid()
      modifies this
      ensures Valid() && nextId == old(nextId)
      ensures id !in old(users) ==> r == NotFound && users == old(users)
      ensures id in old(users) ==> r == NoContent && users == old(users) - {id}
    {
      if id !in users {
        return NotFound;
      }
      RemoveValid(users, id);
      var saved := SaveChanges(users - {id});
      assert saved;
      r := NoContent;
    }

    /** Whether some row has this Id. */
    method UserExists(id: int) returns (b: bool)
      requires Valid()
      ensures b <==> id in users
    {
      b := exists k :: k in users && users[k].id == id;
    }
  }

  /** A get of the Id a create returned yields the body the create returned: the trimmed
      names and Email, the submitted nationality and score, and the creation time. */
  method CreateThenGet(c: UsersController, dto: UserPayload, modelStateValid: bool, now: int)
    returns (created: Response, fetched: Response)
    requires c.Valid()
    modifies c
    ensures c.Valid()
    ensures created.Created? ==>
      && !HasBlankField(dto)
      && fetched == Ok(created.user)
      && fetched.user.firstName == Trim(dto.firstName.value)
      && fetched.user.lastName == Trim(dto.lastName.value)
      && fetched.user.email == Trim(dto.email.value)
      && fetched.user.nationality == dto.nationality
      && fetched.user.totalScore == dto.totalScore
      && fetched.user.createdAt == now
  {
    created := c.CreateUser(dto, modelStateValid, now);
    fetched := NotFound;
    if created.Created? {
      fetched := c.GetUser(created.id);
    }
  }

  /** After a delete, whether it found the row or not, a get of the same Id is NotFound. */
  method DeleteThenGet(c: UsersController, id: int) returns (deleted: Response, fetched: Response)
    requires c.Valid()
    modifies c
    ensures c.Valid()
    ensures deleted == (if id in old(c.users) then NoContent else NotFound)
    ensures fetched == NotFound
  {
    deleted := c.DeleteUser(id);
    fetched := c.GetUser(id);
  }

  /** Two creates with the same Email: once the first succeeds, the second is a Conflict
      when the Email has no surrounding white space, and otherwise fails in the store's
      unique index, because the controller checks the Email before trimming it. */
  method CreateSameEmailTwice(c: UsersController, first: UserPayload, second: UserPayload, now: int)
    returns (r1: Response, r2: Response)
    requires c.Valid()
    requires first.email == second.email && !HasBlankField(second)
    modifies c
    ensures c.Valid()
    ensures r1.Created? && NoSurroundingWhiteSpace(second.email.value) ==> r2 == Conflict
    ensures r1.Created? && !NoSurroundingWhiteSpace(second.email.value) ==> r2 == ServerError
  {
    r1 := c.CreateUser(first, true, now);
    ghost var afterFirst := c.users;
    r2 := c.CreateUser(second, true, now);
    if r1.Created? {
      var e := second.email.value;
      if NoSurroundingWhiteSpace(e) {
        TrimLeavesTrimmed(e);
        assert afterFirst[r1.id].email == e;
      } else {
        assert Trim(e) != e;
        assert afterFirst[r1.id].email == Trim(e);
      }
    }
  }
}
