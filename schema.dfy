/**
 * The `Users` table as ApplicationDbContext.OnModelCreating declares it: `Id` is the key,
 * FirstName and LastName hold at most 50 characters, Email at most 100, and a unique
 * index on Email. A table is a map from key to row.
 */
module Schema {

  const MaxNameLength := 50
  const MaxEmailLength := 100

  /** The Nationality enum, as its underlying integer value; its member list is not part
      of this model, and the controller only copies the value. */
  datatype Nationality = Nationality(code: int)

  /** A persisted user. Every column is a non-null value, so the `IsRequired()` columns
      hold a value on every row by construction. `createdAt` is a UTC timestamp in ticks;
      `totalScore` is the score as a real number. */
  datatype User = User(
    id: int,
    firstName: string,
    lastName: string,
    email: string,
    nationality: Nationality,
    totalScore: real,
    createdAt: int)

  type Table = map<int, User>

  /** `HasMaxLength` on the three string columns. */
  predicate FitsColumns(u: User) {
    |u.firstName| <= MaxNameLength && |u.lastName| <= MaxNameLength && |u.email| <= MaxEmailLength
  }

  /** `HasKey(e => e.Id)`: each row is stored under its own Id, so no two rows share one. */
  predicate KeyedById(t: Table) {
    forall id :: id in t ==> t[id].id == id
  }

  /** `HasIndex(e => e.Email).IsUnique()`. */
  predicate UniqueEmails(t: Table) {
    forall i, j :: i in t && j in t && i != j ==> t[i].email != t[j].email
  }

  /** Some row has exactly this Email. */
  predicate EmailInUse(t: Table, email: string) {
    exists id :: id in t && t[id].email == email
  }

  /** Everything the store enforces when changes are saved. */
  predicate TableValid(t: Table) {
    && KeyedById(t)
    && (forall id :: id in t ==> FitsColumns(t[id]))
    && UniqueEmails(t)
  }

  /** Inserting a row under a new key keeps the table valid exactly when the row is
      stored under its own Id, fits the columns and takes an Email no row holds. */
  lemma InsertValid(t: Table, u: User)
    requires TableValid(t) && u.id !in t
    ensures TableValid(t[u.id := u]) <==> FitsColumns(u) && !EmailInUse(t, u.email)
  {
    var t' := t[u.id := u];
    if FitsColumns(u) && !EmailInUse(t, u.email) {
      forall i, j | i in t' && j in t' && i != j ensures t'[i].email != t'[j].email {
        if i == u.id {
          assert t[j].email != u.email;
        } else if j == u.id {
          assert t[i].email != u.email;
        }
      }
    } else if EmailInUse(t, u.email) {
      var j :| j in t && t[j].email == u.email;
      assert t'[j].email == t'[u.id].email;
    } else {
      assert !FitsColumns(t'[u.id]);
    }
  }

  /** Overwriting row `id` with a row that keeps its Id keeps the table valid exactly when
      the new row fits the columns and no other row holds its Email. */
  lemma ReplaceValid(t: Table, u: User)
    requires TableValid(t) && u.id in t
    ensures TableValid(t[u.id := u]) <==>
      FitsColumns(u) && !(exists j :: j in t && j != u.id && t[j].email == u.email)
  {
    var t' := t[u.id := u];
    if TableValid(t') {
      forall j | j in t && j != u.id ensures t[j].email != u.email {
        assert t'[j].email != t'[u.id].email;
      }
    }
  }

  /** Deleting a row never breaks the table's constraints. */
  lemma RemoveValid(t: Table, id: int)
    requires TableValid(t)
    ensures TableValid(t - {id})
  {
  }
}
