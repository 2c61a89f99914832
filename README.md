# Users resource of calcul-arrima, in Dafny

This project models the Users resource of the calcul-arrima back end. `UsersController` lists, gets, creates, replaces and deletes rows of a `Users` table. The validation attributes on the update payload (`UserUpdateDto`) decide which update requests reach the controller's logic. The table constraints declared in `ApplicationDbContext.OnModelCreating` decide which changes the store accepts when they are saved.

The model has five modules:

- `Wrappers` holds `Option`, which stands for a nullable string.
- `Text` holds .NET's `char.IsWhiteSpace`, `string.IsNullOrWhiteSpace` and `string.Trim()`, with lemmas about `Trim`.
- `Schema` holds the row and table types and the declared constraints: key, maximum lengths and a unique Email index. Its lemmas say when inserting, replacing or deleting a row keeps those constraints.
- `Dtos` holds the request and response bodies and the validation attributes of `UserUpdateDto`.
- `Controllers` holds the `UsersController` class. Its `users` field is the table, a map from Id to row. Its `nextId` field is the identity column. There is one method per action, each returning a `Response` that is one of `OkList`, `Ok`, `Created`, `NoContent`, `BadRequest`, `NotFound`, `Conflict` or `ServerError`.

Saving is `SaveChanges`. It commits the pending table exactly when that table satisfies every declared constraint, on the assumption that the store enforces them all (see "## Left out"). Otherwise the table is left as it was and the action ends in `ServerError`, which stands for the `DbUpdateException` the controller does not catch.

The class invariant `Valid()` has three parts:

- the table meets its constraints;
- every Id is positive;
- every Id is below `nextId`.

Every action preserves `Valid()`.

Both create and update compare the submitted Email with the stored ones before trimming it, and then store the trimmed Email. The model makes the consequence precise in three places:

- `CreateKeepsEmailsUnique` and `UpdateKeepsEmailsUnique`: the controller's own check keeps Emails unique when the submitted Email has no surrounding white space.
- `CheckBeforeTrimAdmitsDuplicate`: gives a concrete table and request where the check passes and the row to be stored repeats an existing Email.
- `CreateSameEmailTwice`: submitting the same padded Email twice ends in `ServerError` from the unique index, not in `Conflict`.

## Model

| member | source | states |
|---|---|---|
| Controllers.UsersController.GetUsers | Controllers/UsersController.cs:20-37 | the listing has one entry per row: each entry carries every field of the row stored under its Id, every row appears, and no Id appears twice; nothing changes |
| Controllers.ListingCountsRows | Controllers/UsersController.cs:23-36 | a listing that names only rows, names every row and names none twice has exactly as many entries as the table has rows |
| Controllers.UsersController.GetUser | Controllers/UsersController.cs:39-61 | NotFound exactly when no row has the Id; otherwise Ok with a body that carries every field of that row; nothing changes |
| Controllers.UsersController.CreateUser | Controllers/UsersController.cs:63-107 | BadRequest when model state is invalid or a name or Email is null, empty or white space only; then Conflict when a row holds the untrimmed Email; otherwise the trimmed row at a fresh Id is saved and returned as Created, or the save is rejected (ServerError) exactly when it breaks a column length or the unique Email; every failure leaves the table and the counter as they were; a created row's strings are non-empty and trimmed |
| Controllers.UsersController.UpdateUser | Controllers/UsersController.cs:109-157 | BadRequest when a UserUpdateDto rule fails or a field is blank, before any lookup; then NotFound for a missing Id; then Conflict when another row holds the untrimmed Email (with that row as witness); otherwise only row `id` changes, to its five mutable fields overwritten with trimmed values and Id and CreatedAt kept, unless another row holds the trimmed Email and the save is rejected; no failure changes the table |
| Controllers.UsersController.DeleteUser | Controllers/UsersController.cs:159-172 | NotFound with the table unchanged when no row has the Id; otherwise NoContent and the table minus exactly that row |
| Controllers.UsersController.UserExists | Controllers/UsersController.cs:174-177 | true exactly when some row has the Id; nothing changes |
| Controllers.UsersController.SaveChanges | Data/ApplicationDbContext.cs:14-27 | the pending table is committed exactly when it meets every declared constraint; otherwise the table is unchanged |
| Controllers.UsersController.constructor | Controllers/UsersController.cs:15-18 | the controller works over the context's existing table, which meets the declared constraints, with every Id below the identity counter |
| Controllers.HasBlankField | Controllers/UsersController.cs:71 | the guard of create and update (also :117): FirstName, LastName or Email is null, empty or white space only |
| Controllers.NewUser | Controllers/UsersController.cs:82-90 | the row create builds, at the given Id and creation time, with names and Email non-empty and without surrounding white space |
| Controllers.Overwrite | Controllers/UsersController.cs:134-138 | the row after update overwrites its five mutable fields: Id and CreatedAt kept, names and Email non-empty and without surrounding white space |
| Controllers.EmailHeldByOther | Controllers/UsersController.cs:128 | the uniqueness query of update: a row whose Id differs from `id` holds exactly this Email |
| Controllers.ValidUpdateFitsColumns | DTOs/UserUpdateDto.cs:8-21 | an update payload that passes validation and the blank check always fits the table's column lengths, so the save can fail only on the unique Email |
| Controllers.OwnEmailNeverConflicts | Controllers/UsersController.cs:128-132 | resubmitting a row's own current Email never counts as held by another row |
| Controllers.CreateKeepsEmailsUnique | Controllers/UsersController.cs:76-92 | when the submitted Email has no surrounding white space and no row holds it, inserting the new row keeps Emails unique |
| Controllers.UpdateKeepsEmailsUnique | Controllers/UsersController.cs:128-138 | when the submitted Email has no surrounding white space and no other row holds it, overwriting the row keeps Emails unique |
| Controllers.CheckBeforeTrimAdmitsDuplicate | Controllers/UsersController.cs:76-86 | a valid table holding "a@b.com" and a request for " a@b.com" pass the blank and uniqueness checks, yet the row to be stored repeats the existing Email |
| Controllers.PaddedEmailTrims | Controllers/UsersController.cs:86 | trimming " a@b.com" gives "a@b.com" |
| Controllers.CreateThenGet | Controllers/UsersController.cs:82-106 | after a successful create, a get of the returned Id gives the same body: the trimmed names and Email, the submitted nationality and score, and the creation time |
| Controllers.DeleteThenGet | Controllers/UsersController.cs:159-172 | after a delete, whether it found the row or not, a get of the same Id is NotFound |
| Controllers.CreateSameEmailTwice | Controllers/UsersController.cs:76-93 | once a create succeeds, a second create with the same Email is Conflict when the Email has no surrounding white space, and a rejected save otherwise |
| Text.IsWhiteSpace | Controllers/UsersController.cs:71 | the white-space characters of .NET (`char.IsWhiteSpace`), used by the blank check and by Trim at :84-86 |
| Text.IsNullOrWhiteSpace | Controllers/UsersController.cs:71 | `string.IsNullOrWhiteSpace`: null, or every character white space (also :117) |
| Text.Trim | Controllers/UsersController.cs:84-86 | the trimmed string is no longer than the original and has no white space at either end |
| Text.TrimSplits | Controllers/UsersController.cs:84-86 | the original string is white space, then the trimmed string, then white space |
| Text.TrimEmptyIffBlank | Controllers/UsersController.cs:71 | trimming gives the empty string exactly when the original is all white space |
| Text.TrimLeavesTrimmed | Controllers/UsersController.cs:84-86 | a string without surrounding white space is its own trim |
| Text.TrimIdempotent | Controllers/UsersController.cs:84-86 | trimming twice is trimming once |
| Text.TrimOfNonBlank | Controllers/UsersController.cs:71-86 | a string that is not null or white space only trims to a non-empty string without surrounding white space |
| Dtos.Required | DTOs/UserUpdateDto.cs:8 | `[Required]` on a string, read as not null and not empty (also :13, :18) |
| Dtos.StringLength | DTOs/UserUpdateDto.cs:9 | `[StringLength(max)]`: null passes, otherwise at most `max` characters (also :14, :20) |
| Dtos.LettersAndSpaces | DTOs/UserUpdateDto.cs:10 | `^[a-zA-Z\s]+$`: null and empty pass, otherwise every character is an ASCII letter or white space (also :15) |
| Dtos.EmailAddress | DTOs/UserUpdateDto.cs:19 | `[EmailAddress]`: null passes, otherwise the format test `isEmail` holds |
| Dtos.Range | DTOs/UserUpdateDto.cs:27 | `[Range(lo, hi)]`: the value lies between the bounds, both included |
| Dtos.NameValid | DTOs/UserUpdateDto.cs:8-16 | with `[Required]` read as in Dtos.Required, a first or last name is valid exactly when it is present, 1 to 50 characters long and made of ASCII letters and white space |
| Dtos.EmailValid | DTOs/UserUpdateDto.cs:18-21 | an Email is valid exactly when it is present, 1 to 100 characters long and of email format |
| Dtos.UpdatePayloadValid | DTOs/UserUpdateDto.cs:8-27 | the model state of an update: both names and the Email meet their rules and TotalScore lies in 0 to `double.MaxValue`; `[Required]` on Nationality and TotalScore always holds, as both are value types |
| Dtos.ToResponse | Controllers/UsersController.cs:25-34 | the projection of a row to its response body, the same at :49-58 and :95-104 |
| Dtos.ResponseDeterminesRow | Controllers/UsersController.cs:25-34 | the response body loses no column: two rows with the same body are the same row |
| Dtos.NegativeScoreInvalid | DTOs/UserUpdateDto.cs:26-27 | a negative TotalScore fails validation whatever the other fields hold |
| Dtos.BlankNamePassesNameRules | DTOs/UserUpdateDto.cs:9-10 | the name "   " meets the length and pattern rules although it is white space only |
| Schema.KeyedById | Data/ApplicationDbContext.cs:18 | every row is stored under its own Id, so no two rows share one |
| Schema.FitsColumns | Data/ApplicationDbContext.cs:19-21 | FirstName and LastName hold at most 50 characters, Email at most 100 |
| Schema.UniqueEmails | Data/ApplicationDbContext.cs:26 | no two rows hold the same Email |
| Schema.EmailInUse | Controllers/UsersController.cs:76 | the uniqueness query of create: some row holds exactly this Email |
| Schema.TableValid | Data/ApplicationDbContext.cs:18-26 | everything the store enforces on save: the key, the column lengths and the unique Email index |
| Schema.InsertValid | Data/ApplicationDbContext.cs:18-26 | inserting a row under a new key keeps the table valid exactly when the row fits the columns and takes an Email no row holds |
| Schema.ReplaceValid | Data/ApplicationDbContext.cs:18-26 | replacing a row under its own Id keeps the table valid exactly when the new row fits the columns and no other row holds its Email |
| Schema.RemoveValid | Data/ApplicationDbContext.cs:18-26 | removing a row keeps the table valid |

## Left out

- Asynchronous execution and the internals of Entity Framework Core. Each query is a synchronous read of the map and each save a synchronous write, so the model has no concurrent writers.
- The `DbUpdateConcurrencyException` handler of UpdateUser (Controllers/UsersController.cs:140-154) and the use of `UserExists` there. A single writer never raises that exception, and its `throw` rethrows to the framework.
- HTTP plumbing: routing, the framework's automatic 400 responses, the `Location` header of `CreatedAtAction`, and the bodies of BadRequest and Conflict. Outcomes are the `Response` datatype.
- `DateTime.UtcNow` is the `now` parameter of CreateUser, a UTC time in ticks.
- The database's identity column is the `nextId` counter. Ids it has handed out are never reused.
- `TotalScore` is a real number: no NaN, infinities or rounding. Only the range test depends on it.
- The email format of `[EmailAddress]` is the `isEmail` parameter. The framework's implementation is not part of this model.
- Dtos.Required: models `[Required]` on a string as non-null and non-empty. Whether the framework also rejects white-space-only strings is not modelled. No outcome depends on it, because the controller rejects such strings itself.
- UserCreateDto, its validation attributes, the `User` entity and the `Nationality` enum are not part of this model. CreateUser takes the result of model validation as the `modelStateValid` parameter. A nationality is its underlying integer.
- Controllers.UsersController.SaveChanges: assumes the store enforces the declared column lengths and the unique Email index when changes are saved. Entity Framework Core does not check `HasMaxLength` itself. Whether an over-long value is rejected depends on the database's column type, and SQLite, for one, ignores declared lengths. Only CreateUser's rejected save for an over-long field depends on this, since ValidUpdateFitsColumns shows that an accepted update always fits.
- The Email comparison is exact string equality. The database's collation is not modelled.
- Lengths count characters of `seq<char>`. UTF-16 surrogate pairs are not modelled.
- Controllers.UsersController.GetUsers: fixes the order of the listing as ascending Id. The source leaves the order to the database.
- Columns marked `IsRequired()` hold a value on every row because every field of `User` is a non-null value. No lemma states this separately.
- DTOs/UserResponseDto.cs is the `UserResponse` datatype and has no behaviour of its own.
