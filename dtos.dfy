/**
 * The wire shapes of the users resource: the request body of create and update, the
 * response body, and the validation attributes declared on UserUpdateDto.
 */
module Dtos {
  import opened Wrappers
  import opened Text
  import opened Schema

  /** The body of a create or update request. The three strings may be null (`None`);
      Nationality and TotalScore are value types and always hold a value. */
  datatype UserPayload = UserPayload(
    firstName: Option<string>,
    lastName: Option<string>,
    email: Option<string>,
    nationality: Nationality,
    totalScore: real)

  /** UserResponseDto: every column of a row, nothing redacted. */
  datatype UserResponse = UserResponse(
    id: int,
    firstName: string,
    lastName: string,
    email: string,
    nationality: Nationality,
    totalScore: real,
    createdAt: int)

  /** The projection from a row to its response body. */
  function ToResponse(u: User): UserResponse {
    UserResponse(u.id, u.firstName, u.lastName, u.email, u.nationality, u.totalScore, u.createdAt)
  }

  /** The response body carries every column: two rows with the same body are the same
      row. */
  lemma ResponseDeterminesRow(u: User, v: User)
    requires ToResponse(u) == ToResponse(v)
    ensures u == v
  {
  }

  /** `double.MaxValue`, exactly. */
  const DoubleMaxValue: real :=
    179769313486231570814527423731704356798070567525844996598917476803157260780028538760589558632766878171540458953514382464234321326889464182768467546703537516986049910576551282076245490090389328944075868508455133942304583236903222948165808559332123348274797826204144723168738177180919299881250404026184124858368.0

  /** `[Required]` on a string: not null and not empty. Whether the framework also
      rejects a white-space-only value does not change any outcome of the controller,
      which rejects such values itself. */
  predicate Required(s: Option<string>) {
    s.Some? && s.value != []
  }

  /** `[StringLength(max)]`: a null value passes. */
  predicate StringLength(s: Option<string>, max: nat) {
    s.None? || |s.value| <= max
  }

  /** `[RegularExpression(@"^[a-zA-Z\s]+$")]`: a null or empty value passes; otherwise
      every character is an ASCII letter or white space. */
  predicate LettersAndSpaces(s: Option<string>) {
    s.None? || s.value == [] ||
    forall i :: 0 <= i < |s.value| ==> IsAsciiLetter(s.value[i]) || IsWhiteSpace(s.value[i])
  }

  /** `[EmailAddress]`: a null value passes; the format itself is the framework's and is
      given as `isEmail`. */
  predicate EmailAddress(s: Option<string>, isEmail: string -> bool) {
    s.None? || isEmail(s.value)
  }

  /** `[Range(0, double.MaxValue)]`. */
  predicate Range(x: real, lo: real, hi: real) {
    lo <= x <= hi
  }

  /** The attributes on FirstName, and the identical ones on LastName, taken together,
      with `[Required]` read as in `Required` (not null, not empty): a name is valid
      exactly when it is present, 1 to 50 characters long and made of ASCII letters and
      white space. */
  function NameValid(s: Option<string>): (ok: bool)
    ensures ok <==>
      && s.Some?
      && 0 < |s.value| <= MaxNameLength
      && forall i :: 0 <= i < |s.value| ==> IsAsciiLetter(s.value[i]) || IsWhiteSpace(s.value[i])
  {
    Required(s) && StringLength(s, MaxNameLength) && LettersAndSpaces(s)
  }

  /** The attributes on Email taken together: present, 1 to 100 characters long, and of
      email format. */
  function EmailValid(s: Option<string>, isEmail: string -> bool): (ok: bool)
    ensures ok <==> s.Some? && 0 < |s.value| <= MaxEmailLength && isEmail(s.value)
  {
    Required(s) && EmailAddress(s, isEmail) && StringLength(s, MaxEmailLength)
  }

  /** The model state of an update request: every attribute of UserUpdateDto holds.
      `[Required]` on Nationality and TotalScore always holds, as both are value types. */
  predicate UpdatePayloadValid(p: UserPayload, isEmail: string -> bool) {
    && NameValid(p.firstName)
    && NameValid(p.lastName)
    && EmailValid(p.email, isEmail)
    && Range(p.totalScore, 0.0, DoubleMaxValue)
  }

  /** A negative score fails validation, whatever the other fields hold. */
  lemma NegativeScoreInvalid(p: UserPayload, isEmail: string -> bool)
    requires p.totalScore < 0.0
    ensures !UpdatePayloadValid(p, isEmail)
  {
  }

  /** The length and pattern rules on a name admit one made only of spaces: "   " is
      short enough and matches `^[a-zA-Z\s]+$`, yet `string.IsNullOrWhiteSpace` holds of
      it, so only the controller's own white-space check is sure to reject it. */
  lemma BlankNamePassesNameRules()
    ensures var blank := Some("   ");
      StringLength(blank, MaxNameLength) && LettersAndSpaces(blank) && blank.value != []
      && IsNullOrWhiteSpace(blank)
  {
    var blank := "   ";
    assert forall i :: 0 <= i < |blank| ==> blank[i] == ' ';
  }
}
