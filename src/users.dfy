/** The `User` entity and the `UserDTO` record with its two conversions. */
module Users {
  import opened Common

  /** A `LocalDate`. */
  datatype Date = Date(year: int, month: int, day: int)

  /** The persisted user; `id` is null until the database assigns one. */
  datatype User = User(
    id: Option<int>,
    name: string,
    email: string,
    phoneNumber: string,
    openNetwork: bool,
    cep: string,
    birthday: Date,
    biography: Option<string>,
    urlPicture: Option<string>)

  /** The user as the API sees it: no `open_network` flag. */
  datatype UserDto = UserDto(
    id: Option<int>,
    name: string,
    email: string,
    phoneNumber: string,
    cep: string,
    birthday: Date,
    biography: Option<string>,
    urlPicture: Option<string>)

  /** `UserDTO.fromUser`: every field but `open_network`. */
  function FromUser(u: User): (d: UserDto)
    ensures d.id == u.id && d.email == u.email
  {
    UserDto(u.id, u.name, u.email, u.phoneNumber, u.cep, u.birthday, u.biography, u.urlPicture)
  }

  /** `UserDTO.toUser`: the seven-argument constructor, which leaves the id
      null and `open_network` at its default, false. */
  function ToUser(d: UserDto): (u: User)
    ensures u.id.None? && !u.openNetwork && u.email == d.email
  {
    User(None, d.name, d.email, d.phoneNumber, false, d.cep, d.birthday, d.biography, d.urlPicture)
  }

  /** A DTO survives the trip through the entity except for its id. */
  lemma DtoRoundTrip(d: UserDto)
    ensures FromUser(ToUser(d)) == d.(id := None)
  {
  }

  /** An entity survives the trip through the DTO except for its id and its
      `open_network` flag. */
  lemma UserRoundTrip(u: User)
    ensures ToUser(FromUser(u)) == u.(id := None, openNetwork := false)
  {
  }

  /** Two entities give the same DTO exactly when they differ at most in
      `open_network`. */
  lemma FromUserForgetsOnlyOpenNetwork(u: User, v: User)
    ensures FromUser(u) == FromUser(v) <==> u.(openNetwork := false) == v.(openNetwork := false)
  {
  }
}
