/** The user directory (`UsersService`): look up a user by email behind a
    syntactic guard, and register a user with a hashed password, over a store
    mapping email to user record. The hash function is a parameter. */
module Users {
  import opened Common

  type Email = string

  /** A stored user; `password` holds what `hash` made of the plaintext. */
  datatype User = User(name: string, email: Email, password: string)

  /** The request body of `create`; `password` is the plaintext. */
  datatype CreateUserDto = CreateUserDto(name: string, email: Email, password: string)

  type UserStore = map<Email, User>

  const EmailInUseMessage := "Email already in use"
  const EmailInvalidMessage := "Email invalid"

  /** The only check made on an email: it contains an '@'. */
  predicate WellFormedEmail(email: Email) {
    '@' in email
  }

  /** Every record sits under its own email, so one email has one user. */
  predicate KeyedByEmail(store: UserStore) {
    forall e :: e in store ==> store[e].email == e
  }

  /** Every stored password is an image of `hash`: some input hashed to it. */
  ghost predicate PasswordsHashed(store: UserStore, hash: string -> string) {
    forall e :: e in store ==> exists p :: store[e].password == hash(p)
  }

  /** `findOne(email)`: BadRequest for an email without '@', decided before
      the store is consulted; otherwise the record under exactly that email
      (stored hash included), or absent. Read-only. */
  function FindOne(store: UserStore, email: Email): (r: Response<Option<User>, UserStore>)
    ensures r.state == store
    ensures r.result.Failure? <==> !WellFormedEmail(email)
    ensures r.result.Failure? ==> r.result.error == BadRequest(EmailInvalidMessage)
    ensures r.result.Success? ==>
              && (r.result.value.Some? <==> email in store)
              && (r.result.value.Some? ==> r.result.value.value == store[email])
  {
    if !WellFormedEmail(email) then
      Response(Failure(BadRequest(EmailInvalidMessage)), store)
    else
      Response(Success(if email in store then Some(store[email]) else None), store)
  }

  /** `create(dto)`: the lookup's BadRequest first, then Conflict for an email
      already registered; otherwise stores the user with `hash(password)` and
      returns a copy of the stored record with the password blanked. */
  function Create(store: UserStore, hash: string -> string, dto: CreateUserDto): (r: Response<User, UserStore>)
    ensures r.result.Success? <==> WellFormedEmail(dto.email) && dto.email !in store
    ensures !WellFormedEmail(dto.email) ==> r.result == Failure(BadRequest(EmailInvalidMessage))
    ensures WellFormedEmail(dto.email) && dto.email in store ==> r.result == Failure(Conflict(EmailInUseMessage))
    ensures r.result.Failure? ==> r.state == store
    ensures r.result.Success? ==>
              && r.state.Keys == store.Keys + {dto.email}
              && r.state[dto.email] == User(dto.name, dto.email, hash(dto.password))
              && (forall e :: e in store ==> r.state[e] == store[e])
              && r.result.value == r.state[dto.email].(password := "")
    ensures KeyedByEmail(store) ==> KeyedByEmail(r.state)
  {
    var lookup := FindOne(store, dto.email).result;
    if lookup.Failure? then
      Response(Failure(lookup.error), store)
    else if lookup.value.Some? then
      Response(Failure(Conflict(EmailInUseMessage)), store)
    else
      var stored := User(dto.name, dto.email, hash(dto.password));
      Response(Success(stored.(password := "")), store[dto.email := stored])
  }

  /** `create` never hands the stored hash to its caller. */
  lemma CreateReturnsBlankPassword(store: UserStore, hash: string -> string, dto: CreateUserDto)
    requires Create(store, hash, dto).result.Success?
    ensures Create(store, hash, dto).result.value.password == ""
    ensures Create(store, hash, dto).state[dto.email].password == hash(dto.password)
  {
  }

  /** A registered user is then found by email, with the stored hash. */
  lemma CreateThenFindOne(store: UserStore, hash: string -> string, dto: CreateUserDto)
    requires WellFormedEmail(dto.email)
    requires dto.email !in store
    ensures FindOne(Create(store, hash, dto).state, dto.email).result
            == Success(Some(User(dto.name, dto.email, hash(dto.password))))
  {
  }

  /** A second registration of the same email is rejected whatever the name
      and password, and changes nothing. */
  lemma CreateTwiceConflicts(store: UserStore, hash: string -> string, first: CreateUserDto, second: CreateUserDto)
    requires Create(store, hash, first).result.Success?
    requires second.email == first.email
    ensures Create(Create(store, hash, first).state, hash, second).result == Failure(Conflict(EmailInUseMessage))
    ensures Create(Create(store, hash, first).state, hash, second).state == Create(store, hash, first).state
  {
  }

  /** The guard decides before the store is consulted: a malformed email gets
      the same answer whatever the store holds. */
  lemma MalformedEmailIgnoresStore(s1: UserStore, s2: UserStore, hash: string -> string, dto: CreateUserDto)
    requires !WellFormedEmail(dto.email)
    ensures FindOne(s1, dto.email).result == FindOne(s2, dto.email).result
    ensures Create(s1, hash, dto).result == Create(s2, hash, dto).result
  {
  }

  /** One registration keeps every stored password an image of `hash`. */
  lemma CreateKeepsPasswordsHashed(store: UserStore, hash: string -> string, dto: CreateUserDto)
    requires PasswordsHashed(store, hash)
    ensures PasswordsHashed(Create(store, hash, dto).state, hash)
  {
  }

  /** The store after serving a sequence of registrations in order; rejected
      ones leave it as it was. */
  function RegisterAll(store: UserStore, hash: string -> string, dtos: seq<CreateUserDto>): UserStore
    decreases |dtos|
  {
    if |dtos| == 0 then store else RegisterAll(Create(store, hash, dtos[0]).state, hash, dtos[1..])
  }

  /** However many registrations are served, one email has one record under
      it and every stored password is an image of `hash`. */
  lemma {:induction false} RegisterAllKeepsInvariants(store: UserStore, hash: string -> string, dtos: seq<CreateUserDto>)
    requires KeyedByEmail(store)
    requires PasswordsHashed(store, hash)
    ensures KeyedByEmail(RegisterAll(store, hash, dtos))
    ensures PasswordsHashed(RegisterAll(store, hash, dtos), hash)
    decreases |dtos|
  {
    if |dtos| > 0 {
      CreateKeepsPasswordsHashed(store, hash, dtos[0]);
      RegisterAllKeepsInvariants(Create(store, hash, dtos[0]).state, hash, dtos[1..]);
    }
  }
}
