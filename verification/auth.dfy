/** The login decision (`AuthService.login`): look the user up, compare the
    supplied password with the stored hash, and sign a token for the email.
    Password comparison and token signing are parameters. */
module Auth {
  import opened Common
  import Users

  /** The request body of `login`; `password` is the plaintext. */
  datatype LoginUserDto = LoginUserDto(email: Users.Email, password: string)

  /** The claims signed into the access token. */
  datatype JwtPayload = JwtPayload(sub: string)

  datatype LoginResponse = LoginResponse(accessToken: string)

  /** The credentials name a stored user, and `compare`, given the plaintext
      first and the stored hash second, accepts them. */
  predicate Authenticates(users: Users.UserStore, compare: (string, string) -> bool, credentials: LoginUserDto) {
    credentials.email in users && compare(credentials.password, users[credentials.email].password)
  }

  /** `login(credentials)`: the lookup's BadRequest propagates; an unknown
      user and a rejected password both give the same `Unauthorized`;
      otherwise the token `createJwtToken` makes, the payload `{sub: email}`
      signed. The store is not changed. */
  function Login(users: Users.UserStore, compare: (string, string) -> bool, sign: JwtPayload -> string,
                 credentials: LoginUserDto): (r: Response<LoginResponse, Users.UserStore>)
    ensures r.state == users
    ensures !Users.WellFormedEmail(credentials.email) ==>
              r.result == Failure(BadRequest(Users.EmailInvalidMessage))
    ensures Users.WellFormedEmail(credentials.email) ==>
              (r.result.Success? <==> Authenticates(users, compare, credentials))
    ensures Users.WellFormedEmail(credentials.email) && !Authenticates(users, compare, credentials) ==>
              r.result == Failure(Unauthorized)
    ensures r.result.Success? ==> r.result.value == LoginResponse(sign(JwtPayload(credentials.email)))
  {
    var lookup := Users.FindOne(users, credentials.email).result;
    if lookup.Failure? then
      Response(Failure(lookup.error), users)
    else if lookup.value.None? then
      Response(Failure(Unauthorized), users)
    else if !compare(credentials.password, lookup.value.value.password) then
      Response(Failure(Unauthorized), users)
    else
      Response(Success(LoginResponse(sign(JwtPayload(credentials.email)))), users)
  }

  /** "No such user" and "wrong password" cannot be told apart by the error. */
  lemma FailuresIndistinguishable(users: Users.UserStore, compare: (string, string) -> bool,
                                  sign: JwtPayload -> string, unknown: LoginUserDto, wrong: LoginUserDto)
    requires Users.WellFormedEmail(unknown.email) && unknown.email !in users
    requires Users.WellFormedEmail(wrong.email) && wrong.email in users
    requires !compare(wrong.password, users[wrong.email].password)
    ensures Login(users, compare, sign, unknown).result == Login(users, compare, sign, wrong).result
    ensures Login(users, compare, sign, unknown).result == Failure(Unauthorized)
  {
  }

  /** A user who has just registered logs in with the same password, provided
      `compare` accepts a plaintext against its own hash; no other relation
      between `compare` and `hash` is assumed. */
  lemma LoginAfterRegister(store: Users.UserStore, hash: string -> string, compare: (string, string) -> bool,
                           sign: JwtPayload -> string, dto: Users.CreateUserDto)
    requires Users.Create(store, hash, dto).result.Success?
    requires compare(dto.password, hash(dto.password))
    ensures Login(Users.Create(store, hash, dto).state, compare, sign, LoginUserDto(dto.email, dto.password)).result
            == Success(LoginResponse(sign(JwtPayload(dto.email))))
  {
  }

  /** After registering, a password that `compare` rejects against the stored
      hash is refused. */
  lemma LoginAfterRegisterWrongPassword(store: Users.UserStore, hash: string -> string,
                                        compare: (string, string) -> bool, sign: JwtPayload -> string,
                                        dto: Users.CreateUserDto, attempt: string)
    requires Users.Create(store, hash, dto).result.Success?
    requires !compare(attempt, hash(dto.password))
    ensures Login(Users.Create(store, hash, dto).state, compare, sign, LoginUserDto(dto.email, attempt)).result
            == Failure(Unauthorized)
  {
  }
}
