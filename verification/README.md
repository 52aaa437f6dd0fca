# Products, users and login: a Dafny model of the service layer

This project models the three NestJS services of a small product-catalogue
backend:

- `ProductsService` (the product catalogue): create, find by id, find by name,
  remove. Product names are unique.
- `UsersService` (the user directory): find a user by email behind an `'@'`
  guard, and register a user with a hashed password. The caller gets the
  record back with the password blanked.
- `AuthService.login` (the login decision): lookup, then hash comparison, then
  token signing.

Each record store is an immutable Dafny `map`: product id to product, and
email to user. Each operation is a pure function. It returns a `Response`
that pairs a `Result` (the returned value, or the thrown exception as an
`Error`) with the store as it stands afterwards. The errors are
`Conflict(msg)`, `BadRequest(msg)`, `NotFound(msg)` and `Unauthorized`. Their
messages are the source's own: "Name already in use", "Product was not
found", "Email already in use" and "Email invalid".

The libraries the services delegate to become parameters:

- bcrypt's `hashSync` is `hash: string -> string`.
- bcrypt's `compare` is `compare: (string, string) -> bool`. It takes the
  plaintext first and the stored hash second.
- The JWT signer is `sign: JwtPayload -> string`.
- The id that the database assigns to a new product is the `freshId`
  argument of `Products.Create`. It must not already be a key of the store.

The model assumes one thing about these functions: `hash` is a single
fixed function, so equal plaintexts always get equal hashes (see "## Left
out"). Nothing else is assumed. In particular, `compare(p, hash(p))` appears
only as an explicit hypothesis of `Auth.LoginAfterRegister`. The
`createJwtToken` helper (src/auth/auth.service.ts:28-31) is written inline in
`Auth.Login` as `sign(JwtPayload(email))`.

Two modelling choices are worth noting:

- `Users.FindOne` returns the stored record *with* its password hash, as
  src/users/users.service.ts:39-45 does. `login` needs that hash. Only
  `create` blanks the password in what it returns.
- `Products.FindOneByName` works on any store. In a store with two products
  of the same name, it returns one of them and leaves open which. The
  database query it stands for, `findUnique` on `name`, relies on a
  uniqueness constraint that the store itself enforces. That lookup is
  written with a choice over the map, so it and the functions built on it
  are ghost. When names are unique, `FindOneByNameUnique` shows the result
  is determined.

Files: `common.dfy` (shared result types), `products.dfy`, `users.dfy`,
`auth.dfy`, one module each.

## Model

| member | source | states |
|---|---|---|
| `Products.FindOne` | src/products/products.service.ts:21-29 | returns the record stored under the id exactly when the id is present, otherwise absent (not an error); the store is unchanged |
| `Products.FindOneByName` | src/products/products.service.ts:31-39 | returns a stored record whose name equals the given name exactly, and is absent exactly when no record carries that name; read-only |
| `Products.Create` | src/products/products.service.ts:13-19 | fails with Conflict("Name already in use") exactly when the name is already used, and then leaves the store unchanged; otherwise returns `{freshId, name, quantity}` and adds exactly that one record, with every other record unchanged and the size up by one; keeps id-keying and name uniqueness |
| `Products.Remove` | src/products/products.service.ts:41-47 | fails with NotFound("Product was not found") exactly when the id is absent, and then deletes nothing; otherwise removes exactly that key, with all other records untouched; keeps the invariant |
| `Products.CreateThenFindOne` | src/products/products.service.ts:13-29 | a product created under a fresh name is then found by its new id as the identical record |
| `Products.FindOneByNameUnique` | src/products/products.service.ts:31-39 | in a catalogue with unique names, looking up a stored product's name yields that product and no other |
| `Products.CreateThenFindOneByName` | src/products/products.service.ts:13-39 | in a valid catalogue, a freshly created product is then found by its name |
| `Products.RemoveThenFindOne` | src/products/products.service.ts:41-47 | removing a present id succeeds, and a later lookup of that id is absent |
| `Products.CreateThenRemove` | src/products/products.service.ts:13-47 | removing a product straight after creating it restores the original store exactly |
| `Products.RunPreservesValid` | src/products/products.service.ts:13-47 | over any sequence of create and remove requests, no two products ever share a name and every record stays under its own id |
| `Users.FindOne` | src/users/users.service.ts:35-46 | an email without '@' fails with BadRequest("Email invalid") and only such an email fails; otherwise returns the record stored under exactly that email, hash included, or absent; read-only |
| `Users.Create` | src/users/users.service.ts:20-33 | BadRequest for an email without '@', checked before the duplicate test; Conflict("Email already in use") for a registered email; the store is unchanged on either failure; otherwise stores `{name, email, hash(password)}` under the email, leaves other users unchanged, and returns the stored record with password `""`; keeps one user per email |
| `Users.CreateReturnsBlankPassword` | src/users/users.service.ts:25-32 | the record returned by a successful registration has an empty password, while the stored record keeps `hash(password)` |
| `Users.CreateThenFindOne` | src/users/users.service.ts:20-46 | a registered user is then found by email, with the hashed password |
| `Users.CreateTwiceConflicts` | src/users/users.service.ts:20-24 | registering an email a second time fails with Conflict whatever the name and password, and leaves the store as the first registration left it |
| `Users.MalformedEmailIgnoresStore` | src/users/users.service.ts:35-38 | for an email without '@', lookup and registration give the same answer whatever the store holds, so the store is not consulted |
| `Users.CreateKeepsPasswordsHashed` | src/users/users.service.ts:25-30 | if every stored password is an image of `hash` before a registration, it still is afterwards |
| `Users.RegisterAllKeepsInvariants` | src/users/users.service.ts:20-33 | over any sequence of registrations, each email holds one record keyed by itself and every stored password is an image of `hash` |
| `Auth.Login` | src/auth/auth.service.ts:28-46 | BadRequest from the lookup propagates for an email without '@'; for a well-formed email, login succeeds exactly when the user exists and `compare(plaintext, storedHash)` holds; otherwise it fails with Unauthorized, carrying no message; on success it returns `{accessToken: sign({sub: email})}`, the token `createJwtToken` builds at lines 28-31; the store is never changed |
| `Auth.FailuresIndistinguishable` | src/auth/auth.service.ts:35-44 | an unknown user and a wrong password produce the identical error value, Unauthorized |
| `Auth.LoginAfterRegister` | src/auth/auth.service.ts:33-46 | after a successful registration, logging in with the same password succeeds, provided compare accepts a plaintext against its hash; the token is signed for the email |
| `Auth.LoginAfterRegisterWrongPassword` | src/auth/auth.service.ts:38-44 | after a registration, a password that compare rejects against the stored hash gets Unauthorized |

## Left out

- `findAll(name)`: the products controller calls it, but the service does not define it. There is no filter behaviour to model.
- The database layer (Prisma): its unique constraints, id generation and failures. The stores are maps, and the assigned id is a parameter.
- bcrypt's `hashSync` with cost 12 and `compare`, and JWT signing and verification. These are library code. They are uninterpreted function parameters.
- bcrypt's `hashSync` picks a new random salt on every call, so two users with the same plaintext get different stored hashes. The model uses one fixed `hash` function for a whole run, so equal plaintexts get equal hashes. No proved property depends on this.
- Users.CreateKeepsPasswordsHashed: with an uninterpreted `hash`, "no plaintext is stored" can only be stated as "every stored password is an image of `hash`". That holds trivially when `hash` is the identity. The direct promise is in `Users.Create`: the stored password is `hash(dto.password)`.
- Token expiry ("1d") and the signing secret taken from the environment. This is configuration.
- Controllers, modules, dependency-injection wiring and the `forwardRef` cycle between the auth and user services. The hash function is passed to `Users.Create` directly.
- The AuthGuard that protects the product routes. `src/auth/auth.guard.ts` is not part of this model.
- async/await and concurrent requests. The model is sequential, so the race between two identical registrations, or two creates with the same name, is not covered.
- Validation of the request bodies, such as a non-negative quantity. The DTO classes are not part of this model, and the services do not check this themselves. `quantity` is an unbounded `int`.
