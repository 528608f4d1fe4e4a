# TwitterGolang core, modelled in Dafny

TwitterGolang is a small Twitter-like HTTP service in three layers:

- HTTP handlers decode a request, make a few checks and choose a status code.
- A `UserService` forwards every call to a repository.
- A `MySQLRepository` keeps three tables in MySQL through GORM: users, tweets and follows.

This project models all three layers and proves what each promises.

- `models.dfy` (module `Models`): the row types and the error values. A Go `string` is a `seq<byte>`, so `len` counts bytes and every string comparison is byte for byte (`==`).
- `queries.dfy` (module `Queries`): each `WHERE` clause the repository sends, as a filter over a table kept in primary-key order. `RowsAffected` is the length of the filtered sequence. The module also holds the table invariants and the lemmas that turn "exactly one row" into "such a row exists".
- `store.dfy` (module `Store`): what each repository operation does to the database, as pure functions from the database before the call to the database after it and the error returned. It also holds the invariant `Valid`, its preservation by every write, and the lemmas relating operations in sequence.
- `repository.dfy` (module `Repositories`): `MySQLRepository` as a class whose fields are the tables and the auto-increment counters. Its writing methods change those fields in place. Each method is proved equal to its `Store` counterpart and keeps `Valid`.
- `services.dfy` (module `Services`): `UserService` holding a repository reference. Every operation forwards once and returns the repository's result unchanged.
- `strconv.dfy` (module `Strconv`): Go's `strconv.Atoi` for a 64-bit `int`, which the DeleteTweet handler uses, with `Itoa` and a round-trip lemma.
- `handlers.dfy` (module `Handlers`): the status decision of every handler as pure functions, and a `Handler` class wired to a service. Its methods prove the status each request gets in terms of the database, and what the request does to the database.
- `scenario.dfy` (module `Scenarios`): one end-to-end run through handler, service and repository over an empty database. Alice and bob register, alice follows bob twice, and the check, the listing and the unfollow follow.

A failure of the store itself is modelled only for GetAllUsers, GetTweetsOfUser, GetFolloweesOfUser, DeleteTweet and DeleteFollowee. Each of these takes a `storeFails` flag. The lookups inside SignIn, AddTweet, AddFollowee and CheckFollowing never fail in the model.

On these points the model follows the code:

- The length check on registration (name and password at least 3 bytes) is made by the AddUser handler, not by the service.
- A handler that writes no status on success (registration, tweet, follow, the listings and the deletes) answers 200.
- `services/userServices.go` as written declares `GetAllUsers`, `GetTweetsOfUser` and `GetFolloweesOfUser` without an error result, and its `DeleteTweet` and `DeleteFollowee` return nothing. That does not match `services/service_interface.go`, which the handlers call through. The model follows the interface: every service operation returns the repository's error.
- CheckFollowing is inverted in the code. The repository returns an error when the source DOES follow the target, and the handler maps an error to 302 Found and nil to 404 Not Found. The model keeps this inversion and proves it (`Store.CheckFollowingPassesIff`, `Handlers.Handler.CheckFollowing`).

## Model

| member | source | states |
|---|---|---|
| Queries.UsersNamed | repositories/mysql_repository.go:68 | the rows returned are exactly the users whose name equals the argument byte for byte; none is returned exactly when no user has that name |
| Queries.UsersWithCredentials | repositories/mysql_repository.go:49 | the rows returned are exactly the users with this exact name and this exact password |
| Queries.TweetsBy | repositories/mysql_repository.go:84 | the rows returned are exactly the tweets whose author name equals the argument |
| Queries.FollowsFrom | repositories/mysql_repository.go:91 | the rows returned are exactly the follows rows whose source equals the argument |
| Queries.FollowsBetween | repositories/mysql_repository.go:107 | the rows returned are exactly the follows rows for this (source, target) pair; none exactly when no such row exists |
| Queries.TweetsWithoutId | repositories/mysql_repository.go:117 | deleting by primary key leaves exactly the tweets with another id |
| Queries.FollowsWithoutPair | repositories/mysql_repository.go:123 | deleting by the pair's condition leaves exactly the rows for other pairs |
| Queries.UsersNamedAtMostOne | models/user.go:7 | under the unique constraint on users.name, a name query returns at most one row |
| Queries.NamedOnceIffExists | repositories/mysql_repository.go:68-71 | under unique names, "exactly one row" holds iff a user with that name exists |
| Queries.CredentialsWithinName | repositories/mysql_repository.go:49 | a name-and-password query returns no more rows than the name query |
| Queries.CredentialsOnceIffExists | repositories/mysql_repository.go:49-52 | under unique names, "exactly one row" holds iff a user with that name and password exists |
| Queries.FollowsBetweenAtMostOne | repositories/mysql_repository.go:107-111 | when pairs are unique, a pair query returns at most one row |
| Queries.BetweenOnceIffExists | repositories/mysql_repository.go:107-110 | when pairs are unique, "exactly one row" holds iff the edge exists |
| Queries.TweetsWithoutIdKeepsOrder | repositories/mysql_repository.go:115-120 | deleting a tweet keeps the remaining ids in increasing order |
| Queries.FollowsWithoutPairKeepsInvariants | repositories/mysql_repository.go:121-126 | unfollowing keeps follow ids increasing and pairs unique |
| Queries.TweetsWithoutAbsentId | repositories/mysql_repository.go:117 | deleting an id no tweet has leaves the table as it was |
| Queries.FollowsWithoutAbsentPair | repositories/mysql_repository.go:123 | deleting a pair no row has leaves the table as it was |
| Store.Empty | repositories/mysql_repository.go:17-38 | the freshly migrated database has empty tables and satisfies the store invariant |
| Store.AddUser | repositories/mysql_repository.go:40-44 | registration fails iff the name is taken, with the duplicate error and the database unchanged; otherwise exactly one row with the next id is appended and nothing else changes |
| Store.AddTweet | repositories/mysql_repository.go:64-79 | the tweet is refused with "bad request" and no change unless its author matches exactly one user and its content is at least one byte; otherwise exactly one row with the next tweet id is appended |
| Store.AddFollowee | repositories/mysql_repository.go:95-113 | the follow is refused with "bad request" and no change unless the source matches one user and the pair does not already have exactly one row; otherwise exactly one row is appended; the target is never looked up |
| Store.DeleteTweet | repositories/mysql_repository.go:115-120 | only a store failure is an error, and it changes nothing; otherwise exactly the tweets with that id disappear and the other tables stay |
| Store.DeleteFollowee | repositories/mysql_repository.go:121-126 | only a store failure is an error, and it changes nothing; otherwise exactly the rows for that pair disappear |
| Store.SignIn | repositories/mysql_repository.go:46-54 | sign-in can only fail with "bad request" |
| Store.GetAllUsers | repositories/mysql_repository.go:56-62 | fails exactly on a store failure; otherwise returns the whole users table |
| Store.GetTweetsOfUser | repositories/mysql_repository.go:81-86 | fails exactly on a store failure; otherwise returns exactly the tweets by that author |
| Store.GetFolloweesOfUser | repositories/mysql_repository.go:88-93 | fails exactly on a store failure; otherwise returns exactly the follows rows with that source |
| Store.CheckFollowing | repositories/mysql_repository.go:128-143 | "bad request" when the source does not match exactly one user, and also when exactly one row for the pair exists |
| Store.AddTweetSucceedsIff | repositories/mysql_repository.go:66-75 | on a valid database a tweet is accepted iff its author exists and its content is not empty |
| Store.AddFolloweeSucceedsIff | repositories/mysql_repository.go:97-110 | on a valid database a follow is accepted iff the source exists and the edge does not |
| Store.SignInSucceedsIff | repositories/mysql_repository.go:49-53 | on a valid database sign-in passes iff a user with exactly this name and password exists |
| Store.CheckFollowingPassesIff | repositories/mysql_repository.go:133-142 | on a valid database the check returns nil iff the source exists and does not follow the target, and an error when it does |
| Store.DeleteTweetKeepsValid | repositories/mysql_repository.go:115-120 | deleting a tweet preserves the store invariant |
| Store.DeleteFolloweeKeepsValid | repositories/mysql_repository.go:121-126 | unfollowing preserves the store invariant |
| Store.AddUserKeepsValid | repositories/mysql_repository.go:40-44 | registering preserves unique names and fresh, increasing ids |
| Store.AddTweetKeepsValid | repositories/mysql_repository.go:64-79 | posting preserves the store invariant |
| Store.AddFolloweeKeepsValid | repositories/mysql_repository.go:95-113 | following keeps at most one row per pair, because the duplicate check runs first |
| Store.RegisteredUserCanSignIn | repositories/mysql_repository.go:40-62 | after a successful registration the user signs in with the same credentials and is listed among all users |
| Store.RegisteringTwiceFails | repositories/mysql_repository.go:40-44 | registering a taken name fails with the duplicate error and changes nothing, whatever the password |
| Store.PostedTweetIsListed | repositories/mysql_repository.go:64-86 | after a successful post the new tweet is among its author's tweets |
| Store.FollowingTwiceFails | repositories/mysql_repository.go:95-143 | after a successful follow, the same follow is refused and the check reports an error |
| Store.FollowIsListed | repositories/mysql_repository.go:88-113 | after a successful follow the new row is among the source's followees |
| Store.UnfollowIsIdempotent | repositories/mysql_repository.go:121-126 | unfollowing twice is the same as unfollowing once |
| Store.UnfollowRemovesEdge | repositories/mysql_repository.go:95-143 | after unfollowing an existing source, the edge is gone, the check returns nil and following again is accepted |
| Store.DeleteTweetIsIdempotent | repositories/mysql_repository.go:115-120 | deleting twice is the same as deleting once, and deleting an absent id changes nothing |
| Store.SignInIsCaseSensitive | repositories/mysql_repository.go:49 | names compare byte for byte: "abc" signs in and "Abc" with the same password does not |
| Repositories.MySQLRepository.constructor | repositories/mysql_repository.go:17-38 | a new repository holds the empty, valid database |
| Repositories.MySQLRepository.AddUser | repositories/mysql_repository.go:40-44 | the in-place insert keeps the invariant and leaves the state and error that Store.AddUser gives |
| Repositories.MySQLRepository.AddTweet | repositories/mysql_repository.go:64-79 | the lookup, count, check and insert keep the invariant and match Store.AddTweet |
| Repositories.MySQLRepository.AddFollowee | repositories/mysql_repository.go:95-113 | the two lookups, the checks and the insert keep the invariant and match Store.AddFollowee |
| Repositories.MySQLRepository.DeleteTweet | repositories/mysql_repository.go:115-120 | the in-place delete keeps the invariant and matches Store.DeleteTweet |
| Repositories.MySQLRepository.DeleteFollowee | repositories/mysql_repository.go:121-126 | the in-place delete keeps the invariant and matches Store.DeleteFollowee |
| Services.UserService.constructor | services/userServices.go:12-14 | the service holds the given repository |
| Services.UserService.AddUser | services/userServices.go:16-18 | forwards; the repository's new state and error are those of Store.AddUser |
| Services.UserService.SignIn | services/userServices.go:20-22 | returns the repository's sign-in result unchanged |
| Services.UserService.GetAllUsers | services/service_interface.go:11 | returns the repository's users and error unchanged |
| Services.UserService.AddTweet | services/userServices.go:28-30 | forwards; new state and error are those of Store.AddTweet |
| Services.UserService.GetTweetsOfUser | services/service_interface.go:13 | returns the repository's tweets and error unchanged |
| Services.UserService.GetFolloweesOfUser | services/service_interface.go:14 | returns the repository's followees and error unchanged |
| Services.UserService.AddFollowee | services/userServices.go:40-42 | forwards; new state and error are those of Store.AddFollowee |
| Services.UserService.DeleteTweet | services/service_interface.go:16 | forwards; new state and error are those of Store.DeleteTweet |
| Services.UserService.DeleteFollowee | services/service_interface.go:17 | forwards; new state and error are those of Store.DeleteFollowee |
| Services.UserService.CheckFollowing | services/userServices.go:52-54 | returns the repository's check result unchanged |
| Handlers.ErrorOf | handlers/handler.go:61-65 | a `(value, error)` pair has nil error iff it holds a value, and keeps the error otherwise |
| Handlers.BadRequestOnError | handlers/handler.go:38-41 | nil maps to 200 and any error to 400, both directions |
| Handlers.SignInStatus | handlers/handler.go:51-56 | nil maps to 200 and any error to 401, both directions |
| Handlers.CheckFollowingStatus | handlers/handler.go:158-164 | an error maps to 302 Found and nil to 404 Not Found, both directions |
| Handlers.AddUserStatus | handlers/handler.go:29-41 | a name or password under 3 bytes gives 400 whatever the service says; 200 iff both are long enough and the service returns nil |
| Handlers.DeleteTweetStatus | handlers/handler.go:126-136 | an id `Atoi` rejects gives 400 whatever the service says; 200 iff it parses and the service returns nil |
| Handlers.Handler.constructor | handlers/handler.go:17-19 | the handler holds the given service |
| Handlers.Handler.AddUser | handlers/handler.go:21-45 | short credentials leave the repository untouched; otherwise the repository takes the Store.AddUser step; 200 iff the credentials are long enough and the name was free |
| Handlers.Handler.SignIn | handlers/handler.go:47-57 | 200 iff some user has exactly this name and password, otherwise 401 |
| Handlers.Handler.GetAllUsers | handlers/handler.go:59-68 | 200 iff the store does not fail, otherwise 400 |
| Handlers.Handler.AddTweet | handlers/handler.go:70-84 | the repository takes the Store.AddTweet step; 200 iff the author exists and the content is not empty, otherwise 400 |
| Handlers.Handler.GetTweetsOfUser | handlers/handler.go:86-96 | 200 iff the store does not fail, otherwise 400 |
| Handlers.Handler.GetFolloweesOfUser | handlers/handler.go:98-108 | 200 iff the store does not fail, otherwise 400 |
| Handlers.Handler.AddFollowee | handlers/handler.go:110-121 | the repository takes the Store.AddFollowee step; 200 iff the source exists and does not yet follow the target, otherwise 400 |
| Handlers.Handler.DeleteTweet | handlers/handler.go:123-139 | an id that does not parse gives 400 and leaves the repository untouched; otherwise the Store.DeleteTweet step; 200 iff the id parses and the store does not fail |
| Handlers.Handler.DeleteFollowee | handlers/handler.go:141-152 | the repository takes the Store.DeleteFollowee step; 200 iff the store does not fail, otherwise 400 |
| Handlers.Handler.CheckFollowing | handlers/handler.go:154-166 | 404 iff the source exists and does NOT follow the target, otherwise 302 |
| Strconv.Atoi | handlers/handler.go:126 | a parsed value lies in the 64-bit `int` range; the empty string and a lone sign are rejected |
| Strconv.AtoiItoa | handlers/handler.go:126 | every 64-bit `int` written in decimal is read back as itself |
| Strconv.AtoiRejectsNonDigit | handlers/handler.go:126-130 | any byte that is neither a digit nor a leading sign makes the parse fail |
| Strconv.AtoiDigits | handlers/handler.go:126 | unsigned digits whose value fits are read as that value, leading zeros included |
| Strconv.AtoiOutOfRange | handlers/handler.go:126-130 | digits above `MaxInt` (unsigned or after `+`), or below `MinInt` after `-`, are rejected, so the handler answers 400 |
| Strconv.AtoiSigned | handlers/handler.go:126 | a leading `-` or `+` gives the sign of the digits that follow, leading zeros included ("-007" reads as -7) |
| Scenarios.FollowScenario | handlers/handler.go:21-166 | over an empty database: two registrations 200, follow 200, follow again 400, check 302, unfollow 200, check 404; the listing holds the one edge before the unfollow and nothing after |
| Scenarios.Register | handlers/handler.go:21-45 | registering alice then bob answers 200 twice and leaves exactly their two rows |
| Scenarios.Follow | handlers/handler.go:110-121 | alice following bob answers 200 and stores exactly one edge with id 1 |
| Scenarios.FollowAgain | handlers/handler.go:110-166 | the repeated follow answers 400 and changes nothing, the inverted check answers 302, and alice's followees are the one edge |
| Scenarios.Unfollow | handlers/handler.go:141-166 | unfollowing answers 200 and empties the follows table; the check then answers 404 and the listing is empty |

## Left out

- `NewMySqlRepository`: opening the connection, `AutoMigrate` and the panics on failure are not modelled. The model starts from an empty, migrated database (`Repositories.MySQLRepository.constructor`).
- main/main.go is not part of this model: the routing table, CORS and the DSN stay outside.
- JSON encoding and decoding, `mux.Vars`, header writes and the response bodies are not modelled. Handlers take their decoded fields as parameters. AddFollowee's second, no-effect decode of the request body is not modelled either.
- Fields a client sends that the model does not carry are left out: the `gorm.Model` id and timestamps in a request body. Every insert gets the table's next auto-increment id.
- GORM timestamps and soft deletes are not modelled. A deleted row is simply absent, which is how every later query in the code sees it.
- Writing the assigned id back into the caller's struct, and returning it in the JSON body, is not modelled.
- Collation and the index width are not modelled. The unique constraint on users.name compares byte for byte here, matching the `BINARY name` queries; under a case-insensitive collation the store would refuse a case variant of a taken name, while here it registers.
- The `password` and `target_user` comparisons are byte for byte in the model. MySQL's `BINARY` binds to the first operand only (`BINARY name`, `BINARY source_user`), so the store compares those two columns under the table's collation, which may ignore case. Store.SignInSucceedsIff, Store.AddFolloweeSucceedsIff, Store.CheckFollowingPassesIff and Store.DeleteFollowee therefore describe byte equality on them.
- Store failures on writes are not modelled. `Create` in AddTweet and AddFollowee has its result ignored in the code, and AddUser's insert fails only on a duplicate name here.
- The store's own failures are a `storeFails` parameter of GetAllUsers, GetTweetsOfUser, GetFolloweesOfUser, DeleteTweet and DeleteFollowee only, because they come from outside the program.
- A failed lookup in SignIn, AddTweet, AddFollowee or CheckFollowing is not modelled; those lookups always succeed here. In the code, a failed `Find` leaves `RowsAffected` at 0, so it counts as zero rows:
  - SignIn returns "bad request".
  - AddTweet and AddFollowee refuse the request when their user lookup fails.
  - When AddFollowee's pair lookup fails, it goes on to `Create` and returns nil even if the edge exists.
  - When CheckFollowing's pair lookup fails, it returns nil, so the handler answers 404 even if the edge exists.
- The auto-increment counters never skip an id after a failed insert here, while MySQL may skip one; ids stay unique and increasing either way.
- `RowsAffected` is the length of the filtered rows. GORM's `Find` into a single struct may cap it at one. Under the invariant, where at most one row ever matches, the two agree.
- Concurrency, and the race between the existence checks and the insert, are not modelled: operations run one at a time.
- `RepositoryInterface`, `ServiceInterface` and the generated mocks are not modelled as interfaces. The service holds the concrete repository class, and the handler holds the concrete service.
- The tests' mocks and expectations are not modelled; `Scenarios` plays one end-to-end run instead.
- Passwords are stored and compared in plain text, as in the code; no hashing is modelled.
- Strconv.Atoi: modelled for a 64-bit `int` only, and its error is `None` without telling a syntax error from a range error, because the handler only tests for nil.
- Repositories.MySQLRepository.SignIn, GetAllUsers, GetTweetsOfUser, GetFolloweesOfUser and CheckFollowing are read functions with no contract of their own. Each returns its `Store` function on the current state, where the contracts and lemmas are stated.
