/** What each operation of the MySQL repository (repositories/mysql_repository.go)
    does to the database, as functions from the database before the call to
    the database after it and the error returned. The class in
    repository.dfy performs the same steps in place. */
module Store {
  import opened Models
  import opened Queries

  /** The three relations, in primary-key order, and each relation's
      auto-increment counter (MySQL keeps one per table). Soft-deleted rows
      are absent. */
  datatype Db = Db(
    users: seq<User>,
    tweets: seq<Tweet>,
    follows: seq<Follows>,
    nextUserId: nat,
    nextTweetId: nat,
    nextFollowId: nat)

  /** The database after a writing operation, and the error it returned. */
  datatype Step = Step(db: Db, err: Outcome)

  /** What the store keeps true: user names are unique, (source, target)
      pairs are unique, and primary keys are positive, increasing in table
      order and below their table's counter. */
  predicate Valid(db: Db) {
    && UniqueNames(db.users)
    && UniquePairs(db.follows)
    && UserIdsIncreasing(db.users)
    && TweetIdsIncreasing(db.tweets)
    && FollowIdsIncreasing(db.follows)
    && 0 < db.nextUserId && 0 < db.nextTweetId && 0 < db.nextFollowId
    && (forall u :: u in db.users ==> 0 < u.id < db.nextUserId)
    && (forall t :: t in db.tweets ==> 0 < t.id < db.nextTweetId)
    && (forall f :: f in db.follows ==> 0 < f.id < db.nextFollowId)
  }

  predicate UserExists(db: Db, name: Bytes) {
    exists u :: u in db.users && u.name == name
  }

  predicate HasCredentials(db: Db, name: Bytes, password: Bytes) {
    exists u :: u in db.users && u.name == name && u.password == password
  }

  /** Whether some follows row says `source` follows `target`. */
  predicate Edge(db: Db, source: Bytes, target: Bytes) {
    exists f :: f in db.follows && f.sourceUser == source && f.targetUser == target
  }

  /** A freshly migrated, empty database. */
  function Empty(): (db: Db)
    ensures Valid(db)
    ensures db.users == [] && db.tweets == [] && db.follows == []
  {
    Db([], [], [], 1, 1, 1)
  }

  // ----------------------------------------------------------------- writes

  /** `AddUser`: `Create(user)`, which the unique constraint on users.name
      refuses when the name is taken. */
  function AddUser(db: Db, name: Bytes, password: Bytes): (r: Step)
    ensures r.err.Fail? <==> UserExists(db, name)
    ensures r.err.Fail? ==> r.err == Fail(DuplicateName) && r.db == db
    ensures r.err.Pass? ==>
      && r.db.users == db.users + [User(db.nextUserId, name, password)]
      && r.db.tweets == db.tweets && r.db.follows == db.follows
      && r.db.nextUserId == db.nextUserId + 1
      && r.db.nextTweetId == db.nextTweetId && r.db.nextFollowId == db.nextFollowId
  {
    if UsersNamed(db.users, name) != [] then Step(db, Fail(DuplicateName))
    else
      Step(db.(users := db.users + [User(db.nextUserId, name, password)], nextUserId := db.nextUserId + 1), Pass)
  }

  /** `AddTweet`: the author must match exactly one user and the content must
      be at least one byte long; the insert's own result is ignored. */
  function AddTweet(db: Db, userName: Bytes, content: Bytes): (r: Step)
    ensures |UsersNamed(db.users, userName)| != 1 ==> r.err.Fail?
    ensures |content| < 1 ==> r.err.Fail?
    ensures r.err.Fail? ==> r.err == Fail(BadRequest) && r.db == db
    ensures r.err.Pass? ==>
      && r.db.tweets == db.tweets + [Tweet(db.nextTweetId, userName, content)]
      && r.db.users == db.users && r.db.follows == db.follows
      && r.db.nextTweetId == db.nextTweetId + 1
      && r.db.nextUserId == db.nextUserId && r.db.nextFollowId == db.nextFollowId
  {
    if |UsersNamed(db.users, userName)| != 1 then Step(db, Fail(BadRequest))
    else if |content| < 1 then Step(db, Fail(BadRequest))
    else
      Step(db.(tweets := db.tweets + [Tweet(db.nextTweetId, userName, content)], nextTweetId := db.nextTweetId + 1), Pass)
  }

  /** `AddFollowee`: the source must match exactly one user and there must not
      be exactly one row for the pair already; the target is never looked up. */
  function AddFollowee(db: Db, source: Bytes, target: Bytes): (r: Step)
    ensures |UsersNamed(db.users, source)| != 1 ==> r.err.Fail?
    ensures |FollowsBetween(db.follows, source, target)| == 1 ==> r.err.Fail?
    ensures r.err.Fail? ==> r.err == Fail(BadRequest) && r.db == db
    ensures r.err.Pass? ==>
      && r.db.follows == db.follows + [Follows(db.nextFollowId, source, target)]
      && r.db.users == db.users && r.db.tweets == db.tweets
      && r.db.nextFollowId == db.nextFollowId + 1
      && r.db.nextUserId == db.nextUserId && r.db.nextTweetId == db.nextTweetId
  {
    if |UsersNamed(db.users, source)| != 1 then Step(db, Fail(BadRequest))
    else if |FollowsBetween(db.follows, source, target)| == 1 then Step(db, Fail(BadRequest))
    else
      Step(db.(follows := db.follows + [Follows(db.nextFollowId, source, target)], nextFollowId := db.nextFollowId + 1), Pass)
  }

  /** `DeleteTweet`: delete by primary key, without looking first; only a
      failure of the store itself is an error. */
  function DeleteTweet(db: Db, id: int, storeFails: bool): (r: Step)
    ensures storeFails ==> r == Step(db, Fail(StoreFailure))
    ensures !storeFails ==> r.err == Pass
    ensures forall t :: t in r.db.tweets <==> t in db.tweets && (storeFails || t.id != id)
    ensures r.db.users == db.users && r.db.follows == db.follows
    ensures r.db.nextUserId == db.nextUserId && r.db.nextTweetId == db.nextTweetId
    ensures r.db.nextFollowId == db.nextFollowId
  {
    if storeFails then Step(db, Fail(StoreFailure))
    else
      Step(db.(tweets := TweetsWithoutId(db.tweets, id)), Pass)
  }

  /** `DeleteFollowee`: delete every row of the pair; only a failure of the
      store itself is an error. */
  function DeleteFollowee(db: Db, source: Bytes, target: Bytes, storeFails: bool): (r: Step)
    ensures storeFails ==> r == Step(db, Fail(StoreFailure))
    ensures !storeFails ==> r.err == Pass
    ensures forall f :: f in r.db.follows <==>
      f in db.follows && (storeFails || !(f.sourceUser == source && f.targetUser == target))
    ensures r.db.users == db.users && r.db.tweets == db.tweets
    ensures r.db.nextUserId == db.nextUserId && r.db.nextTweetId == db.nextTweetId
    ensures r.db.nextFollowId == db.nextFollowId
  {
    if storeFails then Step(db, Fail(StoreFailure))
    else
      Step(db.(follows := FollowsWithoutPair(db.follows, source, target)), Pass)
  }

  // ------------------------------------------------------------------ reads

  /** `SignIn`: succeeds only when exactly one user row has exactly this name
      and exactly this password. */
  function SignIn(db: Db, name: Bytes, password: Bytes): (r: Outcome)
    ensures r.Fail? ==> r.error == BadRequest
  {
    if |UsersWithCredentials(db.users, name, password)| != 1 then Fail(BadRequest) else Pass
  }

  /** `GetAllUsers`: the whole users relation, unfiltered. */
  function GetAllUsers(db: Db, storeFails: bool): (r: Result<seq<User>>)
    ensures storeFails <==> r.Err?
    ensures r.Err? ==> r.error == StoreFailure
    ensures r.Ok? ==> r.value == db.users
  {
    if storeFails then Err(StoreFailure) else Ok(db.users)
  }

  /** `GetTweetsOfUser`: the tweets whose author is exactly `userName`. */
  function GetTweetsOfUser(db: Db, userName: Bytes, storeFails: bool): (r: Result<seq<Tweet>>)
    ensures storeFails <==> r.Err?
    ensures r.Err? ==> r.error == StoreFailure
    ensures r.Ok? ==> forall t :: t in r.value <==> t in db.tweets && t.userName == userName
  {
    if storeFails then Err(StoreFailure) else Ok(TweetsBy(db.tweets, userName))
  }

  /** `GetFolloweesOfUser`: the follows rows whose source is exactly `source`. */
  function GetFolloweesOfUser(db: Db, source: Bytes, storeFails: bool): (r: Result<seq<Follows>>)
    ensures storeFails <==> r.Err?
    ensures r.Err? ==> r.error == StoreFailure
    ensures r.Ok? ==> forall f :: f in r.value <==> f in db.follows && f.sourceUser == source
  {
    if storeFails then Err(StoreFailure) else Ok(FollowsFrom(db.follows, source))
  }

  /** `CheckFollowing`: an error when the source does not match exactly one
      user, and ALSO an error when exactly one row for the pair exists; nil
      only when the source exists and does not follow the target. */
  function CheckFollowing(db: Db, source: Bytes, target: Bytes): (r: Outcome)
    ensures |UsersNamed(db.users, source)| != 1 ==> r.Fail?
    ensures |FollowsBetween(db.follows, source, target)| == 1 ==> r.Fail?
    ensures r.Fail? ==> r.error == BadRequest
  {
    if |UsersNamed(db.users, source)| != 1 then Fail(BadRequest)
    else if |FollowsBetween(db.follows, source, target)| == 1 then Fail(BadRequest)
    else Pass
  }

  // ------------------------------------------------------ what the store keeps

  /** A tweet is accepted exactly when its author exists and its content is not empty. */
  lemma AddTweetSucceedsIff(db: Db, userName: Bytes, content: Bytes)
    requires Valid(db)
    ensures AddTweet(db, userName, content).err.Pass? <==> UserExists(db, userName) && content != []
  {
    NamedOnceIffExists(db.users, userName);
  }

  /** A follow is accepted exactly when its source exists and the edge does
      not; whether the target exists plays no part. */
  lemma AddFolloweeSucceedsIff(db: Db, source: Bytes, target: Bytes)
    requires Valid(db)
    ensures AddFollowee(db, source, target).err.Pass? <==> UserExists(db, source) && !Edge(db, source, target)
  {
    NamedOnceIffExists(db.users, source);
    BetweenOnceIffExists(db.follows, source, target);
  }

  /** Sign-in succeeds exactly when some user has this exact name and this
      exact password. */
  lemma SignInSucceedsIff(db: Db, name: Bytes, password: Bytes)
    requires Valid(db)
    ensures SignIn(db, name, password).Pass? <==> HasCredentials(db, name, password)
  {
    CredentialsOnceIffExists(db.users, name, password);
  }

  /** The inverted check: nil exactly when the source exists and does NOT
      follow the target; an error when it does follow it. */
  lemma CheckFollowingPassesIff(db: Db, source: Bytes, target: Bytes)
    requires Valid(db)
    ensures CheckFollowing(db, source, target).Pass? <==> UserExists(db, source) && !Edge(db, source, target)
    ensures UserExists(db, source) && Edge(db, source, target) ==> CheckFollowing(db, source, target).Fail?
  {
    NamedOnceIffExists(db.users, source);
    BetweenOnceIffExists(db.follows, source, target);
  }

  lemma DeleteTweetKeepsValid(db: Db, id: int, storeFails: bool)
    requires Valid(db)
    ensures Valid(DeleteTweet(db, id, storeFails).db)
  {
    TweetsWithoutIdKeepsOrder(db.tweets, id);
  }

  lemma DeleteFolloweeKeepsValid(db: Db, source: Bytes, target: Bytes, storeFails: bool)
    requires Valid(db)
    ensures Valid(DeleteFollowee(db, source, target, storeFails).db)
  {
    FollowsWithoutPairKeepsInvariants(db.follows, source, target);
  }

  /** Registering keeps names unique and ids fresh. */
  lemma AddUserKeepsValid(db: Db, name: Bytes, password: Bytes)
    requires Valid(db)
    ensures Valid(AddUser(db, name, password).db)
  {
    var r := AddUser(db, name, password);
    if r.err.Pass? {
      var us := r.db.users;
      forall i, j | 0 <= i < j < |us| ensures us[i].name != us[j].name && us[i].id < us[j].id {
        assert us[i] == db.users[i] && us[i] in db.users;
        if j < |db.users| { assert us[j] == db.users[j]; }
      }
    }
  }

  /** Posting keeps tweet ids fresh and increasing. */
  lemma AddTweetKeepsValid(db: Db, userName: Bytes, content: Bytes)
    requires Valid(db)
    ensures Valid(AddTweet(db, userName, content).db)
  {
    var r := AddTweet(db, userName, content);
    if r.err.Pass? {
      var ts := r.db.tweets;
      forall i, j | 0 <= i < j < |ts| ensures ts[i].id < ts[j].id {
        assert ts[i] == db.tweets[i] && ts[i] in db.tweets;
        if j < |db.tweets| { assert ts[j] == db.tweets[j]; }
      }
    }
  }

  /** Following keeps at most one row per (source, target) pair, because the
      duplicate check runs against a table that already has at most one. */
  lemma AddFolloweeKeepsValid(db: Db, source: Bytes, target: Bytes)
    requires Valid(db)
    ensures Valid(AddFollowee(db, source, target).db)
  {
    var r := AddFollowee(db, source, target);
    if r.err.Pass? {
      AddFolloweeSucceedsIff(db, source, target);
      var fs := r.db.follows;
      forall i, j | 0 <= i < j < |fs|
        ensures fs[i].id < fs[j].id
        ensures !(fs[i].sourceUser == fs[j].sourceUser && fs[i].targetUser == fs[j].targetUser)
      {
        assert fs[i] == db.follows[i] && fs[i] in db.follows;
        if j < |db.follows| { assert fs[j] == db.follows[j]; }
      }
    }
  }

  // ------------------------------------------------- operations in sequence

  /** A user who registered can sign in with the same name and password, and
      is listed among all users. */
  lemma RegisteredUserCanSignIn(db: Db, name: Bytes, password: Bytes)
    requires Valid(db)
    requires AddUser(db, name, password).err.Pass?
    ensures SignIn(AddUser(db, name, password).db, name, password) == Pass
    ensures User(db.nextUserId, name, password) in GetAllUsers(AddUser(db, name, password).db, false).value
  {
    var after := AddUser(db, name, password).db;
    AddUserKeepsValid(db, name, password);
    SignInSucceedsIff(after, name, password);
    assert User(db.nextUserId, name, password) in after.users;
  }

  /** Registering a taken name fails, whatever the password. */
  lemma RegisteringTwiceFails(db: Db, name: Bytes, password: Bytes, password': Bytes)
    requires AddUser(db, name, password).err.Pass?
    ensures AddUser(AddUser(db, name, password).db, name, password') == Step(AddUser(db, name, password).db, Fail(DuplicateName))
  {
    var after := AddUser(db, name, password).db;
    assert after.users[|after.users| - 1].name == name;
  }

  /** A posted tweet is listed among its author's tweets. */
  lemma PostedTweetIsListed(db: Db, userName: Bytes, content: Bytes)
    requires AddTweet(db, userName, content).err.Pass?
    ensures Tweet(db.nextTweetId, userName, content) in GetTweetsOfUser(AddTweet(db, userName, content).db, userName, false).value
  {
    var after := AddTweet(db, userName, content).db;
    assert after.tweets[|after.tweets| - 1] == Tweet(db.nextTweetId, userName, content);
  }

  /** After a follow succeeds, the same follow fails, and the (inverted)
      check reports an error. */
  lemma FollowingTwiceFails(db: Db, source: Bytes, target: Bytes)
    requires Valid(db)
    requires AddFollowee(db, source, target).err.Pass?
    ensures AddFollowee(AddFollowee(db, source, target).db, source, target).err == Fail(BadRequest)
    ensures CheckFollowing(AddFollowee(db, source, target).db, source, target) == Fail(BadRequest)
  {
    var after := AddFollowee(db, source, target).db;
    AddFolloweeKeepsValid(db, source, target);
    AddFolloweeSucceedsIff(db, source, target);
    assert after.follows[|after.follows| - 1] == Follows(db.nextFollowId, source, target);
    assert Edge(after, source, target);
    AddFolloweeSucceedsIff(after, source, target);
    CheckFollowingPassesIff(after, source, target);
  }

  /** The new edge is among the source's followees. */
  lemma FollowIsListed(db: Db, source: Bytes, target: Bytes)
    requires AddFollowee(db, source, target).err.Pass?
    ensures Follows(db.nextFollowId, source, target) in GetFolloweesOfUser(AddFollowee(db, source, target).db, source, false).value
  {
    var after := AddFollowee(db, source, target).db;
    assert after.follows[|after.follows| - 1] == Follows(db.nextFollowId, source, target);
  }

  /** Unfollowing twice is the same as unfollowing once. */
  lemma UnfollowIsIdempotent(db: Db, source: Bytes, target: Bytes)
    ensures var once := DeleteFollowee(db, source, target, false);
            DeleteFollowee(once.db, source, target, false) == once
  {
    var once := DeleteFollowee(db, source, target, false);
    FollowsWithoutAbsentPair(once.db.follows, source, target);
  }

  /** After unfollowing, the edge is gone: following again is accepted and
      the (inverted) check returns nil, provided the source exists. */
  lemma UnfollowRemovesEdge(db: Db, source: Bytes, target: Bytes)
    requires Valid(db)
    requires UserExists(db, source)
    ensures !Edge(DeleteFollowee(db, source, target, false).db, source, target)
    ensures CheckFollowing(DeleteFollowee(db, source, target, false).db, source, target) == Pass
    ensures AddFollowee(DeleteFollowee(db, source, target, false).db, source, target).err == Pass
  {
    var after := DeleteFollowee(db, source, target, false).db;
    DeleteFolloweeKeepsValid(db, source, target, false);
    CheckFollowingPassesIff(after, source, target);
    AddFolloweeSucceedsIff(after, source, target);
  }

  /** Deleting a tweet twice is the same as deleting it once, and deleting an
      absent id changes nothing. */
  lemma DeleteTweetIsIdempotent(db: Db, id: int)
    ensures var once := DeleteTweet(db, id, false);
            DeleteTweet(once.db, id, false) == once
    ensures (forall t :: t in db.tweets ==> t.id != id) ==> DeleteTweet(db, id, false) == Step(db, Pass)
  {
    var once := DeleteTweet(db, id, false);
    TweetsWithoutAbsentId(once.db.tweets, id);
    if forall t :: t in db.tweets ==> t.id != id {
      TweetsWithoutAbsentId(db.tweets, id);
    }
  }

  /** Names compare byte for byte: a user "abc" with password "password"
      does not sign in as "Abc". */
  lemma SignInIsCaseSensitive()
    ensures var abc: Bytes := [97, 98, 99];
            var capitalAbc: Bytes := [65, 98, 99];
            var password: Bytes := [112, 97, 115, 115, 119, 111, 114, 100];
            var db := AddUser(Empty(), abc, password).db;
            SignIn(db, abc, password) == Pass && SignIn(db, capitalAbc, password) == Fail(BadRequest)
  {
    var abc: Bytes := [97, 98, 99];
    var password: Bytes := [112, 97, 115, 115, 119, 111, 114, 100];
    RegisteredUserCanSignIn(Empty(), abc, password);
  }
}
