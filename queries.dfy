/** The `WHERE` clauses the repository sends to the store, as filters over a
    table kept in primary-key order, and the table invariants the store keeps.
    The number of rows a query returns (`RowsAffected`) is the length of the
    filtered sequence. */
module Queries {
  import opened Models

  // ---------------------------------------------------------------- queries

  /** `WHERE BINARY name = ?` on users. */
  function UsersNamed(users: seq<User>, name: Bytes): (r: seq<User>)
    ensures forall u :: u in r <==> u in users && u.name == name
    ensures r == [] <==> forall u :: u in users ==> u.name != name
  {
    if users == [] then []
    else
      assert users == [users[0]] + users[1..];
      (if users[0].name == name then [users[0]] else []) + UsersNamed(users[1..], name)
  }

  /** `WHERE BINARY name = ? and password = ?` on users. `BINARY` applies to
      `name` only; `password` is compared byte for byte here too. */
  function UsersWithCredentials(users: seq<User>, name: Bytes, password: Bytes): (r: seq<User>)
    ensures forall u :: u in r <==> u in users && u.name == name && u.password == password
  {
    if users == [] then []
    else
      assert users == [users[0]] + users[1..];
      (if users[0].name == name && users[0].password == password then [users[0]] else [])
      + UsersWithCredentials(users[1..], name, password)
  }

  /** `WHERE BINARY user_name = ?` on tweets. */
  function TweetsBy(tweets: seq<Tweet>, userName: Bytes): (r: seq<Tweet>)
    ensures forall t :: t in r <==> t in tweets && t.userName == userName
  {
    if tweets == [] then []
    else
      assert tweets == [tweets[0]] + tweets[1..];
      (if tweets[0].userName == userName then [tweets[0]] else []) + TweetsBy(tweets[1..], userName)
  }

  /** `WHERE BINARY source_user = ?` on follows. */
  function FollowsFrom(follows: seq<Follows>, source: Bytes): (r: seq<Follows>)
    ensures forall f :: f in r <==> f in follows && f.sourceUser == source
  {
    if follows == [] then []
    else
      assert follows == [follows[0]] + follows[1..];
      (if follows[0].sourceUser == source then [follows[0]] else []) + FollowsFrom(follows[1..], source)
  }

  /** `WHERE BINARY source_user = ? and target_user = ?` on follows. `BINARY`
      applies to `source_user` only; `target_user` is compared byte for byte
      here too. */
  function FollowsBetween(follows: seq<Follows>, source: Bytes, target: Bytes): (r: seq<Follows>)
    ensures forall f :: f in r <==> f in follows && f.sourceUser == source && f.targetUser == target
    ensures r == [] <==> forall f :: f in follows ==> !(f.sourceUser == source && f.targetUser == target)
  {
    if follows == [] then []
    else
      assert follows == [follows[0]] + follows[1..];
      (if follows[0].sourceUser == source && follows[0].targetUser == target then [follows[0]] else [])
      + FollowsBetween(follows[1..], source, target)
  }

  /** The tweets left after deleting by primary key `id`. */
  function TweetsWithoutId(tweets: seq<Tweet>, id: int): (r: seq<Tweet>)
    ensures forall t :: t in r <==> t in tweets && t.id != id
  {
    if tweets == [] then []
    else
      assert tweets == [tweets[0]] + tweets[1..];
      (if tweets[0].id != id then [tweets[0]] else []) + TweetsWithoutId(tweets[1..], id)
  }

  /** The follows left after deleting every row matching
      `BINARY source_user = ? and target_user = ?` (with `target_user`
      compared byte for byte, as in `FollowsBetween`). */
  function FollowsWithoutPair(follows: seq<Follows>, source: Bytes, target: Bytes): (r: seq<Follows>)
    ensures forall f :: f in r <==> f in follows && !(f.sourceUser == source && f.targetUser == target)
  {
    if follows == [] then []
    else
      assert follows == [follows[0]] + follows[1..];
      (if !(follows[0].sourceUser == source && follows[0].targetUser == target) then [follows[0]] else [])
      + FollowsWithoutPair(follows[1..], source, target)
  }

  // ------------------------------------------------------------- invariants

  /** The unique constraint on users.name. */
  predicate UniqueNames(users: seq<User>) {
    forall i, j :: 0 <= i < j < |users| ==> users[i].name != users[j].name
  }

  /** At most one follows row per (source, target) pair. */
  predicate UniquePairs(follows: seq<Follows>) {
    forall i, j :: 0 <= i < j < |follows| ==>
      !(follows[i].sourceUser == follows[j].sourceUser && follows[i].targetUser == follows[j].targetUser)
  }

  /** Auto-increment primary keys: rows appear in increasing id order. */
  predicate UserIdsIncreasing(users: seq<User>) {
    forall i, j :: 0 <= i < j < |users| ==> users[i].id < users[j].id
  }

  predicate TweetIdsIncreasing(tweets: seq<Tweet>) {
    forall i, j :: 0 <= i < j < |tweets| ==> tweets[i].id < tweets[j].id
  }

  predicate FollowIdsIncreasing(follows: seq<Follows>) {
    forall i, j :: 0 <= i < j < |follows| ==> follows[i].id < follows[j].id
  }

  // ----------------------------------------------------------------- lemmas

  /** Under the unique constraint a name selects at most one row. */
  lemma {:induction false} UsersNamedAtMostOne(users: seq<User>, name: Bytes)
    requires UniqueNames(users)
    ensures |UsersNamed(users, name)| <= 1
  {
    if users != [] {
      var rest := users[1..];
      assert UniqueNames(rest) by {
        forall i, j | 0 <= i < j < |rest| ensures rest[i].name != rest[j].name {
          assert rest[i] == users[i + 1] && rest[j] == users[j + 1];
        }
      }
      UsersNamedAtMostOne(rest, name);
      if users[0].name == name {
        forall u | u in rest ensures u.name != name {
          var k :| 0 <= k < |rest| && rest[k] == u;
          assert users[k + 1] == u;
        }
      }
    }
  }

  /** Under the unique constraint, a name query returns exactly one row iff a
      user with that name exists. */
  lemma NamedOnceIffExists(users: seq<User>, name: Bytes)
    requires UniqueNames(users)
    ensures |UsersNamed(users, name)| == 1 <==> exists u :: u in users && u.name == name
  {
    UsersNamedAtMostOne(users, name);
    var r := UsersNamed(users, name);
    if exists u :: u in users && u.name == name {
      var u :| u in users && u.name == name;
      assert u in r;
    }
  }

  /** The credential query returns no more rows than the name query. */
  lemma {:induction false} CredentialsWithinName(users: seq<User>, name: Bytes, password: Bytes)
    ensures |UsersWithCredentials(users, name, password)| <= |UsersNamed(users, name)|
  {
    if users != [] {
      CredentialsWithinName(users[1..], name, password);
    }
  }

  /** Under the unique constraint, the credential query returns exactly one
      row iff some user has exactly that name and that password. */
  lemma CredentialsOnceIffExists(users: seq<User>, name: Bytes, password: Bytes)
    requires UniqueNames(users)
    ensures |UsersWithCredentials(users, name, password)| == 1
       <==> exists u :: u in users && u.name == name && u.password == password
  {
    CredentialsWithinName(users, name, password);
    UsersNamedAtMostOne(users, name);
    var r := UsersWithCredentials(users, name, password);
    if exists u :: u in users && u.name == name && u.password == password {
      var u :| u in users && u.name == name && u.password == password;
      assert u in r;
    }
  }

  /** With unique pairs, a (source, target) query returns at most one row. */
  lemma {:induction false} FollowsBetweenAtMostOne(follows: seq<Follows>, source: Bytes, target: Bytes)
    requires UniquePairs(follows)
    ensures |FollowsBetween(follows, source, target)| <= 1
  {
    if follows != [] {
      var rest := follows[1..];
      assert UniquePairs(rest) by {
        forall i, j | 0 <= i < j < |rest|
          ensures !(rest[i].sourceUser == rest[j].sourceUser && rest[i].targetUser == rest[j].targetUser)
        {
          assert rest[i] == follows[i + 1] && rest[j] == follows[j + 1];
        }
      }
      FollowsBetweenAtMostOne(rest, source, target);
      if follows[0].sourceUser == source && follows[0].targetUser == target {
        forall f | f in rest ensures !(f.sourceUser == source && f.targetUser == target) {
          var k :| 0 <= k < |rest| && rest[k] == f;
          assert follows[k + 1] == f;
        }
      }
    }
  }

  /** With unique pairs, a (source, target) query returns exactly one row iff
      that edge exists. */
  lemma BetweenOnceIffExists(follows: seq<Follows>, source: Bytes, target: Bytes)
    requires UniquePairs(follows)
    ensures |FollowsBetween(follows, source, target)| == 1
       <==> exists f :: f in follows && f.sourceUser == source && f.targetUser == target
  {
    FollowsBetweenAtMostOne(follows, source, target);
    var r := FollowsBetween(follows, source, target);
    if exists f :: f in follows && f.sourceUser == source && f.targetUser == target {
      var f :| f in follows && f.sourceUser == source && f.targetUser == target;
      assert f in r;
    }
  }

  /** A tweet whose id is below every id of an ordered table can go in front. */
  lemma PrependKeepsTweetOrder(x: Tweet, s: seq<Tweet>)
    requires TweetIdsIncreasing(s) && forall t :: t in s ==> x.id < t.id
    ensures TweetIdsIncreasing([x] + s)
  {
    var r := [x] + s;
    forall i, j | 0 <= i < j < |r| ensures r[i].id < r[j].id {
      assert r[j] == s[j - 1];
      if i > 0 { assert r[i] == s[i - 1]; }
    }
  }

  /** A follows row whose id is below every id of an ordered table, and whose
      pair no row carries, can go in front. */
  lemma PrependKeepsFollowInvariants(x: Follows, s: seq<Follows>)
    requires FollowIdsIncreasing(s) && UniquePairs(s)
    requires forall f :: f in s ==> x.id < f.id && !(x.sourceUser == f.sourceUser && x.targetUser == f.targetUser)
    ensures FollowIdsIncreasing([x] + s) && UniquePairs([x] + s)
  {
    var r := [x] + s;
    forall i, j | 0 <= i < j < |r|
      ensures r[i].id < r[j].id
      ensures !(r[i].sourceUser == r[j].sourceUser && r[i].targetUser == r[j].targetUser)
    {
      assert r[j] == s[j - 1];
      if i > 0 { assert r[i] == s[i - 1]; }
    }
  }

  /** Deleting by id keeps the remaining tweets in id order. */
  lemma {:induction false} TweetsWithoutIdKeepsOrder(tweets: seq<Tweet>, id: int)
    requires TweetIdsIncreasing(tweets)
    ensures TweetIdsIncreasing(TweetsWithoutId(tweets, id))
  {
    if tweets != [] {
      var rest := tweets[1..];
      assert TweetIdsIncreasing(rest) by {
        forall i, j | 0 <= i < j < |rest| ensures rest[i].id < rest[j].id {
          assert rest[i] == tweets[i + 1] && rest[j] == tweets[j + 1];
        }
      }
      TweetsWithoutIdKeepsOrder(rest, id);
      var tail := TweetsWithoutId(rest, id);
      if tweets[0].id != id {
        forall t | t in tail ensures tweets[0].id < t.id {
          var k :| 0 <= k < |rest| && rest[k] == t;
          assert tweets[k + 1] == t;
        }
        PrependKeepsTweetOrder(tweets[0], tail);
      }
    }
  }

  /** Deleting matching follows keeps the rest in id order and keeps pairs unique. */
  lemma {:induction false} FollowsWithoutPairKeepsInvariants(follows: seq<Follows>, source: Bytes, target: Bytes)
    requires FollowIdsIncreasing(follows) && UniquePairs(follows)
    ensures FollowIdsIncreasing(FollowsWithoutPair(follows, source, target))
    ensures UniquePairs(FollowsWithoutPair(follows, source, target))
  {
    if follows != [] {
      var rest := follows[1..];
      assert FollowIdsIncreasing(rest) && UniquePairs(rest) by {
        forall i, j | 0 <= i < j < |rest|
          ensures rest[i].id < rest[j].id
          ensures !(rest[i].sourceUser == rest[j].sourceUser && rest[i].targetUser == rest[j].targetUser)
        {
          assert rest[i] == follows[i + 1] && rest[j] == follows[j + 1];
        }
      }
      FollowsWithoutPairKeepsInvariants(rest, source, target);
      var tail := FollowsWithoutPair(rest, source, target);
      var head := follows[0];
      if !(head.sourceUser == source && head.targetUser == target) {
        forall f | f in tail
          ensures head.id < f.id && !(head.sourceUser == f.sourceUser && head.targetUser == f.targetUser)
        {
          var k :| 0 <= k < |rest| && rest[k] == f;
          assert follows[k + 1] == f;
        }
        PrependKeepsFollowInvariants(head, tail);
      }
    }
  }

  /** Deleting an id that no tweet carries leaves the table as it is. */
  lemma {:induction false} TweetsWithoutAbsentId(tweets: seq<Tweet>, id: int)
    requires forall t :: t in tweets ==> t.id != id
    ensures TweetsWithoutId(tweets, id) == tweets
  {
    if tweets != [] {
      assert tweets == [tweets[0]] + tweets[1..];
      TweetsWithoutAbsentId(tweets[1..], id);
    }
  }

  /** Deleting a pair that no follows row carries leaves the table as it is. */
  lemma {:induction false} FollowsWithoutAbsentPair(follows: seq<Follows>, source: Bytes, target: Bytes)
    requires forall f :: f in follows ==> !(f.sourceUser == source && f.targetUser == target)
    ensures FollowsWithoutPair(follows, source, target) == follows
  {
    if follows != [] {
      assert follows == [follows[0]] + follows[1..];
      FollowsWithoutAbsentPair(follows[1..], source, target);
    }
  }
}
