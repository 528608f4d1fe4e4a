/** `MySQLRepository` (repositories/mysql_repository.go): the store as an
    object whose tables the writing operations change in place. Each
    operation looks rows up, checks how many it found and then writes or
    not; every one is tied to its counterpart in the Store module. */
module Repositories {
  import opened Models
  import opened Queries
  import Store

  class MySQLRepository {
    var users: seq<User>
    var tweets: seq<Tweet>
    var follows: seq<Follows>
    var nextUserId: nat
    var nextTweetId: nat
    var nextFollowId: nat

    /** The database this object currently holds. */
    function State(): Store.Db
      reads this
    {
      Store.Db(users, tweets, follows, nextUserId, nextTweetId, nextFollowId)
    }

    predicate Valid()
      reads this
    {
      Store.Valid(State())
    }

    /** A repository over a freshly migrated, empty database. */
    constructor ()
      ensures Valid() && State() == Store.Empty()
    {
      users, tweets, follows := [], [], [];
      nextUserId, nextTweetId, nextFollowId := 1, 1, 1;
    }

    method AddUser(name: Bytes, password: Bytes) returns (err: Outcome)
      requires Valid()
      modifies this
      ensures Valid()
      ensures Store.AddUser(old(State()), name, password) == Store.Step(State(), err)
    {
      Store.AddUserKeepsValid(State(), name, password);
      var taken := UsersNamed(users, name);
      if taken != [] {
        return Fail(DuplicateName);
      }
      users := users + [User(nextUserId, name, password)];
      nextUserId := nextUserId + 1;
      err := Pass;
    }

    function SignIn(name: Bytes, password: Bytes): Outcome
      reads this
    {
      Store.SignIn(State(), name, password)
    }

    function GetAllUsers(storeFails: bool): Result<seq<User>>
      reads this
    {
      Store.GetAllUsers(State(), storeFails)
    }

    method AddTweet(userName: Bytes, content: Bytes) returns (err: Outcome)
      requires Valid()
      modifies this
      ensures Valid()
      ensures Store.AddTweet(old(State()), userName, content) == Store.Step(State(), err)
    {
      Store.AddTweetKeepsValid(State(), userName, content);
      var rows := |UsersNamed(users, userName)|;
      if rows != 1 {
        return Fail(BadRequest);
      }
      if |content| < 1 {
        return Fail(BadRequest);
      }
      tweets := tweets + [Tweet(nextTweetId, userName, content)];
      nextTweetId := nextTweetId + 1;
      err := Pass;
    }

    function GetTweetsOfUser(userName: Bytes, storeFails: bool): Result<seq<Tweet>>
      reads this
    {
      Store.GetTweetsOfUser(State(), userName, storeFails)
    }

    function GetFolloweesOfUser(source: Bytes, storeFails: bool): Result<seq<Follows>>
      reads this
    {
      Store.GetFolloweesOfUser(State(), source, storeFails)
    }

    method AddFollowee(source: Bytes, target: Bytes) returns (err: Outcome)
      requires Valid()
      modifies this
      ensures Valid()
      ensures Store.AddFollowee(old(State()), source, target) == Store.Step(State(), err)
    {
      Store.AddFolloweeKeepsValid(State(), source, target);
      var rows := |UsersNamed(users, source)|;
      if rows != 1 {
        return Fail(BadRequest);
      }
      rows := |FollowsBetween(follows, source, target)|;
      if rows == 1 {
        return Fail(BadRequest);
      }
      follows := follows + [Follows(nextFollowId, source, target)];
      nextFollowId := nextFollowId + 1;
      err := Pass;
    }

    method DeleteTweet(id: int, storeFails: bool) returns (err: Outcome)
      requires Valid()
      modifies this
      ensures Valid()
      ensures Store.DeleteTweet(old(State()), id, storeFails) == Store.Step(State(), err)
    {
      Store.DeleteTweetKeepsValid(State(), id, storeFails);
      if storeFails {
        return Fail(StoreFailure);
      }
      tweets := TweetsWithoutId(tweets, id);
      err := Pass;
    }

    method DeleteFollowee(source: Bytes, target: Bytes, storeFails: bool) returns (err: Outcome)
      requires Valid()
      modifies this
      ensures Valid()
      ensures Store.DeleteFollowee(old(State()), source, target, storeFails) == Store.Step(State(), err)
    {
      Store.DeleteFolloweeKeepsValid(State(), source, target, storeFails);
      if storeFails {
        return Fail(StoreFailure);
      }
      follows := FollowsWithoutPair(follows, source, target);
      err := Pass;
    }

    function CheckFollowing(source: Bytes, target: Bytes): Outcome
      reads this
    {
      Store.CheckFollowing(State(), source, target)
    }
  }
}
