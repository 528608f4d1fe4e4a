/** The end-to-end follow scenario, driven through handler, service and
    repository over an empty database. */
module Scenarios {
  import opened Models
  import Store
  import Queries
  import opened Repositories
  import opened Services
  import opened Handlers

  const Alice: Bytes := [97, 108, 105, 99, 101]              // "alice"
  const Bob: Bytes := [98, 111, 98]                          // "bob"
  const Secret1: Bytes := [115, 101, 99, 114, 101, 116, 49]  // "secret1"
  const Secret2: Bytes := [115, 101, 99, 114, 101, 116, 50]  // "secret2"

  /** The database once alice and bob are registered. */
  function Registered(): Store.Db {
    Store.Db([User(1, Alice, Secret1), User(2, Bob, Secret2)], [], [], 3, 1, 1)
  }

  /** Register alice and bob, follow alice -> bob twice (the second is
      refused), check, list alice's followees, unfollow, check and list
      again. The inverted check answers 302 while alice follows bob and 404
      once she does not. */
  method FollowScenario() returns (statuses: seq<int>, listed: seq<Follows>, listedAfterUnfollow: seq<Follows>)
    ensures statuses == [StatusOK, StatusOK, StatusOK, StatusBadRequest, StatusFound, StatusOK, StatusNotFound]
    ensures listed == [Follows(1, Alice, Bob)]
    ensures listedAfterUnfollow == []
  {
    var repository := new MySQLRepository();
    var service := new UserService(repository);
    var handler := new Handler(service);
    var registering := Register(handler);
    var follow := Follow(handler);
    var following;
    following, listed := FollowAgain(handler);
    var unfollowing;
    unfollowing, listedAfterUnfollow := Unfollow(handler);
    statuses := registering + [follow] + following + unfollowing;
  }

  method Register(handler: Handler) returns (statuses: seq<int>)
    requires handler.service.repository.State() == Store.Empty()
    modifies handler.service.repository
    ensures handler.service.repository.State() == Registered()
    ensures statuses == [StatusOK, StatusOK]
  {
    var repository := handler.service.repository;
    var alice := handler.AddUser(Alice, Secret1);
    assert repository.users == [User(1, Alice, Secret1)];
    assert !Store.UserExists(repository.State(), Bob) by {
      assert |Alice| != |Bob|;
    }
    var bob := handler.AddUser(Bob, Secret2);
    statuses := [alice, bob];
  }

  /** The database once alice follows bob. */
  function Following(): Store.Db {
    Registered().(follows := [Follows(1, Alice, Bob)], nextFollowId := 2)
  }

  /** Both intermediate databases satisfy the store invariant. */
  lemma ScenarioStatesValid()
    ensures Store.Valid(Registered())
    ensures Store.Valid(Following())
  {
    assert Alice != Bob by { assert |Alice| != |Bob|; }
  }

  /** The first follow: alice exists, the edge does not, and the store gains it. */
  lemma FollowStep()
    ensures Store.UserExists(Registered(), Alice)
    ensures !Store.Edge(Registered(), Alice, Bob)
    ensures Store.AddFollowee(Registered(), Alice, Bob).db == Following()
  {
    assert Registered().users[0] in Registered().users;
  }

  /** The second follow: the edge is there, so it is refused and the database stays. */
  lemma FollowAgainStep()
    ensures Store.UserExists(Following(), Alice)
    ensures Store.Edge(Following(), Alice, Bob)
    ensures Store.AddFollowee(Following(), Alice, Bob).db == Following()
    ensures Queries.FollowsFrom(Following().follows, Alice) == [Follows(1, Alice, Bob)]
  {
    assert Following().users[0] in Following().users;
    assert Following().follows[0] in Following().follows;
    assert Following().follows[1..] == [];
  }

  method Follow(handler: Handler) returns (status: int)
    requires handler.service.repository.State() == Registered()
    modifies handler.service.repository
    ensures handler.service.repository.State() == Following()
    ensures status == StatusOK
  {
    ScenarioStatesValid();
    FollowStep();
    status := handler.AddFollowee(Alice, Bob);
  }

  method FollowAgain(handler: Handler) returns (statuses: seq<int>, listed: seq<Follows>)
    requires handler.service.repository.State() == Following()
    modifies handler.service.repository
    ensures handler.service.repository.State() == Following()
    ensures statuses == [StatusBadRequest, StatusFound]
    ensures listed == [Follows(1, Alice, Bob)]
  {
    ScenarioStatesValid();
    FollowAgainStep();
    var followAgain := handler.AddFollowee(Alice, Bob);
    var check := handler.CheckFollowing(Alice, Bob);
    listed := handler.service.GetFolloweesOfUser(Alice, false).value;
    statuses := [followAgain, check];
  }

  /** The unfollow empties the follows relation and keeps alice registered. */
  lemma UnfollowStep()
    ensures Store.DeleteFollowee(Following(), Alice, Bob, false).db == Registered().(nextFollowId := 2)
    ensures Store.UserExists(Registered().(nextFollowId := 2), Alice)
    ensures !Store.Edge(Registered().(nextFollowId := 2), Alice, Bob)
    ensures Queries.FollowsFrom(Registered().(nextFollowId := 2).follows, Alice) == []
  {
    assert Queries.FollowsWithoutPair(Following().follows, Alice, Bob) == [] by {
      assert Following().follows[1..] == [];
    }
    assert Registered().users[0] in Registered().users;
  }

  method Unfollow(handler: Handler) returns (statuses: seq<int>, listed: seq<Follows>)
    requires handler.service.repository.State() == Following()
    modifies handler.service.repository
    ensures handler.service.repository.State() == Registered().(nextFollowId := 2)
    ensures statuses == [StatusOK, StatusNotFound]
    ensures listed == []
  {
    ScenarioStatesValid();
    UnfollowStep();
    var unfollow := handler.DeleteFollowee(Alice, Bob, false);
    var check := handler.CheckFollowing(Alice, Bob);
    listed := handler.service.GetFolloweesOfUser(Alice, false).value;
    statuses := [unfollow, check];
  }
}
