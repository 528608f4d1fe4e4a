/** `UserService` (services/userServices.go), against the error-returning
    contract of services/service_interface.go: every operation hands its
    arguments to the repository once and returns the repository's result
    unchanged. It holds nothing but its repository reference. */
module Services {
  import opened Models
  import Store
  import opened Repositories

  class UserService {
    const repository: MySQLRepository

    constructor (repository: MySQLRepository)
      ensures this.repository == repository
    {
      this.repository := repository;
    }

    method AddUser(name: Bytes, password: Bytes) returns (err: Outcome)
      requires repository.Valid()
      modifies repository
      ensures repository.Valid()
      ensures Store.AddUser(old(repository.State()), name, password) == Store.Step(repository.State(), err)
    {
      err := repository.AddUser(name, password);
    }

    function SignIn(name: Bytes, password: Bytes): (r: Outcome)
      reads repository
      ensures r == Store.SignIn(repository.State(), name, password)
    {
      repository.SignIn(name, password)
    }

    function GetAllUsers(storeFails: bool): (r: Result<seq<User>>)
      reads repository
      ensures r == Store.GetAllUsers(repository.State(), storeFails)
    {
      repository.GetAllUsers(storeFails)
    }

    method AddTweet(userName: Bytes, content: Bytes) returns (err: Outcome)
      requires repository.Valid()
      modifies repository
      ensures repository.Valid()
      ensures Store.AddTweet(old(repository.State()), userName, content) == Store.Step(repository.State(), err)
    {
      err := repository.AddTweet(userName, content);
    }

    function GetTweetsOfUser(userName: Bytes, storeFails: bool): (r: Result<seq<Tweet>>)
      reads repository
      ensures r == Store.GetTweetsOfUser(repository.State(), userName, storeFails)
    {
      repository.GetTweetsOfUser(userName, storeFails)
    }

    function GetFolloweesOfUser(source: Bytes, storeFails: bool): (r: Result<seq<Follows>>)
      reads repository
      ensures r == Store.GetFolloweesOfUser(repository.State(), source, storeFails)
    {
      repository.GetFolloweesOfUser(source, storeFails)
    }

    method AddFollowee(source: Bytes, target: Bytes) returns (err: Outcome)
      requires repository.Valid()
      modifies repository
      ensures repository.Valid()
      ensures Store.AddFollowee(old(repository.State()), source, target) == Store.Step(repository.State(), err)
    {
      err := repository.AddFollowee(source, target);
    }

    method DeleteTweet(id: int, storeFails: bool) returns (err: Outcome)
      requires repository.Valid()
      modifies repository
      ensures repository.Valid()
      ensures Store.DeleteTweet(old(repository.State()), id, storeFails) == Store.Step(repository.State(), err)
    {
      err := repository.DeleteTweet(id, storeFails);
    }

    method DeleteFollowee(source: Bytes, target: Bytes, storeFails: bool) returns (err: Outcome)
      requires repository.Valid()
      modifies repository
      ensures repository.Valid()
      ensures Store.DeleteFollowee(old(repository.State()), source, target, storeFails) == Store.Step(repository.State(), err)
    {
      err := repository.DeleteFollowee(source, target, storeFails);
    }

    function CheckFollowing(source: Bytes, target: Bytes): (r: Outcome)
      reads repository
      ensures r == Store.CheckFollowing(repository.State(), source, target)
    {
      repository.CheckFollowing(source, target)
    }
  }
}
