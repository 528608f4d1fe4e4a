/** The decision logic of the HTTP handlers (handlers/handler.go): the checks
    a handler makes before calling the service, and the status code it
    writes for the service's outcome. `Handler` wires these to a
    `UserService`; JSON bodies and header writes are not modelled. */
module Handlers {
  import opened Models
  import Store
  import Strconv
  import opened Services

  const StatusOK := 200
  const StatusFound := 302
  const StatusBadRequest := 400
  const StatusUnauthorized := 401
  const StatusNotFound := 404

  /** The registration check, counted in bytes as Go's `len` does. */
  predicate CredentialsLongEnough(name: Bytes, password: Bytes) {
    |name| >= 3 && |password| >= 3
  }

  /** The nil-or-not part of a `(value, error)` pair. */
  function ErrorOf<T>(r: Result<T>): (err: Outcome)
    ensures err.Pass? <==> r.Ok?
    ensures err.Fail? ==> err.error == r.error
  {
    match r
    case Ok(_) => Pass
    case Err(e) => Fail(e)
  }

  /** The mapping shared by AddUser, GetAllUsers, AddTweet, GetTweetsOfUser,
      GetFolloweesOfUser, AddFollowee, DeleteTweet and DeleteFollowee: 400 for
      any service error, 200 (written or implied) for nil. */
  function BadRequestOnError(err: Outcome): (status: int)
    ensures err.Pass? <==> status == StatusOK
    ensures err.Fail? <==> status == StatusBadRequest
  {
    if err.Fail? then StatusBadRequest else StatusOK
  }

  /** SignIn: 401 for any service error, 200 for nil. */
  function SignInStatus(err: Outcome): (status: int)
    ensures err.Pass? <==> status == StatusOK
    ensures err.Fail? <==> status == StatusUnauthorized
  {
    if err.Fail? then StatusUnauthorized else StatusOK
  }

  /** CheckFollowing: 302 Found for a service ERROR, 404 Not Found for nil. */
  function CheckFollowingStatus(err: Outcome): (status: int)
    ensures err.Fail? <==> status == StatusFound
    ensures err.Pass? <==> status == StatusNotFound
  {
    if err.Fail? then StatusFound else StatusNotFound
  }

  /** AddUser: 400 when the name or the password is shorter than 3 bytes,
      whatever the service would say; otherwise the shared mapping. */
  function AddUserStatus(name: Bytes, password: Bytes, err: Outcome): (status: int)
    ensures !CredentialsLongEnough(name, password) ==> status == StatusBadRequest
    ensures status == StatusOK <==> CredentialsLongEnough(name, password) && err.Pass?
    ensures status == StatusOK || status == StatusBadRequest
  {
    if !CredentialsLongEnough(name, password) then StatusBadRequest else BadRequestOnError(err)
  }

  /** DeleteTweet: 400 when `tweetid` does not parse as an `int`, whatever the
      service would say; otherwise the shared mapping. */
  function DeleteTweetStatus(tweetid: Bytes, err: Outcome): (status: int)
    ensures Strconv.Atoi(tweetid).None? ==> status == StatusBadRequest
    ensures status == StatusOK <==> Strconv.Atoi(tweetid).Some? && err.Pass?
    ensures status == StatusOK || status == StatusBadRequest
  {
    if Strconv.Atoi(tweetid).None? then StatusBadRequest else BadRequestOnError(err)
  }

  /** The handlers wired to a service: what status each request gets and
      what it does to the repository behind the service. */
  class Handler {
    const service: UserService

    constructor (service: UserService)
      ensures this.service == service
    {
      this.service := service;
    }

    method AddUser(name: Bytes, password: Bytes) returns (status: int)
      requires service.repository.Valid()
      modifies service.repository
      ensures service.repository.Valid()
      ensures !CredentialsLongEnough(name, password) ==> unchanged(service.repository)
      ensures CredentialsLongEnough(name, password) ==>
        service.repository.State() == Store.AddUser(old(service.repository.State()), name, password).db
      ensures status == AddUserStatus(name, password, Store.AddUser(old(service.repository.State()), name, password).err)
      ensures status == StatusOK <==>
        CredentialsLongEnough(name, password) && !Store.UserExists(old(service.repository.State()), name)
    {
      if !CredentialsLongEnough(name, password) {
        return StatusBadRequest;
      }
      var err := service.AddUser(name, password);
      status := AddUserStatus(name, password, err);
    }

    method SignIn(name: Bytes, password: Bytes) returns (status: int)
      requires service.repository.Valid()
      ensures status == SignInStatus(Store.SignIn(service.repository.State(), name, password))
      ensures status == StatusOK <==> Store.HasCredentials(service.repository.State(), name, password)
    {
      Store.SignInSucceedsIff(service.repository.State(), name, password);
      var err := service.SignIn(name, password);
      status := SignInStatus(err);
    }

    method GetAllUsers(storeFails: bool) returns (status: int)
      ensures status == StatusOK <==> !storeFails
      ensures status != StatusOK ==> status == StatusBadRequest
    {
      var users := service.GetAllUsers(storeFails);
      status := BadRequestOnError(ErrorOf(users));
    }

    method AddTweet(userName: Bytes, content: Bytes) returns (status: int)
      requires service.repository.Valid()
      modifies service.repository
      ensures service.repository.Valid()
      ensures service.repository.State() == Store.AddTweet(old(service.repository.State()), userName, content).db
      ensures status == StatusOK <==> Store.UserExists(old(service.repository.State()), userName) && content != []
      ensures status != StatusOK ==> status == StatusBadRequest
    {
      Store.AddTweetSucceedsIff(service.repository.State(), userName, content);
      var err := service.AddTweet(userName, content);
      status := BadRequestOnError(err);
    }

    method GetTweetsOfUser(userName: Bytes, storeFails: bool) returns (status: int)
      ensures status == StatusOK <==> !storeFails
      ensures status != StatusOK ==> status == StatusBadRequest
    {
      var tweets := service.GetTweetsOfUser(userName, storeFails);
      status := BadRequestOnError(ErrorOf(tweets));
    }

    method GetFolloweesOfUser(source: Bytes, storeFails: bool) returns (status: int)
      ensures status == StatusOK <==> !storeFails
      ensures status != StatusOK ==> status == StatusBadRequest
    {
      var followees := service.GetFolloweesOfUser(source, storeFails);
      status := BadRequestOnError(ErrorOf(followees));
    }

    method AddFollowee(source: Bytes, target: Bytes) returns (status: int)
      requires service.repository.Valid()
      modifies service.repository
      ensures service.repository.Valid()
      ensures service.repository.State() == Store.AddFollowee(old(service.repository.State()), source, target).db
      ensures status == StatusOK <==>
        Store.UserExists(old(service.repository.State()), source) && !Store.Edge(old(service.repository.State()), source, target)
      ensures status != StatusOK ==> status == StatusBadRequest
    {
      Store.AddFolloweeSucceedsIff(service.repository.State(), source, target);
      var err := service.AddFollowee(source, target);
      status := BadRequestOnError(err);
    }

    method DeleteTweet(tweetid: Bytes, storeFails: bool) returns (status: int)
      requires service.repository.Valid()
      modifies service.repository
      ensures service.repository.Valid()
      ensures Strconv.Atoi(tweetid).None? ==> status == StatusBadRequest && unchanged(service.repository)
      ensures Strconv.Atoi(tweetid).Some? ==>
        service.repository.State() == Store.DeleteTweet(old(service.repository.State()), Strconv.Atoi(tweetid).value, storeFails).db
      ensures status == StatusOK <==> Strconv.Atoi(tweetid).Some? && !storeFails
      ensures status != StatusOK ==> status == StatusBadRequest
    {
      var id := Strconv.Atoi(tweetid);
      if id.None? {
        return StatusBadRequest;
      }
      var err := service.DeleteTweet(id.value, storeFails);
      status := DeleteTweetStatus(tweetid, err);
    }

    method DeleteFollowee(source: Bytes, target: Bytes, storeFails: bool) returns (status: int)
      requires service.repository.Valid()
      modifies service.repository
      ensures service.repository.Valid()
      ensures service.repository.State() == Store.DeleteFollowee(old(service.repository.State()), source, target, storeFails).db
      ensures status == StatusOK <==> !storeFails
      ensures status != StatusOK ==> status == StatusBadRequest
    {
      var err := service.DeleteFollowee(source, target, storeFails);
      status := BadRequestOnError(err);
    }

    method CheckFollowing(source: Bytes, target: Bytes) returns (status: int)
      requires service.repository.Valid()
      ensures status == StatusNotFound <==>
        Store.UserExists(service.repository.State(), source) && !Store.Edge(service.repository.State(), source, target)
      ensures status != StatusNotFound ==> status == StatusFound
    {
      Store.CheckFollowingPassesIff(service.repository.State(), source, target);
      var err := service.CheckFollowing(source, target);
      status := CheckFollowingStatus(err);
    }
  }
}
