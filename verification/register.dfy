/** The registration route: check that name, email and face data were sent,
    refuse an email that is already registered, otherwise store the new user
    and echo its identifier, name and email. */
module Register {
  import opened Results
  import opened FaceRecognition
  import opened Store

  /** The JSON body posted to the route; a field is `None` when absent. */
  datatype Request = Request(name: Option<string>, email: Option<string>, faceData: Option<Descriptor>)

  datatype Response =
    | FieldsRequired
    | EmailTaken
    | Registered(id: UserId, name: string, email: string)
  {
    /** The HTTP status the route answers with. */
    function Status(): int {
      if Registered? then 200 else 400
    }
  }

  /** The response together with the user store after the request. */
  datatype Reply = Reply(response: Response, users: seq<User>)

  /** A text field passes `!field` only when present and non-empty. */
  predicate Truthy(field: Option<string>) {
    field.Some? && field.value != ""
  }

  /** All three fields pass the route's test. The face data is an array,
      which is truthy even when empty, so only its absence fails. */
  predicate HasRequiredFields(req: Request) {
    Truthy(req.name) && Truthy(req.email) && req.faceData.Some?
  }

  /** The route's `POST` handler; `newId` is the identifier the database
      assigns to a created row. */
  function Handle(req: Request, users: seq<User>, newId: UserId): (r: Reply)
    ensures r.response.FieldsRequired? <==> !HasRequiredFields(req)
    ensures r.response.EmailTaken? <==> HasRequiredFields(req) && EmailRegistered(users, req.email.value)
    ensures !r.response.Registered? ==> r.users == users
    ensures r.response.Registered? ==>
              && r.users == users + [User(newId, req.name.value, req.email.value, req.faceData.value)]
              && r.response == Registered(newId, req.name.value, req.email.value)
  {
    if !HasRequiredFields(req) then Reply(FieldsRequired, users)
    else if exists i :: 0 <= i < |users| && users[i].email == req.email.value then Reply(EmailTaken, users)
    else
      var user := User(newId, req.name.value, req.email.value, req.faceData.value);
      Reply(Registered(user.id, user.name, user.email), users + [user])
  }

  /** Registration keeps emails unique. */
  lemma HandlePreservesUniqueEmails(req: Request, users: seq<User>, newId: UserId)
    requires EmailsUnique(users)
    ensures EmailsUnique(Handle(req, users, newId).users)
  {
  }

  /** With an identifier not yet in use, registration keeps identifiers
      unique. */
  lemma HandlePreservesUniqueIds(req: Request, users: seq<User>, newId: UserId)
    requires IdsUnique(users)
    requires forall i :: 0 <= i < |users| ==> users[i].id != newId
    ensures IdsUnique(Handle(req, users, newId).users)
  {
  }

  /** Registration never alters or removes a stored user, and a registered
      email is found afterwards. */
  lemma HandleOnlyAppends(req: Request, users: seq<User>, newId: UserId)
    ensures var r := Handle(req, users, newId);
            && |users| <= |r.users| <= |users| + 1
            && r.users[..|users|] == users
            && (r.response.Registered? ==> EmailRegistered(r.users, r.response.email))
  {
    var r := Handle(req, users, newId);
    if r.response.Registered? {
      assert r.users[|users|].email == r.response.email;
    }
  }
}
