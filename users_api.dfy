/** The request handler of backend/api/users.php: the store seeding, the
    preflight short-circuit and the GET, POST, DELETE and fallback branches
    of its `switch ($method)`, over an in-memory image of the JSON file. */
module UsersApi {
  import opened Wrappers
  import opened PhpText
  import opened Users

  const MissingFieldsMessage := "Name and email are required"
  const InvalidEmailMessage := "Invalid email format"
  const AddedMessage := "User added successfully"
  const InvalidIdMessage := "Valid user ID is required"
  const NotFoundMessage := "User not found"
  const DeletedMessage := "User deleted successfully"
  const NotAllowedMessage := "Method not allowed"

  /** The JSON envelope of a response. */
  datatype Body =
    | NoBody
    | UserList(users: seq<User>, count: int)
    | UserAdded(message: string, user: User)
    | Deleted(message: string)
    | Failure(message: string)
  {
    /** The envelope's `success` field. */
    predicate Success()
    {
      UserList? || UserAdded? || Deleted?
    }
  }

  datatype Response = Response(status: int, body: Body)

  /** The decoded POST body. A field is None when its key is missing or null,
      or when the body is not a JSON object at all. */
  datatype NewUserInput = NewUserInput(name: Option<string>, email: Option<string>)

  /** One request: the HTTP verb, the decoded body and the `id` query
      parameter, already parsed to an integer when present. */
  datatype Request = Request(verb: string, input: NewUserInput, id: Option<int>)

  /** The data file: missing, holding content whose JSON decoding is falsy
      (invalid JSON, `null`, `false`, `0`, `""` or `"0"`), or holding the
      records. A file holding `[]` is `Stored([])`; it reads as the empty
      store just like `Unreadable`, so no request can tell the two apart. */
  datatype StoreFile = Absent | Unreadable | Stored(users: seq<User>)

  /** `getUsers`: a file whose content decodes to a falsy value, or a
      missing file, reads as the empty store. */
  function Contents(file: StoreFile): seq<User>
  {
    if file.Stored? then file.users else []
  }

  /** The file after the start-up check that creates it with the two seed
      records when it is missing. */
  function Seeded(file: StoreFile): (seeded: StoreFile)
    ensures !seeded.Absent?
    ensures !file.Absent? ==> seeded == file
    ensures file.Absent? ==> WellFormed(Contents(seeded)) && Ids(Contents(seeded)) == [1, 2]
  {
    if file.Absent? then Stored(SeedUsers()) else file
  }

  /** The DELETE target: the `id` parameter, or 0 when it is absent. */
  function IdParam(id: Option<int>): (target: int)
    ensures target > 0 ==> id == Some(target)
    ensures id.None? ==> target <= 0
  {
    if id.Some? then id.value else 0
  }

  /** The POST body passes both checks: neither field is empty in the sense
      of PHP `empty`, and the untrimmed email passes the email filter. */
  predicate Accepted(input: NewUserInput, validEmail: string -> bool)
    ensures Accepted(input, validEmail) ==>
      input.name.Some? && input.email.Some? && input.name.value != [] && input.email.value != []
      && validEmail(input.email.value)
  {
    !PhpEmpty(input.name) && !PhpEmpty(input.email) && validEmail(input.email.value)
  }

  /** The record a successful POST appends to `users`. */
  function NewRecord(users: seq<User>, name: string, email: string): (u: User)
    ensures !HasId(users, u.id) && (PositiveIds(users) ==> u.id > 0)
    ensures HtmlUnescape(u.name) == Trim(name) && HtmlUnescape(u.email) == Trim(email)
    ensures forall k :: 0 <= k < |u.name| ==> !IsMarkup(u.name[k])
    ensures forall k :: 0 <= k < |u.email| ==> !IsMarkup(u.email[k])
  {
    EscapeRoundTrip(Trim(name));
    EscapeRoundTrip(Trim(email));
    User(NextId(users), HtmlEscape(Trim(name)), HtmlEscape(Trim(email)))
  }

  /** Ids are reused: once the record with the highest id is deleted, the
      next POST hands out that id again. */
  lemma IdReuse(users: seq<User>, name: string, email: string)
    ensures var u := NewRecord(users, name, email);
            NextId(Without(users + [u], u.id)) == u.id
  {
    WithoutAppended(users, NewRecord(users, name, email));
  }

  /** The emptiness check looks at the untrimmed name, so a name made only
      of trim characters passes validation and is stored as the empty
      string. */
  lemma BlankNameStoredEmpty(users: seq<User>, name: string, email: string, validEmail: string -> bool)
    requires name != [] && forall k :: 0 <= k < |name| ==> IsTrimChar(name[k])
    requires email != "" && email != "0" && validEmail(email)
    ensures Accepted(NewUserInput(Some(name), Some(email)), validEmail)
    ensures NewRecord(users, name, email).name == ""
  {
    assert IsTrimChar(name[0]) && !IsTrimChar('0');
  }

  /** The store as one request at a time sees it: the data file, read whole
      and written whole. */
  class UserStore {
    var file: StoreFile

    /** Whatever the file holds has positive, unique ids. */
    ghost predicate Valid()
      reads this
    {
      file.Stored? ==> WellFormed(file.users)
    }

    constructor (file: StoreFile)
      ensures this.file == file
    {
      this.file := file;
    }

    /** The records as `getUsers` returns them. */
    function Load(): seq<User>
      reads this
    {
      Contents(file)
    }

    /** `saveUsers`: replaces the whole file. */
    method Save(users: seq<User>)
      modifies this
      ensures file == Stored(users)
      ensures Load() == users
    {
      file := Stored(users);
    }

    /** Creates the file with the seed records when it is missing. */
    method EnsureSeeded()
      modifies this
      ensures file == Seeded(old(file))
      ensures old(Valid()) ==> Valid()
    {
      if file.Absent? {
        Save(SeedUsers());
      }
    }

    /** GET: the stored records and their number; nothing is written. */
    method List() returns (resp: Response)
      ensures resp == Response(200, UserList(Load(), |Load()|))
    {
      var users := Load();
      resp := Response(200, UserList(users, |users|));
    }

    /** POST: rejects an empty field or a malformed email with 400 before
      touching the store; otherwise appends one record under the next id,
      with trimmed and escaped name and email, saves, and answers 201. */
    method Create(input: NewUserInput, validEmail: string -> bool) returns (resp: Response)
      modifies this
      ensures PhpEmpty(input.name) || PhpEmpty(input.email) ==>
        resp == Response(400, Failure(MissingFieldsMessage)) && file == old(file)
      ensures !PhpEmpty(input.name) && !PhpEmpty(input.email) && !validEmail(input.email.value) ==>
        resp == Response(400, Failure(InvalidEmailMessage)) && file == old(file)
      ensures Accepted(input, validEmail) ==>
        var u := NewRecord(old(Load()), input.name.value, input.email.value);
        resp == Response(201, UserAdded(AddedMessage, u)) && file == Stored(old(Load()) + [u])
      ensures old(Valid()) ==> Valid()
    {
      if PhpEmpty(input.name) || PhpEmpty(input.email) {
        resp := Response(400, Failure(MissingFieldsMessage));
        return;
      }
      if !validEmail(input.email.value) {
        resp := Response(400, Failure(InvalidEmailMessage));
        return;
      }
      var users := Load();
      var newUser := User(NextId(users), HtmlEscape(Trim(input.name.value)), HtmlEscape(Trim(input.email.value)));
      if WellFormed(users) {
        AppendKeepsWellFormed(users, newUser.name, newUser.email);
      }
      users := users + [newUser];
      Save(users);
      resp := Response(201, UserAdded(AddedMessage, newUser));
    }

    /** DELETE: a missing or non-positive id is rejected with 400 before the
      store is read; an id no record has gives 404 and nothing is written;
      otherwise the records with that id are dropped, the rest saved in
      order, and the answer is 200. */
    method Delete(id: Option<int>) returns (resp: Response)
      modifies this
      ensures IdParam(id) <= 0 ==>
        resp == Response(400, Failure(InvalidIdMessage)) && file == old(file)
      ensures IdParam(id) > 0 && !HasId(old(Load()), IdParam(id)) ==>
        resp == Response(404, Failure(NotFoundMessage)) && file == old(file)
      ensures IdParam(id) > 0 && HasId(old(Load()), IdParam(id)) ==>
        resp == Response(200, Deleted(DeletedMessage)) && file == Stored(Without(old(Load()), IdParam(id)))
      ensures old(Valid()) ==> Valid()
    {
      var target := if id.Some? then id.value else 0;
      if target <= 0 {
        resp := Response(400, Failure(InvalidIdMessage));
        return;
      }
      var users := Load();
      var kept, found := FilterOut(users, target);
      if !found {
        resp := Response(404, Failure(NotFoundMessage));
        return;
      }
      if WellFormed(users) {
        WithoutKeepsWellFormed(users, target);
      }
      Save(kept);
      resp := Response(200, Deleted(DeletedMessage));
    }

    /** One request, end to end. A preflight answers 200 before the file is
      even checked; every other verb first seeds a missing file. A
      rejection (400, 404, 405) leaves the store as seeding left it; a
      created record is appended under an id above every existing one; a
      delete keeps the other records in order; the store invariant holds
      throughout. */
    method Handle(req: Request, validEmail: string -> bool) returns (resp: Response)
      modifies this
      ensures req.verb == "OPTIONS" ==> resp == Response(200, NoBody) && file == old(file)
      ensures req.verb != "OPTIONS" ==>
        var seeded := Seeded(old(file));
        var before := Contents(seeded);
        && (req.verb == "GET" ==> resp == Response(200, UserList(before, |before|)) && file == seeded)
        && (req.verb !in {"GET", "POST", "DELETE"} ==>
              resp == Response(405, Failure(NotAllowedMessage)) && file == seeded)
        && (req.verb == "POST" ==> (resp.status == 201 <==> Accepted(req.input, validEmail)))
        && (req.verb == "POST" && (PhpEmpty(req.input.name) || PhpEmpty(req.input.email)) ==>
              resp == Response(400, Failure(MissingFieldsMessage)))
        && (req.verb == "POST" && !PhpEmpty(req.input.name) && !PhpEmpty(req.input.email)
              && !validEmail(req.input.email.value) ==>
              resp == Response(400, Failure(InvalidEmailMessage)))
        && (req.verb == "DELETE" ==>
              (resp.status == 200 <==> IdParam(req.id) > 0 && HasId(before, IdParam(req.id))))
        && (req.verb == "DELETE" && IdParam(req.id) <= 0 ==>
              resp == Response(400, Failure(InvalidIdMessage)))
        && (req.verb == "DELETE" && IdParam(req.id) > 0 && !HasId(before, IdParam(req.id)) ==>
              resp == Response(404, Failure(NotFoundMessage)))
        && (req.verb == "DELETE" && resp.status == 200 ==> resp == Response(200, Deleted(DeletedMessage)))
        && (resp.status == 201 ==>
              && resp == Response(201, UserAdded(AddedMessage,
                           NewRecord(before, req.input.name.value, req.input.email.value)))
              && file == Stored(before + [resp.body.user]))
        && (req.verb == "DELETE" && resp.status == 200 ==>
              file == Stored(Without(before, IdParam(req.id))))
        && (!resp.body.Success() ==> resp.status >= 400 && file == seeded)
      ensures old(Valid()) ==> Valid()
    {
      if req.verb == "OPTIONS" {
        resp := Response(200, NoBody);
        return;
      }
      EnsureSeeded();
      if req.verb == "GET" {
        resp := List();
      } else if req.verb == "POST" {
        resp := Create(req.input, validEmail);
      } else if req.verb == "DELETE" {
        resp := Delete(req.id);
      } else {
        resp := Response(405, Failure(NotAllowedMessage));
      }
    }
  }

  /** Listing twice with nothing in between gives the same answer and writes
      nothing beyond the seeding. */
  method ListTwice(store: UserStore, validEmail: string -> bool) returns (first: Response, second: Response)
    modifies store
    ensures first == second && first.body.UserList?
    ensures first.body.users == Contents(Seeded(old(store.file)))
    ensures store.file == Seeded(old(store.file))
  {
    var get := Request("GET", NewUserInput(None, None), None);
    first := store.Handle(get, validEmail);
    second := store.Handle(get, validEmail);
  }

  /** From a missing file: the first request seeds ids 1 and 2, and a new
      user gets id 3. */
  method SeededCreateScenario(validEmail: string -> bool) returns (store: UserStore, created: Response)
    requires validEmail("alice@example.com")
    ensures fresh(store)
    ensures created.status == 201 && created.body.UserAdded? && created.body.user.id == 3
    ensures store.file == Stored(SeedUsers() + [created.body.user]) && store.Valid()
  {
    store := new UserStore(Absent);
    var post := Request("POST", NewUserInput(Some("Alice"), Some("alice@example.com")), None);
    assert Accepted(post.input, validEmail);
    created := store.Handle(post, validEmail);
  }

  /** Continuing from there (the file now exists, so the dispatcher goes
      straight to the branch): deleting id 2 answers 200 and the listing
      then holds ids 1 and 3. */
  method SeededStoreScenario(validEmail: string -> bool) returns (deleted: Response, ids: seq<int>)
    requires validEmail("alice@example.com")
    ensures deleted == Response(200, Deleted(DeletedMessage))
    ensures ids == [1, 3]
  {
    var store, created := SeededCreateScenario(validEmail);
    var three := store.file.users;
    assert three[1].id == 2 && three[1] in three;
    WithoutPresent(three, 2, 1);
    deleted := store.Delete(Some(2));
    var listed := store.List();
    ids := Ids(listed.body.users);
  }

  /** From an existing, empty store (the dispatcher goes straight to the
      branches): an invalid email and an empty name are refused with 400
      and change nothing; a valid user gets id 1 and the listing
      then counts one record. */
  method EmptyStoreScenario(validEmail: string -> bool) returns (refused: Response, missing: Response, created: Response, count: int)
    requires !validEmail("invalid-email") && validEmail("john@example.com")
    ensures refused == Response(400, Failure(InvalidEmailMessage))
    ensures missing == Response(400, Failure(MissingFieldsMessage))
    ensures created.status == 201 && created.body.UserAdded? && created.body.user.id == 1
    ensures count == 1
  {
    var store := new UserStore(Stored([]));
    refused := store.Create(NewUserInput(Some("Test User"), Some("invalid-email")), validEmail);
    missing := store.Create(NewUserInput(Some(""), Some("john@example.com")), validEmail);
    created := store.Create(NewUserInput(Some("John Doe"), Some("john@example.com")), validEmail);
    var listed := store.List();
    count := listed.body.count;
  }
}
