/**
 * The notes service of main.go: the two package-level tables and the
 * handlers that read and change them. Each Go function that touches a table
 * holds that table's mutex for its whole body, so every method here runs as
 * one atomic step.
 */
module Service {
  import opened Types
  import opened Digits
  import UserTable
  import NoteTable

  /** What a handler answers; the HTTP status is given beside each. */
  datatype Outcome =
    | SignedUp                  // 200, registration confirmed
    | LoggedIn(sid: string)     // 200, carries the session identifier
    | Listed(notes: seq<Note>)  // 200, carries every stored note
    | NoteCreated(id: uint32)   // 200, carries the new note's ID
    | NoteDeleted               // 200, deletion confirmed
    | MalformedRequest          // 400, the JSON body did not decode
    | AlreadyRegistered         // 400, the e-mail is taken
    | Unauthorized              // 401, unknown e-mail or wrong password
    | MissingSession            // 400, empty or absent sid
    | NotFound(id: uint32)      // 400, no note with that ID

  class NoteService {
    /** `users` in main.go: e-mail to account. */
    var users: map<string, User>
    /** `notes` in main.go: note ID to note. */
    var notes: map<uint32, Note>
    /** The e-mails in the order they signed up (specification only). */
    ghost var signupOrder: seq<string>

    ghost predicate Valid()
      reads this
    {
      UserTable.Registered(users, signupOrder) && NoteTable.KeysMatchIds(notes)
    }

    /** Both tables start empty, as `make(map...)` creates them. */
    constructor ()
      ensures Valid()
      ensures users == map[] && notes == map[]
    {
      users := map[];
      notes := map[];
      signupOrder := [];
    }

    /**
     * handleSignup: a body that does not decode is refused, a registered
     * e-mail is refused, otherwise the account is stored under its e-mail
     * with ID `len(users) + 1` (as uint32), whatever ID the client sent.
     */
    method HandleSignup(body: Body<User>) returns (outcome: Outcome)
      requires Valid()
      modifies this
      ensures Valid()
      ensures notes == old(notes)
      ensures body.Malformed? ==> outcome == MalformedRequest && users == old(users)
      ensures body.Parsed? && body.value.email in old(users) ==>
        outcome == AlreadyRegistered && users == old(users)
      ensures body.Parsed? && body.value.email !in old(users) ==>
        outcome == SignedUp && users == UserTable.Signup(old(users), body.value).value
    {
      if body.Malformed? {
        return MalformedRequest;
      }
      var user := body.value;
      if user.email in users {
        return AlreadyRegistered;
      }
      UserTable.SignupKeepsRegistered(users, signupOrder, user);
      ghost var registered := UserTable.Signup(users, user).value;
      user := user.(id := ToU32(|users| + 1));
      users := users[user.email := user];
      assert users == registered;
      signupOrder := signupOrder + [user.email];
      outcome := SignedUp;
    }

    /**
     * handleLogin: succeeds exactly when the e-mail is registered and the
     * stored password is the one given; the session identifier is then the
     * account's ID in decimal. Reads the user table only.
     */
    method HandleLogin(body: Body<LoginRequest>) returns (outcome: Outcome)
      ensures body.Parsed? ==>
        var session := UserTable.Login(users, body.value.email, body.value.password);
        && (outcome.LoggedIn? <==> session.Some?)
        && (outcome.LoggedIn? ==> outcome.sid == session.value)
      ensures outcome.LoggedIn? <==>
        body.Parsed? && body.value.email in users && users[body.value.email].password == body.value.password
      ensures outcome.LoggedIn? ==> outcome.sid == Decimal(users[body.value.email].id as nat)
      ensures !outcome.LoggedIn? ==> outcome == if body.Malformed? then MalformedRequest else Unauthorized
    {
      if body.Malformed? {
        return MalformedRequest;
      }
      var session := UserTable.Login(users, body.value.email, body.value.password);
      if session.None? {
        return Unauthorized;
      }
      outcome := LoggedIn(session.value);
    }

    /**
     * getAllNotes: copies every stored note into a fresh sequence, one
     * element per key, in whatever order the map is walked.
     */
    method GetAllNotes() returns (result: seq<Note>)
      ensures multiset(result) == NoteTable.ValuesBag(notes)
      ensures |result| == |notes|
    {
      result := [];
      var rest := notes;
      while rest != map[]
        invariant multiset(result) + NoteTable.ValuesBag(rest) == NoteTable.ValuesBag(notes)
        invariant |result| + |rest| == |notes|
        decreases |rest|
      {
        var id :| id in rest;
        NoteTable.ValuesBagRemove(rest, id);
        NoteTable.RemoveShrinks(rest, id);
        result := result + [rest[id]];
        rest := rest - {id};
      }
    }

    /**
     * handleListNotes: an empty `sid` is refused whatever is stored; any
     * other `sid` (it is never checked) lists every stored note.
     */
    method HandleListNotes(sid: string) returns (outcome: Outcome)
      ensures sid == "" ==> outcome == MissingSession
      ensures sid != "" ==> outcome.Listed? && multiset(outcome.notes) == NoteTable.ValuesBag(notes)
    {
      if sid == "" {
        return MissingSession;
      }
      var all := GetAllNotes();
      outcome := Listed(all);
    }

    /**
     * createNote: stores the text under ID `len(notes) + 1` (as uint32) and
     * returns that ID, overwriting any note already stored there.
     */
    method CreateNote(text: string) returns (id: uint32)
      requires Valid()
      modifies this
      ensures Valid()
      ensures users == old(users) && signupOrder == old(signupOrder)
      ensures NoteTable.Create(old(notes), text) == NoteTable.Created(notes, id)
    {
      id := ToU32(|notes| + 1);
      notes := notes[id := Note(id, text)];
    }

    /** deleteNote: reports an absent ID, otherwise removes that note. */
    method DeleteNote(id: uint32) returns (found: bool)
      requires Valid()
      modifies this
      ensures Valid()
      ensures users == old(users) && signupOrder == old(signupOrder)
      ensures found <==> id in old(notes)
      ensures found ==> notes == NoteTable.Delete(old(notes), id).value
      ensures !found ==> notes == old(notes)
    {
      if id !in notes {
        return false;
      }
      notes := notes - {id};
      found := true;
    }

    /**
     * handleCreateNote: a body that does not decode is refused; otherwise
     * the note is created. The `sid` in the body is never looked at.
     */
    method HandleCreateNote(body: Body<CreateNoteRequest>) returns (outcome: Outcome)
      requires Valid()
      modifies this
      ensures Valid()
      ensures users == old(users)
      ensures body.Malformed? ==> outcome == MalformedRequest && notes == old(notes)
      ensures body.Parsed? ==>
        var created := NoteTable.Create(old(notes), body.value.note);
        outcome == NoteCreated(created.id) && notes == created.notes
    {
      if body.Malformed? {
        return MalformedRequest;
      }
      var id := CreateNote(body.value.note);
      outcome := NoteCreated(id);
    }

    /**
     * handleDeleteNote: a body that does not decode is refused, an absent ID
     * is reported as not found, otherwise the note is removed. The `sid` in
     * the body is never looked at.
     */
    method HandleDeleteNote(body: Body<DeleteNoteRequest>) returns (outcome: Outcome)
      requires Valid()
      modifies this
      ensures Valid()
      ensures users == old(users)
      ensures body.Malformed? ==> outcome == MalformedRequest && notes == old(notes)
      ensures body.Parsed? && body.value.id !in old(notes) ==>
        outcome == NotFound(body.value.id) && notes == old(notes)
      ensures body.Parsed? && body.value.id in old(notes) ==>
        outcome == NoteDeleted && notes == NoteTable.Delete(old(notes), body.value.id).value
    {
      if body.Malformed? {
        return MalformedRequest;
      }
      var found := DeleteNote(body.value.id);
      if !found {
        return NotFound(body.value.id);
      }
      outcome := NoteDeleted;
    }
  }

  lemma OnlyElement(s: seq<Note>, n: Note)
    requires multiset(s) == multiset{n}
    ensures s == [n]
  {
    assert |s| == |multiset(s)| == 1;
    assert s[0] in multiset(s);
  }

  /**
   * A session against a fresh service, using only the handlers' contracts:
   * sign up, sign up again with the same e-mail, log in with the right and
   * with a wrong password.
   */
  method AccountScenario() {
    var service := new NoteService();
    var alice := User(7, "A", "a@x.com", "p");
    var outcome := service.HandleSignup(Parsed(alice));
    assert outcome == SignedUp;
    assert service.users == map["a@x.com" := alice.(id := 1)];
    outcome := service.HandleSignup(Parsed(alice));
    assert outcome == AlreadyRegistered;
    outcome := service.HandleLogin(Parsed(LoginRequest("a@x.com", "p")));
    assert outcome == LoggedIn("1");
    outcome := service.HandleLogin(Parsed(LoginRequest("a@x.com", "P")));
    assert outcome == Unauthorized;
  }

  /**
   * Notes against a fresh service, using only the handlers' contracts:
   * create a note, list without and with a session, delete it, delete it
   * again.
   */
  method NoteScenario() {
    var service := new NoteService();
    var outcome := service.HandleCreateNote(Parsed(CreateNoteRequest("1", "hi")));
    assert outcome == NoteCreated(1);
    assert service.notes == map[1 := Note(1, "hi")];
    outcome := service.HandleListNotes("");
    assert outcome == MissingSession;
    outcome := service.HandleListNotes("1");
    NoteTable.ValuesBagSingleton(1, Note(1, "hi"));
    OnlyElement(outcome.notes, Note(1, "hi"));
    assert outcome.notes == [Note(1, "hi")];
    outcome := service.HandleDeleteNote(Parsed(DeleteNoteRequest("1", 1)));
    assert outcome == NoteDeleted;
    outcome := service.HandleDeleteNote(Parsed(DeleteNoteRequest("1", 1)));
    assert outcome == NotFound(1);
  }
}
