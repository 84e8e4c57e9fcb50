/**
 * The note and class store of backend/app.py: the `live_notes` and `users`
 * tables as maps keyed by their partition keys, and the route handlers that
 * read and change them. The session user is a parameter (None when the
 * session has no 'user'); the server clock is an integer number of seconds;
 * password hashing, OTP generation and mail delivery are inputs.
 *
 * Python evaluates the default of `dict.get` before the lookup, so every
 * `get('class_name', f'Class {classroom_id.split("-")[1]}')` raises an
 * IndexError for an id without a dash, whether or not the item has a name;
 * the handler's `except` turns that into status 500.
 */
module NoteServer {
  import opened Wrappers
  import opened Text
  import opened SyncTypes

  /** Lifetime of a sign-up OTP: ten minutes. */
  const OtpLifetime: int := 600
  /** Owner recorded for a save without a session user. */
  const SharedEditor: string := "shared_editor"

  /** An item of `live_notes`; None stands for an attribute the item does not have. */
  datatype NoteItem = NoteItem(
    classroomId: string,
    userEmail: Option<string>,
    content: Option<Content>,
    className: Option<string>,
    lastUpdated: Option<int>,
    language: Option<string>,
    timestamp: Option<int>)

  /** An item of `users`. */
  datatype UserRecord = UserRecord(
    email: string,
    name: string,
    passwordHash: string,
    verified: bool,
    otp: string,
    otpExpiry: int,
    createdAt: int)

  /** The JSON body of a successful GET /api/notes/<id>. */
  datatype NotesBody = NotesBody(content: Content, className: string, lastUpdated: Option<int>, viewOnly: bool, allowEdit: bool)

  datatype NotesReply = NotesReply(status: nat, body: Option<NotesBody>)

  /** Python truthiness of an optional string. */
  predicate Given(s: Option<string>) {
    s.Some? && s.value != ""
  }

  /** `f'Class {classroom_id.split("-")[1]}'`, None when it raises IndexError. */
  function DefaultClassName(classroomId: string): (r: Option<string>)
    ensures r.Some? <==> '-' in classroomId
    ensures r.Some? ==> r.value == "Class " + Split(classroomId, '-')[1]
  {
    match SecondPiece(classroomId, '-')
    case Some(piece) => Some("Class " + piece)
    case None => None
  }

  /**
   * The class name save_notes stores: the request's when it is given,
   * otherwise the existing item's, otherwise the default; None when the
   * eagerly evaluated default raises.
   */
  function SavedClassName(requested: Option<string>, existing: Option<NoteItem>, classroomId: string): (r: Option<string>)
    ensures Given(requested) ==> r == requested
    ensures !Given(requested) && DefaultClassName(classroomId).None? ==> r.None?
    ensures !Given(requested) && DefaultClassName(classroomId).Some? ==>
      r.Some? && r.value == (if existing.Some? && existing.value.className.Some?
                             then existing.value.className.value
                             else DefaultClassName(classroomId).value)
  {
    if Given(requested) then requested
    else
      match DefaultClassName(classroomId)
      case None => None
      case Some(fallback) =>
        if existing.Some? then Some(existing.value.className.GetOr(fallback)) else Some(fallback)
  }

  /**
   * The owner save_notes stores: in share-edit mode an existing item keeps
   * its owner; otherwise it is the session user, or "shared_editor" without one.
   */
  function SavedOwner(viewEdit: bool, user: Option<string>, existing: Option<NoteItem>): string
  {
    if viewEdit && existing.Some? && existing.value.userEmail.Some? then existing.value.userEmail.value
    else user.GetOr(SharedEditor)
  }

  /** get_classes' filter: `c.get('content') is not None` (absent and null both drop out). */
  predicate Listed(item: NoteItem) {
    item.content.Some? && item.content.value.Str?
  }

  /** The sort key of get_classes; an item without last_updated sorts lowest, as '' does among ISO times. */
  predicate NewerOrSame(a: NoteItem, b: NoteItem) {
    match (a.lastUpdated, b.lastUpdated)
    case (_, None) => true
    case (None, Some(_)) => false
    case (Some(x), Some(y)) => x >= y
  }

  predicate SortedByRecency(s: seq<NoteItem>) {
    forall i, j :: 0 <= i < j < |s| ==> NewerOrSame(s[i], s[j])
  }

  /** Inserts `item` into a recency-sorted list before the first older item. */
  function Insert(item: NoteItem, s: seq<NoteItem>): (r: seq<NoteItem>)
    requires SortedByRecency(s)
    ensures SortedByRecency(r)
    ensures multiset(r) == multiset(s) + multiset{item}
    decreases |s|
  {
    if s == [] then [item]
    else if NewerOrSame(s[0], item) then
      var rest := Insert(item, s[1..]);
      HeadIsNewest(s);
      MembersOfSum(rest, s[1..], item);
      ConsSorted(s[0], rest);
      assert s == [s[0]] + s[1..];
      [s[0]] + rest
    else [item] + s
  }

  /** The head of a recency-sorted list is at least as recent as every later item. */
  lemma HeadIsNewest(s: seq<NoteItem>)
    requires s != [] && SortedByRecency(s)
    ensures forall x :: x in s[1..] ==> NewerOrSame(s[0], x)
  {
    forall x | x in s[1..] ensures NewerOrSame(s[0], x) {
      var k :| 0 <= k < |s[1..]| && s[1..][k] == x;
      assert s[k + 1] == x;
    }
  }

  lemma MembersOfSum<T>(r: seq<T>, s: seq<T>, item: T)
    requires multiset(r) == multiset(s) + multiset{item}
    ensures forall x :: x in r ==> x == item || x in s
  {
    forall x | x in r ensures x == item || x in s {
      assert x in multiset(r);
    }
  }

  lemma ConsSorted(h: NoteItem, rest: seq<NoteItem>)
    requires SortedByRecency(rest) && forall x :: x in rest ==> NewerOrSame(h, x)
    ensures SortedByRecency([h] + rest)
  {
    var r := [h] + rest;
    forall i, j | 0 <= i < j < |r| ensures NewerOrSame(r[i], r[j]) {
      assert r[j] == rest[j - 1];
      if i > 0 { assert r[i] == rest[i - 1]; }
      else { assert rest[j - 1] in rest; }
    }
  }

  class NoteServer {
    /** The `live_notes` table, keyed by `classroom_id`. */
    var notes: map<string, NoteItem>
    /** The `users` table, keyed by `email`. */
    var users: map<string, UserRecord>

    ghost predicate Valid()
      reads this
    {
      && (forall id :: id in notes ==> notes[id].classroomId == id)
      && (forall email :: email in users ==> users[email].email == email)
    }

    constructor(notes: map<string, NoteItem>, users: map<string, UserRecord>)
      requires forall id :: id in notes ==> notes[id].classroomId == id
      requires forall email :: email in users ==> users[email].email == email
      ensures this.notes == notes && this.users == users && Valid()
    {
      this.notes := notes;
      this.users := users;
    }

    /**
     * GET /api/notes/<id>. With `view=true` anyone reads an existing note,
     * `view_only` being the negation of `edit`; otherwise the session user
     * must exist (401) and own the note (403). A missing note reads as empty
     * content with no check at all. Every outcome that needs the default
     * class name of an id without a dash is 500.
     */
    function GetNotes(classroomId: string, view: bool, edit: bool, user: Option<string>): (r: NotesReply)
      reads this
      ensures r.status == 200 <==> r.body.Some?
      ensures r.status in {200, 401, 403, 500}
      ensures r.status == 401 <==> classroomId in notes && !view && user.None?
      ensures r.status == 403 <==>
        classroomId in notes && !view && user.Some? && notes[classroomId].userEmail != user
      ensures r.status == 500 <==> r.status !in {401, 403} && DefaultClassName(classroomId).None?
      ensures r.status == 200 ==>
        var b := r.body.value;
        && b.content == (if classroomId in notes then notes[classroomId].content.GetOr(Str("")) else Str(""))
        && b.lastUpdated == (if classroomId in notes then notes[classroomId].lastUpdated else None)
        && (classroomId in notes && !view ==> !b.viewOnly && b.allowEdit)
        && (classroomId !in notes || view ==> b.viewOnly == !edit && b.allowEdit == edit)
        && b.className == (if classroomId in notes && notes[classroomId].className.Some?
                           then notes[classroomId].className.value
                           else DefaultClassName(classroomId).value)
    {
      var fallback := DefaultClassName(classroomId);
      if classroomId in notes then
        var item := notes[classroomId];
        if view then
          if fallback.None? then NotesReply(500, None)
          else NotesReply(200, Some(NotesBody(item.content.GetOr(Str("")), item.className.GetOr(fallback.value),
                                              item.lastUpdated, !edit, edit)))
        else if user.None? then NotesReply(401, None)
        else if item.userEmail != user then NotesReply(403, None)
        else if fallback.None? then NotesReply(500, None)
        else NotesReply(200, Some(NotesBody(item.content.GetOr(Str("")), item.className.GetOr(fallback.value),
                                            item.lastUpdated, false, true)))
      else if fallback.None? then NotesReply(500, None)
      else NotesReply(200, Some(NotesBody(Str(""), fallback.value, None, !edit, edit)))
    }

    /**
     * POST /api/notes/<id> with body `{content, class_name}`. Outside
     * share-edit mode (`view=true&edit=true`) it needs a session user (401)
     * who owns any existing item (403). A save that needs the default name of
     * a dash-less id fails with 500. Otherwise the whole item is replaced:
     * only owner, content, class name and time survive, any other attribute
     * is dropped. Every rejection leaves the table as it was.
     */
    method SaveNotes(classroomId: string, view: bool, edit: bool, user: Option<string>,
                     content: Option<Content>, className: Option<string>, now: int) returns (status: nat)
      requires Valid()
      modifies this`notes
      ensures Valid()
      ensures var viewEdit := view && edit;
        && (status == 401 <==> !viewEdit && user.None?)
        && (status == 403 <==>
              !viewEdit && user.Some? && classroomId in old(notes) && old(notes)[classroomId].userEmail != user)
        && (status == 500 <==> status !in {401, 403} && !Given(className) && DefaultClassName(classroomId).None?)
        && (status in {200, 401, 403, 500})
      ensures status != 200 ==> notes == old(notes)
      ensures status == 200 ==>
        var existing := if classroomId in old(notes) then Some(old(notes)[classroomId]) else None;
        notes == old(notes)[classroomId := NoteItem(
          classroomId,
          Some(SavedOwner(view && edit, user, existing)),
          Some(content.GetOr(Str(""))),
          Some(SavedClassName(className, existing, classroomId).value),
          Some(now), None, None)]
    {
      var viewEdit := view && edit;
      if !viewEdit && user.None? {
        return 401;
      }
      var userEmail := user.GetOr(SharedEditor);
      var existing := if classroomId in notes then Some(notes[classroomId]) else None;
      if !viewEdit && existing.Some? && existing.value.userEmail != Some(userEmail) {
        return 403;
      }
      var name := className;
      if !Given(name) {
        var fallback := DefaultClassName(classroomId);
        if fallback.None? {
          return 500;
        }
        name := Some(if existing.Some? then existing.value.className.GetOr(fallback.value) else fallback.value);
      }
      if viewEdit && existing.Some? && existing.value.userEmail.Some? {
        userEmail := existing.value.userEmail.value;
      }
      notes := notes[classroomId := NoteItem(classroomId, Some(userEmail), Some(content.GetOr(Str(""))),
                                             name, Some(now), None, None)];
      return 200;
    }

    /**
     * GET /api/classes: without a session user 401; otherwise the user's
     * items whose content is not null, each once, newest first.
     */
    method GetClasses(user: Option<string>) returns (status: nat, classes: seq<NoteItem>)
      requires Valid()
      ensures user.None? ==> status == 401 && classes == []
      ensures user.Some? ==> status == 200
      ensures forall item :: item in classes <==>
        user.Some? && item.classroomId in notes && notes[item.classroomId] == item
        && item.userEmail == user && Listed(item)
      ensures forall i, j :: 0 <= i < j < |classes| ==> classes[i].classroomId != classes[j].classroomId
      ensures SortedByRecency(classes)
    {
      if user.None? {
        return 401, [];
      }
      // The user_email index query: the user's items, in an order the index chooses.
      var queried: seq<NoteItem> := [];
      var remaining := notes.Keys;
      while remaining != {}
        invariant remaining <= notes.Keys
        invariant forall item :: item in queried <==>
          item.classroomId in notes.Keys - remaining && notes[item.classroomId] == item && item.userEmail == user
        invariant forall i, j :: 0 <= i < j < |queried| ==> queried[i].classroomId != queried[j].classroomId
        decreases remaining
      {
        var id :| id in remaining;
        if notes[id].userEmail == user {
          queried := queried + [notes[id]];
        }
        remaining := remaining - {id};
      }
      var filtered := FilterListed(queried);
      classes := SortByRecency(filtered);
      assert forall item :: item in classes <==> item in filtered by {
        forall item ensures item in classes <==> item in filtered {
          assert item in classes <==> item in multiset(classes);
          assert item in filtered <==> item in multiset(filtered);
        }
      }
      DistinctIdsKept(filtered, classes);
      status := 200;
    }

    /**
     * PUT /api/classes/<id> with `{class_name}`: 401 without a session user,
     * 400 for a missing or empty name, 404 for an unknown id, 403 for another
     * user's note; otherwise only the class name of that item changes.
     */
    method UpdateClass(classroomId: string, user: Option<string>, className: Option<string>) returns (status: nat)
      requires Valid()
      modifies this`notes
      ensures Valid()
      ensures status == 401 <==> user.None?
      ensures status == 400 <==> user.Some? && !Given(className)
      ensures status == 404 <==> user.Some? && Given(className) && classroomId !in old(notes)
      ensures status == 403 <==>
        user.Some? && Given(className) && classroomId in old(notes) && old(notes)[classroomId].userEmail != user
      ensures status in {200, 400, 401, 403, 404}
      ensures status != 200 ==> notes == old(notes)
      ensures status == 200 ==>
        notes == old(notes)[classroomId := old(notes)[classroomId].(className := className)]
    {
      if user.None? {
        return 401;
      }
      if !Given(className) {
        return 400;
      }
      if classroomId !in notes {
        return 404;
      }
      var item := notes[classroomId];
      if item.userEmail != user {
        return 403;
      }
      notes := notes[classroomId := item.(className := className)];
      return 200;
    }

    /**
     * DELETE /api/classes/<id>: 401 without a session user, 403 for another
     * user's note; otherwise the item is gone, and deleting a missing id
     * succeeds too.
     */
    method DeleteClass(classroomId: string, user: Option<string>) returns (status: nat)
      requires Valid()
      modifies this`notes
      ensures Valid()
      ensures status == 401 <==> user.None?
      ensures status == 403 <==>
        user.Some? && classroomId in old(notes) && old(notes)[classroomId].userEmail != user
      ensures status in {200, 401, 403}
      ensures status != 200 ==> notes == old(notes)
      ensures status == 200 ==> notes == old(notes) - {classroomId}
    {
      if user.None? {
        return 401;
      }
      if classroomId in notes && notes[classroomId].userEmail != user {
        return 403;
      }
      notes := notes - {classroomId};
      return 200;
    }

    /**
     * POST /api/update_notes with `{classroom_id, content, language}`: no
     * session check; 400 without a classroom id, otherwise the item is
     * replaced by one with content, language and time and no owner or name.
     */
    method UpdateNotes(classroomId: Option<string>, content: Option<Content>, language: Option<string>, now: int)
      returns (status: nat)
      requires Valid()
      modifies this`notes
      ensures Valid()
      ensures status == 400 <==> !Given(classroomId)
      ensures status in {200, 400}
      ensures status == 400 ==> notes == old(notes)
      ensures status == 200 ==>
        notes == old(notes)[classroomId.value := NoteItem(classroomId.value, None, Some(content.GetOr(Str(""))),
                                                          None, None, Some(language.GetOr("plaintext")), Some(now))]
    {
      if !Given(classroomId) {
        return 400;
      }
      var id := classroomId.value;
      notes := notes[id := NoteItem(id, None, Some(content.GetOr(Str(""))), None, None,
                                    Some(language.GetOr("plaintext")), Some(now))];
      return 200;
    }

    /**
     * POST /api/signup: 400 when a field is missing or empty, 400 for a
     * registered email; otherwise an unverified record with the OTP and an
     * expiry ten minutes ahead is stored, and the status is 200 or, when the
     * mail could not be sent, 500 with the record kept.
     */
    method Signup(name: Option<string>, email: Option<string>, password: Option<string>,
                  passwordHash: string, otp: string, now: int, mailSent: bool) returns (status: nat)
      requires Valid()
      modifies this`users
      ensures Valid()
      ensures !(Given(name) && Given(email) && Given(password)) ==> status == 400 && users == old(users)
      ensures Given(name) && Given(email) && Given(password) && email.value in old(users) ==>
        status == 400 && users == old(users)
      ensures Given(name) && Given(email) && Given(password) && email.value !in old(users) ==>
        users == old(users)[email.value := UserRecord(email.value, name.value, passwordHash, false, otp,
                                                      now + OtpLifetime, now)]
        && status == (if mailSent then 200 else 500)
    {
      if !(Given(name) && Given(email) && Given(password)) {
        return 400;
      }
      if email.value in users {
        return 400;
      }
      users := users[email.value := UserRecord(email.value, name.value, passwordHash, false, otp,
                                               now + OtpLifetime, now)];
      status := if mailSent then 200 else 500;
    }

    /**
     * POST /api/verify, checked in this order: missing fields, unknown user,
     * an expired OTP (before the code is compared), a wrong code. Only a
     * current, matching code verifies the account, changing nothing else.
     */
    method Verify(email: Option<string>, otp: Option<string>, now: int) returns (outcome: VerifyOutcome)
      requires Valid()
      modifies this`users
      ensures Valid()
      ensures outcome == MissingFields <==> !(Given(email) && Given(otp))
      ensures outcome == UnknownUser <==> Given(email) && Given(otp) && email.value !in old(users)
      ensures outcome == Expired <==>
        Given(email) && Given(otp) && email.value in old(users) && now > old(users)[email.value].otpExpiry
      ensures outcome == InvalidOtp <==>
        Given(email) && Given(otp) && email.value in old(users) && now <= old(users)[email.value].otpExpiry
        && old(users)[email.value].otp != otp.value
      ensures outcome != Verified ==> users == old(users)
      ensures outcome == Verified ==>
        users == old(users)[email.value := old(users)[email.value].(verified := true)]
    {
      if !(Given(email) && Given(otp)) {
        return MissingFields;
      }
      if email.value !in users {
        return UnknownUser;
      }
      var user := users[email.value];
      if now > user.otpExpiry {
        return Expired;
      }
      if user.otp != otp.value {
        return InvalidOtp;
      }
      users := users[email.value := user.(verified := true)];
      return Verified;
    }
  }

  /**
   * A save through a share-edit link, with or without a session, keeps the
   * owner of an existing note, so the owner then reads the saved content in
   * the editor.
   */
  method ShareEditKeepsOwner(server: NoteServer, classroomId: string, owner: string, user: Option<string>,
                             content: Option<Content>, className: Option<string>, now: int)
    returns (save: nat, reply: NotesReply)
    requires server.Valid() && classroomId in server.notes && server.notes[classroomId].userEmail == Some(owner)
    requires '-' in classroomId
    modifies server
    ensures save == 200 && classroomId in server.notes && server.notes[classroomId].userEmail == Some(owner)
    ensures reply.status == 200 && reply.body.Some? && reply.body.value.content == content.GetOr(Str(""))
  {
    save := server.SaveNotes(classroomId, true, true, user, content, className, now);
    reply := server.GetNotes(classroomId, false, false, Some(owner));
  }

  /**
   * A save outside share-edit mode that succeeds makes the session user the
   * owner, so that user then reads the note in the editor: never 401 or 403,
   * the saved content whenever the id has a dash, and 500 otherwise.
   */
  method OwnSaveReadsBack(server: NoteServer, classroomId: string, view: bool, edit: bool, user: Option<string>,
                          content: Option<Content>, className: Option<string>, now: int)
    returns (save: nat, reply: NotesReply)
    requires server.Valid()
    modifies server
    ensures save == 200 && !(view && edit) ==>
      user.Some? && classroomId in server.notes && server.notes[classroomId].userEmail == user
    ensures save == 200 && !(view && edit) ==>
      && reply.status !in {401, 403}
      && (reply.status == 200 <==> '-' in classroomId)
      && (reply.status == 200 ==> reply.body.Some? && reply.body.value.content == content.GetOr(Str("")))
  {
    save := server.SaveNotes(classroomId, view, edit, user, content, className, now);
    reply := server.GetNotes(classroomId, false, false, user);
  }

  /**
   * A save through a share-edit link to a note without an owner (or to no
   * note) claims it for the session user, or for "shared_editor" without a
   * session; a signed-in saver then reads the saved content in the editor.
   */
  method ShareEditClaimsOwnerless(server: NoteServer, classroomId: string, user: Option<string>,
                                  content: Option<Content>, className: Option<string>, now: int)
    returns (save: nat, reply: NotesReply)
    requires server.Valid()
    requires classroomId in server.notes ==> server.notes[classroomId].userEmail.None?
    modifies server
    ensures save == 200 <==> Given(className) || '-' in classroomId
    ensures save != 200 ==> server.notes == old(server.notes)
    ensures save == 200 ==>
      classroomId in server.notes && server.notes[classroomId].userEmail == Some(user.GetOr(SharedEditor))
    ensures save == 200 && user.Some? && '-' in classroomId ==>
      reply.status == 200 && reply.body.Some? && reply.body.value.content == content.GetOr(Str(""))
  {
    save := server.SaveNotes(classroomId, true, true, user, content, className, now);
    reply := server.GetNotes(classroomId, false, false, user);
  }

  /**
   * /api/update_notes needs no session and writes an item without an owner,
   * after which no signed-in user, the note's former owner included, can read
   * it in the editor or save it, and the refused save changes nothing.
   */
  method UpdateNotesLocksOutOwner(server: NoteServer, classroomId: string, owner: string,
                                  content: Option<Content>, language: Option<string>, now: int)
    returns (read: nat, save: nat)
    requires server.Valid() && classroomId != ""
    modifies server
    ensures read == 403 && save == 403
    ensures classroomId in server.notes && server.notes[classroomId].userEmail.None?
      && server.notes[classroomId].content == Some(content.GetOr(Str("")))
  {
    var status := server.UpdateNotes(Some(classroomId), content, language, now);
    read := server.GetNotes(classroomId, false, false, Some(owner)).status;
    save := server.SaveNotes(classroomId, false, false, Some(owner), Some(Str("y")), None, now + 1);
  }

  /** A class its user may delete can be deleted twice: both calls succeed and the second changes nothing. */
  method DeleteIsRepeatable(server: NoteServer, classroomId: string, user: string) returns (first: nat, second: nat)
    requires server.Valid()
    requires classroomId in server.notes ==> server.notes[classroomId].userEmail == Some(user)
    modifies server
    ensures first == 200 && second == 200
    ensures server.notes == old(server.notes) - {classroomId}
  {
    first := server.DeleteClass(classroomId, Some(user));
    second := server.DeleteClass(classroomId, Some(user));
  }

  /** The ways /api/verify can answer; each has its own message. */
  datatype VerifyOutcome = MissingFields | UnknownUser | Expired | InvalidOtp | Verified {
    function Status(): (s: nat)
      ensures s == 200 <==> this == Verified
      ensures s == 404 <==> this == UnknownUser
      ensures s == 400 <==> this in {MissingFields, Expired, InvalidOtp}
    {
      match this
      case MissingFields => 400
      case UnknownUser => 404
      case Expired => 400
      case InvalidOtp => 400
      case Verified => 200
    }
  }

  /** The list comprehension of get_classes. */
  function FilterListed(s: seq<NoteItem>): (r: seq<NoteItem>)
    ensures forall item :: item in r <==> item in s && Listed(item)
    ensures (forall i, j :: 0 <= i < j < |s| ==> s[i].classroomId != s[j].classroomId) ==>
      (forall i, j :: 0 <= i < j < |r| ==> r[i].classroomId != r[j].classroomId)
  {
    if s == [] then []
    else
      var rest := FilterListed(s[1..]);
      assert forall item :: item in s <==> item == s[0] || item in s[1..];
      if Listed(s[0]) then
        var r := [s[0]] + rest;
        assert (forall i, j :: 0 <= i < j < |s| ==> s[i].classroomId != s[j].classroomId) ==>
          (forall j :: 0 < j < |r| ==> r[0].classroomId != r[j].classroomId) by {
          if forall i, j :: 0 <= i < j < |s| ==> s[i].classroomId != s[j].classroomId {
            forall j | 0 < j < |r| ensures r[0].classroomId != r[j].classroomId {
              assert r[j] in rest;
              var k :| 0 <= k < |s[1..]| && s[1..][k] == r[j];
              assert s[k + 1] == r[j];
            }
          }
        }
        r
      else rest
  }

  /** `classes.sort(key=last_updated, reverse=True)`, on a sequence: the same items, newest first. */
  method SortByRecency(items: seq<NoteItem>) returns (sorted: seq<NoteItem>)
    ensures multiset(sorted) == multiset(items)
    ensures SortedByRecency(sorted)
  {
    sorted := [];
    var i := 0;
    while i < |items|
      invariant 0 <= i <= |items|
      invariant multiset(sorted) == multiset(items[..i])
      invariant SortedByRecency(sorted)
    {
      assert items[..i + 1] == items[..i] + [items[i]];
      sorted := Insert(items[i], sorted);
      i := i + 1;
    }
    assert items[..i] == items;
  }

  /** A permutation of a list with distinct ids has distinct ids. */
  lemma DistinctIdsKept(s: seq<NoteItem>, t: seq<NoteItem>)
    requires multiset(s) == multiset(t)
    requires forall i, j :: 0 <= i < j < |s| ==> s[i].classroomId != s[j].classroomId
    ensures forall i, j :: 0 <= i < j < |t| ==> t[i].classroomId != t[j].classroomId
  {
    forall i, j | 0 <= i < j < |t|
      ensures t[i].classroomId != t[j].classroomId
    {
      if t[i].classroomId == t[j].classroomId {
        // Two positions of t with one id hold two items of s with one id, so the same item twice.
        assert t[i] in multiset(s) && t[j] in multiset(s);
        var a :| 0 <= a < |s| && s[a] == t[i];
        var b :| 0 <= b < |s| && s[b] == t[j];
        assert a == b;
        assert t[i] == t[j];
        CountTwice(t, i, j);
        OnceInDistinct(s, a);
        assert false;
      }
    }
  }

  lemma CountTwice(t: seq<NoteItem>, i: nat, j: nat)
    requires i < j < |t| && t[i] == t[j]
    ensures multiset(t)[t[i]] >= 2
  {
    assert t == t[..i] + [t[i]] + t[i + 1..j] + [t[j]] + t[j + 1..];
  }

  lemma OnceInDistinct(s: seq<NoteItem>, a: nat)
    requires a < |s|
    requires forall i, j :: 0 <= i < j < |s| ==> s[i].classroomId != s[j].classroomId
    ensures multiset(s)[s[a]] == 1
  {
    assert s == s[..a] + [s[a]] + s[a + 1..];
    assert s[a] !in s[..a] && s[a] !in s[a + 1..];
  }
}
