/**
 * `POST /api/webhooks/clerk`: check the three Svix headers, take a verified
 * `user.created` / `user.updated` event, pick an e-mail and a full name from it,
 * and add the user keyed by Clerk id unless one exists.
 *
 * Signature verification is foreign code: the verified event (or `None` when
 * verification throws) is a parameter. The `get_next_id` RPC on
 * `users_id_seq` is taken as that sequence's `nextval`: it answers
 * `nextUserId` and advances it, whether or not the insert that follows
 * succeeds; whether it errs is a fault.
 */
module ClerkWebhook {
  import opened Wrappers
  import opened JsStrings
  import opened Sequences
  import opened Database
  import opened AppointmentsRoute

  datatype Headers = Headers(svixId: Option<string>, svixTimestamp: Option<string>, svixSignature: Option<string>)

  /** An entry of `email_addresses`. */
  datatype EmailAddress = EmailAddress(emailAddress: Option<string>)

  /** An entry of `external_accounts` (an OAuth provider's profile). */
  datatype ExternalAccount = ExternalAccount(
    emailAddress: Option<string>,
    firstName: Option<string>,
    lastName: Option<string>)

  /** The `data` of a user event; an absent list is `None`. */
  datatype UserData = UserData(
    id: string,
    emailAddresses: Option<seq<EmailAddress>>,
    firstName: Option<string>,
    lastName: Option<string>,
    externalAccounts: Option<seq<ExternalAccount>>)

  datatype Event = Event(kind: string, data: UserData)

  /** Which store calls fail: the lookup by Clerk id, the `get_next_id` RPC, the insert. */
  datatype WebhookFaults = WebhookFaults(lookupFails: bool, rpcFails: bool, insertFails: bool)

  /** `!svix_id || !svix_timestamp || !svix_signature` is false. */
  predicate HeadersPresent(h: Headers) {
    Truthy(h.svixId) && Truthy(h.svixTimestamp) && Truthy(h.svixSignature)
  }

  /** `external_accounts?.length > 0`. */
  predicate HasExternal(d: UserData) {
    d.externalAccounts.Some? && |d.externalAccounts.value| > 0
  }

  /** `email_addresses[0]?.email_address`. */
  function FirstEmail(d: UserData): Option<string>
    requires d.emailAddresses.Some?
  {
    if |d.emailAddresses.value| > 0 then d.emailAddresses.value[0].emailAddress else None
  }

  /** The first listed e-mail, or failing that the first external account's. */
  function PrimaryEmail(d: UserData): Option<string>
    requires d.emailAddresses.Some?
  {
    if !Truthy(FirstEmail(d)) && HasExternal(d) then d.externalAccounts.value[0].emailAddress
    else FirstEmail(d)
  }

  /** The names after falling back to the first external account when either is missing. */
  function Names(d: UserData): (Option<string>, Option<string>) {
    if (!Truthy(d.firstName) || !Truthy(d.lastName)) && HasExternal(d) then
      (Some(OrEmpty(d.externalAccounts.value[0].firstName)), Some(OrEmpty(d.externalAccounts.value[0].lastName)))
    else (d.firstName, d.lastName)
  }

  /** `${firstName || ''} ${lastName || ''}`.trim(). */
  function FullName(d: UserData): string {
    Trim(OrEmpty(Names(d).0) + " " + OrEmpty(Names(d).1))
  }

  /** The handler's local variables, reassigned as the source does. */
  method SelectUserInfo(d: UserData) returns (primaryEmail: Option<string>, fullName: string)
    requires d.emailAddresses.Some?
    ensures primaryEmail == PrimaryEmail(d) && fullName == FullName(d)
  {
    primaryEmail := if |d.emailAddresses.value| > 0 then d.emailAddresses.value[0].emailAddress else None;
    if !Truthy(primaryEmail) && HasExternal(d) {
      primaryEmail := d.externalAccounts.value[0].emailAddress;
    }
    var firstName := d.firstName;
    var lastName := d.lastName;
    if (!Truthy(firstName) || !Truthy(lastName)) && HasExternal(d) {
      firstName := Some(OrEmpty(d.externalAccounts.value[0].firstName));
      lastName := Some(OrEmpty(d.externalAccounts.value[0].lastName));
    }
    fullName := Trim(OrEmpty(firstName) + " " + OrEmpty(lastName));
  }

  /**
   * The e-mail rule: a non-empty first entry wins; otherwise the first external
   * account's e-mail if there is an account; otherwise nothing usable.
   */
  lemma PrimaryEmailRule(d: UserData)
    requires d.emailAddresses.Some?
    ensures Truthy(FirstEmail(d)) ==> PrimaryEmail(d) == FirstEmail(d)
    ensures !Truthy(FirstEmail(d)) && HasExternal(d) ==> PrimaryEmail(d) == d.externalAccounts.value[0].emailAddress
    ensures !Truthy(FirstEmail(d)) && !HasExternal(d) ==> !Truthy(PrimaryEmail(d))
  {
  }

  /**
   * The name rule: both given names are kept when both are non-empty or there is
   * no external account; otherwise both are replaced by the account's, with a
   * missing one read as empty.
   */
  lemma NamesRule(d: UserData)
    ensures Truthy(d.firstName) && Truthy(d.lastName) ==> Names(d) == (d.firstName, d.lastName)
    ensures !HasExternal(d) ==> Names(d) == (d.firstName, d.lastName)
    ensures (!Truthy(d.firstName) || !Truthy(d.lastName)) && HasExternal(d) ==>
      && OrEmpty(Names(d).0) == OrEmpty(d.externalAccounts.value[0].firstName)
      && OrEmpty(Names(d).1) == OrEmpty(d.externalAccounts.value[0].lastName)
  {
  }

  /** The full name never starts or ends with white space, and is padded by white space only. */
  lemma FullNameTrimmed(d: UserData)
    ensures var n := FullName(d);
      var raw := OrEmpty(Names(d).0) + " " + OrEmpty(Names(d).1);
      && (n == [] || (!IsJsWhitespace(n[0]) && !IsJsWhitespace(n[|n| - 1])))
      && exists k :: PaddedBy(raw, n, k)
  {
    TrimSpec(OrEmpty(Names(d).0) + " " + OrEmpty(Names(d).1));
  }

  /** Names without surrounding white space are joined by one space and kept whole. */
  lemma FullNameOfCleanNames(d: UserData, first: string, last: string)
    requires Names(d) == (Some(first), Some(last))
    requires first != [] && !IsJsWhitespace(first[0])
    requires last != [] && !IsJsWhitespace(last[|last| - 1])
    ensures FullName(d) == first + " " + last
  {
    var s := first + " " + last;
    assert s[0] == first[0] && s[|s| - 1] == last[|last| - 1];
    assert TrimStart(s) == s;
  }

  /** With no name anywhere the full name is empty. */
  lemma FullNameEmpty(d: UserData)
    requires !Truthy(d.firstName) && !Truthy(d.lastName) && !HasExternal(d)
    ensures FullName(d) == ""
  {
    assert OrEmpty(Names(d).0) + " " + OrEmpty(Names(d).1) == [' '];
    assert TrimStart([' ']) == [];
  }

  /**
   * `addUserToDatabase`: a user with this Clerk id, if the lookup finds exactly
   * one, is returned as it is; otherwise `get_next_id` draws the next value of
   * `users_id_seq` and a row with that id and no phone is inserted. `None` is
   * the rethrown error: the RPC errs (nothing is drawn), or the insert fails or
   * finds the primary key taken (the drawn value stays consumed).
   */
  function AddUserStep(t: Tables, clerkId: string, email: string, name: string,
                       faults: WebhookFaults): Step<Option<User>>
  {
    var existing := if faults.lookupFails then None else Single(UsersWithClerkId(t, clerkId));
    if existing.Some? then Step(existing, t)
    else if faults.rpcFails then Step(None, t)
    else
      var id := t.nextUserId;
      if faults.insertFails || UserIdTaken(t, id) then Step(None, t.(nextUserId := id + 1))
      else
        var row := User(id, Some(clerkId), name, email, None, None);
        Step(Some(row), t.(users := t.users + [row], nextUserId := id + 1))
  }

  /** The imperative `addUserToDatabase` over the shared store. */
  method AddUserToDatabase(db: Store, clerkId: string, email: string, name: string,
                           faults: WebhookFaults) returns (user: Option<User>)
    modifies db
    ensures Step(user, db.State()) == AddUserStep(old(db.State()), clerkId, email, name, faults)
  {
    var existing := if faults.lookupFails then None else Single(UsersWithClerkId(db.State(), clerkId));
    if existing.Some? {
      return existing;
    }
    if faults.rpcFails {
      return None;
    }
    var nextId := db.nextUserId;
    var taken := UserIdTaken(db.State(), nextId);
    db.nextUserId := nextId + 1;
    if faults.insertFails || taken {
      return None;
    }
    var row := User(nextId, Some(clerkId), name, email, None, None);
    db.users := db.users + [row];
    user := Some(row);
  }

  /**
   * A user already stored under this Clerk id is returned unchanged and nothing
   * is written: a `user.updated` event never changes a stored name or e-mail.
   */
  lemma AddUserKeepsExisting(t: Tables, clerkId: string, email: string, name: string,
                             rpcFails: bool, insertFails: bool)
    requires |UsersWithClerkId(t, clerkId)| == 1
    ensures var s := AddUserStep(t, clerkId, email, name, WebhookFaults(false, rpcFails, insertFails));
      && s.tables == t
      && s.reply == Some(UsersWithClerkId(t, clerkId)[0])
      && s.reply.value in t.users && s.reply.value.clerkId == Some(clerkId)
  {
    var u := UsersWithClerkId(t, clerkId)[0];
    FilterMember(t.users, (u: User) => u.clerkId == Some(clerkId), u);
  }

  /**
   * Otherwise one row is appended with the sequence's next value as its id,
   * keyed by the Clerk id, with the given e-mail and name and no phone, and the
   * sequence advances.
   */
  lemma AddUserInserts(t: Tables, clerkId: string, email: string, name: string, lookupFails: bool)
    requires lookupFails || |UsersWithClerkId(t, clerkId)| != 1
    requires !UserIdTaken(t, t.nextUserId)
    ensures var s := AddUserStep(t, clerkId, email, name, WebhookFaults(lookupFails, false, false));
      && s.reply == Some(User(t.nextUserId, Some(clerkId), name, email, None, None))
      && s.tables.users == t.users + [s.reply.value]
      && s.tables.nextUserId == t.nextUserId + 1
      && s.tables.appointments == t.appointments && s.tables.nextAppointmentId == t.nextAppointmentId
  {
  }

  /**
   * An erring RPC throws before anything is drawn; a failed insert throws after
   * the draw, so the sequence has moved on although no row was added.
   */
  lemma AddUserFails(t: Tables, clerkId: string, email: string, name: string, lookupFails: bool, insertFails: bool)
    requires lookupFails || |UsersWithClerkId(t, clerkId)| != 1
    ensures AddUserStep(t, clerkId, email, name, WebhookFaults(lookupFails, true, insertFails)) == Step(None, t)
    ensures AddUserStep(t, clerkId, email, name, WebhookFaults(lookupFails, false, true))
         == Step(None, t.(nextUserId := t.nextUserId + 1))
  {
  }

  lemma AddUserStepValid(t: Tables, clerkId: string, email: string, name: string, faults: WebhookFaults)
    requires t.Valid()
    ensures AddUserStep(t, clerkId, email, name, faults).tables.Valid()
    ensures AddUserStep(t, clerkId, email, name, faults).tables.nextUserId >= t.nextUserId
  {
    AddUserValid(t, User(t.nextUserId, Some(clerkId), name, email, None, None));
  }

  /** The event types that carry a user. */
  predicate IsUserEvent(e: Event) {
    e.kind == "user.created" || e.kind == "user.updated"
  }

  /**
   * The handler: 400 "Missing svix headers" before anything else; 400 "Error
   * processing webhook" for anything thrown (verification, a missing
   * `email_addresses`, the RPC, the insert); 400 "No email address found"; 200
   * otherwise. Other event types are acknowledged without a write.
   */
  function WebhookStep(t: Tables, h: Headers, event: Option<Event>, faults: WebhookFaults): Step<Reply<string>>
  {
    if !HeadersPresent(h) then Step(Fail(400, "Missing svix headers"), t)
    else if event.None? then Step(Fail(400, "Error processing webhook"), t)
    else if !IsUserEvent(event.value) then Step(Ok("Webhook processed successfully"), t)
    else
      var d := event.value.data;
      if d.emailAddresses.None? then Step(Fail(400, "Error processing webhook"), t)
      else if !Truthy(PrimaryEmail(d)) then Step(Fail(400, "No email address found"), t)
      else
        var added := AddUserStep(t, d.id, PrimaryEmail(d).value, FullName(d), faults);
        if added.reply.None? then Step(Fail(400, "Error processing webhook"), added.tables)
        else Step(Ok("User successfully created/updated"), added.tables)
  }

  /** The imperative handler over the shared store. */
  method Webhook(db: Store, h: Headers, event: Option<Event>, faults: WebhookFaults) returns (reply: Reply<string>)
    modifies db
    ensures Step(reply, db.State()) == WebhookStep(old(db.State()), h, event, faults)
  {
    if !HeadersPresent(h) {
      return Fail(400, "Missing svix headers");
    }
    if event.None? {
      return Fail(400, "Error processing webhook");
    }
    if !IsUserEvent(event.value) {
      return Ok("Webhook processed successfully");
    }
    var d := event.value.data;
    if d.emailAddresses.None? {
      return Fail(400, "Error processing webhook");
    }
    var primaryEmail, fullName := SelectUserInfo(d);
    if !Truthy(primaryEmail) {
      return Fail(400, "No email address found");
    }
    var user := AddUserToDatabase(db, d.id, primaryEmail.value, fullName, faults);
    if user.None? {
      return Fail(400, "Error processing webhook");
    }
    reply := Ok("User successfully created/updated");
  }

  /** A missing header is answered 400 whatever the event, and nothing is read or written. */
  lemma WebhookMissingHeaders(t: Tables, h: Headers, event: Option<Event>, faults: WebhookFaults)
    requires !HeadersPresent(h)
    ensures WebhookStep(t, h, event, faults) == Step(Fail(400, "Missing svix headers"), t)
  {
  }

  /** Events other than `user.created` and `user.updated` are answered 200 and write nothing. */
  lemma WebhookOtherEvents(t: Tables, h: Headers, e: Event, faults: WebhookFaults)
    requires HeadersPresent(h) && !IsUserEvent(e)
    ensures WebhookStep(t, h, Some(e), faults) == Step(Ok("Webhook processed successfully"), t)
  {
  }

  /** Without a usable e-mail the answer is 400 and no user is added. */
  lemma WebhookNoEmail(t: Tables, h: Headers, e: Event, faults: WebhookFaults)
    requires HeadersPresent(h) && IsUserEvent(e) && e.data.emailAddresses.Some?
    requires !Truthy(PrimaryEmail(e.data))
    ensures WebhookStep(t, h, Some(e), faults) == Step(Fail(400, "No email address found"), t)
  {
  }

  /**
   * A `user.updated` event for a stored user answers 200 and leaves the tables
   * exactly as they were.
   */
  lemma WebhookUpdateChangesNothing(t: Tables, h: Headers, e: Event, rpcFails: bool, insertFails: bool)
    requires HeadersPresent(h) && e.kind == "user.updated" && e.data.emailAddresses.Some?
    requires Truthy(PrimaryEmail(e.data))
    requires |UsersWithClerkId(t, e.data.id)| == 1
    ensures WebhookStep(t, h, Some(e), WebhookFaults(false, rpcFails, insertFails))
         == Step(Ok("User successfully created/updated"), t)
  {
    AddUserKeepsExisting(t, e.data.id, PrimaryEmail(e.data).value, FullName(e.data), rpcFails, insertFails);
  }

  /**
   * A new user event stores the selected e-mail and full name under its Clerk
   * id, with the next value of `users_id_seq` as id, and advances the sequence.
   */
  lemma WebhookCreates(t: Tables, h: Headers, e: Event)
    requires HeadersPresent(h) && IsUserEvent(e) && e.data.emailAddresses.Some?
    requires Truthy(PrimaryEmail(e.data))
    requires |UsersWithClerkId(t, e.data.id)| == 0 && !UserIdTaken(t, t.nextUserId)
    ensures var s := WebhookStep(t, h, Some(e), WebhookFaults(false, false, false));
      && s.reply == Ok("User successfully created/updated")
      && s.tables.users == t.users + [User(t.nextUserId, Some(e.data.id), FullName(e.data), PrimaryEmail(e.data).value, None, None)]
      && s.tables.nextUserId == t.nextUserId + 1
  {
    AddUserInserts(t, e.data.id, PrimaryEmail(e.data).value, FullName(e.data), false);
  }

  lemma WebhookValid(t: Tables, h: Headers, event: Option<Event>, faults: WebhookFaults)
    requires t.Valid()
    ensures WebhookStep(t, h, event, faults).tables.Valid()
    ensures WebhookStep(t, h, event, faults).tables.nextUserId >= t.nextUserId
  {
    if HeadersPresent(h) && event.Some? && IsUserEvent(event.value) {
      var d := event.value.data;
      if d.emailAddresses.Some? && Truthy(PrimaryEmail(d)) {
        AddUserStepValid(t, d.id, PrimaryEmail(d).value, FullName(d), faults);
      }
    }
  }

  /**
   * The webhook and `getOrCreateUser` draw user ids from the one sequence:
   * after any webhook call on valid tables, `getOrCreateUser` for an e-mail no
   * single user holds inserts under the sequence's next value, an id no user
   * has, and the call succeeds when the store does.
   */
  lemma SharedUserSequence(t: Tables, h: Headers, event: Option<Event>, faults: WebhookFaults,
                           userName: string, userEmail: string)
    requires t.Valid()
    requires |UsersWithEmail(WebhookStep(t, h, event, faults).tables, userEmail)| != 1
    ensures var t' := WebhookStep(t, h, event, faults).tables;
      && t'.Valid() && t.nextUserId <= t'.nextUserId && !UserIdTaken(t', t'.nextUserId)
      && GetOrCreateUserStep(t', userName, userEmail, false, false).reply == Some(t'.nextUserId)
  {
    var t' := WebhookStep(t, h, event, faults).tables;
    WebhookValid(t, h, event, faults);
    FreshUserId(t');
    GetOrCreateUserCreates(t', userName, userEmail, false);
  }
}
