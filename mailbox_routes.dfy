/**
 * The mailbox routes: the bearer-token gate every route passes through,
 * then listing, creating and deleting the caller's mailboxes and listing a
 * mailbox's emails. Each handler runs against a `Database`; the clock
 * (`nowMs`) and the id generator (`newId`) are parameters.
 */
module MailboxRoutes {
  import opened Options
  import opened JsString
  import opened Token
  import opened Tables
  import opened Dao
  import opened Http

  const MsPerHour: nat := 60 * 60 * 1000

  // ------------------------------------------------------------ the gate

  /**
   * `authMiddleware`: 401 when there is no bearer token (an empty one
   * included) or the token does not verify; otherwise the caller's user id.
   */
  function Authenticate(env: Env, authorization: Option<string>, nowMs: nat): (r: Reply<string>)
    ensures r.Error? ==> r.status == Unauthorized
    ensures r.Ok? <==> && ExtractToken(authorization).Some? && ExtractToken(authorization).value != ""
                       && VerifyToken(ExtractToken(authorization).value, env.cookiesSecret, nowMs).Some?
    ensures r.Ok? ==> Some(r.body) == VerifyToken(ExtractToken(authorization).value, env.cookiesSecret, nowMs)
  {
    var token := ExtractToken(authorization);
    if token.None? || token.value == "" then Error(Unauthorized)
    else match VerifyToken(token.value, env.cookiesSecret, nowMs)
      case None => Error(Unauthorized)
      case Some(userId) => Ok(userId)
  }

  /** A token issued for a user, sent as `Bearer <token>` before it expires, lets that user through. */
  lemma AuthenticateIssuedToken(env: Env, userId: string, issuedMs: nat, nowMs: nat)
    requires Latin1(userId) && Latin1(env.cookiesSecret)
    requires nowMs / 1000 <= issuedMs / 1000 + Lifetime
    ensures Authenticate(env, Some("Bearer " + GenerateToken(userId, env.cookiesSecret, issuedMs).value), nowMs) == Ok(userId)
  {
    var token := GenerateToken(userId, env.cookiesSecret, issuedMs).value;
    ExtractBearer(token);
    GeneratedTokenHasThreeParts(userId, env.cookiesSecret, issuedMs);
    VerifyGeneratedToken(userId, env.cookiesSecret, issuedMs, nowMs);
  }

  // ------------------------------------------------------------ addresses and expiry

  /** The characters `/^[a-zA-Z0-9._-]+$/` admits. */
  predicate IsLocalPartChar(c: char) {
    ('a' <= c <= 'z') || ('A' <= c <= 'Z') || ('0' <= c <= '9') || c == '.' || c == '_' || c == '-'
  }

  /** `/^[a-zA-Z0-9._-]+$/.test(localPart)`. */
  predicate ValidLocalPart(localPart: string) {
    |localPart| > 0 && forall i :: 0 <= i < |localPart| ==> IsLocalPartChar(localPart[i])
  }

  /** `EMAIL_DOMAIN.split(',')[0].trim()`: the first configured domain, without surrounding whitespace. */
  function PrimaryDomain(emailDomain: string): (domain: string)
    ensures ',' !in domain
    ensures |domain| > 0 ==> !IsJsWhitespace(domain[0]) && !IsJsWhitespace(domain[|domain| - 1])
  {
    SplitPiecesLackSeparator(emailDomain, ',');
    var first := Split(emailDomain, ',')[0];
    var domain := Trim(first);
    assert forall i :: 0 <= i < |domain| ==> domain[i] == first[LeadingWhitespace(first) + i];
    domain
  }

  /**
   * The mail domain is the first comma-separated entry of `EMAIL_DOMAIN`
   * with surrounding whitespace removed, whatever the other entries are.
   */
  lemma PrimaryDomainOfList(first: string, rest: string)
    requires ',' !in first
    ensures PrimaryDomain(first) == Trim(first)
    ensures PrimaryDomain(first + "," + rest) == Trim(first)
  {
    SplitNoSeparator(first, ',');
    assert first + "," + rest == first + [','] + rest;
    SplitAfterPiece(first, ',', rest);
  }

  /** The address of a new mailbox: `${localPart}@${domain}`. */
  function MailboxAddress(localPart: string, emailDomain: string): string {
    localPart + "@" + PrimaryDomain(emailDomain)
  }

  /**
   * The local part can be read back from an address: it is everything
   * before the first `@`. So two valid local parts give the same address
   * only when they are equal.
   */
  lemma AddressDeterminesLocalPart(a: string, b: string, emailDomain: string)
    requires ValidLocalPart(a) && ValidLocalPart(b)
    ensures Split(MailboxAddress(a, emailDomain), '@')[0] == a
    ensures MailboxAddress(a, emailDomain) == MailboxAddress(b, emailDomain) <==> a == b
  {
    var d := PrimaryDomain(emailDomain);
    assert '@' !in a by { forall i | 0 <= i < |a| ensures a[i] != '@' { assert IsLocalPartChar(a[i]); } }
    assert '@' !in b by { forall i | 0 <= i < |b| ensures b[i] != '@' { assert IsLocalPartChar(b[i]); } }
    assert MailboxAddress(a, emailDomain) == a + ['@'] + d;
    assert MailboxAddress(b, emailDomain) == b + ['@'] + d;
    SplitAfterPiece(a, '@', d);
    SplitAfterPiece(b, '@', d);
  }

  /**
   * The expiry of a new mailbox: `now + expiryHours` hours when
   * `expiryHours` is present and positive; otherwise none, i.e. permanent.
   */
  function ExpiresAt(expiryHours: Option<int>, nowMs: int): (expiresAt: Option<int>)
    ensures expiresAt.Some? <==> expiryHours.Some? && expiryHours.value > 0
    ensures expiresAt.Some? ==> expiresAt.value >= nowMs + MsPerHour
  {
    if expiryHours.Some? && expiryHours.value != 0 && expiryHours.value > 0 then
      Some(nowMs + expiryHours.value * MsPerHour)
    else None
  }

  /**
   * A mailbox created with `expiryHours` at `nowMs` is taken by the sweep at
   * time `t` exactly when it was given a positive lifetime and `t` is later
   * than its end; a permanent mailbox is never taken.
   */
  lemma SweepTakesMailboxAfterItsLifetime(m: Mailbox, expiryHours: Option<int>, nowMs: int, t: int)
    requires m.expiresAt == ExpiresAt(expiryHours, nowMs)
    ensures ExpiredAt(m, t) <==> expiryHours.Some? && expiryHours.value > 0 && t > nowMs + expiryHours.value * MsPerHour
  {
  }

  // ------------------------------------------------------------ ownership

  /** The mailbox id is among the user's mailboxes. */
  predicate Owns(mailboxes: seq<Mailbox>, userId: string, mailboxId: string) {
    exists i :: 0 <= i < |mailboxes| && mailboxes[i].userId == userId && mailboxes[i].id == mailboxId
  }

  /** `userMailboxes.find(m => m.id === mailboxId)`: a linear scan for the first row with that id. */
  method FindMailbox(userMailboxes: seq<Mailbox>, mailboxId: string) returns (found: Option<Mailbox>)
    ensures found.None? <==> forall i :: 0 <= i < |userMailboxes| ==> userMailboxes[i].id != mailboxId
    ensures found.Some? ==> exists k :: 0 <= k < |userMailboxes| && userMailboxes[k] == found.value
                                       && found.value.id == mailboxId
                                       && forall j :: 0 <= j < k ==> userMailboxes[j].id != mailboxId
  {
    var i := 0;
    while i < |userMailboxes|
      invariant 0 <= i <= |userMailboxes|
      invariant forall j :: 0 <= j < i ==> userMailboxes[j].id != mailboxId
    {
      if userMailboxes[i].id == mailboxId {
        return Some(userMailboxes[i]);
      }
      i := i + 1;
    }
    return None;
  }

  /** The ownership guard: the caller's mailbox with that id, found by scanning the caller's list. */
  method FindOwnedMailbox(db: Database, userId: string, mailboxId: string) returns (found: Option<Mailbox>)
    ensures found.None? <==> !Owns(db.mailboxes, userId, mailboxId)
    ensures found.Some? ==> found.value in db.mailboxes && found.value.userId == userId && found.value.id == mailboxId
  {
    var userMailboxes := db.GetMailboxesByUserId(userId);
    found := FindMailbox(userMailboxes, mailboxId);
  }

  // ------------------------------------------------------------ handlers

  /** The fields of a mailbox a reply shows. */
  datatype MailboxView = MailboxView(id: string, address: string, expiresAt: Option<int>, createdAt: int)

  function View(m: Mailbox): MailboxView {
    MailboxView(m.id, m.address, m.expiresAt, m.createdAt)
  }

  function Views(ms: seq<Mailbox>): (vs: seq<MailboxView>)
    ensures |vs| == |ms| && forall i :: 0 <= i < |ms| ==> vs[i] == View(ms[i])
  {
    seq(|ms|, i requires 0 <= i < |ms| => View(ms[i]))
  }

  /** `GET /`: the caller's mailboxes, newest first. */
  method ListMailboxes(db: Database, env: Env, authorization: Option<string>, nowMs: nat)
    returns (r: Reply<seq<MailboxView>>)
    ensures Authenticate(env, authorization, nowMs).Error? ==> r == Error(Unauthorized)
    ensures Authenticate(env, authorization, nowMs).Ok? ==>
              r == Ok(Views(db.GetMailboxesByUserId(Authenticate(env, authorization, nowMs).body)))
  {
    var auth := Authenticate(env, authorization, nowMs);
    if auth.Error? {
      return Error(Unauthorized);
    }
    var userMailboxes := db.GetMailboxesByUserId(auth.body);
    return Ok(Views(userMailboxes));
  }

  /** No two mailboxes share an address. */
  predicate UniqueAddresses(ms: seq<Mailbox>) {
    forall i, j :: 0 <= i < j < |ms| ==> ms[i].address != ms[j].address
  }

  /**
   * `POST /`: 401 without a valid token; 400 for a missing, empty or
   * malformed local part; 409 when any mailbox, whoever owns it, already
   * has the address; otherwise one new mailbox owned by the caller. Every
   * refusal leaves the store as it was.
   */
  method CreateMailbox(db: Database, env: Env, authorization: Option<string>,
                       localPart: Option<string>, expiryHours: Option<int>, nowMs: nat, newId: string)
    returns (r: Reply<MailboxView>)
    modifies db
    ensures Authenticate(env, authorization, nowMs).Error? ==> r == Error(Unauthorized) && unchanged(db)
    ensures Authenticate(env, authorization, nowMs).Ok? && (localPart.None? || !ValidLocalPart(localPart.value)) ==>
              r == Error(BadRequest) && unchanged(db)
    ensures Authenticate(env, authorization, nowMs).Ok? && localPart.Some? && ValidLocalPart(localPart.value) ==>
              var address := MailboxAddress(localPart.value, env.emailDomain);
              var row := Mailbox(newId, Authenticate(env, authorization, nowMs).body, address,
                                 ExpiresAt(expiryHours, nowMs), nowMs, nowMs);
              if exists i :: 0 <= i < |old(db.mailboxes)| && old(db.mailboxes)[i].address == address
              then r == Error(Conflict) && unchanged(db)
              else r == Ok(View(row)) && db.mailboxes == old(db.mailboxes) + [row]
                   && db.users == old(db.users) && db.emails == old(db.emails)
    ensures UniqueAddresses(old(db.mailboxes)) ==> UniqueAddresses(db.mailboxes)
  {
    var auth := Authenticate(env, authorization, nowMs);
    if auth.Error? {
      return Error(Unauthorized);
    }
    var userId := auth.body;
    if localPart.None? || localPart.value == "" {
      return Error(BadRequest);
    }
    if !ValidLocalPart(localPart.value) {
      return Error(BadRequest);
    }
    var address := MailboxAddress(localPart.value, env.emailDomain);
    var existing := db.FindMailboxByAddress(address);
    if existing.Some? {
      return Error(Conflict);
    }
    var expiresAt := ExpiresAt(expiryHours, nowMs);
    var mailbox := db.CreateMailbox(Mailbox(newId, userId, address, expiresAt, nowMs, nowMs));
    return Ok(View(mailbox));
  }

  /**
   * `DELETE /:id`: 401 without a valid token; the same 404 whether the
   * mailbox does not exist or belongs to someone else; otherwise its row
   * is deleted. Emails are not touched.
   */
  method DeleteMailbox(db: Database, env: Env, authorization: Option<string>, mailboxId: string, nowMs: nat)
    returns (r: Reply<()>)
    modifies db
    ensures Authenticate(env, authorization, nowMs).Error? ==> r == Error(Unauthorized) && unchanged(db)
    ensures Authenticate(env, authorization, nowMs).Ok? &&
            !Owns(old(db.mailboxes), Authenticate(env, authorization, nowMs).body, mailboxId) ==>
              r == Error(NotFound) && unchanged(db)
    ensures Authenticate(env, authorization, nowMs).Ok? &&
            Owns(old(db.mailboxes), Authenticate(env, authorization, nowMs).body, mailboxId) ==>
              r == Ok(()) && db.mailboxes == Filter(old(db.mailboxes), (m: Mailbox) => m.id != mailboxId)
              && db.users == old(db.users) && db.emails == old(db.emails)
  {
    var auth := Authenticate(env, authorization, nowMs);
    if auth.Error? {
      return Error(Unauthorized);
    }
    var mailbox := FindOwnedMailbox(db, auth.body, mailboxId);
    if mailbox.None? {
      return Error(NotFound);
    }
    assert mailbox.value in Filter(db.mailboxes, (m: Mailbox) => m.id == mailboxId);
    var count := db.DeleteMailbox(mailboxId);
    if count == 0 {
      return Error(ServerError);
    }
    return Ok(());
  }

  /**
   * `GET /:id/emails`: 401 without a valid token; the same 404 whether the
   * mailbox does not exist or belongs to someone else; otherwise its
   * emails, newest first.
   */
  method ListEmails(db: Database, env: Env, authorization: Option<string>, mailboxId: string, nowMs: nat)
    returns (r: Reply<seq<Email>>)
    ensures Authenticate(env, authorization, nowMs).Error? ==> r == Error(Unauthorized)
    ensures Authenticate(env, authorization, nowMs).Ok? &&
            !Owns(db.mailboxes, Authenticate(env, authorization, nowMs).body, mailboxId) ==>
              r == Error(NotFound)
    ensures Authenticate(env, authorization, nowMs).Ok? &&
            Owns(db.mailboxes, Authenticate(env, authorization, nowMs).body, mailboxId) ==>
              r == Ok(db.GetEmailsByMailboxId(mailboxId))
  {
    var auth := Authenticate(env, authorization, nowMs);
    if auth.Error? {
      return Error(Unauthorized);
    }
    var mailbox := FindOwnedMailbox(db, auth.body, mailboxId);
    if mailbox.None? {
      return Error(NotFound);
    }
    var emails := db.GetEmailsByMailboxId(mailboxId);
    return Ok(emails);
  }
}
