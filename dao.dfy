/**
 * The data-access layer: three tables (users, mailboxes, emails) held as
 * sequences of rows in storage order, one method per mutating DAO function
 * and one function per lookup. Timestamps are milliseconds since the epoch.
 * Only the success path of each storage call is modelled; no schema
 * constraint is assumed, so inserts always succeed and ids may repeat.
 */
module Dao {
  import opened Options
  import opened Tables

  datatype User = User(id: string, username: string, passwordHash: string, createdAt: int, updatedAt: int)

  /** A mailbox; `expiresAt == None` is a permanent mailbox. */
  datatype Mailbox = Mailbox(id: string, userId: string, address: string, expiresAt: Option<int>,
                             createdAt: int, updatedAt: int)

  /** A delivered message. `messageTo` is the recipient address as received. */
  datatype Email = Email(id: string, mailboxId: string, messageTo: string, messageFrom: string,
                         subject: string, text: string, html: string, createdAt: int)

  /** The condition of the sweep: a non-null expiry strictly before `now` (SQL `NULL < now` is not true). */
  predicate ExpiredAt(m: Mailbox, now: int) {
    m.expiresAt.Some? && m.expiresAt.value < now
  }

  /** `expiredMailboxes.map(m => m.id)`. */
  function Ids(ms: seq<Mailbox>): (ids: seq<string>)
    ensures |ids| == |ms|
    ensures forall i :: 0 <= i < |ms| ==> ids[i] == ms[i].id
  {
    seq(|ms|, i requires 0 <= i < |ms| => ms[i].id)
  }

  /** Every mailbox row has its own id. */
  predicate UniqueMailboxIds(ms: seq<Mailbox>) {
    forall i, j :: 0 <= i < j < |ms| ==> ms[i].id != ms[j].id
  }

  /**
   * With distinct mailbox ids, deleting by the ids of the expired rows
   * deletes exactly the expired rows, and as many rows as expired.
   */
  lemma SweepRemovesExactlyExpired(ms: seq<Mailbox>, now: int)
    requires UniqueMailboxIds(ms)
    ensures var ids := Ids(Filter(ms, (m: Mailbox) => ExpiredAt(m, now)));
            && Filter(ms, (m: Mailbox) => m.id !in ids) == Filter(ms, (m: Mailbox) => !ExpiredAt(m, now))
            && |ms| - |Filter(ms, (m: Mailbox) => m.id !in ids)| == |Filter(ms, (m: Mailbox) => ExpiredAt(m, now))|
  {
    var expired := Filter(ms, (m: Mailbox) => ExpiredAt(m, now));
    var ids := Ids(expired);
    forall i | 0 <= i < |ms| ensures (ms[i].id !in ids) == !ExpiredAt(ms[i], now) {
      if ExpiredAt(ms[i], now) {
        assert ms[i] in expired;
        var k :| 0 <= k < |expired| && expired[k] == ms[i];
        assert ids[k] == ms[i].id;
      }
    }
    FilterCongruent(ms, (m: Mailbox) => m.id !in ids, (m: Mailbox) => !ExpiredAt(m, now));
    FilterPartition(ms, (m: Mailbox) => ExpiredAt(m, now), (m: Mailbox) => !ExpiredAt(m, now));
  }

  /** Deleting by the ids of the expired rows leaves no expired row, whatever the ids. */
  lemma SweepLeavesNoExpired(ms: seq<Mailbox>, now: int)
    ensures var ids := Ids(Filter(ms, (m: Mailbox) => ExpiredAt(m, now)));
            forall m :: m in Filter(ms, (m: Mailbox) => m.id !in ids) ==> !ExpiredAt(m, now)
  {
    var expired := Filter(ms, (m: Mailbox) => ExpiredAt(m, now));
    var ids := Ids(expired);
    var kept := Filter(ms, (m: Mailbox) => m.id !in ids);
    forall m | m in kept ensures !ExpiredAt(m, now) {
      var i :| 0 <= i < |kept| && kept[i] == m;
    }
  }

  /** The first user with that name, in storage order. */
  function UserByName(users: seq<User>, username: string): (r: Option<User>)
    ensures r.None? <==> forall i :: 0 <= i < |users| ==> users[i].username != username
    ensures r.Some? ==> r.value in users && r.value.username == username
    ensures r.Some? ==> exists k :: 0 <= k < |users| && users[k] == r.value
                                   && forall j :: 0 <= j < k ==> users[j].username != username
  {
    FindFirst(users, (u: User) => u.username == username)
  }

  /** A user stored under a name no other user has is the one a lookup by that name finds. */
  lemma UserByNameAfterInsert(users: seq<User>, user: User)
    requires UserByName(users, user.username).None?
    ensures UserByName(users + [user], user.username) == Some(user)
  {
    var all := users + [user];
    var r := UserByName(all, user.username);
    assert all[|users|] == user;
    var k :| 0 <= k < |all| && all[k] == r.value && forall j :: 0 <= j < k ==> all[j].username != user.username;
  }

  /**
   * Once no mailbox is expired at `now`, a sweep at `now` finds nothing to
   * delete; with `DeleteExpiredMailboxes` leaving no expired row, a second
   * sweep at the same time deletes nothing.
   */
  lemma SweepIdempotent(ms: seq<Mailbox>, now: int)
    requires forall m :: m in ms ==> !ExpiredAt(m, now)
    ensures Filter(ms, (m: Mailbox) => ExpiredAt(m, now)) == []
  {
    FilterAllOrNothing(ms, (m: Mailbox) => ExpiredAt(m, now));
  }

  class Database {
    var users: seq<User>
    var mailboxes: seq<Mailbox>
    var emails: seq<Email>

    constructor ()
      ensures users == [] && mailboxes == [] && emails == []
    {
      users, mailboxes, emails := [], [], [];
    }

    // ------------------------------------------------------------ emails

    /** `insertEmail`: appends one row to the emails table. */
    method InsertEmail(email: Email)
      modifies this
      ensures emails == old(emails) + [email]
      ensures users == old(users) && mailboxes == old(mailboxes)
    {
      emails := emails + [email];
    }

    /** `getEmails`: every stored email; no order is requested. */
    function GetEmails(): (r: seq<Email>)
      reads this
      ensures multiset(r) == multiset(emails)
    {
      emails
    }

    /** `findEmailById`: the row with that id, but only when exactly one row has it. */
    function FindEmailById(id: string): (r: Option<Email>)
      reads this
      ensures r.Some? <==> |Filter(emails, (e: Email) => e.id == id)| == 1
      ensures r.Some? ==> r.value in emails && r.value.id == id
      ensures r.Some? ==> forall i :: 0 <= i < |emails| && emails[i].id == id ==> emails[i] == r.value
    {
      var found := Filter(emails, (e: Email) => e.id == id);
      if |found| != 1 then None
      else
        assert forall i :: 0 <= i < |emails| && emails[i].id == id ==> emails[i] == found[0] by {
          forall i | 0 <= i < |emails| && emails[i].id == id ensures emails[i] == found[0] {
            assert emails[i] in found;
          }
        }
        Some(found[0])
    }

    /** `getEmailsByMessageTo`: the emails sent to an address, newest first. */
    function GetEmailsByMessageTo(messageTo: string): (r: seq<Email>)
      reads this
      ensures SortedDesc(r, (e: Email) => e.createdAt)
      ensures multiset(r) == multiset(Filter(emails, (e: Email) => e.messageTo == messageTo))
      ensures forall e :: e in r <==> e in emails && e.messageTo == messageTo
    {
      var r := SortDesc(Filter(emails, (e: Email) => e.messageTo == messageTo), (e: Email) => e.createdAt);
      assert forall e :: e in r <==> e in multiset(Filter(emails, (e: Email) => e.messageTo == messageTo));
      r
    }

    /** `getEmailsCount`: the number of stored emails. */
    function GetEmailsCount(): (n: nat)
      reads this
      ensures n == |GetEmails()|
    {
      |emails|
    }

    /**
     * `deleteEmails`: an empty id list is a no-op returning 0; otherwise every
     * email whose id is listed is removed (unknown ids are ignored) and the
     * count is the number of rows removed.
     */
    method DeleteEmails(ids: seq<string>) returns (count: nat)
      modifies this
      ensures |ids| == 0 ==> count == 0 && emails == old(emails)
      ensures |ids| > 0 ==> emails == Filter(old(emails), (e: Email) => e.id !in ids)
      ensures |ids| > 0 ==> count == |Filter(old(emails), (e: Email) => e.id in ids)|
      ensures count == |old(emails)| - |emails|
      ensures users == old(users) && mailboxes == old(mailboxes)
    {
      if |ids| == 0 {
        return 0;
      }
      var before := emails;
      emails := Filter(emails, (e: Email) => e.id !in ids);
      FilterPartition(before, (e: Email) => e.id in ids, (e: Email) => e.id !in ids);
      count := |before| - |emails|;
    }

    /** `deleteExpiredEmails`: removes every email created strictly before `expirationTime`, whatever its mailbox. */
    method DeleteExpiredEmails(expirationTime: int) returns (count: nat)
      modifies this
      ensures emails == Filter(old(emails), (e: Email) => e.createdAt >= expirationTime)
      ensures count == |Filter(old(emails), (e: Email) => e.createdAt < expirationTime)|
      ensures count == |old(emails)| - |emails|
      ensures users == old(users) && mailboxes == old(mailboxes)
    {
      var before := emails;
      emails := Filter(emails, (e: Email) => e.createdAt >= expirationTime);
      FilterPartition(before, (e: Email) => e.createdAt < expirationTime, (e: Email) => e.createdAt >= expirationTime);
      count := |before| - |emails|;
    }

    // ------------------------------------------------------------ users

    /** `createUser`: appends the row and hands it back. */
    method CreateUser(user: User) returns (created: User)
      modifies this
      ensures created == user
      ensures users == old(users) + [user]
      ensures mailboxes == old(mailboxes) && emails == old(emails)
    {
      users := users + [user];
      created := user;
    }

    /** `findUserByUsername`: the first user with that name, in storage order. */
    function FindUserByUsername(username: string): (r: Option<User>)
      reads this
      ensures r == UserByName(users, username)
    {
      UserByName(users, username)
    }

    /** `findUserById`: the first user with that id, in storage order. */
    function FindUserById(userId: string): (r: Option<User>)
      reads this
      ensures r.None? <==> forall i :: 0 <= i < |users| ==> users[i].id != userId
      ensures r.Some? ==> r.value in users && r.value.id == userId
      ensures r.Some? ==> exists k :: 0 <= k < |users| && users[k] == r.value
                                     && forall j :: 0 <= j < k ==> users[j].id != userId
    {
      FindFirst(users, (u: User) => u.id == userId)
    }

    // ------------------------------------------------------------ mailboxes

    /** `createMailbox`: appends the row and hands it back. */
    method CreateMailbox(mailbox: Mailbox) returns (created: Mailbox)
      modifies this
      ensures created == mailbox
      ensures mailboxes == old(mailboxes) + [mailbox]
      ensures users == old(users) && emails == old(emails)
    {
      mailboxes := mailboxes + [mailbox];
      created := mailbox;
    }

    /** `findMailboxByAddress`: the first mailbox with that address, whoever owns it. */
    function FindMailboxByAddress(address: string): (r: Option<Mailbox>)
      reads this
      ensures r.None? <==> forall i :: 0 <= i < |mailboxes| ==> mailboxes[i].address != address
      ensures r.Some? ==> r.value in mailboxes && r.value.address == address
      ensures r.Some? ==> exists k :: 0 <= k < |mailboxes| && mailboxes[k] == r.value
                                     && forall j :: 0 <= j < k ==> mailboxes[j].address != address
    {
      FindFirst(mailboxes, (m: Mailbox) => m.address == address)
    }

    /** `getMailboxesByUserId`: exactly the mailboxes the user owns, newest first. */
    function GetMailboxesByUserId(userId: string): (r: seq<Mailbox>)
      reads this
      ensures SortedDesc(r, (m: Mailbox) => m.createdAt)
      ensures multiset(r) == multiset(Filter(mailboxes, (m: Mailbox) => m.userId == userId))
      ensures forall m :: m in r <==> m in mailboxes && m.userId == userId
    {
      var r := SortDesc(Filter(mailboxes, (m: Mailbox) => m.userId == userId), (m: Mailbox) => m.createdAt);
      assert forall m :: m in r <==> m in multiset(Filter(mailboxes, (m: Mailbox) => m.userId == userId));
      r
    }

    /**
     * `deleteMailbox`: removes the rows with that id and counts them. It
     * deletes no email.
     */
    method DeleteMailbox(mailboxId: string) returns (count: nat)
      modifies this
      ensures mailboxes == Filter(old(mailboxes), (m: Mailbox) => m.id != mailboxId)
      ensures count == |Filter(old(mailboxes), (m: Mailbox) => m.id == mailboxId)|
      ensures count == |old(mailboxes)| - |mailboxes|
      ensures forall m :: m in mailboxes ==> m.id != mailboxId
      ensures count == 0 <==> forall m :: m in old(mailboxes) ==> m.id != mailboxId
      ensures users == old(users) && emails == old(emails)
    {
      var before := mailboxes;
      mailboxes := Filter(mailboxes, (m: Mailbox) => m.id != mailboxId);
      FilterPartition(before, (m: Mailbox) => m.id == mailboxId, (m: Mailbox) => m.id != mailboxId);
      FilterAllOrNothing(before, (m: Mailbox) => m.id == mailboxId);
      count := |before| - |mailboxes|;
      var removed := Filter(before, (m: Mailbox) => m.id == mailboxId);
      if count != 0 {
        assert removed[0] in before && removed[0].id == mailboxId;
      }
    }

    /** `getEmailsByMailboxId`: exactly the emails of one mailbox, newest first. */
    function GetEmailsByMailboxId(mailboxId: string): (r: seq<Email>)
      reads this
      ensures SortedDesc(r, (e: Email) => e.createdAt)
      ensures multiset(r) == multiset(Filter(emails, (e: Email) => e.mailboxId == mailboxId))
      ensures forall e :: e in r <==> e in emails && e.mailboxId == mailboxId
    {
      var r := SortDesc(Filter(emails, (e: Email) => e.mailboxId == mailboxId), (e: Email) => e.createdAt);
      assert forall e :: e in r <==> e in multiset(Filter(emails, (e: Email) => e.mailboxId == mailboxId));
      r
    }

    /**
     * `deleteExpiredMailboxes`: selects the mailboxes whose non-null expiry
     * is before `currentTime`; if there are none, returns 0 and changes
     * nothing. Otherwise deletes every email of a mailbox with one of their
     * ids, then every mailbox with one of their ids, and returns the number
     * of mailboxes deleted.
     */
    method DeleteExpiredMailboxes(currentTime: int) returns (count: nat)
      modifies this
      ensures var expired := Filter(old(mailboxes), (m: Mailbox) => ExpiredAt(m, currentTime));
              && (|expired| == 0 ==> count == 0 && mailboxes == old(mailboxes) && emails == old(emails))
              && (|expired| > 0 ==>
                    && emails == Filter(old(emails), (e: Email) => e.mailboxId !in Ids(expired))
                    && mailboxes == Filter(old(mailboxes), (m: Mailbox) => m.id !in Ids(expired)))
      ensures count == |old(mailboxes)| - |mailboxes|
      ensures forall m :: m in mailboxes ==> !ExpiredAt(m, currentTime)
      ensures UniqueMailboxIds(old(mailboxes)) ==>
                mailboxes == Filter(old(mailboxes), (m: Mailbox) => !ExpiredAt(m, currentTime))
                && count == |Filter(old(mailboxes), (m: Mailbox) => ExpiredAt(m, currentTime))|
      ensures users == old(users)
    {
      var expiredMailboxes := Filter(mailboxes, (m: Mailbox) => ExpiredAt(m, currentTime));
      if |expiredMailboxes| == 0 {
        FilterAllOrNothing(mailboxes, (m: Mailbox) => ExpiredAt(m, currentTime));
        FilterAllOrNothing(mailboxes, (m: Mailbox) => !ExpiredAt(m, currentTime));
        return 0;
      }
      var mailboxIds := Ids(expiredMailboxes);
      emails := Filter(emails, (e: Email) => e.mailboxId !in mailboxIds);
      var before := mailboxes;
      mailboxes := Filter(mailboxes, (m: Mailbox) => m.id !in mailboxIds);
      count := |before| - |mailboxes|;
      SweepLeavesNoExpired(before, currentTime);
      if UniqueMailboxIds(before) {
        SweepRemovesExactlyExpired(before, currentTime);
      }
    }
  }
}
