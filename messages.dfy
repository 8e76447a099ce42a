/** The conversation directory and the inbox of `app/api/messages/route.ts`.
    `POST` is a get-or-create over the `conversations` table keyed by the
    pair of users as given, looked up in either order; `GET` lists the
    requester's conversations with the other participant and the latest
    message, most recent first. */
module Messages {
  import opened Common
  import opened Sequences
  import opened Sorting

  datatype Conversation = Conversation(id: int, user1: int, user2: int, createdAt: int, updatedAt: int)
  datatype User = User(fullName: string, username: string)
  datatype Message = Message(id: int, conversationId: int, content: string, createdAt: int)

  /** The `conversations` table and its auto-increment counter. */
  datatype Directory = Directory(rows: seq<Conversation>, nextId: int)

  /** The `WHERE` of the lookup: the row stores the pair in either order. */
  predicate StoresPair(c: Conversation, a: int, b: int) {
    (c.user1 == a && c.user2 == b) || (c.user1 == b && c.user2 == a)
  }

  /** No two rows store the same unordered pair of users. */
  predicate PairsUnique(rows: seq<Conversation>) {
    forall i, j :: 0 <= i < j < |rows| ==> !StoresPair(rows[j], rows[i].user1, rows[i].user2)
  }

  /** Every stored id was handed out by the counter, so the counter's
      next value is fresh; and, as long as requests are served one at a
      time, no pair is stored twice. */
  predicate DirectoryValid(d: Directory) {
    d.nextId >= 1 && (forall k :: 0 <= k < |d.rows| ==> 1 <= d.rows[k].id < d.nextId) && PairsUnique(d.rows)
  }

  /** Position of the first row storing the pair, if any. */
  function FindPair(rows: seq<Conversation>, a: int, b: int): (r: Option<nat>)
    ensures r.Some? ==> r.value < |rows| && StoresPair(rows[r.value], a, b)
    ensures r.Some? ==> forall k :: 0 <= k < r.value ==> !StoresPair(rows[k], a, b)
    ensures r.None? ==> forall k :: 0 <= k < |rows| ==> !StoresPair(rows[k], a, b)
  {
    if rows == [] then None
    else if StoresPair(rows[0], a, b) then Some(0)
    else match FindPair(rows[1..], a, b)
      case None => None
      case Some(k) => Some(k + 1)
  }

  /** The lookup does not depend on the order in which the pair is given. */
  lemma FindPairSymmetric(rows: seq<Conversation>, a: int, b: int)
    ensures FindPair(rows, a, b) == FindPair(rows, b, a)
  {
    var p, q := FindPair(rows, a, b), FindPair(rows, b, a);
    if p.Some? {
      assert StoresPair(rows[p.value], b, a);
    }
    if q.Some? {
      assert StoresPair(rows[q.value], a, b);
    }
  }

  /** Response of `POST`: 400 "Missing required fields", or the id. */
  datatype PostResponse = MissingFields | ConversationId(id: int)

  /** `POST`: both ids present, then the first row storing the pair in either
      order, else a new row `(userId, otherUserId)` with the counter's id. */
  function GetOrCreate(d: Directory, userId: Option<int>, otherUserId: Option<int>, now: int): (r: (Directory, PostResponse))
    requires DirectoryValid(d)
    ensures DirectoryValid(r.0)
    ensures !IdPresent(userId) || !IdPresent(otherUserId) ==> r == (d, MissingFields)
    ensures IdPresent(userId) && IdPresent(otherUserId) ==> r.1.ConversationId?
    ensures r.1.ConversationId? ==> exists k :: 0 <= k < |r.0.rows| && r.0.rows[k].id == r.1.id &&
                                                StoresPair(r.0.rows[k], userId.value, otherUserId.value)
    ensures r.0 == d || (r.0.rows == d.rows + [Conversation(d.nextId, userId.value, otherUserId.value, now, now)] &&
                         r.0.nextId == d.nextId + 1 && r.1 == ConversationId(d.nextId) &&
                         forall k :: 0 <= k < |d.rows| ==> d.rows[k].id != r.1.id &&
                                                           !StoresPair(d.rows[k], userId.value, otherUserId.value))
  {
    if !IdPresent(userId) || !IdPresent(otherUserId) then (d, MissingFields)
    else match FindPair(d.rows, userId.value, otherUserId.value)
      case Some(k) => (d, ConversationId(d.rows[k].id))
      case None =>
        var c := Conversation(d.nextId, userId.value, otherUserId.value, now, now);
        var d' := Directory(d.rows + [c], d.nextId + 1);
        assert d'.rows[|d.rows|] == c;
        (d', ConversationId(d.nextId))
  }

  /** A row storing the pair already exists: its id comes back and the
      table is left alone. */
  lemma GetOrCreateFinds(d: Directory, a: int, b: int, now: int, k: nat)
    requires DirectoryValid(d) && a != 0 && b != 0
    requires k < |d.rows| && StoresPair(d.rows[k], a, b)
    requires forall j :: 0 <= j < k ==> !StoresPair(d.rows[j], a, b)
    ensures GetOrCreate(d, Some(a), Some(b), now) == (d, ConversationId(d.rows[k].id))
  {
    var p := FindPair(d.rows, a, b);
    assert p.Some?;
    assert p.value == k by {
      if p.value < k {
      } else if p.value > k {
      }
    }
  }

  /** Sequential get-or-create is idempotent and symmetric: after `(a, b)`,
      asking again for `(a, b)` or for `(b, a)` returns the same id and adds
      nothing, so the two calls add at most one row together. */
  lemma GetOrCreateStable(d: Directory, a: int, b: int, now: int, later: int)
    requires DirectoryValid(d) && a != 0 && b != 0
    ensures var (d1, r1) := GetOrCreate(d, Some(a), Some(b), now);
            GetOrCreate(d1, Some(a), Some(b), later) == (d1, r1) &&
            GetOrCreate(d1, Some(b), Some(a), later) == (d1, r1) &&
            |d1.rows| <= |d.rows| + 1
  {
    var (d1, r1) := GetOrCreate(d, Some(a), Some(b), now);
    FindPairSymmetric(d1.rows, a, b);
    match FindPair(d.rows, a, b)
    case Some(k) =>
      GetOrCreateFinds(d, a, b, later, k);
    case None =>
      var n := |d.rows|;
      assert d1.rows[n] == Conversation(d.nextId, a, b, now, now);
      assert forall j :: 0 <= j < n ==> d1.rows[j] == d.rows[j];
      GetOrCreateFinds(d1, a, b, later, n);
  }

  /** The `conversations` table as the route sees it across requests. */
  class ConversationDirectory {
    var rows: seq<Conversation>
    var nextId: int

    ghost predicate Valid()
      reads this
    {
      DirectoryValid(Directory(rows, nextId))
    }

    constructor ()
      ensures Valid() && rows == [] && nextId == 1
    {
      rows := [];
      nextId := 1;
    }

    /** `POST /api/messages`. */
    method Post(userId: Option<int>, otherUserId: Option<int>, now: int) returns (resp: PostResponse)
      requires Valid()
      modifies this
      ensures Valid()
      ensures (Directory(rows, nextId), resp) == GetOrCreate(Directory(old(rows), old(nextId)), userId, otherUserId, now)
    {
      if !IdPresent(userId) || !IdPresent(otherUserId) {
        return MissingFields;
      }
      var existing := FindPair(rows, userId.value, otherUserId.value);
      if existing.Some? {
        resp := ConversationId(rows[existing.value].id);
      } else {
        var insertId := nextId;
        rows := rows + [Conversation(insertId, userId.value, otherUserId.value, now, now)];
        nextId := nextId + 1;
        resp := ConversationId(insertId);
      }
    }
  }

  // ---------------------------------------------------------------- GET

  predicate Participant(c: Conversation, u: int) {
    c.user1 == u || c.user2 == u
  }

  /** The `CASE` of the select list: `user_2_id` when the requester is
      `user_1_id`, otherwise `user_1_id`. */
  function OtherUser(c: Conversation, u: int): int {
    if c.user1 == u then c.user2 else c.user1
  }

  /** A message of conversation `cid` with the greatest `created_at`, or
      `None` when it has no message. Among equal timestamps this picks the
      first in table order; SQL leaves that choice open. */
  function Latest(msgs: seq<Message>, cid: int): (r: Option<Message>)
    ensures r.None? <==> forall k :: 0 <= k < |msgs| ==> msgs[k].conversationId != cid
    ensures r.Some? ==> r.value in msgs && r.value.conversationId == cid
    ensures r.Some? ==> forall k :: 0 <= k < |msgs| && msgs[k].conversationId == cid ==>
                                    msgs[k].createdAt <= r.value.createdAt
  {
    if msgs == [] then None
    else
      var rest := Latest(msgs[1..], cid);
      assert forall k :: 1 <= k < |msgs| ==> msgs[k] == msgs[1..][k - 1];
      if msgs[0].conversationId != cid then rest
      else if rest.Some? && rest.value.createdAt > msgs[0].createdAt then rest
      else Some(msgs[0])
  }

  datatype InboxRow = InboxRow(id: int, otherUserId: int, otherUserName: string, username: string,
                               lastMessage: Option<string>, lastMessageAt: Option<int>)

  /** A row of the result together with its `ORDER BY` value
      `COALESCE(m.created_at, c.updated_at)`, which is not sent. */
  datatype Entry = Entry(row: InboxRow, recency: int)

  /** `WHERE` plus the inner `JOIN users`: the requester takes part and the
      other participant has a user row. */
  predicate Listed(c: Conversation, users: map<int, User>, u: int) {
    Participant(c, u) && OtherUser(c, u) in users
  }

  function EntryFor(c: Conversation, users: map<int, User>, msgs: seq<Message>, u: int): Entry
    requires OtherUser(c, u) in users
  {
    var other := users[OtherUser(c, u)];
    match Latest(msgs, c.id)
    case None => Entry(InboxRow(c.id, OtherUser(c, u), other.fullName, other.username, None, None), c.updatedAt)
    case Some(m) => Entry(InboxRow(c.id, OtherUser(c, u), other.fullName, other.username, Some(m.content), Some(m.createdAt)), m.createdAt)
  }

  /** The conversations the `WHERE` and the inner join keep, in table order. */
  function ListedIn(convs: seq<Conversation>, users: map<int, User>, u: int): (r: seq<Conversation>)
    ensures forall c :: c in r <==> c in convs && Listed(c, users, u)
  {
    Filter(convs, (c: Conversation) => Listed(c, users, u))
  }

  /** The joined rows before ordering, in table order. */
  function Joined(convs: seq<Conversation>, users: map<int, User>, msgs: seq<Message>, u: int): (r: seq<Entry>)
    ensures |r| <= |convs|
    ensures forall e :: e in r <==> exists c :: c in convs && Listed(c, users, u) && e == EntryFor(c, users, msgs, u)
  {
    if convs == [] then []
    else
      var rest := Joined(convs[1..], users, msgs, u);
      assert forall c :: c in convs <==> c == convs[0] || c in convs[1..];
      if Listed(convs[0], users, u) then [EntryFor(convs[0], users, msgs, u)] + rest else rest
  }

  /** The join yields one entry per listed conversation, in the same
      position: no conversation is dropped or repeated. */
  lemma {:induction false} JoinedOnePerConversation(convs: seq<Conversation>, users: map<int, User>, msgs: seq<Message>, u: int)
    ensures var l := ListedIn(convs, users, u);
            |Joined(convs, users, msgs, u)| == |l| &&
            forall k :: 0 <= k < |l| ==> Listed(l[k], users, u) &&
                                         Joined(convs, users, msgs, u)[k] == EntryFor(l[k], users, msgs, u)
  {
    if convs != [] {
      JoinedOnePerConversation(convs[1..], users, msgs, u);
      var l, l1 := ListedIn(convs, users, u), ListedIn(convs[1..], users, u);
      var r, r1 := Joined(convs, users, msgs, u), Joined(convs[1..], users, msgs, u);
      if Listed(convs[0], users, u) {
        assert l == [convs[0]] + l1;
        assert r == [EntryFor(convs[0], users, msgs, u)] + r1;
        forall k | 1 <= k < |l| ensures Listed(l[k], users, u) && r[k] == EntryFor(l[k], users, msgs, u) {
          assert l[k] == l1[k - 1] && r[k] == r1[k - 1];
        }
      } else {
        assert l == l1 && r == r1;
      }
    }
  }

  /** Response of `GET`: 400 "User ID required", or the ordered rows. */
  datatype InboxResponse = UserIdRequired | Conversations(entries: seq<Entry>)

  /** `GET /api/messages?userId=...`; `userId` is `None` when the parameter
      is absent or empty. */
  function ListConversations(convs: seq<Conversation>, users: map<int, User>, msgs: seq<Message>, userId: Option<int>): (r: InboxResponse)
    ensures r.UserIdRequired? <==> userId.None?
    ensures r.Conversations? ==> multiset(r.entries) == multiset(Joined(convs, users, msgs, userId.value))
    ensures r.Conversations? ==> forall i, j :: 0 <= i < j < |r.entries| ==> r.entries[i].recency >= r.entries[j].recency
  {
    if userId.None? then UserIdRequired
    else
      var sorted := SortBy(Joined(convs, users, msgs, userId.value), (e: Entry) => Key(-e.recency, 0));
      assert forall i, j :: 0 <= i < j < |sorted| ==> KeyLe(Key(-sorted[i].recency, 0), Key(-sorted[j].recency, 0));
      Conversations(sorted)
  }

  /** The inbox lists exactly the conversations in which the requester is
      `user_1_id` or `user_2_id` and whose other participant has a user row;
      each entry names the other participant and the latest message. */
  lemma InboxExactly(convs: seq<Conversation>, users: map<int, User>, msgs: seq<Message>, u: int, e: Entry)
    ensures e in ListConversations(convs, users, msgs, Some(u)).entries <==>
            exists c :: c in convs && Participant(c, u) && OtherUser(c, u) in users && e == EntryFor(c, users, msgs, u)
  {
    var r := ListConversations(convs, users, msgs, Some(u));
    assert e in r.entries <==> e in multiset(r.entries);
    assert e in Joined(convs, users, msgs, u) <==> e in multiset(Joined(convs, users, msgs, u));
  }

  /** What an entry says about its conversation: the other participant,
      and the latest message (or none when the conversation is empty). */
  lemma EntryForMeaning(c: Conversation, users: map<int, User>, msgs: seq<Message>, u: int)
    requires Listed(c, users, u)
    ensures var e := EntryFor(c, users, msgs, u);
            e.row.id == c.id &&
            e.row.otherUserId in {c.user1, c.user2} &&
            (c.user1 == u ==> e.row.otherUserId == c.user2) &&
            (c.user1 != u ==> e.row.otherUserId == c.user1 && c.user2 == u) &&
            (e.row.lastMessage.None? <==> forall m :: m in msgs ==> m.conversationId != c.id) &&
            (e.row.lastMessageAt.Some? ==>
               e.recency == e.row.lastMessageAt.value &&
               forall m :: m in msgs && m.conversationId == c.id ==> m.createdAt <= e.recency) &&
            (e.row.lastMessageAt.None? ==> e.recency == c.updatedAt)
  {
    var e := EntryFor(c, users, msgs, u);
    var l := Latest(msgs, c.id);
    forall m | m in msgs && l.Some? && m.conversationId == c.id ensures m.createdAt <= l.value.createdAt {
      var k :| 0 <= k < |msgs| && msgs[k] == m;
    }
    if l.None? {
      forall m | m in msgs ensures m.conversationId != c.id {
        var k :| 0 <= k < |msgs| && msgs[k] == m;
      }
    }
  }
}
