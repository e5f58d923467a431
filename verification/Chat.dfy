/** Two-party conversations: messages, requests to delete history, and what each side sees and has unread. */
module Chat {
  import opened Basics
  import opened Oids

  const MAX_MESSAGE_LENGTH: nat := 2000

  datatype Message = Message(
    id: nat,
    sender: nat,
    recipient: nat,
    body: string,
    createdAt: Time,
    editedAt: Option<Time>,
    readAt: Option<Time>)

  datatype Status = Pending | Confirmed | Rejected | Restored

  datatype DeletionRequest = DeletionRequest(id: nat, requester: nat, peer: nat, cutoff: Time, status: Status)

  datatype Account = Account(active: bool, deleted: bool)

  datatype ChatError = EmptyText | TooLong | ToSelf | NoSuchPeer | NoSuchMessage | NoSuchRequest

  // ---------------------------------------------------------------- selections

  predicate InPair(m: Message, a: nat, b: nat) {
    (m.sender == a && m.recipient == b) || (m.sender == b && m.recipient == a)
  }

  predicate After(at: Time, cutoff: Option<Time>) {
    cutoff.Some? ==> at > cutoff.value
  }

  predicate Hiding(status: Status) {
    status.Pending? || status.Rejected?
  }

  predicate Hides(r: DeletionRequest, user: nat, peer: nat) {
    r.requester == user && r.peer == peer && Hiding(r.status)
  }

  function Later(a: Option<Time>, b: Option<Time>): Option<Time> {
    if a.None? then b else if b.None? || b.value <= a.value then a else b
  }

  /** The latest cutoff among the requests that hide history from `user`. */
  function HiddenCutoff(requests: seq<DeletionRequest>, user: nat, peer: nat): Option<Time> {
    if requests == [] then None
    else
      var before := HiddenCutoff(requests[..|requests| - 1], user, peer);
      var last := requests[|requests| - 1];
      if Hides(last, user, peer) then Later(before, Some(last.cutoff)) else before
  }

  /** The messages of a pair after a cutoff. */
  function Visible(messages: seq<Message>, user: nat, peer: nat, cutoff: Option<Time>): (r: seq<Message>)
    ensures |r| <= |messages|
  {
    if messages == [] then []
    else
      var before := Visible(messages[..|messages| - 1], user, peer, cutoff);
      var last := messages[|messages| - 1];
      if InPair(last, user, peer) && After(last.createdAt, cutoff) then before + [last] else before
  }

  predicate UnreadTo(m: Message, user: nat) {
    m.recipient == user && m.readAt.None?
  }

  /** Unread messages from one peer after a cutoff. */
  function UnreadFrom(messages: seq<Message>, user: nat, peer: nat, cutoff: Option<Time>): nat {
    if messages == [] then 0
    else
      var last := messages[|messages| - 1];
      UnreadFrom(messages[..|messages| - 1], user, peer, cutoff)
      + (if UnreadTo(last, user) && last.sender == peer && After(last.createdAt, cutoff) then 1 else 0)
  }

  /** The number of messages in the header of every page. */
  function HeaderUnread(messages: seq<Message>, user: nat): nat {
    if messages == [] then 0
    else HeaderUnread(messages[..|messages| - 1], user) + (if UnreadTo(messages[|messages| - 1], user) then 1 else 0)
  }

  function FindRequest(requests: seq<DeletionRequest>, id: nat): (r: Option<nat>)
    ensures r.Some? ==> r.value < |requests| && requests[r.value].id == id
    ensures r.None? ==> forall i :: 0 <= i < |requests| ==> requests[i].id != id
  {
    FindBy(requests, (request: DeletionRequest) => request.id, id)
  }

  function FindMessage(messages: seq<Message>, id: nat): (r: Option<nat>)
    ensures r.Some? ==> r.value < |messages| && messages[r.value].id == id
    ensures r.None? ==> forall i :: 0 <= i < |messages| ==> messages[i].id != id
  {
    FindBy(messages, (m: Message) => m.id, id)
  }

  // ---------------------------------------------------------------- bulk changes

  predicate Marks(m: Message, user: nat, peer: nat, after: Option<Time>, until: Option<Time>) {
    UnreadTo(m, user) && m.sender == peer && After(m.createdAt, after) && (until.Some? ==> m.createdAt <= until.value)
  }

  /** Reading the unread messages from a peer, between two bounds. */
  function Marked(messages: seq<Message>, user: nat, peer: nat, after: Option<Time>, until: Option<Time>,
                  now: Time): seq<Message>
  {
    if messages == [] then []
    else
      var last := messages[|messages| - 1];
      Marked(messages[..|messages| - 1], user, peer, after, until, now)
      + [if Marks(last, user, peer, after, until) then last.(readAt := Some(now)) else last]
  }

  /** Deleting a pair's messages, all of them or those up to a cutoff. */
  function Without(messages: seq<Message>, a: nat, b: nat, until: Option<Time>): (r: seq<Message>)
    ensures |r| <= |messages|
  {
    if messages == [] then []
    else
      var before := Without(messages[..|messages| - 1], a, b, until);
      var last := messages[|messages| - 1];
      if InPair(last, a, b) && (until.Some? ==> last.createdAt <= until.value) then before else before + [last]
  }

  function WithoutRequests(requests: seq<DeletionRequest>, a: nat, b: nat): seq<DeletionRequest> {
    if requests == [] then []
    else
      var before := WithoutRequests(requests[..|requests| - 1], a, b);
      var last := requests[|requests| - 1];
      if (last.requester == a && last.peer == b) || (last.requester == b && last.peer == a) then before
      else before + [last]
  }

  function WithoutUser(requests: seq<DeletionRequest>, user: nat): seq<DeletionRequest> {
    if requests == [] then []
    else
      var before := WithoutUser(requests[..|requests| - 1], user);
      var last := requests[|requests| - 1];
      if last.requester == user || last.peer == user then before else before + [last]
  }

  /** Deleting everything between a user and any of some peers. */
  function Purged(messages: seq<Message>, user: nat, peers: set<nat>): (r: seq<Message>)
    ensures |r| <= |messages|
  {
    if messages == [] then []
    else
      var before := Purged(messages[..|messages| - 1], user, peers);
      var last := messages[|messages| - 1];
      if (last.sender == user && last.recipient in peers) || (last.recipient == user && last.sender in peers) then
        before
      else before + [last]
  }

  /** The accounts marked as deleted. */
  function Deleted(accounts: map<nat, Account>): set<nat> {
    set user | user in accounts && accounts[user].deleted
  }

  function Restorable(requests: seq<DeletionRequest>, user: nat, peer: nat): seq<DeletionRequest> {
    if requests == [] then []
    else
      var last := requests[|requests| - 1];
      Restorable(requests[..|requests| - 1], user, peer)
      + [if Hides(last, user, peer) then last.(status := Restored) else last]
  }

  // ---------------------------------------------------------------- order and pages

  predicate Precedes(a: Message, b: Message) {
    a.createdAt < b.createdAt || (a.createdAt == b.createdAt && a.id < b.id)
  }

  function Insert(m: Message, s: seq<Message>): seq<Message> {
    if s == [] || Precedes(s[|s| - 1], m) then s + [m] else Insert(m, s[..|s| - 1]) + [s[|s| - 1]]
  }

  /** By creation time, then by id. */
  function Chronological(s: seq<Message>): seq<Message> {
    if s == [] then [] else Insert(s[|s| - 1], Chronological(s[..|s| - 1]))
  }

  function Below(s: seq<Message>, before: Option<nat>): (r: seq<Message>)
    ensures |r| <= |s|
  {
    if s == [] then []
    else
      var rest := Below(s[..|s| - 1], before);
      if before.Some? && s[|s| - 1].id >= before.value then rest else rest + [s[|s| - 1]]
  }

  datatype Page = Page(messages: seq<Message>, hasMore: bool)

  function ClampLimit(limit: int): (r: nat)
    ensures 1 <= r <= 100 && (1 <= limit <= 100 ==> r == limit)
  {
    Max(1, Min(limit, 100))
  }

  /** The newest messages of a conversation in order, among those with smaller ids when `before` is given. */
  function PageOf(conversation: seq<Message>, limit: int, before: Option<nat>): Page {
    var n, rows := ClampLimit(limit), Below(conversation, before);
    Page(rows[Max(0, |rows| - n)..], |rows| > n)
  }

  // ---------------------------------------------------------------- the service

  class ChatStore {
    var accounts: map<nat, Account>
    var messages: seq<Message>
    var requests: seq<DeletionRequest>
    var nextMessage: nat
    var nextRequest: nat

    function Cutoff(user: nat, peer: nat): Option<Time>
      reads this`requests
    {
      HiddenCutoff(requests, user, peer)
    }

    predicate IsActive(user: nat)
      reads this`accounts
    {
      user in accounts && accounts[user].active
    }

    method ConversationPage(user: nat, peer: nat, limit: int, before: Option<nat>) returns (page: Page)
      ensures page == PageOf(Chronological(Visible(messages, user, peer, HiddenCutoff(requests, user, peer))), limit,
                             before)
    {
      var rows := Below(Chronological(Visible(messages, user, peer, Cutoff(user, peer))), before);
      var n := ClampLimit(limit);
      var fetched := rows[Max(0, |rows| - (n + 1))..];
      page := Page(fetched[Max(0, |fetched| - n)..], |fetched| > n);
      assert page.messages == rows[Max(0, |rows| - n)..];
    }

    method MarkConversationRead(user: nat, peer: nat, now: Time) returns (count: nat)
      modifies this`messages
      ensures messages == Marked(old(messages), user, peer, HiddenCutoff(requests, user, peer), None, now)
      ensures count == UnreadFrom(old(messages), user, peer, HiddenCutoff(requests, user, peer))
    {
      count := UnreadFrom(messages, user, peer, Cutoff(user, peer));
      messages := Marked(messages, user, peer, Cutoff(user, peer), None, now);
    }

    method CreateMessage(sender: nat, recipient: nat, body: string, now: Time) returns (error: Option<ChatError>)
      modifies this`messages, this`nextMessage
      ensures error.Some? <==>
              Strip(body) == [] || |Strip(body)| > MAX_MESSAGE_LENGTH || recipient == sender || !IsActive(recipient)
      ensures error == Some(EmptyText) <==> Strip(body) == []
      ensures error == Some(TooLong) <==> |Strip(body)| > 2000
      ensures error == Some(ToSelf) <==> 1 <= |Strip(body)| <= 2000 && recipient == sender
      ensures error.None? ==>
                messages == old(messages) + [Message(old(nextMessage), sender, recipient, Strip(body), now, None, None)]
                              && nextMessage == old(nextMessage) + 1
      ensures error.Some? ==> messages == old(messages) && nextMessage == old(nextMessage)
    {
      var text := Strip(body);
      if text == [] {
        return Some(EmptyText);
      }
      if |text| > MAX_MESSAGE_LENGTH {
        return Some(TooLong);
      }
      if recipient == sender {
        return Some(ToSelf);
      }
      if !IsActive(recipient) {
        return Some(NoSuchPeer);
      }
      messages := messages + [Message(nextMessage, sender, recipient, text, now, None, None)];
      nextMessage := nextMessage + 1;
      error := None;
    }

    method EditMessage(sender: nat, recipient: nat, id: nat, body: string, now: Time) returns (error: Option<ChatError>)
      modifies this`messages
      ensures var text, found := Strip(body), FindMessage(old(messages), id);
              && (error.None? <==> text != [] && |text| <= MAX_MESSAGE_LENGTH && found.Some?
                                   && old(messages)[found.value].sender == sender
                                   && old(messages)[found.value].recipient == recipient)
              && messages == if error.None? then Edited(old(messages), found.value, text, now) else old(messages)
      ensures error.None? ==>
                var text, i := Strip(body), FindMessage(old(messages), id).value;
                var was, edited := old(messages)[i], Edited(old(messages), i, text, now)[i];
                && messages == old(messages)[i := edited]
                && edited.body == text && edited.editedAt == (if was.body == text then was.editedAt else Some(now))
                && edited.(body := was.body, editedAt := was.editedAt) == was
    {
      var text := Strip(body);
      if text == [] {
        return Some(EmptyText);
      }
      if |text| > MAX_MESSAGE_LENGTH {
        return Some(TooLong);
      }
      var found := FindMessage(messages, id);
      if found.None? || messages[found.value].sender != sender || messages[found.value].recipient != recipient {
        return Some(NoSuchMessage);
      }
      var m := messages[found.value];
      if m.body != text {
        messages := messages[found.value := m.(body := text, editedAt := Some(now))];
      }
      error := None;
    }

    /** Hides everything up to now from the requester and reads it, so that no badge is left behind. */
    method RequestDeletion(requester: nat, peer: nat, now: Time) returns (error: Option<ChatError>)
      modifies this`messages, this`requests, this`nextRequest
      ensures error.Some? <==> peer == requester || !IsActive(peer)
      ensures error == Some(ToSelf) <==> peer == requester
      ensures error.None? ==>
                requests == old(requests) + [DeletionRequest(old(nextRequest), requester, peer, now, Pending)]
                              && nextRequest == old(nextRequest) + 1
                              && messages == Marked(old(messages), requester, peer, None, Some(now), now)
      ensures error.Some? ==> requests == old(requests) && nextRequest == old(nextRequest) && messages == old(messages)
    {
      if peer == requester {
        return Some(ToSelf);
      }
      if !IsActive(peer) {
        return Some(NoSuchPeer);
      }
      requests := requests + [DeletionRequest(nextRequest, requester, peer, now, Pending)];
      nextRequest := nextRequest + 1;
      messages := Marked(messages, requester, peer, None, Some(now), now);
      error := None;
    }

    method ResolveDeletion(id: nat, peer: nat, confirm: bool) returns (error: Option<ChatError>)
      modifies this`messages, this`requests
      ensures var found := FindRequest(old(requests), id);
              && (error.None? <==>
                  found.Some? && old(requests)[found.value].peer == peer
                    && old(requests)[found.value].status == Pending)
              && requests == (if error.None? then Resolved(old(requests), found.value, confirm) else old(requests))
              && messages == (if error.None? && confirm
                              then ConfirmedMessages(old(messages), old(requests)[found.value])
                              else old(messages))
    {
      var found := FindRequest(requests, id);
      if found.None? || requests[found.value].peer != peer || requests[found.value].status != Pending {
        return Some(NoSuchRequest);
      }
      var row := requests[found.value];
      requests := requests[found.value := row.(status := if confirm then Confirmed else Rejected)];
      if confirm {
        messages := Without(messages, row.requester, row.peer, Some(row.cutoff));
      }
      error := None;
    }

    /** Walks the user's hiding requests and marks each as restored. */
    method RestoreHistory(user: nat, peer: nat)
      modifies this`requests
      ensures requests == Restorable(old(requests), user, peer)
    {
      hide Hides;
      ghost var before := requests;
      for i := 0 to |requests|
        invariant |requests| == |before| && requests[i..] == before[i..]
        invariant requests[..i] == Restorable(before[..i], user, peer)
      {
        assert requests[i] == requests[i..][0] == before[i..][0];
        assert before[..i + 1][..i] == before[..i];
        if Hides(requests[i], user, peer) {
          requests := requests[i := requests[i].(status := Restored)];
        }
      }
      assert before[..|before|] == before && requests[..|before|] == requests;
    }

    /** For a conversation nobody else can open any more. */
    method DeleteImmediately(user: nat, peer: nat) returns (deleted: nat)
      modifies this`messages, this`requests
      ensures messages == Without(old(messages), user, peer, None)
      ensures requests == WithoutRequests(old(requests), user, peer)
      ensures deleted == |old(messages)| - |messages|
    {
      var before := |messages|;
      messages := Without(messages, user, peer, None);
      deleted := before - |messages|;
      requests := WithoutRequests(requests, user, peer);
    }

    /**
     * When an account is deleted its requests go, in both directions, and so do its conversations with
     * accounts deleted before it.  What it shared with anyone else stays.
     */
    method CleanupDeletedUser(user: nat) returns (deleted: nat)
      modifies this`messages, this`requests
      ensures messages == Purged(old(messages), user, Deleted(accounts))
      ensures requests == WithoutUser(old(requests), user)
      ensures deleted == |old(messages)| - |messages|
    {
      hide Purged, WithoutUser, Without, WithoutRequests, Peers, Deleted;
      ghost var before, done := messages, {};
      var peers := Peers(messages, user) * Deleted(accounts);
      PurgedNobody(messages, user);
      NoRequestsLeft(requests, user);
      requests := WithoutUser(requests, user);
      ghost var kept := requests;
      deleted := 0;
      var left := peers;
      while left != {}
        invariant done + left == peers && messages == Purged(before, user, done)
        invariant requests == kept && deleted == |before| - |messages|
        decreases |left|
      {
        var peer :| peer in left;
        PurgedOne(before, user, done, peer);
        var n := DeleteImmediately(user, peer);
        left := left - {peer};
        done := done + {peer};
        deleted := deleted + n;
      }
      PurgedAmongPeers(before, user, Deleted(accounts));
    }
  }

  /** Everyone a user has a conversation with. */
  function Peers(messages: seq<Message>, user: nat): set<nat> {
    (set m | m in messages && m.sender == user :: m.recipient)
      + (set m | m in messages && m.recipient == user :: m.sender)
  }

  lemma {:induction false} PurgedNobody(messages: seq<Message>, user: nat)
    ensures Purged(messages, user, {}) == messages
  {
    if messages != [] {
      PurgedNobody(messages[..|messages| - 1], user);
    }
  }

  lemma {:induction false} PurgedOne(messages: seq<Message>, user: nat, peers: set<nat>, peer: nat)
    ensures Without(Purged(messages, user, peers), user, peer, None) == Purged(messages, user, peers + {peer})
  {
    if messages != [] {
      PurgedOne(messages[..|messages| - 1], user, peers, peer);
    }
  }

  lemma NoRequestsLeft(requests: seq<DeletionRequest>, user: nat)
    ensures forall peer: nat :: WithoutRequests(WithoutUser(requests, user), user, peer) == WithoutUser(requests, user)
  {
    forall peer: nat ensures WithoutRequests(WithoutUser(requests, user), user, peer) == WithoutUser(requests, user) {
      NoRequestLeft(requests, user, peer);
    }
  }

  lemma {:induction false} NoRequestLeft(requests: seq<DeletionRequest>, user: nat, peer: nat)
    ensures WithoutRequests(WithoutUser(requests, user), user, peer) == WithoutUser(requests, user)
  {
    if requests != [] {
      NoRequestLeft(requests[..|requests| - 1], user, peer);
    }
  }

  lemma {:induction false} PurgedWithin(messages: seq<Message>, user: nat, peers: set<nat>, others: set<nat>)
    requires forall m :: m in messages && m.sender == user ==> (m.recipient in peers <==> m.recipient in others)
    requires forall m :: m in messages && m.recipient == user ==> (m.sender in peers <==> m.sender in others)
    ensures Purged(messages, user, peers) == Purged(messages, user, others)
  {
    if messages != [] {
      assert messages[|messages| - 1] in messages;
      PurgedWithin(messages[..|messages| - 1], user, peers, others);
    }
  }

  lemma PurgedAmongPeers(messages: seq<Message>, user: nat, peers: set<nat>)
    ensures Purged(messages, user, Peers(messages, user) * peers) == Purged(messages, user, peers)
  {
    PurgedWithin(messages, user, Peers(messages, user) * peers, peers);
  }

  function Edited(messages: seq<Message>, i: nat, text: string, now: Time): seq<Message>
    requires i < |messages|
  {
    if messages[i].body == text then messages else messages[i := messages[i].(body := text, editedAt := Some(now))]
  }

  function Resolved(requests: seq<DeletionRequest>, i: nat, confirm: bool): seq<DeletionRequest>
    requires i < |requests|
  {
    requests[i := requests[i].(status := if confirm then Confirmed else Rejected)]
  }

  function ConfirmedMessages(messages: seq<Message>, row: DeletionRequest): seq<Message> {
    Without(messages, row.requester, row.peer, Some(row.cutoff))
  }
}
