/** Conversations over every run of sending, reading, hiding, deleting and restoring. */
module ChatRuns {
  import opened Basics
  import opened Oids
  import opened Chat
  import opened ChatViews
  import opened ChatPaging

  datatype World = World(
    accounts: map<nat, Account>,
    messages: seq<Message>,
    requests: seq<DeletionRequest>,
    nextMessage: nat,
    nextRequest: nat,
    clock: Time)

  datatype Step =
    | Send(sender: nat, recipient: nat, body: string)
    | Edit(sender: nat, recipient: nat, id: nat, body: string)
    | Read(user: nat, peer: nat)
    | Ask(requester: nat, peer: nat)
    | Resolve(id: nat, peer: nat, confirm: bool)
    | Restore(user: nat, peer: nat)
    | DeleteNow(user: nat, peer: nat)
    | SetAccount(user: nat, account: Account)
    | DeleteUser(user: nat)

  predicate IsActive(w: World, user: nat) {
    user in w.accounts && w.accounts[user].active
  }

  predicate Usable(text: string) {
    text != [] && |text| <= MAX_MESSAGE_LENGTH
  }

  function Sent(w: World, sender: nat, recipient: nat, body: string): World {
    if !Usable(Strip(body)) || recipient == sender || !IsActive(w, recipient) then w
    else w.(messages := w.messages + [Message(w.nextMessage, sender, recipient, Strip(body), w.clock, None, None)],
            nextMessage := w.nextMessage + 1)
  }

  function EditedBy(w: World, sender: nat, recipient: nat, id: nat, body: string): World {
    var found := FindMessage(w.messages, id);
    if !Usable(Strip(body)) || found.None? || w.messages[found.value].sender != sender
      || w.messages[found.value].recipient != recipient
    then w
    else w.(messages := Edited(w.messages, found.value, Strip(body), w.clock))
  }

  function Asked(w: World, requester: nat, peer: nat): World {
    if peer == requester || !IsActive(w, peer) then w
    else w.(requests := w.requests + [DeletionRequest(w.nextRequest, requester, peer, w.clock, Pending)],
            nextRequest := w.nextRequest + 1,
            messages := Marked(w.messages, requester, peer, None, Some(w.clock), w.clock))
  }

  function ResolvedBy(w: World, id: nat, peer: nat, confirm: bool): World {
    var found := FindRequest(w.requests, id);
    if found.None? || w.requests[found.value].peer != peer || w.requests[found.value].status != Pending then w
    else w.(requests := Resolved(w.requests, found.value, confirm),
            messages := if confirm then ConfirmedMessages(w.messages, w.requests[found.value]) else w.messages)
  }

  /** The account stays as a deleted one; its requests and what no live account can open go. */
  function UserDeleted(w: World, user: nat): World {
    if user !in w.accounts then w
    else
      var accounts := w.accounts[user := Account(false, true)];
      w.(accounts := accounts, messages := Purged(w.messages, user, Deleted(accounts)),
         requests := WithoutUser(w.requests, user))
  }

  /** What a step does at the time the clock shows. */
  function Act(w: World, step: Step): World {
    match step
    case Send(sender, recipient, body) => Sent(w, sender, recipient, body)
    case Edit(sender, recipient, id, body) => EditedBy(w, sender, recipient, id, body)
    case Read(user, peer) => w.(messages := Marked(w.messages, user, peer, HiddenCutoff(w.requests, user, peer), None,
                                                   w.clock))
    case Ask(requester, peer) => Asked(w, requester, peer)
    case Resolve(id, peer, confirm) => ResolvedBy(w, id, peer, confirm)
    case Restore(user, peer) => w.(requests := Restorable(w.requests, user, peer))
    case DeleteNow(user, peer) =>
      w.(messages := Without(w.messages, user, peer, None), requests := WithoutRequests(w.requests, user, peer))
    case SetAccount(user, account) => w.(accounts := w.accounts[user := account])
    case DeleteUser(user) => UserDeleted(w, user)
  }

  /** The tables of a store at a moment. */
  function At(store: ChatStore, now: Time): World
    reads store
  {
    World(store.accounts, store.messages, store.requests, store.nextMessage, store.nextRequest, now)
  }

  /** The store carries out a step: each of its methods does what the runs say. */
  method Perform(store: ChatStore, step: Step, now: Time)
    modifies store
    ensures At(store, now) == Act(old(At(store, now)), step)
  {
    hide Marked, Without, WithoutRequests, WithoutUser, Purged, Deleted, Restorable, HiddenCutoff, FindMessage,
         FindRequest, Strip, Edited, Resolved, ConfirmedMessages;
    match step
    case Send(sender, recipient, body) =>
      var _ := store.CreateMessage(sender, recipient, body, now);
    case Edit(sender, recipient, id, body) =>
      var _ := store.EditMessage(sender, recipient, id, body, now);
    case Read(user, peer) =>
      var _ := store.MarkConversationRead(user, peer, now);
    case Ask(requester, peer) =>
      var _ := store.RequestDeletion(requester, peer, now);
    case Resolve(id, peer, confirm) =>
      var _ := store.ResolveDeletion(id, peer, confirm);
    case Restore(user, peer) =>
      store.RestoreHistory(user, peer);
    case DeleteNow(user, peer) =>
      var _ := store.DeleteImmediately(user, peer);
    case SetAccount(user, account) =>
      store.accounts := store.accounts[user := account];
    case DeleteUser(user) =>
      if user in store.accounts {
        store.accounts := store.accounts[user := Account(false, true)];
        var _ := store.CleanupDeletedUser(user);
      }
  }

  /** Every step finds the clock later than the step before. */
  function Next(w: World, step: Step, delay: nat): World {
    Act(w.(clock := w.clock + 1 + delay), step)
  }

  function Run(steps: seq<(Step, nat)>): World {
    if steps == [] then World(map[], [], [], 0, 0, 0)
    else Next(Run(steps[..|steps| - 1]), steps[|steps| - 1].0, steps[|steps| - 1].1)
  }

  // ---------------------------------------------------------------- order

  /** Ids and creation times grow together and stay below the given bounds. */
  predicate Timeline(s: seq<Message>, time: Time, id: nat) {
    s != [] ==> var last := s[|s| - 1];
                last.createdAt < time && last.id < id && Timeline(s[..|s| - 1], last.createdAt, last.id)
  }

  lemma TimelineWider(s: seq<Message>, time: Time, id: nat, time': Time, id': nat)
    requires Timeline(s, time, id) && time <= time' && id <= id'
    ensures Timeline(s, time', id')
  {
  }

  lemma {:induction false} WithoutTimeline(s: seq<Message>, a: nat, b: nat, until: Option<Time>, time: Time, id: nat)
    requires Timeline(s, time, id)
    ensures Timeline(Without(s, a, b, until), time, id)
  {
    if s != [] {
      var last := s[|s| - 1];
      WithoutTimeline(s[..|s| - 1], a, b, until, last.createdAt, last.id);
      TimelineWider(Without(s[..|s| - 1], a, b, until), last.createdAt, last.id, time, id);
    }
  }

  lemma {:induction false} PurgedTimeline(s: seq<Message>, user: nat, peers: set<nat>, time: Time, id: nat)
    requires Timeline(s, time, id)
    ensures Timeline(Purged(s, user, peers), time, id)
  {
    if s != [] {
      var last := s[|s| - 1];
      PurgedTimeline(s[..|s| - 1], user, peers, last.createdAt, last.id);
      TimelineWider(Purged(s[..|s| - 1], user, peers), last.createdAt, last.id, time, id);
    }
  }

  lemma {:induction false} VisibleTimeline(s: seq<Message>, user: nat, peer: nat, cutoff: Option<Time>, time: Time,
                                           id: nat)
    requires Timeline(s, time, id)
    ensures Timeline(Visible(s, user, peer, cutoff), time, id)
  {
    if s != [] {
      var last := s[|s| - 1];
      VisibleTimeline(s[..|s| - 1], user, peer, cutoff, last.createdAt, last.id);
      TimelineWider(Visible(s[..|s| - 1], user, peer, cutoff), last.createdAt, last.id, time, id);
    }
  }

  lemma {:induction false} MarkedTimeline(s: seq<Message>, user: nat, peer: nat, after: Option<Time>,
                                          until: Option<Time>, now: Time, time: Time, id: nat)
    requires Timeline(s, time, id)
    ensures Timeline(Marked(s, user, peer, after, until, now), time, id)
  {
    if s != [] {
      var last := s[|s| - 1];
      MarkedTimeline(s[..|s| - 1], user, peer, after, until, now, last.createdAt, last.id);
    }
  }

  lemma {:induction false} EditedTimeline(s: seq<Message>, i: nat, text: string, now: Time, time: Time, id: nat)
    requires i < |s| && Timeline(s, time, id)
    ensures Timeline(Edited(s, i, text, now), time, id)
  {
    var last := |s| - 1;
    if i < last {
      EditedTimeline(s[..last], i, text, now, s[last].createdAt, s[last].id);
      assert Edited(s, i, text, now)[..last] == Edited(s[..last], i, text, now);
    } else {
      assert Edited(s, i, text, now)[..last] == s[..last];
    }
  }

  lemma {:induction false} TimelineBounds(s: seq<Message>, time: Time, id: nat, i: nat)
    requires Timeline(s, time, id) && i < |s|
    ensures s[i].createdAt < time && s[i].id < id
  {
    if i < |s| - 1 {
      TimelineBounds(s[..|s| - 1], s[|s| - 1].createdAt, s[|s| - 1].id, i);
    }
  }

  lemma {:induction false} TimelineAt(s: seq<Message>, time: Time, id: nat, i: nat, j: nat)
    requires Timeline(s, time, id) && i < j < |s|
    ensures s[i].createdAt < s[j].createdAt && s[i].id < s[j].id
  {
    var last := |s| - 1;
    if j < last {
      TimelineAt(s[..last], s[last].createdAt, s[last].id, i, j);
    } else {
      TimelineBounds(s[..last], s[last].createdAt, s[last].id, i);
    }
  }

  // ---------------------------------------------------------------- what every run keeps

  predicate Behind(m: Message, requests: seq<DeletionRequest>) {
    m.readAt.None? ==> After(m.createdAt, HiddenCutoff(requests, m.recipient, m.sender))
  }

  /** Whatever is hidden from its recipient has been read. */
  predicate HiddenIsRead(messages: seq<Message>, requests: seq<DeletionRequest>) {
    forall m :: m in messages ==> Behind(m, requests)
  }

  predicate Past(requests: seq<DeletionRequest>, clock: Time) {
    forall r :: r in requests ==> r.cutoff <= clock
  }

  predicate Sound(w: World) {
    && Timeline(w.messages, w.clock + 1, w.nextMessage)
    && Past(w.requests, w.clock)
    && HiddenIsRead(w.messages, w.requests)
  }

  /** A sound state whose clock has moved on. */
  predicate Ready(w: World) {
    && Timeline(w.messages, w.clock, w.nextMessage)
    && (forall r :: r in w.requests ==> r.cutoff < w.clock)
    && HiddenIsRead(w.messages, w.requests)
  }

  lemma {:induction false} WithoutIn(s: seq<Message>, a: nat, b: nat, until: Option<Time>, m: Message)
    requires m in Without(s, a, b, until)
    ensures m in s && !(InPair(m, a, b) && until.None?)
  {
    if s != [] && m in Without(s[..|s| - 1], a, b, until) {
      WithoutIn(s[..|s| - 1], a, b, until, m);
      assert m in s[..|s| - 1];
    }
  }

  lemma {:induction false} PurgedIn(s: seq<Message>, user: nat, peers: set<nat>, m: Message)
    requires m in Purged(s, user, peers)
    ensures m in s
  {
    if s != [] && m in Purged(s[..|s| - 1], user, peers) {
      PurgedIn(s[..|s| - 1], user, peers, m);
      assert m in s[..|s| - 1];
    }
  }

  /** An unread message after marking is an old message outside the marked range. */
  lemma {:induction false} MarkedIn(s: seq<Message>, user: nat, peer: nat, after: Option<Time>, until: Option<Time>,
                                    now: Time, m: Message)
    requires m in Marked(s, user, peer, after, until, now) && m.readAt.None?
    ensures m in s && !Marks(m, user, peer, after, until)
  {
    if s != [] && m in Marked(s[..|s| - 1], user, peer, after, until, now) {
      MarkedIn(s[..|s| - 1], user, peer, after, until, now, m);
      assert m in s[..|s| - 1];
    }
  }

  lemma MarkedHiddenIsRead(s: seq<Message>, requests: seq<DeletionRequest>, user: nat, peer: nat, after: Option<Time>,
                           until: Option<Time>, now: Time)
    requires HiddenIsRead(s, requests)
    ensures HiddenIsRead(Marked(s, user, peer, after, until, now), requests)
  {
    hide HiddenCutoff, Marked, Marks;
    forall m | m in Marked(s, user, peer, after, until, now)
      ensures Behind(m, requests)
    {
      if m.readAt.None? {
        MarkedIn(s, user, peer, after, until, now, m);
        assert Behind(m, requests);
      }
    }
  }

  lemma WithoutHiddenIsRead(s: seq<Message>, requests: seq<DeletionRequest>, a: nat, b: nat, until: Option<Time>)
    requires HiddenIsRead(s, requests)
    ensures HiddenIsRead(Without(s, a, b, until), requests)
  {
    hide Behind, Without;
    forall m | m in Without(s, a, b, until)
      ensures Behind(m, requests)
    {
      WithoutIn(s, a, b, until, m);
    }
  }

  lemma PurgedHiddenIsRead(s: seq<Message>, requests: seq<DeletionRequest>, user: nat, peers: set<nat>)
    requires HiddenIsRead(s, requests)
    ensures HiddenIsRead(Purged(s, user, peers), requests)
  {
    hide Behind, Purged;
    forall m | m in Purged(s, user, peers)
      ensures Behind(m, requests)
    {
      PurgedIn(s, user, peers, m);
    }
  }

  /** Lifting a cutoff hides less. */
  lemma LoweredHiddenIsRead(s: seq<Message>, requests: seq<DeletionRequest>, requests': seq<DeletionRequest>)
    requires HiddenIsRead(s, requests)
    requires forall m :: m in s ==> HiddenCutoff(requests', m.recipient, m.sender).None?
                                    || (HiddenCutoff(requests, m.recipient, m.sender).Some?
                                        && HiddenCutoff(requests', m.recipient, m.sender).value
                                           <= HiddenCutoff(requests, m.recipient, m.sender).value)
    ensures HiddenIsRead(s, requests')
  {
    hide HiddenCutoff;
    forall m | m in s
      ensures Behind(m, requests')
    {
      assert Behind(m, requests);
    }
  }

  lemma ReadyIsSound(w: World)
    requires Ready(w)
    ensures Sound(w)
  {
    TimelineWider(w.messages, w.clock, w.nextMessage, w.clock + 1, w.nextMessage);
  }

  lemma SendKeepsSound(w: World, sender: nat, recipient: nat, body: string)
    requires Ready(w)
    ensures Sound(Sent(w, sender, recipient, body))
  {
    hide Ready, Sound, Strip, Usable, IsActive;
    ReadyIsSound(w);
    AppendKeepsSound(w, Message(w.nextMessage, sender, recipient, Strip(body), w.clock, None, None));
  }

  lemma AppendKeepsSound(w: World, m: Message)
    requires Ready(w) && m.createdAt == w.clock && m.id == w.nextMessage
    ensures Sound(w.(messages := w.messages + [m], nextMessage := w.nextMessage + 1))
  {
    hide HiddenCutoff, Behind;
    NewIsBehind(w.requests, m);
    assert (w.messages + [m])[..|w.messages|] == w.messages;
  }

  lemma NewIsBehind(requests: seq<DeletionRequest>, m: Message)
    requires forall r :: r in requests ==> r.cutoff < m.createdAt
    ensures Behind(m, requests)
  {
    CutoffBefore(requests, m.recipient, m.sender, m.createdAt);
  }

  lemma EditKeepsSound(w: World, sender: nat, recipient: nat, id: nat, body: string)
    requires Ready(w)
    ensures Sound(EditedBy(w, sender, recipient, id, body))
  {
    hide HiddenCutoff, Strip, Usable, Timeline;
    ReadyIsSound(w);
    var w' := EditedBy(w, sender, recipient, id, body);
    if w'.messages != w.messages {
      var i := FindMessage(w.messages, id).value;
      EditedTimeline(w.messages, i, Strip(body), w.clock, w.clock + 1, w.nextMessage);
      assert Behind(w.messages[i], w.requests);
      forall m | m in w'.messages
        ensures Behind(m, w'.requests)
      {
        assert m in w.messages || m == w'.messages[i];
      }
    }
  }

  lemma ReadKeepsSound(w: World, user: nat, peer: nat)
    requires Ready(w)
    ensures Sound(Act(w, Read(user, peer)))
  {
    hide HiddenCutoff, Timeline, HiddenIsRead;
    ReadyIsSound(w);
    var cutoff := HiddenCutoff(w.requests, user, peer);
    MarkedTimeline(w.messages, user, peer, cutoff, None, w.clock, w.clock + 1, w.nextMessage);
    MarkedHiddenIsRead(w.messages, w.requests, user, peer, cutoff, None, w.clock);
  }

  lemma AskKeepsSound(w: World, requester: nat, peer: nat)
    requires Ready(w)
    ensures Sound(Asked(w, requester, peer))
  {
    hide HiddenCutoff, Timeline, HiddenIsRead, IsActive, Marked;
    ReadyIsSound(w);
    var w' := Asked(w, requester, peer);
    if w' != w {
      MarkedTimeline(w.messages, requester, peer, None, Some(w.clock), w.clock, w.clock + 1, w.nextMessage);
      AskedHiddenIsRead(w, requester, peer);
    }
  }

  /** The request reads everything it hides. */
  lemma AskedHiddenIsRead(w: World, requester: nat, peer: nat)
    requires Ready(w)
    ensures var row := DeletionRequest(w.nextRequest, requester, peer, w.clock, Pending);
            HiddenIsRead(Marked(w.messages, requester, peer, None, Some(w.clock), w.clock), w.requests + [row])
  {
    hide Timeline, HiddenCutoff, Marked;
    var row := DeletionRequest(w.nextRequest, requester, peer, w.clock, Pending);
    var marked := Marked(w.messages, requester, peer, None, Some(w.clock), w.clock);
    forall m | m in marked
      ensures Behind(m, w.requests + [row])
    {
      if m.readAt.None? {
        MarkedIn(w.messages, requester, peer, None, Some(w.clock), w.clock, m);
        assert Behind(m, w.requests);
        var i :| 0 <= i < |w.messages| && w.messages[i] == m;
        TimelineBounds(w.messages, w.clock, w.nextMessage, i);
        OtherCutoff(w.requests, row, m.recipient, m.sender);
      }
    }
  }

  lemma OtherCutoff(requests: seq<DeletionRequest>, row: DeletionRequest, u: nat, v: nat)
    ensures u != row.requester || v != row.peer ==> HiddenCutoff(requests + [row], u, v) == HiddenCutoff(requests, u, v)
  {
    assert (requests + [row])[..|requests|] == requests;
  }

  lemma ResolveKeepsSound(w: World, id: nat, peer: nat, confirm: bool)
    requires Ready(w)
    ensures Sound(ResolvedBy(w, id, peer, confirm))
  {
    hide HiddenCutoff, Timeline, HiddenIsRead, FindRequest, Without;
    ReadyIsSound(w);
    var w' := ResolvedBy(w, id, peer, confirm);
    var found := FindRequest(w.requests, id);
    if found.Some? && w.requests[found.value].peer == peer && w.requests[found.value].status == Pending {
      ResolvedCutoffs(w, found.value, confirm);
      if confirm {
        var row := w.requests[found.value];
        WithoutTimeline(w.messages, row.requester, row.peer, Some(row.cutoff), w.clock + 1, w.nextMessage);
        WithoutHiddenIsRead(w.messages, w'.requests, row.requester, row.peer, Some(row.cutoff));
      }
    }
  }

  lemma ResolvedCutoffs(w: World, i: nat, confirm: bool)
    requires Sound(w) && i < |w.requests| && w.requests[i].status == Pending
    ensures HiddenIsRead(w.messages, Resolved(w.requests, i, confirm))
    ensures Past(Resolved(w.requests, i, confirm), w.clock)
  {
    hide HiddenCutoff, Timeline, HiddenIsRead;
    var requests := Resolved(w.requests, i, confirm);
    forall m | m in w.messages
      ensures HiddenCutoff(requests, m.recipient, m.sender).None?
              || (HiddenCutoff(w.requests, m.recipient, m.sender).Some?
                  && HiddenCutoff(requests, m.recipient, m.sender).value
                     <= HiddenCutoff(w.requests, m.recipient, m.sender).value)
    {
      HiddenCutoffUpdate(w.requests, i, if confirm then Confirmed else Rejected, m.recipient, m.sender);
    }
    LoweredHiddenIsRead(w.messages, w.requests, requests);
    assert w.requests[i] in w.requests;
  }

  lemma RestoreKeepsSound(w: World, user: nat, peer: nat)
    requires Ready(w)
    ensures Sound(Act(w, Restore(user, peer)))
  {
    hide HiddenCutoff, Timeline, HiddenIsRead, Restorable;
    ReadyIsSound(w);
    var requests := Restorable(w.requests, user, peer);
    forall m | m in w.messages
      ensures HiddenCutoff(requests, m.recipient, m.sender).None?
              || HiddenCutoff(requests, m.recipient, m.sender) == HiddenCutoff(w.requests, m.recipient, m.sender)
    {
      HiddenCutoffRestored(w.requests, user, peer, m.recipient, m.sender);
    }
    LoweredHiddenIsRead(w.messages, w.requests, requests);
    RestorablePast(w.requests, user, peer, w.clock);
  }

  lemma {:induction false} RestorablePast(requests: seq<DeletionRequest>, user: nat, peer: nat, clock: Time)
    requires Past(requests, clock)
    ensures Past(Restorable(requests, user, peer), clock)
  {
    if requests != [] {
      assert requests[|requests| - 1] in requests;
      RestorablePast(requests[..|requests| - 1], user, peer, clock);
    }
  }

  lemma {:induction false} WithoutRequestsPast(requests: seq<DeletionRequest>, a: nat, b: nat, clock: Time)
    requires Past(requests, clock)
    ensures Past(WithoutRequests(requests, a, b), clock)
  {
    if requests != [] {
      assert requests[|requests| - 1] in requests;
      WithoutRequestsPast(requests[..|requests| - 1], a, b, clock);
    }
  }

  lemma DeleteKeepsSound(w: World, user: nat, peer: nat)
    requires Ready(w)
    ensures Sound(Act(w, DeleteNow(user, peer)))
  {
    hide HiddenCutoff, Timeline, HiddenIsRead, Without, WithoutRequests;
    ReadyIsSound(w);
    var requests := WithoutRequests(w.requests, user, peer);
    forall m | m in w.messages
      ensures HiddenCutoff(requests, m.recipient, m.sender).None?
              || HiddenCutoff(requests, m.recipient, m.sender) == HiddenCutoff(w.requests, m.recipient, m.sender)
    {
      HiddenCutoffWithout(w.requests, user, peer, m.recipient, m.sender);
    }
    LoweredHiddenIsRead(w.messages, w.requests, requests);
    WithoutHiddenIsRead(w.messages, requests, user, peer, None);
    WithoutTimeline(w.messages, user, peer, None, w.clock + 1, w.nextMessage);
    WithoutRequestsPast(w.requests, user, peer, w.clock);
  }

  lemma {:induction false} WithoutUserPast(requests: seq<DeletionRequest>, user: nat, clock: Time)
    requires Past(requests, clock)
    ensures Past(WithoutUser(requests, user), clock)
  {
    if requests != [] {
      assert requests[|requests| - 1] in requests;
      WithoutUserPast(requests[..|requests| - 1], user, clock);
    }
  }

  lemma DeleteUserKeepsSound(w: World, user: nat)
    requires Ready(w)
    ensures Sound(UserDeleted(w, user))
  {
    hide HiddenCutoff, Timeline, HiddenIsRead, Purged, WithoutUser, Deleted;
    ReadyIsSound(w);
    var requests, peers := WithoutUser(w.requests, user), Deleted(w.accounts[user := Account(false, true)]);
    forall m | m in w.messages
      ensures HiddenCutoff(requests, m.recipient, m.sender).None?
              || HiddenCutoff(requests, m.recipient, m.sender) == HiddenCutoff(w.requests, m.recipient, m.sender)
    {
      HiddenCutoffWithoutUser(w.requests, user, m.recipient, m.sender);
    }
    LoweredHiddenIsRead(w.messages, w.requests, requests);
    PurgedHiddenIsRead(w.messages, requests, user, peers);
    PurgedTimeline(w.messages, user, peers, w.clock + 1, w.nextMessage);
    WithoutUserPast(w.requests, user, w.clock);
  }

  lemma StepKeepsSound(w: World, step: Step, delay: nat)
    requires Sound(w)
    ensures Sound(Next(w, step, delay))
  {
    hide Timeline, HiddenIsRead, Act;
    var later := w.(clock := w.clock + 1 + delay);
    TimelineWider(w.messages, w.clock + 1, w.nextMessage, later.clock, w.nextMessage);
    assert Ready(later);
    ActKeepsSound(later, step);
  }

  lemma ActKeepsSound(w: World, step: Step)
    requires Ready(w)
    ensures Sound(Act(w, step))
  {
    hide Ready, Sound, Sent, EditedBy, Asked, ResolvedBy, UserDeleted, Restorable, Without, WithoutRequests, Marked,
         HiddenCutoff;
    match step
    case Send(sender, recipient, body) => SendKeepsSound(w, sender, recipient, body);
    case Edit(sender, recipient, id, body) => EditKeepsSound(w, sender, recipient, id, body);
    case Read(user, peer) => ReadKeepsSound(w, user, peer);
    case Ask(requester, peer) => AskKeepsSound(w, requester, peer);
    case Resolve(id, peer, confirm) => ResolveKeepsSound(w, id, peer, confirm);
    case Restore(user, peer) => RestoreKeepsSound(w, user, peer);
    case DeleteNow(user, peer) => DeleteKeepsSound(w, user, peer);
    case SetAccount(user, account) =>
      ReadyIsSound(w);
      AccountsDoNotMatter(w, user, account);
    case DeleteUser(user) => DeleteUserKeepsSound(w, user);
  }

  lemma AccountsDoNotMatter(w: World, user: nat, account: Account)
    requires Sound(w)
    ensures Sound(w.(accounts := w.accounts[user := account]))
  {
  }

  /** In every state a run reaches, what is hidden from its recipient has been read, and ids follow time. */
  lemma {:induction false} RunSound(steps: seq<(Step, nat)>)
    ensures Sound(Run(steps))
  {
    hide Next, Sound;
    if steps != [] {
      RunSound(steps[..|steps| - 1]);
      StepKeepsSound(Run(steps[..|steps| - 1]), steps[|steps| - 1].0, steps[|steps| - 1].1);
    } else {
      NothingIsSound();
    }
  }

  lemma NothingIsSound()
    ensures Sound(World(map[], [], [], 0, 0, 0))
  {
  }

  // ---------------------------------------------------------------- unread counts

  lemma {:induction false} CutoffCountsAlike(messages: seq<Message>, requests: seq<DeletionRequest>, user: nat,
                                             peer: nat)
    requires HiddenIsRead(messages, requests)
    ensures UnreadFrom(messages, user, peer, HiddenCutoff(requests, user, peer)) ==
            UnreadFrom(messages, user, peer, None)
  {
    hide HiddenCutoff;
    if messages != [] {
      var last := |messages| - 1;
      assert Behind(messages[last], requests);
      CutoffCountsAlike(messages[..last], requests, user, peer);
    }
  }

  /** The badge of a contact is the same whether or not it leaves out hidden messages. */
  lemma BadgeIgnoresCutoff(steps: seq<(Step, nat)>, user: nat, peer: nat)
    ensures var w := Run(steps);
            UnreadFrom(w.messages, user, peer, HiddenCutoff(w.requests, user, peer)) ==
              UnreadFrom(w.messages, user, peer, None)
  {
    hide Run, HiddenCutoff, UnreadFrom, Timeline;
    RunSound(steps);
    CutoffCountsAlike(Run(steps).messages, Run(steps).requests, user, peer);
  }

  function BadgeSum(messages: seq<Message>, requests: seq<DeletionRequest>, user: nat, peers: seq<nat>): nat {
    if peers == [] then 0
    else BadgeSum(messages, requests, user, peers[..|peers| - 1])
         + UnreadFrom(messages, user, peers[|peers| - 1], HiddenCutoff(requests, user, peers[|peers| - 1]))
  }

  function PlainSum(messages: seq<Message>, user: nat, peers: seq<nat>): nat {
    if peers == [] then 0
    else PlainSum(messages, user, peers[..|peers| - 1]) + UnreadFrom(messages, user, peers[|peers| - 1], None)
  }

  /** Unread messages from senders outside a list of peers. */
  function Strays(messages: seq<Message>, user: nat, peers: seq<nat>): nat {
    if messages == [] then 0
    else
      var last := messages[|messages| - 1];
      Strays(messages[..|messages| - 1], user, peers) + (if UnreadTo(last, user) && last.sender !in peers then 1 else 0)
  }

  lemma {:induction false} BadgeSumIsPlain(messages: seq<Message>, requests: seq<DeletionRequest>, user: nat,
                                           peers: seq<nat>)
    requires HiddenIsRead(messages, requests)
    ensures BadgeSum(messages, requests, user, peers) == PlainSum(messages, user, peers)
  {
    hide HiddenCutoff, UnreadFrom, HiddenIsRead;
    if peers != [] {
      BadgeSumIsPlain(messages, requests, user, peers[..|peers| - 1]);
      CutoffCountsAlike(messages, requests, user, peers[|peers| - 1]);
    }
  }

  predicate DistinctPeers(peers: seq<nat>) {
    forall i, j :: 0 <= i < j < |peers| ==> peers[i] != peers[j]
  }

  lemma {:induction false} PlainSumStep(messages: seq<Message>, user: nat, peers: seq<nat>)
    requires messages != [] && DistinctPeers(peers)
    ensures var last := messages[|messages| - 1];
            PlainSum(messages, user, peers)
            == PlainSum(messages[..|messages| - 1], user, peers)
               + (if UnreadTo(last, user) && last.sender in peers then 1 else 0)
  {
    if peers != [] {
      var last := |peers| - 1;
      PlainSumStep(messages, user, peers[..last]);
      assert peers == peers[..last] + [peers[last]];
    }
  }

  lemma {:induction false} HeaderSplits(messages: seq<Message>, user: nat, peers: seq<nat>)
    requires DistinctPeers(peers)
    ensures HeaderUnread(messages, user) == PlainSum(messages, user, peers) + Strays(messages, user, peers)
  {
    hide UnreadFrom, DistinctPeers;
    if messages != [] {
      HeaderSplits(messages[..|messages| - 1], user, peers);
      PlainSumStep(messages, user, peers);
    } else {
      PlainSumEmpty(user, peers);
    }
  }

  lemma {:induction false} PlainSumEmpty(user: nat, peers: seq<nat>)
    ensures PlainSum([], user, peers) == 0
  {
    if peers != [] {
      PlainSumEmpty(user, peers[..|peers| - 1]);
    }
  }

  lemma {:induction false} StraysAre(messages: seq<Message>, user: nat, peers: seq<nat>)
    ensures Strays(messages, user, peers) == 0 <==> forall m :: m in messages && UnreadTo(m, user) ==> m.sender in peers
  {
    if messages != [] {
      var last := |messages| - 1;
      StraysAre(messages[..last], user, peers);
      assert forall m :: m in messages <==> m in messages[..last] || m == messages[last];
    }
  }

  /** The people listed beside the conversations of `user`. */
  predicate IsContact(w: World, user: nat, other: nat) {
    && other in w.accounts && other != user
    && (w.accounts[other].active
        || (w.accounts[other].deleted && exists m :: m in w.messages && InPair(m, user, other)))
  }

  ghost predicate Contacts(w: World, user: nat, peers: seq<nat>) {
    DistinctPeers(peers) && forall other: nat :: other in peers <==> IsContact(w, user, other)
  }

  /** The sender of a message to `user` is listed exactly when it is someone else, active or deleted. */
  lemma SendersAreContacts(w: World, user: nat)
    ensures forall m :: m in w.messages && UnreadTo(m, user) ==>
              (IsContact(w, user, m.sender) <==>
               && m.sender in w.accounts && m.sender != user
               && (w.accounts[m.sender].active || w.accounts[m.sender].deleted))
  {
    forall m | m in w.messages && UnreadTo(m, user)
      ensures IsContact(w, user, m.sender) <==>
              && m.sender in w.accounts && m.sender != user
              && (w.accounts[m.sender].active || w.accounts[m.sender].deleted)
    {
      assert InPair(m, user, m.sender);
    }
  }

  /**
   * In every state a run reaches, the number in the header is at least the sum of the contacts'
   * badges, and equals it exactly when every unread message comes from a listed contact: a sender
   * who was switched off but not deleted is counted in the header and listed nowhere.
   */
  lemma HeaderIsSumOfBadges(steps: seq<(Step, nat)>, user: nat, peers: seq<nat>)
    requires Contacts(Run(steps), user, peers)
    ensures var w := Run(steps);
            && BadgeSum(w.messages, w.requests, user, peers) <= HeaderUnread(w.messages, user)
            && (BadgeSum(w.messages, w.requests, user, peers) == HeaderUnread(w.messages, user)
                <==> forall m :: m in w.messages && UnreadTo(m, user) ==>
                       && m.sender in w.accounts && m.sender != user
                       && (w.accounts[m.sender].active || w.accounts[m.sender].deleted))
  {
    hide Run, HiddenCutoff, UnreadFrom, Timeline, IsContact, HiddenIsRead;
    RunSound(steps);
    var w := Run(steps);
    SendersAreContacts(w, user);
    BadgeSumIsPlain(w.messages, w.requests, user, peers);
    HeaderSplits(w.messages, user, peers);
    StraysAre(w.messages, user, peers);
  }

  /** Two accounts, one message, and then its sender is switched off. */
  function SilencedSender(): seq<(Step, nat)> {
    [(SetAccount(1, Account(true, false)), 0), (SetAccount(2, Account(true, false)), 0), (Send(2, 1, "x"), 0),
     (SetAccount(2, Account(false, false)), 0)]
  }

  /** The header can count what no badge shows. */
  lemma HeaderWithoutBadges()
    ensures var w := Run(SilencedSender());
            && Contacts(w, 1, [])
            && BadgeSum(w.messages, w.requests, 1, []) == 0
            && HeaderUnread(w.messages, 1) == 1
  {
    SilencedSenderRun();
    hide Run, SilencedSender, Strip;
    var m := Message(0, 2, 1, "x", 3, None, None);
    assert [m][..0] == [];
    assert HeaderUnread([m], 1) == HeaderUnread([m][..0], 1) + 1;
  }

  lemma SilencedSenderRun()
    ensures var w := Run(SilencedSender());
            && w.accounts == map[1 := Account(true, false), 2 := Account(false, false)]
            && w.messages == [Message(0, 2, 1, "x", 3, None, None)]
  {
    var steps := SilencedSender();
    assert Run(steps[..0]) == World(map[], [], [], 0, 0, 0);
    assert steps[..1][..0] == steps[..0] && steps[..2][..1] == steps[..1] && steps[..3][..2] == steps[..2]
      && steps[..3] == steps[..|steps| - 1];
    assert Run(steps[..1]).accounts == map[1 := Account(true, false)];
    assert Run(steps[..2]).accounts == map[1 := Account(true, false), 2 := Account(true, false)];
    assert Strip("x") == "x";
    assert Run(steps[..3]).messages == [Message(0, 2, 1, "x", 3, None, None)];
  }

  // ---------------------------------------------------------------- paging

  /** In every state a run reaches, following the pages shows a conversation completely, at every page size. */
  lemma PagesShowConversation(steps: seq<(Step, nat)>, user: nat, peer: nat, limit: int)
    ensures var w := Run(steps);
            var visible := Visible(w.messages, user, peer, HiddenCutoff(w.requests, user, peer));
            Chronological(visible) == visible && Followed(visible, limit, None) == visible
  {
    hide Run, HiddenCutoff, Visible, Timeline, Followed, Chronological;
    RunSound(steps);
    var w := Run(steps);
    var visible := Visible(w.messages, user, peer, HiddenCutoff(w.requests, user, peer));
    VisibleTimeline(w.messages, user, peer, HiddenCutoff(w.requests, user, peer), w.clock + 1, w.nextMessage);
    forall i, j | 0 <= i < j < |visible|
      ensures visible[i].createdAt < visible[j].createdAt && visible[i].id < visible[j].id
    {
      TimelineAt(visible, w.clock + 1, w.nextMessage, i, j);
    }
    ChronologicalKeeps(visible);
    PagingIsComplete(visible);
    assert ShowsAll(visible, limit);
  }
}
