/** What each operation on a conversation does to what each user sees. */
module ChatViews {
  import opened Basics
  import opened Chat

  /** A message without its reader's mark. */
  function Shown(m: Message): Message {
    m.(readAt := None)
  }

  function ShownAll(s: seq<Message>): seq<Message> {
    if s == [] then [] else ShownAll(s[..|s| - 1]) + [Shown(s[|s| - 1])]
  }

  /** The conversation with `peer` as `user` is shown it. */
  function View(messages: seq<Message>, requests: seq<DeletionRequest>, user: nat, peer: nat): seq<Message> {
    ShownAll(Visible(messages, user, peer, HiddenCutoff(requests, user, peer)))
  }

  predicate SamePair(a: nat, b: nat, u: nat, v: nat) {
    (a == u && b == v) || (a == v && b == u)
  }

  // ---------------------------------------------------------------- cutoffs

  lemma {:induction false} HiddenCutoffUpdate(requests: seq<DeletionRequest>, i: nat, status: Status, u: nat, v: nat)
    requires i < |requests| && requests[i].status == Pending && !status.Pending? && !status.Restored?
    ensures var row, after := requests[i], HiddenCutoff(requests[i := requests[i].(status := status)], u, v);
            HiddenCutoff(requests, u, v)
            == if row.requester == u && row.peer == v then Later(after, Some(row.cutoff)) else after
    ensures status == Rejected ==>
              HiddenCutoff(requests[i := requests[i].(status := status)], u, v) == HiddenCutoff(requests, u, v)
  {
    var last := |requests| - 1;
    var updated := requests[i := requests[i].(status := status)];
    if i < last {
      HiddenCutoffUpdate(requests[..last], i, status, u, v);
      assert updated[..last] == requests[..last][i := requests[i].(status := status)];
    } else {
      assert updated[..last] == requests[..last];
    }
  }

  lemma {:induction false} HiddenCutoffRestored(requests: seq<DeletionRequest>, user: nat, peer: nat, u: nat, v: nat)
    ensures HiddenCutoff(Restorable(requests, user, peer), u, v)
            == if u == user && v == peer then None else HiddenCutoff(requests, u, v)
  {
    if requests != [] {
      HiddenCutoffRestored(requests[..|requests| - 1], user, peer, u, v);
    }
  }

  lemma {:induction false} HiddenCutoffWithout(requests: seq<DeletionRequest>, a: nat, b: nat, u: nat, v: nat)
    ensures HiddenCutoff(WithoutRequests(requests, a, b), u, v)
            == if SamePair(a, b, u, v) then None else HiddenCutoff(requests, u, v)
  {
    if requests != [] {
      HiddenCutoffWithout(requests[..|requests| - 1], a, b, u, v);
    }
  }

  lemma {:induction false} HiddenCutoffWithoutUser(requests: seq<DeletionRequest>, user: nat, u: nat, v: nat)
    ensures HiddenCutoff(WithoutUser(requests, user), u, v)
            == if u == user || v == user then None else HiddenCutoff(requests, u, v)
  {
    if requests != [] {
      HiddenCutoffWithoutUser(requests[..|requests| - 1], user, u, v);
    }
  }

  // ---------------------------------------------------------------- visible messages

  lemma NothingToShow(u: nat, v: nat, cutoff: Option<Time>)
    ensures Visible([], u, v, cutoff) == []
  {
  }

  lemma VisibleAppend(messages: seq<Message>, m: Message, u: nat, v: nat, cutoff: Option<Time>)
    ensures Visible(messages + [m], u, v, cutoff)
            == Visible(messages, u, v, cutoff) + if InPair(m, u, v) && After(m.createdAt, cutoff) then [m] else []
  {
    assert (messages + [m])[..|messages|] == messages;
  }

  /** Deleting up to a cutoff is, for that pair, the same as hiding up to it, and nothing for any other pair. */
  lemma {:induction false} VisibleWithout(messages: seq<Message>, a: nat, b: nat, until: Time, u: nat, v: nat,
                                          cutoff: Option<Time>)
    ensures Visible(Without(messages, a, b, Some(until)), u, v, cutoff)
            == Visible(messages, u, v, if SamePair(a, b, u, v) then Later(cutoff, Some(until)) else cutoff)
  {
    hide Visible;
    var cutoff' := if SamePair(a, b, u, v) then Later(cutoff, Some(until)) else cutoff;
    if messages == [] {
      NothingToShow(u, v, cutoff);
      NothingToShow(u, v, cutoff');
    } else {
      var front, last := messages[..|messages| - 1], messages[|messages| - 1];
      VisibleWithout(front, a, b, until, u, v, cutoff);
      assert messages == front + [last];
      VisibleAppend(front, last, u, v, cutoff');
      VisibleAppend(Without(front, a, b, Some(until)), last, u, v, cutoff);
    }
  }

  lemma {:induction false} VisibleWithoutOwn(messages: seq<Message>, a: nat, b: nat, u: nat, v: nat,
                                             cutoff: Option<Time>)
    requires SamePair(a, b, u, v)
    ensures Visible(Without(messages, a, b, None), u, v, cutoff) == []
  {
    hide Visible;
    NothingToShow(u, v, cutoff);
    if messages != [] {
      var last := messages[|messages| - 1];
      VisibleWithoutOwn(messages[..|messages| - 1], a, b, u, v, cutoff);
      VisibleAppend(Without(messages[..|messages| - 1], a, b, None), last, u, v, cutoff);
    }
  }

  lemma {:induction false} VisibleWithoutOther(messages: seq<Message>, a: nat, b: nat, u: nat, v: nat,
                                               cutoff: Option<Time>)
    requires !SamePair(a, b, u, v)
    ensures Visible(Without(messages, a, b, None), u, v, cutoff) == Visible(messages, u, v, cutoff)
  {
    if messages != [] {
      VisibleWithoutOther(messages[..|messages| - 1], a, b, u, v, cutoff);
    }
  }

  /** Deleting a conversation outright empties it for both sides and touches no other. */
  lemma ImmediateDeletionViews(messages: seq<Message>, requests: seq<DeletionRequest>, a: nat, b: nat, u: nat, v: nat)
    ensures var requests' := WithoutRequests(requests, a, b);
            Visible(Without(messages, a, b, None), u, v, HiddenCutoff(requests', u, v))
            == if SamePair(a, b, u, v) then [] else Visible(messages, u, v, HiddenCutoff(requests, u, v))
  {
    hide Visible, Without, HiddenCutoff, WithoutRequests;
    HiddenCutoffWithout(requests, a, b, u, v);
    if SamePair(a, b, u, v) {
      VisibleWithoutOwn(messages, a, b, u, v, None);
    } else {
      VisibleWithoutOther(messages, a, b, u, v, HiddenCutoff(requests, u, v));
    }
  }

  /** The conversations a purge takes away. */
  predicate Gone(user: nat, peers: set<nat>, u: nat, v: nat) {
    (u == user && v in peers) || (v == user && u in peers)
  }

  lemma {:induction false} VisiblePurged(messages: seq<Message>, user: nat, peers: set<nat>, u: nat, v: nat,
                                         cutoff: Option<Time>)
    ensures Visible(Purged(messages, user, peers), u, v, cutoff)
            == if Gone(user, peers, u, v) then [] else Visible(messages, u, v, cutoff)
  {
    if messages != [] {
      VisiblePurged(messages[..|messages| - 1], user, peers, u, v, cutoff);
    }
  }

  /**
   * Deleting an account empties its conversations with accounts deleted earlier and shows every live
   * partner the whole of theirs, hidden parts too; conversations between others are as they were.
   */
  lemma UserDeletionViews(messages: seq<Message>, requests: seq<DeletionRequest>, user: nat, deleted: set<nat>, u: nat,
                          v: nat)
    ensures Visible(Purged(messages, user, deleted), u, v, HiddenCutoff(WithoutUser(requests, user), u, v))
            == if Gone(user, deleted, u, v) then []
               else Visible(messages, u, v, if u == user || v == user then None else HiddenCutoff(requests, u, v))
  {
    hide Visible, Purged, HiddenCutoff, WithoutUser, Gone;
    HiddenCutoffWithoutUser(requests, user, u, v);
    VisiblePurged(messages, user, deleted, u, v, HiddenCutoff(WithoutUser(requests, user), u, v));
  }

  lemma {:induction false} ViewIgnoresMarks(messages: seq<Message>, user: nat, peer: nat, after: Option<Time>,
                                            until: Option<Time>, now: Time, u: nat, v: nat, cutoff: Option<Time>)
    ensures ShownAll(Visible(Marked(messages, user, peer, after, until, now), u, v, cutoff)) ==
            ShownAll(Visible(messages, u, v, cutoff))
  {
    if messages != [] {
      ViewIgnoresMarks(messages[..|messages| - 1], user, peer, after, until, now, u, v, cutoff);
    }
  }

  lemma {:induction false} NothingVisible(messages: seq<Message>, u: nat, v: nat, cutoff: Time)
    requires forall m :: m in messages ==> m.createdAt <= cutoff
    ensures Visible(messages, u, v, Some(cutoff)) == []
  {
    if messages != [] {
      assert messages[|messages| - 1] in messages;
      NothingVisible(messages[..|messages| - 1], u, v, cutoff);
    }
  }

  /** A later cutoff shows the part of a conversation after it. */
  lemma {:induction false} VisibleLater(messages: seq<Message>, u: nat, v: nat, cutoff: Option<Time>, later: Time)
    ensures Visible(messages, u, v, Later(cutoff, Some(later))) ==
            Visible(Visible(messages, u, v, cutoff), u, v, Some(later))
  {
    if messages != [] {
      VisibleLater(messages[..|messages| - 1], u, v, cutoff, later);
    }
  }

  // ---------------------------------------------------------------- operations

  /**
   * Confirming takes away nothing the requester still sees, whatever other requests there are; the
   * peer keeps exactly what is after the cutoff; no other conversation changes.
   */
  lemma ConfirmationViews(messages: seq<Message>, requests: seq<DeletionRequest>, i: nat, u: nat, v: nat)
    requires i < |requests| && requests[i].status == Pending && requests[i].requester != requests[i].peer
    ensures var row := requests[i];
            var messages', requests' := ConfirmedMessages(messages, row), Resolved(requests, i, true);
            var before, after := Visible(messages, u, v, HiddenCutoff(requests, u, v)),
                                 Visible(messages', u, v, HiddenCutoff(requests', u, v));
            after == if u == row.peer && v == row.requester then Visible(before, u, v, Some(row.cutoff)) else before
  {
    hide Visible, HiddenCutoff, Without;
    var row := requests[i];
    var cutoff := HiddenCutoff(Resolved(requests, i, true), u, v);
    HiddenCutoffUpdate(requests, i, Confirmed, u, v);
    VisibleWithout(messages, row.requester, row.peer, row.cutoff, u, v, cutoff);
    VisibleLater(messages, u, v, cutoff, row.cutoff);
  }

  /** The messages a confirmation removes are those of the pair up to the cutoff. */
  lemma {:induction false} ConfirmationRemovesExactly(messages: seq<Message>, row: DeletionRequest, m: Message)
    ensures m in ConfirmedMessages(messages, row)
            <==> m in messages && !(InPair(m, row.requester, row.peer) && m.createdAt <= row.cutoff)
  {
    if messages != [] {
      var last := |messages| - 1;
      ConfirmationRemovesExactly(messages[..last], row, m);
      assert m in messages <==> m in messages[..last] || m == messages[last];
    }
  }

  /** Rejecting a request changes what nobody sees. */
  lemma RejectionViews(messages: seq<Message>, requests: seq<DeletionRequest>, i: nat, u: nat, v: nat)
    requires i < |requests| && requests[i].status == Pending
    ensures Visible(messages, u, v, HiddenCutoff(Resolved(requests, i, false), u, v))
            == Visible(messages, u, v, HiddenCutoff(requests, u, v))
  {
    HiddenCutoffUpdate(requests, i, Rejected, u, v);
  }

  /** Restoring shows the user every message of the pair that still exists, and changes no other view. */
  lemma RestorationViews(messages: seq<Message>, requests: seq<DeletionRequest>, user: nat, peer: nat, u: nat, v: nat)
    ensures Visible(messages, u, v, HiddenCutoff(Restorable(requests, user, peer), u, v))
            == Visible(messages, u, v, if u == user && v == peer then None else HiddenCutoff(requests, u, v))
  {
    HiddenCutoffRestored(requests, user, peer, u, v);
  }

  lemma {:induction false} EverythingVisible(messages: seq<Message>, u: nat, v: nat, m: Message)
    ensures m in Visible(messages, u, v, None) <==> m in messages && InPair(m, u, v)
  {
    if messages != [] {
      var last := |messages| - 1;
      EverythingVisible(messages[..last], u, v, m);
      assert m in messages <==> m in messages[..last] || m == messages[last];
    }
  }

  /** A request empties the requester's view of the conversation, and changes no other view. */
  lemma RequestViews(messages: seq<Message>, requests: seq<DeletionRequest>, row: DeletionRequest, u: nat, v: nat)
    requires row.status == Pending && forall m :: m in messages ==> m.createdAt <= row.cutoff
    ensures View(Marked(messages, row.requester, row.peer, None, Some(row.cutoff), row.cutoff), requests + [row], u, v)
            == if u == row.requester && v == row.peer then [] else View(messages, requests, u, v)
  {
    hide Visible, ShownAll, Marked;
    assert (requests + [row])[..|requests|] == requests;
    var after := HiddenCutoff(requests + [row], u, v);
    ViewIgnoresMarks(messages, row.requester, row.peer, None, Some(row.cutoff), row.cutoff, u, v, after);
    if u == row.requester && v == row.peer {
      var before := HiddenCutoff(requests, u, v);
      if before.Some? && before.value > row.cutoff {
        NothingVisible(messages, u, v, before.value);
      } else {
        NothingVisible(messages, u, v, row.cutoff);
      }
      ShownNothing();
    }
  }

  lemma ShownNothing()
    ensures ShownAll([]) == []
  {
  }

  /** Reading changes what nobody sees, and leaves nothing unread that was visible. */
  lemma ReadingViews(messages: seq<Message>, requests: seq<DeletionRequest>, user: nat, peer: nat, now: Time, u: nat,
                     v: nat)
    ensures var cutoff := HiddenCutoff(requests, user, peer);
            && View(Marked(messages, user, peer, cutoff, None, now), requests, u, v) == View(messages, requests, u, v)
            && UnreadFrom(Marked(messages, user, peer, cutoff, None, now), user, peer, cutoff) == 0
  {
    ViewIgnoresMarks(messages, user, peer, HiddenCutoff(requests, user, peer), None, now, u, v,
                     HiddenCutoff(requests, u, v));
    MarkedLeavesNone(messages, user, peer, HiddenCutoff(requests, user, peer), now);
  }

  /**
   * Message by message: reading stamps what that peer sent to the user, is unread and lies between the bounds,
   * and leaves everything else as it is.
   */
  lemma {:induction false} MarkedExactly(messages: seq<Message>, user: nat, peer: nat, after: Option<Time>,
                                         until: Option<Time>, now: Time, i: nat)
    requires i < |messages|
    ensures var m, marked := messages[i], Marked(messages, user, peer, after, until, now);
            && |marked| == |messages|
            && marked[i] ==
               if m.recipient == user && m.sender == peer && m.readAt.None?
                  && (after.Some? ==> m.createdAt > after.value) && (until.Some? ==> m.createdAt <= until.value)
               then Message(m.id, m.sender, m.recipient, m.body, m.createdAt, m.editedAt, Some(now))
               else m
  {
    var last := |messages| - 1;
    MarkedLength(messages[..last], user, peer, after, until, now);
    if i < last {
      MarkedExactly(messages[..last], user, peer, after, until, now, i);
    }
  }

  lemma {:induction false} MarkedLength(messages: seq<Message>, user: nat, peer: nat, after: Option<Time>,
                                        until: Option<Time>, now: Time)
    ensures |Marked(messages, user, peer, after, until, now)| == |messages|
  {
    if messages != [] {
      MarkedLength(messages[..|messages| - 1], user, peer, after, until, now);
    }
  }

  lemma {:induction false} MarkedLeavesNone(messages: seq<Message>, user: nat, peer: nat, cutoff: Option<Time>,
                                            now: Time)
    ensures UnreadFrom(Marked(messages, user, peer, cutoff, None, now), user, peer, cutoff) == 0
  {
    if messages != [] {
      MarkedLeavesNone(messages[..|messages| - 1], user, peer, cutoff, now);
    }
  }

  /** A new message is seen by both sides of its pair, whatever they have hidden, and by nobody else. */
  lemma SendingViews(messages: seq<Message>, requests: seq<DeletionRequest>, m: Message, u: nat, v: nat)
    requires forall r :: r in requests ==> r.cutoff < m.createdAt
    ensures var cutoff := HiddenCutoff(requests, u, v);
            Visible(messages + [m], u, v, cutoff) ==
              Visible(messages, u, v, cutoff) + (if InPair(m, u, v) then [m] else [])
  {
    hide HiddenCutoff;
    CutoffBefore(requests, u, v, m.createdAt);
    assert (messages + [m])[..|messages|] == messages;
  }

  lemma {:induction false} CutoffBefore(requests: seq<DeletionRequest>, u: nat, v: nat, now: Time)
    requires forall r :: r in requests ==> r.cutoff < now
    ensures HiddenCutoff(requests, u, v).Some? ==> HiddenCutoff(requests, u, v).value < now
  {
    if requests != [] {
      CutoffBefore(requests[..|requests| - 1], u, v, now);
      assert requests[|requests| - 1] in requests;
    }
  }

  /** Asking, being refused, and restoring gives the requester back every message, seen as before the request. */
  lemma RefusedRequestRestores(messages: seq<Message>, requests: seq<DeletionRequest>, row: DeletionRequest)
    requires row.status == Pending && row.requester != row.peer && HiddenCutoff(requests, row.requester, row.peer).None?
    ensures var asked := Marked(messages, row.requester, row.peer, None, Some(row.cutoff), row.cutoff);
            var refused := Resolved(requests + [row], |requests|, false);
            forall u: nat, v: nat ::
              View(asked, Restorable(refused, row.requester, row.peer), u, v) == View(messages, requests, u, v)
  {
    hide Visible, ShownAll, Marked, HiddenCutoff, Restorable;
    var asked := Marked(messages, row.requester, row.peer, None, Some(row.cutoff), row.cutoff);
    var refused := Resolved(requests + [row], |requests|, false);
    var restored := Restorable(refused, row.requester, row.peer);
    forall u: nat, v: nat
      ensures View(asked, restored, u, v) == View(messages, requests, u, v)
    {
      HiddenCutoffRestored(refused, row.requester, row.peer, u, v);
      if u != row.requester || v != row.peer {
        RefusedCutoff(requests, row, u, v);
      }
      ViewIgnoresMarks(messages, row.requester, row.peer, None, Some(row.cutoff), row.cutoff, u, v,
                       HiddenCutoff(restored, u, v));
    }
  }

  lemma RefusedCutoff(requests: seq<DeletionRequest>, row: DeletionRequest, u: nat, v: nat)
    requires row.status == Pending && (u != row.requester || v != row.peer)
    ensures HiddenCutoff(Resolved(requests + [row], |requests|, false), u, v) == HiddenCutoff(requests, u, v)
  {
    assert Resolved(requests + [row], |requests|, false)[..|requests|] == requests;
  }
}
