/** Reading a whole conversation page by page. */
module ChatPaging {
  import opened Basics
  import opened Chat

  // ---------------------------------------------------------------- order

  predicate Ordered(s: seq<Message>) {
    forall i, j :: 0 <= i < j < |s| ==> !Precedes(s[j], s[i])
  }

  lemma OrderedAppend(s: seq<Message>, m: Message)
    requires Ordered(s) && forall i :: 0 <= i < |s| ==> !Precedes(m, s[i])
    ensures Ordered(s + [m])
  {
  }

  lemma {:induction false} InsertOrders(m: Message, s: seq<Message>)
    requires Ordered(s)
    ensures Ordered(Insert(m, s)) && multiset(Insert(m, s)) == multiset(s) + multiset{m}
  {
    if s != [] {
      var last := |s| - 1;
      assert s == s[..last] + [s[last]];
      if Precedes(s[last], m) {
        OrderedAppend(s, m);
      } else {
        InsertOrders(m, s[..last]);
        InsertedBelow(m, s[..last], s[last]);
        hide Precedes;
        OrderedAppend(Insert(m, s[..last]), s[last]);
      }
    }
  }

  lemma InsertedBelow(m: Message, s: seq<Message>, last: Message)
    requires !Precedes(last, m) && forall i :: 0 <= i < |s| ==> !Precedes(last, s[i])
    requires multiset(Insert(m, s)) == multiset(s) + multiset{m}
    ensures forall i :: 0 <= i < |Insert(m, s)| ==> !Precedes(last, Insert(m, s)[i])
  {
    hide Insert, Precedes;
    var r := Insert(m, s);
    forall i | 0 <= i < |r|
      ensures !Precedes(last, r[i])
    {
      assert r[i] in multiset(r);
      assert r[i] in s || r[i] == m;
    }
  }

  /** By time, and at one time by id. */
  lemma OrderedByTime(s: seq<Message>, i: nat, j: nat)
    requires Ordered(s) && i < j < |s|
    ensures s[i].createdAt < s[j].createdAt || (s[i].createdAt == s[j].createdAt && s[i].id <= s[j].id)
  {
    assert !Precedes(s[j], s[i]);
  }

  lemma {:induction false} ChronologicalSorts(s: seq<Message>)
    ensures Ordered(Chronological(s)) && multiset(Chronological(s)) == multiset(s)
  {
    if s != [] {
      ChronologicalSorts(s[..|s| - 1]);
      InsertOrders(s[|s| - 1], Chronological(s[..|s| - 1]));
      assert s == s[..|s| - 1] + [s[|s| - 1]];
    }
  }

  /** The same messages, by time, and at one time by id. */
  lemma ChronologicalOrders(s: seq<Message>)
    ensures var r := Chronological(s);
            && multiset(r) == multiset(s)
            && forall i, j :: 0 <= i < j < |r| ==>
                 r[i].createdAt < r[j].createdAt || (r[i].createdAt == r[j].createdAt && r[i].id <= r[j].id)
  {
    hide Chronological, Ordered;
    ChronologicalSorts(s);
    var r := Chronological(s);
    forall i, j | 0 <= i < j < |r|
      ensures r[i].createdAt < r[j].createdAt || (r[i].createdAt == r[j].createdAt && r[i].id <= r[j].id)
    {
      OrderedByTime(r, i, j);
    }
  }

  lemma {:induction false} ChronologicalKeeps(s: seq<Message>)
    requires forall i, j :: 0 <= i < j < |s| ==> Precedes(s[i], s[j])
    ensures Chronological(s) == s
  {
    if s != [] {
      ChronologicalKeeps(s[..|s| - 1]);
      assert |s| > 1 ==> Precedes(s[|s| - 2], s[|s| - 1]);
    }
  }

  // ---------------------------------------------------------------- pages

  lemma {:induction false} BelowAt(s: seq<Message>, before: Option<nat>, k: nat)
    requires k < |Below(s, before)|
    ensures Below(s, before)[k] in s && (before.Some? ==> Below(s, before)[k].id < before.value)
  {
    var rest := Below(s[..|s| - 1], before);
    if k < |rest| {
      BelowAt(s[..|s| - 1], before, k);
      assert rest[k] in s[..|s| - 1];
    }
  }

  lemma {:induction false} BelowTwice(s: seq<Message>, before: Option<nat>, id: nat)
    requires before.Some? ==> id <= before.value
    ensures Below(Below(s, before), Some(id)) == Below(s, Some(id))
  {
    if s != [] {
      BelowTwice(s[..|s| - 1], before, id);
    }
  }

  lemma {:induction false} BelowDrops(s: seq<Message>, id: nat, k: nat)
    requires k < |s| && s[k].id >= id
    ensures |Below(s, Some(id))| < |s|
  {
    if k < |s| - 1 {
      BelowDrops(s[..|s| - 1], id, k);
    }
  }

  /** Asking for what is below a row that was shown leaves fewer rows to show. */
  lemma BelowShrinks(s: seq<Message>, before: Option<nat>, k: nat)
    requires k < |Below(s, before)|
    ensures |Below(s, Some(Below(s, before)[k].id))| < |Below(s, before)|
  {
    hide Below;
    var rows := Below(s, before);
    BelowAt(s, before, k);
    BelowTwice(s, before, rows[k].id);
    BelowDrops(rows, rows[k].id, k);
  }

  /** Everything a reader has after following the pages back until there are no more. */
  function Followed(conversation: seq<Message>, limit: int, before: Option<nat>): seq<Message>
    decreases |Below(conversation, before)|
  {
    var page := PageOf(conversation, limit, before);
    if !page.hasMore then page.messages
    else
      BelowShrinks(conversation, before, |Below(conversation, before)| - ClampLimit(limit));
      Followed(conversation, limit, Some(page.messages[0].id)) + page.messages
  }

  predicate IncreasingIds(s: seq<Message>) {
    forall i, j :: 0 <= i < j < |s| ==> s[i].id < s[j].id
  }

  lemma {:induction false} BelowPrefix(s: seq<Message>, k: nat)
    requires IncreasingIds(s) && k < |s|
    ensures Below(s, Some(s[k].id)) == s[..k]
  {
    var last := |s| - 1;
    if k < last {
      BelowPrefix(s[..last], k);
      assert s[..last][..k] == s[..k];
    } else {
      BelowAll(s[..last], s[k].id);
    }
  }

  lemma {:induction false} BelowAll(s: seq<Message>, id: nat)
    requires forall i :: 0 <= i < |s| ==> s[i].id < id
    ensures Below(s, Some(id)) == s
  {
    if s != [] {
      BelowAll(s[..|s| - 1], id);
    }
  }

  lemma {:induction false} BelowNothing(s: seq<Message>)
    ensures Below(s, None) == s
  {
    if s != [] {
      BelowNothing(s[..|s| - 1]);
    }
  }

  lemma {:induction false} BelowKeepsIncreasing(s: seq<Message>, before: Option<nat>)
    requires IncreasingIds(s)
    ensures IncreasingIds(Below(s, before))
  {
    if s != [] {
      var last := |s| - 1;
      var rest := Below(s[..last], before);
      BelowKeepsIncreasing(s[..last], before);
      forall i | 0 <= i < |rest|
        ensures rest[i].id < s[last].id
      {
        BelowAt(s[..last], before, i);
        assert rest[i] in s[..last];
      }
    }
  }

  /** What one more page adds when the ids are in order. */
  lemma PageStep(conversation: seq<Message>, before: Option<nat>, k: nat)
    requires IncreasingIds(conversation) && k < |Below(conversation, before)|
    ensures var rows := Below(conversation, before);
            Below(conversation, Some(rows[k].id)) + rows[k..] == rows
  {
    hide Below;
    var rows := Below(conversation, before);
    BelowKeepsIncreasing(conversation, before);
    BelowAt(conversation, before, k);
    BelowTwice(conversation, before, rows[k].id);
    BelowPrefix(rows, k);
  }

  /** With ids in the order of the conversation, following the pages shows everything below the start. */
  lemma {:induction false} FollowedIsBelow(conversation: seq<Message>, limit: int, before: Option<nat>)
    requires IncreasingIds(conversation)
    ensures Followed(conversation, limit, before) == Below(conversation, before)
    decreases |Below(conversation, before)|
  {
    hide Below, IncreasingIds;
    var rows, n := Below(conversation, before), ClampLimit(limit);
    if |rows| > n {
      var k := |rows| - n;
      BelowShrinks(conversation, before, k);
      FollowedIsBelow(conversation, limit, Some(rows[k].id));
      PageStep(conversation, before, k);
    }
  }

  lemma SingleStep(conversation: seq<Message>, before: Option<nat>)
    requires |Below(conversation, before)| > 1
    ensures var last := Below(conversation, before)[|Below(conversation, before)| - 1];
            && |Below(conversation, Some(last.id))| < |Below(conversation, before)|
            && (before.Some? ==> last.id < before.value)
            && Followed(conversation, 1, before) == Followed(conversation, 1, Some(last.id)) + [last]
  {
    hide Below;
    BelowShrinks(conversation, before, |Below(conversation, before)| - 1);
    BelowAt(conversation, before, |Below(conversation, before)| - 1);
  }

  lemma SingleLast(conversation: seq<Message>, before: Option<nat>)
    requires |Below(conversation, before)| <= 1
    ensures Followed(conversation, 1, before) == Below(conversation, before)
    ensures Followed(conversation, 1, before) != [] && before.Some? ==>
              Followed(conversation, 1, before)[0].id < before.value
  {
    hide Below;
    if |Below(conversation, before)| == 1 {
      BelowAt(conversation, before, 0);
    }
  }

  /** Ids that grow and stay below a bound. */
  predicate IncreasingBelow(s: seq<Message>, before: Option<nat>) {
    IncreasingIds(s) && (before.Some? ==> forall i :: 0 <= i < |s| ==> s[i].id < before.value)
  }

  /** One message at a time, the ids shown only ever go down. */
  lemma {:induction false} SinglesDescend(conversation: seq<Message>, before: Option<nat>)
    ensures IncreasingBelow(Followed(conversation, 1, before), before)
    decreases |Below(conversation, before)|
  {
    hide Below, Followed;
    var rows := Below(conversation, before);
    if |rows| > 1 {
      SingleStep(conversation, before);
      SinglesDescend(conversation, Some(rows[|rows| - 1].id));
    } else {
      SingleLast(conversation, before);
    }
  }

  /** At this page size the pages add up to the conversation. */
  predicate ShowsAll(conversation: seq<Message>, limit: int) {
    Followed(conversation, limit, None) == conversation
  }

  /**
   * Following the pages shows a conversation completely, once and in order, at every page size
   * exactly when the ids grow along it: a message written later must not have the smaller id.
   */
  lemma PagingIsComplete(conversation: seq<Message>)
    ensures (forall limit: int :: ShowsAll(conversation, limit)) <==> IncreasingIds(conversation)
  {
    hide Below, Followed;
    BelowNothing(conversation);
    if IncreasingIds(conversation) {
      forall limit: int
        ensures ShowsAll(conversation, limit)
      {
        FollowedIsBelow(conversation, limit, None);
      }
    } else {
      SinglesDescend(conversation, None);
      assert !ShowsAll(conversation, 1);
    }
  }
}
