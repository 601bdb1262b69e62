// Reading a dialog page by page, and sending messages to it.
module MessagePages {
  import opened Documents
  import opened Ordering

  datatype Page = Page(ids: seq<Id>, hasMore: bool, nextCursor: Option<Id>)

  predicate StrictlyAscending(s: seq<Id>) {
    forall i, j :: 0 <= i < j < |s| ==> s[i] < s[j]
  }

  // The ids a request may return: those before the cursor.
  ghost function Older(ids: set<Id>, before: Option<Id>): set<Id> {
    set i | i in ids && (before.None? || i < before.value)
  }

  // The greatest n ids of a set, in ascending order.
  ghost predicate IsNewest(older: set<Id>, n: nat, tail: seq<Id>) {
    && StrictlyAscending(tail)
    && (forall i :: i in tail ==> i in older)
    && (forall i, j :: i in older && i !in tail && j in tail ==> i < j)
    && |tail| == if |older| < n then |older| else n
  }

  lemma NewestOfNewest(older: set<Id>, n: nat, tail: seq<Id>, k: nat)
    requires IsNewest(older, n, tail) && k <= |tail|
    ensures IsNewest(older, k, tail[|tail| - k..])
  {
    var from := |tail| - k;
    var last := tail[from..];
    forall l | from <= l < |tail| ensures tail[l] in last {
      assert last[l - from] == tail[l];
    }
    forall i, j | i in older && i !in last && j in last ensures i < j {
      var m :| 0 <= m < |last| && last[m] == j;
      assert tail[from + m] == j && j in tail;
      if i in tail {
        var l :| 0 <= l < |tail| && tail[l] == i;
        assert l < from;
      }
    }
    AscendingSize(tail);
    assert Elements(tail) <= older;
    assert |older| >= |tail| by { assert older == Elements(tail) + (older - Elements(tail)); }
  }

  /** The page holds the newest `limit` ids before the cursor, in ascending order, and says whether there are more. */
  ghost predicate IsPage(ids: set<Id>, limit: nat, before: Option<Id>, page: Page) {
    var older := Older(ids, before);
    && IsNewest(older, limit, page.ids)
    && (page.hasMore <==> |older| > limit)
    && page.nextCursor == if page.hasMore && page.ids != [] then Some(page.ids[0]) else None
  }

  lemma {:induction false} AscendingSize(s: seq<Id>)
    requires StrictlyAscending(s)
    ensures |Elements(s)| == |s|
  {
    NoRepeatsSize(s);
  }

  // The last page has everything before its cursor.
  lemma LastPageIsAll(ids: set<Id>, limit: nat, before: Option<Id>, page: Page)
    requires IsPage(ids, limit, before, page) && !page.hasMore
    ensures Elements(page.ids) == Older(ids, before)
  {
    AscendingSize(page.ids);
    SubsetOfSameSize(Elements(page.ids), Older(ids, before));
  }

  lemma SubsetOfSameSize<T>(a: set<T>, b: set<T>)
    requires a <= b && |a| == |b|
    ensures a == b
  {
    assert |b - a| == |b| - |a| by { assert b == a + (b - a); }
  }

  // Asking for one more than the limit tells whether there are more.
  lemma PageOfNewest(ids: set<Id>, limit: nat, before: Option<Id>, tail: seq<Id>)
    requires limit >= 1 && IsNewest(Older(ids, before), limit + 1, tail)
    ensures var shown := tail[if |tail| > limit then |tail| - limit else 0..];
            && IsPage(ids, limit, before, Page(shown, |tail| > limit, if |tail| > limit then Some(shown[0]) else None))
            && forall i :: i in shown ==> i in ids
  {
    NewestOfNewest(Older(ids, before), limit + 1, tail, if |tail| > limit then limit else |tail|);
  }

  /******* Walking by cursor *******/

  // One request of a walk: the ids in the dialog at that moment, the limit and the page returned.
  datatype Visit = Visit(ids: set<Id>, limit: nat, page: Page)

  // The cursor that the n-th request passes on.
  function CursorOf(visits: seq<Visit>): Option<Id> {
    if visits == [] then None else visits[|visits| - 1].page.nextCursor
  }

  // Each page is asked for with the cursor of the one before; messages may arrive in between, none goes.
  ghost predicate IsWalk(visits: seq<Visit>) {
    visits != [] ==>
      var n := |visits| - 1;
      && IsWalk(visits[..n])
      && visits[n].limit >= 1
      && (n > 0 ==> visits[n - 1].page.hasMore && visits[n - 1].ids <= visits[n].ids)
      && IsPage(visits[n].ids, visits[n].limit, CursorOf(visits[..n]), visits[n].page)
  }

  // The client's list: each older page goes in front of what it has.
  function Prepended(visits: seq<Visit>): seq<Id> {
    if visits == [] then [] else visits[|visits| - 1].page.ids + Prepended(visits[..|visits| - 1])
  }

  // Every id of the start down to the walk's present cursor has been seen, in order, and nothing below it.
  ghost predicate SeenDownTo(visits: seq<Visit>, start: set<Id>) {
    var all, cursor := Prepended(visits), CursorOf(visits);
    && StrictlyAscending(all)
    && (cursor.Some? ==> all != [] && all[0] == cursor.value)
    && (forall i :: i in start && (cursor.None? || i >= cursor.value) ==> i in all)
    && (forall i :: i in all ==> i in visits[|visits| - 1].ids)
  }

  lemma PageExtendsWalk(visits: seq<Visit>, start: set<Id>)
    requires |visits| > 1 && IsWalk(visits) && start <= visits[|visits| - 1].ids
    requires SeenDownTo(visits[..|visits| - 1], start)
    ensures SeenDownTo(visits, start)
  {
    var n := |visits| - 1;
    var page, behind, seen := visits[n].page, visits[..n], Prepended(visits[..n]);
    assert visits[n - 1] == behind[n - 1];
    assert behind[n - 1].page.nextCursor.Some? by {
      assert IsWalk(behind);
      assert behind[n - 1].limit >= 1;
    }
    var cursor := CursorOf(behind).value;
    assert forall i :: i in page.ids ==> i < cursor;
    assert forall i :: i in seen ==> cursor <= i by {
      forall i | i in seen ensures cursor <= i {
        var j :| 0 <= j < |seen| && seen[j] == i;
      }
    }
    AscendingJoin(page.ids, seen);
    if !page.hasMore {
      LastPageIsAll(visits[n].ids, visits[n].limit, CursorOf(behind), page);
      assert forall i :: i in Elements(page.ids) <==> i in page.ids;
    } else {
      assert page.ids[0] in page.ids;
    }
  }

  lemma AscendingJoin(a: seq<Id>, b: seq<Id>)
    requires StrictlyAscending(a) && StrictlyAscending(b)
    requires forall i, j :: i in a && j in b ==> i < j
    ensures StrictlyAscending(a + b)
  {
    forall i, j | 0 <= i < j < |a + b| ensures (a + b)[i] < (a + b)[j] {
      if i < |a| <= j {
        assert a[i] in a && b[j - |a|] in b;
      }
    }
  }

  lemma {:induction false} WalkSees(visits: seq<Visit>)
    requires visits != [] && IsWalk(visits)
    ensures visits[0].ids <= visits[|visits| - 1].ids && SeenDownTo(visits, visits[0].ids)
  {
    var n := |visits| - 1;
    var first := visits[..1];
    if n == 0 {
      assert visits[..0] == [];
      assert Prepended(visits) == visits[0].page.ids + [];
      if !visits[0].page.hasMore {
        LastPageIsAll(visits[0].ids, visits[0].limit, None, visits[0].page);
        assert forall i :: i in Elements(visits[0].page.ids) <==> i in visits[0].page.ids;
      } else {
        assert visits[0].page.ids[0] in visits[0].page.ids;
      }
    } else {
      WalkSees(visits[..n]);
      assert visits[..n][0] == visits[0] && visits[..n][n - 1] == visits[n - 1];
      PageExtendsWalk(visits, visits[0].ids);
    }
  }

  /**
   * A walk that has come to a page without more returns every message present at its start exactly once, and in
   * ascending order, whatever was sent meanwhile.
   */
  lemma WalkReturnsEverythingOnce(visits: seq<Visit>)
    requires visits != [] && IsWalk(visits) && !visits[|visits| - 1].page.hasMore
    ensures StrictlyAscending(Prepended(visits)) && NoRepeats(Prepended(visits))
    ensures forall i :: i in visits[0].ids ==> i in Prepended(visits)
    ensures forall i :: i in Prepended(visits) ==> i in visits[|visits| - 1].ids
  {
    WalkSees(visits);
  }

  /** Every cursor is smaller than the one before, so a walk ends after at most as many pages as its first cursor. */
  lemma {:induction false} WalkTerminates(visits: seq<Visit>)
    requires visits != [] && IsWalk(visits)
    ensures |visits| > 1 ==> visits[0].page.hasMore
    ensures visits[0].page.hasMore ==> visits[0].page.nextCursor.Some?
    ensures |visits| > 1 ==> |visits| <= 2 + visits[0].page.nextCursor.value
    ensures |visits| > 1 && CursorOf(visits).Some? ==>
              CursorOf(visits).value + |visits| - 1 <= visits[0].page.nextCursor.value
    decreases |visits|
  {
    var n := |visits| - 1;
    if n > 0 {
      WalkTerminates(visits[..n]);
      assert visits[..n][0] == visits[0] && visits[..n][n - 1] == visits[n - 1];
      assert IsWalk(visits[..n]) && visits[n - 1].page.hasMore;
      assert CursorOf(visits[..n]) == visits[n - 1].page.nextCursor;
      if visits[n].page.ids != [] {
        assert visits[n].page.ids[0] in Older(visits[n].ids, CursorOf(visits[..n]));
      }
    } else {
      assert visits[..0] == [];
    }
  }
}

module DialogService {
  import opened Documents
  import opened Ordering
  import opened MessagePages
  import opened MatchProtocol

  datatype Item = Item(id: Id, sender: Id, isFromCurrentUser: bool, createdAt: int, body: string)

  datatype MessagesResult = DialogNotFound | Messages(items: seq<Item>, hasMore: bool, nextCursor: Option<Id>)

  function Reversed<T>(s: seq<T>): (r: seq<T>)
    ensures |r| == |s| && forall i :: 0 <= i < |s| ==> r[i] == s[|s| - 1 - i]
  {
    if s == [] then [] else Reversed(s[1..]) + [s[0]]
  }

  function ItemsOf(messages: map<Id, Message>, userId: Id, ids: seq<Id>): (items: seq<Item>)
    requires forall i :: i in ids ==> i in messages
    ensures |items| == |ids|
    ensures forall k :: 0 <= k < |ids| ==>
              var m := messages[ids[k]];
              && items[k].id == ids[k] && items[k].sender == m.sender && items[k].createdAt == m.createdAt
              && items[k].body == m.body && (items[k].isFromCurrentUser <==> m.sender == userId)
  {
    seq(|ids|, i requires 0 <= i < |ids| =>
      var m := messages[ids[i]];
      Item(ids[i], m.sender, m.sender == userId, m.createdAt, m.body))
  }

  function IdsOf(items: seq<Item>): (ids: seq<Id>)
    ensures |ids| == |items| && forall k :: 0 <= k < |items| ==> ids[k] == items[k].id
  {
    seq(|items|, k requires 0 <= k < |items| => items[k].id)
  }

  function IdsOfDialog(messages: map<Id, Message>, dialogId: Id): set<Id> {
    set i | i in messages && messages[i].dialogId == dialogId
  }

  class DialogService {
    var matches: map<Id, Match>
    var dialogs: map<Id, Dialog>
    var messages: map<Id, Message>
    var blocks: set<(Id, Id)>

    constructor (db: Database, blocks: set<(Id, Id)>)
      ensures matches == db.matches && dialogs == db.dialogs && messages == db.messages && this.blocks == blocks
    {
      matches, dialogs, messages := db.matches, db.dialogs, db.messages;
      this.blocks := blocks;
    }

    function State(): Database
      reads this
    {
      Database(map[], matches, dialogs, messages)
    }

    // The ids of the messages of a dialog.
    function IdsIn(dialogId: Id): set<Id>
      reads this
    {
      IdsOfDialog(messages, dialogId)
    }

    // `findOne` on the dialog with the caller as participant, then the block check on the partner.
    method FindUsable(dialogId: Id, userId: Id) returns (usable: bool)
      ensures usable <==>
              && dialogId in dialogs && dialogs[dialogId].isActive
              && (dialogs[dialogId].user1 == userId || dialogs[dialogId].user2 == userId)
              && (dialogs[dialogId].user1, dialogs[dialogId].user2) !in blocks
              && (dialogs[dialogId].user2, dialogs[dialogId].user1) !in blocks
    {
      if dialogId !in dialogs || !dialogs[dialogId].isActive {
        return false;
      }
      var dialog := dialogs[dialogId];
      if dialog.user1 != userId && dialog.user2 != userId {
        return false;
      }
      var partnerId := if dialog.user1 == userId then dialog.user2 else dialog.user1;
      return !Blocked(blocks, userId, partnerId);
    }

    // `find(filter).sort({ _id: -1 }).limit(n)`: the n newest, newest first.
    method FindNewest(dialogId: Id, before: Option<Id>, n: nat) returns (rows: seq<Id>)
      ensures IsNewest(Older(IdsIn(dialogId), before), n, Reversed(rows))
    {
      var found: set<Id> := set i: Id | i in messages && messages[i].dialogId == dialogId && (before.None? || i < before.value);
      assert found == Older(IdsIn(dialogId), before);
      var listed: seq<Id> := Listing(found);
      var ascending: seq<Id> := SortedIds(listed);
      SortedListing(found, listed, ascending);
      var count := if |ascending| < n then |ascending| else n;
      rows := Reversed(ascending[|ascending| - count..]);
      NewestOfNewest(found, |found|, ascending, count);
      ReversedTwice(ascending[|ascending| - count..]);
    }

    /** The page of messages the cursor asks for, or nothing at all to someone who may not use the dialog. */
    method GetMessages(dialogId: Id, userId: Id, limit: nat, before: Option<Id>) returns (result: MessagesResult)
      requires limit >= 1
      ensures result.Messages? <==>
              && dialogId in dialogs && dialogs[dialogId].isActive
              && (dialogs[dialogId].user1 == userId || dialogs[dialogId].user2 == userId)
              && (dialogs[dialogId].user1, dialogs[dialogId].user2) !in blocks
              && (dialogs[dialogId].user2, dialogs[dialogId].user1) !in blocks
      // Messages of the dialog before the cursor, with their fields, oldest first.
      ensures result.Messages? ==> forall k :: 0 <= k < |result.items| ==>
                var item := result.items[k];
                && item.id in messages && (before.Some? ==> item.id < before.value)
                && var m := messages[item.id];
                && m.dialogId == dialogId && item.sender == m.sender && item.createdAt == m.createdAt && item.body == m.body
                && (item.isFromCurrentUser <==> m.sender == userId)
      ensures result.Messages? ==> forall j, k :: 0 <= j < k < |result.items| ==> result.items[j].id < result.items[k].id
      // What is left out is older, there is some exactly when the page says so, and then the page is full.
      ensures result.Messages? ==> forall i :: i in messages && messages[i].dialogId == dialogId && (before.Some? ==> i < before.value) ==>
                (exists k :: 0 <= k < |result.items| && result.items[k].id == i)
                || (result.hasMore && forall k :: 0 <= k < |result.items| ==> i < result.items[k].id)
      ensures result.Messages? ==>
                (result.hasMore <==>
                 |set i | i in messages && messages[i].dialogId == dialogId && (before.Some? ==> i < before.value)| > limit)
      ensures result.Messages? ==> |result.items| <= limit && (result.hasMore ==> |result.items| == limit)
      ensures result.Messages? ==>
                result.nextCursor == if result.hasMore then Some(result.items[0].id) else None
      ensures result.Messages? ==> IsPage(IdsIn(dialogId), limit, before, Page(IdsOf(result.items), result.hasMore, result.nextCursor))
    {
      hide IsPage, IdsOf, ItemsOf, IdsOfDialog, Older;
      var usable := FindUsable(dialogId, userId);
      if !usable {
        return DialogNotFound;
      }
      var page := FetchPage(dialogId, limit, before);
      AnswerItems(messages, dialogId, userId, limit, before, page);
      AnswerLeavesOut(messages, dialogId, userId, limit, before, page);
      assert (set i | i in messages && messages[i].dialogId == dialogId && (before.Some? ==> i < before.value)) ==
             Older(IdsIn(dialogId), before) && (page.hasMore <==> |Older(IdsIn(dialogId), before)| > limit) by {
        PageSaysMore(messages, dialogId, limit, before, page);
      }
      return Messages(ItemsOf(messages, userId, page.ids), page.hasMore, page.nextCursor);
    }

    // One row more than the limit tells whether there is another page.
    method FetchPage(dialogId: Id, limit: nat, before: Option<Id>) returns (page: Page)
      requires limit >= 1
      ensures IsPage(IdsIn(dialogId), limit, before, page)
      ensures forall i :: i in page.ids ==> i in messages
    {
      hide Reversed, IsNewest, Older;
      var rows := FindNewest(dialogId, before, limit + 1);
      var hasMore := |rows| > limit;
      var shown := rows[..if hasMore then limit else |rows|];
      var nextCursor := if hasMore then Some(shown[|shown| - 1]) else None;
      ReversedTake(rows, |shown|);
      PageOfNewest(IdsIn(dialogId), limit, before, Reversed(rows));
      page := Page(Reversed(shown), hasMore, nextCursor);
      assert forall i :: i in page.ids ==> i in IdsIn(dialogId);
    }

    /** Adds one message by a participant and points the dialog at it; nothing else changes, and chats stay well formed. */
    method SendMessage(dialogId: Id, senderId: Id, body: string, newId: Id, now: int) returns (sent: bool)
      requires newId !in messages
      modifies `messages, `dialogs
      ensures sent <==>
              && dialogId in old(dialogs) && old(dialogs)[dialogId].isActive
              && (old(dialogs)[dialogId].user1 == senderId || old(dialogs)[dialogId].user2 == senderId)
              && (old(dialogs)[dialogId].user1, old(dialogs)[dialogId].user2) !in blocks
              && (old(dialogs)[dialogId].user2, old(dialogs)[dialogId].user1) !in blocks
      ensures !sent ==> messages == old(messages) && dialogs == old(dialogs)
      ensures sent ==> messages == old(messages)[newId := Message(dialogId, senderId, now, body)]
      ensures sent ==> dialogs == old(dialogs)[dialogId := old(dialogs)[dialogId].(lastMessage := Some(newId))]
      ensures WellFormed(old(State())) ==> WellFormed(State())
    {
      sent := FindUsable(dialogId, senderId);
      if !sent {
        return;
      }
      messages := messages[newId := Message(dialogId, senderId, now, body)];
      UpdateLastMessage(dialogId, newId);
    }

    method UpdateLastMessage(dialogId: Id, messageId: Id)
      modifies `dialogs
      ensures dialogs == if dialogId in old(dialogs)
                         then old(dialogs)[dialogId := old(dialogs)[dialogId].(lastMessage := Some(messageId))]
                         else old(dialogs)
    {
      if dialogId in dialogs {
        dialogs := dialogs[dialogId := dialogs[dialogId].(lastMessage := Some(messageId))];
      }
    }
  }

  // A page in plain words.
  lemma PageMeans(ids: set<Id>, limit: nat, before: Option<Id>, page: Page)
    requires IsPage(ids, limit, before, page) && limit >= 1
    ensures forall k :: 0 <= k < |page.ids| ==> page.ids[k] in ids && (before.Some? ==> page.ids[k] < before.value)
    ensures forall j, k :: 0 <= j < k < |page.ids| ==> page.ids[j] < page.ids[k]
    ensures forall i :: i in ids && (before.Some? ==> i < before.value) ==>
              i in page.ids || (page.hasMore && forall j :: j in page.ids ==> i < j)
    ensures |page.ids| <= limit && (page.hasMore ==> |page.ids| == limit)
    ensures page.nextCursor == if page.hasMore then Some(page.ids[0]) else None
  {
    var older := Older(ids, before);
    assert forall k :: 0 <= k < |page.ids| ==> page.ids[k] in page.ids;
    if !page.hasMore {
      LastPageIsAll(ids, limit, before, page);
      assert forall i :: i in Elements(page.ids) <==> i in page.ids;
    }
  }

  lemma PageSaysMore(messages: map<Id, Message>, dialogId: Id, limit: nat, before: Option<Id>, page: Page)
    requires IsPage(IdsOfDialog(messages, dialogId), limit, before, page)
    ensures Older(IdsOfDialog(messages, dialogId), before) ==
            set i | i in messages && messages[i].dialogId == dialogId && (before.Some? ==> i < before.value)
    ensures page.hasMore <==> |Older(IdsOfDialog(messages, dialogId), before)| > limit
  {
  }

  lemma AnswerItems(messages: map<Id, Message>, dialogId: Id, userId: Id, limit: nat, before: Option<Id>, page: Page)
    requires limit >= 1 && IsPage(IdsOfDialog(messages, dialogId), limit, before, page)
    requires forall i :: i in page.ids ==> i in messages
    ensures var items := ItemsOf(messages, userId, page.ids);
            && IdsOf(items) == page.ids
            && (forall k :: 0 <= k < |items| ==>
                  var item := items[k];
                  && item.id in messages && (before.Some? ==> item.id < before.value)
                  && var m := messages[item.id];
                  && m.dialogId == dialogId && item.sender == m.sender && item.createdAt == m.createdAt && item.body == m.body
                  && (item.isFromCurrentUser <==> m.sender == userId))
            && (forall j, k :: 0 <= j < k < |items| ==> items[j].id < items[k].id)
  {
    hide IsPage, ItemsOf, IdsOf;
    var items := ItemsOf(messages, userId, page.ids);
    assert IdsOf(items) == page.ids;
    PageMeans(IdsOfDialog(messages, dialogId), limit, before, page);
    forall k | 0 <= k < |items| ensures items[k].id in IdsOfDialog(messages, dialogId) && (before.Some? ==> items[k].id < before.value) {
      assert page.ids[k] == items[k].id;
    }
  }

  lemma AnswerLeavesOut(messages: map<Id, Message>, dialogId: Id, userId: Id, limit: nat, before: Option<Id>, page: Page)
    requires limit >= 1 && IsPage(IdsOfDialog(messages, dialogId), limit, before, page)
    requires forall i :: i in page.ids ==> i in messages
    ensures var items, hasMore := ItemsOf(messages, userId, page.ids), page.hasMore;
            && (forall i :: i in messages && messages[i].dialogId == dialogId && (before.Some? ==> i < before.value) ==>
                  (exists k :: 0 <= k < |items| && items[k].id == i) || (hasMore && forall k :: 0 <= k < |items| ==> i < items[k].id))
            && |items| <= limit && (hasMore ==> |items| == limit)
            && page.nextCursor == if hasMore then Some(items[0].id) else None
  {
    hide IsPage, ItemsOf;
    var all, ids, items, hasMore := IdsOfDialog(messages, dialogId), page.ids, ItemsOf(messages, userId, page.ids), page.hasMore;
    PageMeans(all, limit, before, page);
    assert forall k :: 0 <= k < |items| ==> items[k].id == ids[k] && ids[k] in ids;
    forall i | i in messages && messages[i].dialogId == dialogId && (before.Some? ==> i < before.value)
      ensures (exists k :: 0 <= k < |items| && items[k].id == i) || (hasMore && forall k :: 0 <= k < |items| ==> i < items[k].id)
    {
      assert i in all;
      if i in ids {
        var k :| 0 <= k < |ids| && ids[k] == i;
        assert items[k].id == i;
      }
    }
  }

  /******* Walking by cursor, as the client sees it *******/

  // One request of a client and what was there when it was answered.
  datatype Exchange = Exchange(messages: map<Id, Message>, limit: nat, result: MessagesResult)

  function IdsAt(e: Exchange, dialogId: Id): set<Id> {
    IdsOfDialog(e.messages, dialogId)
  }

  // Each request but the first passes on the cursor of the answer before; messages may arrive in between, none goes.
  ghost predicate IsConversation(dialogId: Id, es: seq<Exchange>) {
    es != [] ==>
      var n := |es| - 1;
      var e := es[n];
      && IsConversation(dialogId, es[..n]) && e.limit >= 1 && e.result.Messages?
      && (n > 0 ==> es[n - 1].result.Messages? && es[n - 1].result.hasMore && IdsAt(es[n - 1], dialogId) <= IdsAt(e, dialogId))
      && IsPage(IdsAt(e, dialogId), e.limit, if n == 0 then None else es[n - 1].result.nextCursor,
                Page(IdsOf(e.result.items), e.result.hasMore, e.result.nextCursor))
  }

  // What the client shows: each answer goes in front of what it has.
  function Shown(es: seq<Exchange>): seq<Item> {
    if es == [] then []
    else (if es[|es| - 1].result.Messages? then es[|es| - 1].result.items else []) + Shown(es[..|es| - 1])
  }

  // The conversation as a walk over ids.
  function VisitOf(dialogId: Id, e: Exchange): Visit {
    Visit(IdsAt(e, dialogId), e.limit,
          if e.result.Messages? then Page(IdsOf(e.result.items), e.result.hasMore, e.result.nextCursor) else Page([], false, None))
  }

  function VisitsOf(dialogId: Id, es: seq<Exchange>): (visits: seq<Visit>)
    ensures |visits| == |es| && forall n :: 0 <= n < |es| ==> visits[n] == VisitOf(dialogId, es[n])
  {
    seq(|es|, n requires 0 <= n < |es| => VisitOf(dialogId, es[n]))
  }

  lemma {:induction false} ConversationIsWalk(dialogId: Id, es: seq<Exchange>)
    requires IsConversation(dialogId, es)
    ensures IsWalk(VisitsOf(dialogId, es))
  {
    hide IsPage, VisitsOf, IdsOf, IdsAt;
    if es != [] {
      var n := |es| - 1;
      var visits := VisitsOf(dialogId, es);
      ConversationIsWalk(dialogId, es[..n]);
      assert visits[..n] == VisitsOf(dialogId, es[..n]);
      assert CursorOf(visits[..n]) == if n == 0 then None else es[n - 1].result.nextCursor;
    }
  }

  lemma {:induction false} ShownIsPrepended(dialogId: Id, es: seq<Exchange>)
    ensures IdsOf(Shown(es)) == Prepended(VisitsOf(dialogId, es))
  {
    hide VisitsOf, IdsOf, IdsAt;
    if es != [] {
      var n := |es| - 1;
      var visits := VisitsOf(dialogId, es);
      ShownIsPrepended(dialogId, es[..n]);
      assert visits[..n] == VisitsOf(dialogId, es[..n]);
      assert IdsOf(Shown(es)) == visits[n].page.ids + IdsOf(Shown(es[..n]));
    }
  }

  /**
   * A client that prepends answer to answer until there is no more shows every message present at the start exactly
   * once and in ascending order, whatever was sent meanwhile.
   */
  lemma ClientShowsEverythingOnce(dialogId: Id, es: seq<Exchange>)
    requires es != [] && IsConversation(dialogId, es) && !es[|es| - 1].result.hasMore
    ensures forall j, k :: 0 <= j < k < |Shown(es)| ==> Shown(es)[j].id < Shown(es)[k].id
    ensures forall i :: i in es[0].messages && es[0].messages[i].dialogId == dialogId ==>
              exists k :: 0 <= k < |Shown(es)| && Shown(es)[k].id == i
    ensures forall k :: 0 <= k < |Shown(es)| ==>
              var last := es[|es| - 1].messages;
              Shown(es)[k].id in last && last[Shown(es)[k].id].dialogId == dialogId
  {
    ConversationIsWalk(dialogId, es);
    ShownIsPrepended(dialogId, es);
    assert es[|es| - 1].result.Messages?;
    hide IsConversation, IsWalk, Shown, VisitsOf, Prepended;
    var ids, shown := IdsOf(Shown(es)), Shown(es);
    WalkReturnsEverythingOnce(VisitsOf(dialogId, es));
    forall i | i in es[0].messages && es[0].messages[i].dialogId == dialogId ensures exists k :: 0 <= k < |Shown(es)| && Shown(es)[k].id == i {
      assert i in IdsAt(es[0], dialogId) && i in ids;
      var k :| 0 <= k < |ids| && ids[k] == i;
    }
    forall k | 0 <= k < |Shown(es)| ensures Shown(es)[k].id in IdsAt(es[|es| - 1], dialogId) {
      assert ids[k] in ids;
    }
  }

  lemma SortedListing(found: set<Id>, listed: seq<Id>, ascending: seq<Id>)
    requires NoRepeats(listed) && Elements(listed) == found && |listed| == |found|
    requires Ascending(ascending) && Permutation(ascending, listed)
    ensures IsNewest(found, |found|, ascending)
  {
    assert Permutation(listed, ascending);
    SameElements(listed, ascending);
    assert forall i :: i in ascending <==> i in Elements(ascending);
  }

  lemma ReversedTwice<T>(s: seq<T>)
    ensures Reversed(Reversed(s)) == s
  {
    hide Reversed;
  }

  lemma ReversedTake<T>(rows: seq<T>, k: nat)
    requires k <= |rows|
    ensures Reversed(rows[..k]) == Reversed(rows)[|rows| - k..]
  {
    hide Reversed;
  }
}
