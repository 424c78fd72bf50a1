/** The event handlers of app/services/telegram_listener.py: a batch of
    deleted messages, and an edited message, each turned into store
    mutations plus notifications on the update queue.

    DeleteBatch, OnDeleted and OnEdited give the effect of one event on the
    table as values; the class TelegramListener runs the handlers in place
    and is proved to have exactly that effect. */
module Listener {
  import opened Wrappers
  import opened Identifier
  import opened Database
  import opened Events

  /** `events.MessageDeleted`; `deletedIds` is None when the event has no
      `deleted_ids` attribute. */
  datatype MessageDeleted = MessageDeleted(deletedIds: Option<seq<int>>)

  /** The parts of a channel message the handler reads. */
  datatype Message = Message(id: int, text: Option<string>, hasDocument: bool)

  /** `events.MessageEdited`; `message` is None when the event has none. */
  datatype MessageEdited = MessageEdited(message: Option<Message>)

  /** `message.text or ""`. */
  function Caption(msg: Message): string {
    msg.text.GetOr("")
  }

  /** One iteration of the loop in handle_deleted: delete by message id and
      notify when a file_id came back. */
  function DeleteStep(t: Table, messageId: int): (r: (Table, seq<Notification>))
    ensures |r.1| <= 1
  {
    var (t', deleted) := DeleteByMessageId(t, messageId);
    (t', if deleted.Some? then [Delete(deleted.value)] else [])
  }

  /** Deletes each id in turn by message id; a Delete notification follows
      each deletion that returned a file_id, in the order of the ids. */
  function DeleteBatch(t: Table, ids: seq<int>): (r: (Table, seq<Notification>))
    ensures |r.1| <= |ids|
    decreases |ids|
  {
    if ids == [] then (t, [])
    else
      var before := DeleteBatch(t, ids[..|ids| - 1]);
      var step := DeleteStep(before.0, ids[|ids| - 1]);
      (step.0, before.1 + step.1)
  }

  /** handle_deleted on the table. */
  function OnDeleted(t: Table, event: MessageDeleted): (r: (Table, seq<Notification>))
    ensures event.deletedIds.None? ==> r == (t, [])
  {
    match event.deletedIds
    case None => (t, [])
    case Some(ids) => DeleteBatch(t, ids)
  }

  /** handle_edited on the table. */
  function OnEdited(t: Table, event: MessageEdited): (Table, seq<Notification>) {
    match event.message
    case None => (t, [])
    case Some(msg) =>
      if !msg.hasDocument then (t, [])
      else
        var (t', updated) := SetDescriptionByMessageId(t, msg.id, Caption(msg));
        match updated
        case None => (t', [])
        case Some(fileId) => (t', [UpdateDescription(fileId, Caption(msg))])
  }

  // ---------------------------------------------------------------------
  // Deletion batches

  /** Processing `a + b` is processing `a`, then `b` on the result, with the
      notifications of `a` first. */
  lemma DeleteBatchLast(t: Table, ids: seq<int>, m: int)
    ensures var before := DeleteBatch(t, ids);
      DeleteBatch(t, ids + [m]) == (DeleteStep(before.0, m).0, before.1 + DeleteStep(before.0, m).1)
  {
    assert (ids + [m])[..|ids|] == ids;
  }

  lemma DeleteBatchPrefix(t: Table, ids: seq<int>, i: nat)
    requires i < |ids|
    ensures var before := DeleteBatch(t, ids[..i]);
      DeleteBatch(t, ids[..i + 1]) == (DeleteStep(before.0, ids[i]).0, before.1 + DeleteStep(before.0, ids[i]).1)
  {
    assert ids[..i + 1][..i] == ids[..i];
  }

  lemma {:induction false} DeleteBatchSplit(t: Table, a: seq<int>, b: seq<int>)
    ensures DeleteBatch(t, a + b)
         == (DeleteBatch(DeleteBatch(t, a).0, b).0, DeleteBatch(t, a).1 + DeleteBatch(DeleteBatch(t, a).0, b).1)
    decreases |b|
  {
    if b == [] {
      assert a + b == a;
      assert DeleteBatch(t, a).1 + [] == DeleteBatch(t, a).1;
    } else {
      var b', m := b[..|b| - 1], b[|b| - 1];
      SplitLast(a, b);
      DeleteBatchSplit(t, a, b');
      DeleteBatchSplitLast(t, a, b', m);
    }
  }

  /** The inductive step of DeleteBatchSplit: appending one id to `b`. */
  lemma DeleteBatchSplitLast(t: Table, a: seq<int>, b: seq<int>, m: int)
    requires DeleteBatch(t, a + b)
          == (DeleteBatch(DeleteBatch(t, a).0, b).0, DeleteBatch(t, a).1 + DeleteBatch(DeleteBatch(t, a).0, b).1)
    ensures DeleteBatch(t, (a + b) + [m])
         == (DeleteBatch(DeleteBatch(t, a).0, b + [m]).0, DeleteBatch(t, a).1 + DeleteBatch(DeleteBatch(t, a).0, b + [m]).1)
  {
    var ta := DeleteBatch(t, a);
    var rb := DeleteBatch(ta.0, b);
    var s := DeleteStep(rb.0, m);
    DeleteBatchLast(t, a + b, m);
    DeleteBatchLast(ta.0, b, m);
    assert ta.1 + rb.1 + s.1 == ta.1 + (rb.1 + s.1);
  }

  lemma SplitLast(a: seq<int>, b: seq<int>)
    requires b != []
    ensures b == b[..|b| - 1] + [b[|b| - 1]]
    ensures a + b == (a + b[..|b| - 1]) + [b[|b| - 1]]
  {
  }

  /** Every row of `t'` was a row of `t`. */
  predicate Shrinks(t: Table, t': Table) {
    forall x :: x in t' ==> x in t
  }

  /** Every row of `t` missing from `t'` has a Delete notification in `ns`. */
  predicate RemovalsNotified(t: Table, t': Table, ns: seq<Notification>) {
    forall x :: x in t ==> x in t' || Delete(x.fileId) in ns
  }

  /** Every notification in `ns` names a file_id that was in `t` and is
      gone from `t'`. */
  predicate NotifiesOnlyRemovals(t: Table, t': Table, ns: seq<Notification>) {
    forall k :: 0 <= k < |ns| ==> ns[k].fileId in FileIds(t) && ns[k].fileId !in FileIds(t')
  }

  /** Every notification in `ns` names a file_id keyed by one of `ids`. */
  predicate KeyedBy(ns: seq<Notification>, ids: seq<int>) {
    forall k :: 0 <= k < |ns| ==> MessageIdOf(ns[k].fileId).Some? && MessageIdOf(ns[k].fileId).value in ids
  }

  /** One step of a batch keeps the table invariants and fabricates no row. */
  lemma DeleteStepKeepsTable(t: Table, m: int)
    requires UniqueIds(t)
    ensures var s := DeleteStep(t, m);
      && UniqueIds(s.0)
      && (OnePerMessage(t) ==> OnePerMessage(s.0))
      && Shrinks(t, s.0)
      && FileIds(s.0) <= FileIds(t)
  {
    DeleteByMessageIdSpec(t, m);
  }

  /** One step of a batch notifies exactly the row it removes. */
  lemma DeleteStepSpec(t: Table, m: int)
    requires UniqueIds(t)
    ensures var s := DeleteStep(t, m);
      && RemovalsNotified(t, s.0, s.1)
      && |s.1| + |s.0| == |t|
      && NotifiesOnlyRemovals(t, s.0, s.1)
  {
    DeleteByMessageIdSpec(t, m);
    var (t', deleted) := DeleteByMessageId(t, m);
    if deleted.Some? {
      assert DeleteStep(t, m) == (t', [Delete(deleted.value)]);
    } else {
      assert DeleteStep(t, m) == (t, []);
    }
  }

  /** The file_id a step notifies is keyed by the step's message id. */
  lemma DeleteStepKeyed(t: Table, m: int)
    ensures KeyedBy(DeleteStep(t, m).1, [m])
  {
    match FirstWithMessagePrefix(t, m)
    case None =>
    case Some(i) => MessageIdOfPrefixed(t[i].fileId, m);
  }

  lemma ShrinksFileIds(t: Table, t': Table)
    requires Shrinks(t, t')
    ensures FileIds(t') <= FileIds(t)
  {
  }

  /** A deletion batch keeps file ids unique (and one row per message) and
      fabricates no row. */
  lemma {:induction false} DeleteBatchKeepsTable(t: Table, ids: seq<int>)
    requires UniqueIds(t)
    ensures var b := DeleteBatch(t, ids);
      && UniqueIds(b.0)
      && (OnePerMessage(t) ==> OnePerMessage(b.0))
      && Shrinks(t, b.0)
    decreases |ids|
  {
    if ids != [] {
      var init, m := ids[..|ids| - 1], ids[|ids| - 1];
      assert ids == init + [m];
      DeleteBatchKeepsTable(t, init);
      DeleteBatchLast(t, init, m);
      DeleteStepKeepsTable(DeleteBatch(t, init).0, m);
    }
  }

  /** A deletion batch accounts for every row it removes with exactly one
      Delete notification carrying that row's file_id, and notifies nothing
      else. */
  lemma {:induction false} DeleteBatchSpec(t: Table, ids: seq<int>)
    requires UniqueIds(t)
    ensures var b := DeleteBatch(t, ids);
      && RemovalsNotified(t, b.0, b.1)
      && |b.1| + |b.0| == |t|
      && NotifiesOnlyRemovals(t, b.0, b.1)
    decreases |ids|
  {
    if ids != [] {
      var init, m := ids[..|ids| - 1], ids[|ids| - 1];
      assert ids == init + [m];
      DeleteBatchSpec(t, init);
      DeleteBatchKeepsTable(t, init);
      DeleteBatchLast(t, init, m);
      DeleteStepAccounted(t, DeleteBatch(t, init).0, DeleteBatch(t, init).1, m);
    }
  }

  /** One more step after a prefix of a batch: the accounting of
      DeleteBatchSpec carries over to the extended notifications. */
  lemma DeleteStepAccounted(t: Table, before: Table, ns: seq<Notification>, m: int)
    requires UniqueIds(before) && Shrinks(t, before)
    requires RemovalsNotified(t, before, ns)
    requires |ns| + |before| == |t|
    requires NotifiesOnlyRemovals(t, before, ns)
    ensures var step := DeleteStep(before, m);
      && RemovalsNotified(t, step.0, ns + step.1)
      && |ns + step.1| + |step.0| == |t|
      && NotifiesOnlyRemovals(t, step.0, ns + step.1)
  {
    ShrinksFileIds(t, before);
    DeleteStepKeepsTable(before, m);
    DeleteStepSpec(before, m);
    var step := DeleteStep(before, m);
    var all := ns + step.1;
    forall k | 0 <= k < |all| ensures all[k].fileId in FileIds(t) && all[k].fileId !in FileIds(step.0) {
      if k < |ns| {
        assert all[k] == ns[k];
      } else {
        assert all[k] == step.1[k - |ns|];
      }
    }
    forall x | x in t ensures x in step.0 || Delete(x.fileId) in all {
      if x !in before {
        assert Delete(x.fileId) in ns;
      } else if x !in step.0 {
        assert Delete(x.fileId) in step.1;
      }
    }
  }

  /** Every file_id a batch notifies is keyed by one of the batch's ids. */
  lemma {:induction false} DeleteBatchKeyed(t: Table, ids: seq<int>)
    ensures KeyedBy(DeleteBatch(t, ids).1, ids)
    decreases |ids|
  {
    if ids != [] {
      var init, m := ids[..|ids| - 1], ids[|ids| - 1];
      assert ids == init + [m];
      DeleteBatchKeyed(t, init);
      DeleteBatchLast(t, init, m);
      var before := DeleteBatch(t, init);
      DeleteStepKeyed(before.0, m);
      var ns := before.1 + DeleteStep(before.0, m).1;
      forall k | 0 <= k < |ns| ensures MessageIdOf(ns[k].fileId).Some? && MessageIdOf(ns[k].fileId).value in ids {
        if k < |before.1| {
          assert ns[k] == before.1[k];
        } else {
          assert ns[k] == DeleteStep(before.0, m).1[k - |before.1|];
        }
      }
    }
  }

  /** No row of `t` carries the lookup prefix of message `m`. */
  predicate NoRowFor(t: Table, m: int) {
    forall x :: x in t ==> !HasMessagePrefix(x.fileId, m)
  }

  lemma NoRowForShrinks(t: Table, t': Table, m: int)
    requires NoRowFor(t, m) && Shrinks(t, t')
    ensures NoRowFor(t', m)
  {
  }

  /** A step for a message with no row changes nothing and notifies nothing. */
  lemma DeleteStepNoRow(t: Table, m: int)
    requires NoRowFor(t, m)
    ensures DeleteStep(t, m) == (t, [])
  {
    assert FirstWithMessagePrefix(t, m).None? by {
      forall j | 0 <= j < |t| ensures !HasMessagePrefix(t[j].fileId, m) {
        assert t[j] in t;
      }
    }
  }

  /** Under one row per message, one step leaves no row with the step's prefix. */
  lemma DeleteStepClears(t: Table, m: int)
    requires UniqueIds(t) && OnePerMessage(t)
    ensures NoRowFor(DeleteStep(t, m).0, m)
  {
    DeleteByMessageIdSpec(t, m);
    var t' := DeleteStep(t, m).0;
    forall x | x in t' ensures !HasMessagePrefix(x.fileId, m) {
      var k :| 0 <= k < |t| && t[k] == x;
    }
  }

  /** Under one row per message, after a batch no remaining row carries the
      prefix of any id of the batch. */
  lemma {:induction false} DeleteBatchClears(t: Table, ids: seq<int>)
    requires UniqueIds(t) && OnePerMessage(t)
    ensures forall m :: m in ids ==> NoRowFor(DeleteBatch(t, ids).0, m)
    decreases |ids|
  {
    if ids != [] {
      var init, m := ids[..|ids| - 1], ids[|ids| - 1];
      assert ids == init + [m];
      DeleteBatchClears(t, init);
      DeleteBatchKeepsTable(t, init);
      DeleteBatchLast(t, init, m);
      var before := DeleteBatch(t, init);
      DeleteStepClears(before.0, m);
      DeleteStepKeepsTable(before.0, m);
      forall m' | m' in init ensures NoRowFor(DeleteStep(before.0, m).0, m') {
        NoRowForShrinks(before.0, DeleteStep(before.0, m).0, m');
      }
    }
  }

  /** Under one row per message, two rows with the same message prefix are the same row. */
  lemma OnlyOneRowPerMessage(t: Table, m: int, x: FileRecord, y: FileRecord)
    requires OnePerMessage(t) && x in t && y in t
    requires HasMessagePrefix(x.fileId, m) && HasMessagePrefix(y.fileId, m)
    ensures x == y
  {
    var a :| 0 <= a < |t| && t[a] == x;
    var b :| 0 <= b < |t| && t[b] == y;
  }

  /** A batch none of whose ids has a row changes nothing and notifies nothing. */
  lemma {:induction false} DeleteBatchNoMatch(t: Table, ids: seq<int>)
    requires forall m :: m in ids ==> NoRowFor(t, m)
    ensures DeleteBatch(t, ids) == (t, [])
    decreases |ids|
  {
    if ids != [] {
      var init, m := ids[..|ids| - 1], ids[|ids| - 1];
      assert ids == init + [m];
      DeleteBatchNoMatch(t, init);
      DeleteStepNoRow(t, m);
      DeleteBatchLast(t, init, m);
    }
  }

  /** Replaying a deletion batch removes nothing further and appends no
      notification, as long as each message has at most one row. */
  lemma DeleteBatchReplay(t: Table, ids: seq<int>)
    requires UniqueIds(t) && OnePerMessage(t)
    ensures var t' := DeleteBatch(t, ids).0;
      DeleteBatch(t', ids) == (t', [])
  {
    DeleteBatchClears(t, ids);
    DeleteBatchNoMatch(DeleteBatch(t, ids).0, ids);
  }

  /** Without one row per message the replay is not idempotent: only the
      first row of message 1 goes on each pass. */
  lemma ReplayRemovesMoreWithTwoRowsPerMessage()
    ensures var t := [FileRecord("a", "1:a", 1, None, 0), FileRecord("b", "1:b", 1, None, 0)];
      && UniqueIds(t)
      && !OnePerMessage(t)
      && DeleteBatch(t, [1]) == ([t[1]], [Delete("1:a")])
      && DeleteBatch(DeleteBatch(t, [1]).0, [1]) == ([], [Delete("1:b")])
  {
    var t := [FileRecord("a", "1:a", 1, None, 0), FileRecord("b", "1:b", 1, None, 0)];
    assert NatDigits(1) == "1";
    assert MessagePrefix(1) == "1:";
    assert HasMessagePrefix("1:a", 1) && HasMessagePrefix("1:b", 1);
    MessageIdOfPrefixed("1:a", 1);
    MessageIdOfPrefixed("1:b", 1);
    assert FirstWithMessagePrefix(t, 1) == Some(0);
    assert IndexOfId(t, "1:a") == Some(0);
    assert RemoveAt(t, 0) == [t[1]];
    assert DeleteStep(t, 1) == ([t[1]], [Delete("1:a")]);
    DeleteBatchSingle(t, 1);
    assert FirstWithMessagePrefix([t[1]], 1) == Some(0);
    assert IndexOfId([t[1]], "1:b") == Some(0);
    assert RemoveAt([t[1]], 0) == [];
    assert DeleteStep([t[1]], 1) == ([], [Delete("1:b")]);
    DeleteBatchSingle([t[1]], 1);
  }

  lemma DeleteBatchSingle(t: Table, m: int)
    ensures DeleteBatch(t, [m]) == DeleteStep(t, m)
  {
    assert [m][..0] == [];
    var step := DeleteStep(t, m);
    assert [] + step.1 == step.1;
  }

  // ---------------------------------------------------------------------
  // Edits

  /** An edit of a tracked message sets the description of the first row
      with its prefix to the caption and yields exactly one notification
      with that row's file_id and the caption. */
  lemma EditTracked(t: Table, event: MessageEdited, i: nat)
    requires event.message.Some? && event.message.value.hasDocument
    requires i < |t| && HasMessagePrefix(t[i].fileId, event.message.value.id)
    requires forall j :: 0 <= j < i ==> !HasMessagePrefix(t[j].fileId, event.message.value.id)
    ensures var caption := Caption(event.message.value);
      OnEdited(t, event) ==
        (t[i := t[i].(description := Some(caption))], [UpdateDescription(t[i].fileId, caption)])
  {
    var msg := event.message.value;
    assert FirstWithMessagePrefix(t, msg.id) == Some(i);
    var j := IndexOfId(t, t[i].fileId).value;
    assert j == i by {
      assert HasMessagePrefix(t[j].fileId, msg.id);
    }
  }

  /** An edit of a message no row is keyed by changes nothing and notifies nothing. */
  lemma EditUntracked(t: Table, event: MessageEdited)
    requires event.message.Some?
    requires forall x :: x in t ==> !HasMessagePrefix(x.fileId, event.message.value.id)
    ensures OnEdited(t, event) == (t, [])
  {
    var msg := event.message.value;
    assert FirstWithMessagePrefix(t, msg.id).None? by {
      forall j | 0 <= j < |t| ensures !HasMessagePrefix(t[j].fileId, msg.id) {
        assert t[j] in t;
      }
    }
  }

  /** Replaying an edit leaves the table as the first application left it
      and repeats the same notification. */
  lemma EditReplay(t: Table, event: MessageEdited)
    ensures var (t', ns) := OnEdited(t, event);
      OnEdited(t', event) == (t', ns)
  {
    if event.message.Some? && event.message.value.hasDocument {
      var msg := event.message.value;
      match FirstWithMessagePrefix(t, msg.id)
      case None =>
        EditUntracked(t, event);
        forall x | x in t ensures !HasMessagePrefix(x.fileId, msg.id) {
          var k :| 0 <= k < |t| && t[k] == x;
        }
      case Some(i) =>
        EditTracked(t, event, i);
        var t' := t[i := t[i].(description := Some(Caption(msg)))];
        EditTracked(t', event, i);
        assert t'[i := t'[i].(description := Some(Caption(msg)))] == t';
    }
  }

  /** An edit keeps file ids unique and one row per message. */
  lemma EditKeepsInvariants(t: Table, event: MessageEdited)
    ensures UniqueIds(t) ==> UniqueIds(OnEdited(t, event).0)
    ensures OnePerMessage(t) ==> OnePerMessage(OnEdited(t, event).0)
  {
    if event.message.Some? && event.message.value.hasDocument {
      var msg := event.message.value;
      SetDescriptionByMessageIdSpec(t, msg.id, Caption(msg));
    }
  }

  /** An edit without a document is ignored; otherwise at most one
      notification, carrying the caption and a tracked file_id keyed by the
      edited message, and no notification means no change. */
  lemma OnEditedSpec(t: Table, event: MessageEdited)
    ensures var r := OnEdited(t, event);
      && (event.message.None? || !event.message.value.hasDocument ==> r == (t, []))
      && |r.1| <= 1
      && (r.1 == [] ==> r.0 == t)
      && (r.1 != [] ==>
            && event.message.Some?
            && r.1[0] == UpdateDescription(r.1[0].fileId, Caption(event.message.value))
            && HasMessagePrefix(r.1[0].fileId, event.message.value.id)
            && r.1[0].fileId in FileIds(t))
  {
    if event.message.Some? && event.message.value.hasDocument {
      var msg := event.message.value;
      SetDescriptionByMessageIdSpec(t, msg.id, Caption(msg));
    }
  }

  // ---------------------------------------------------------------------
  // The listener

  /** TelegramListener with the client connection left out: the store it
      mutates and the queue it notifies. */
  class TelegramListener {
    const store: FileStore
    const queue: UpdateQueue

    constructor (store: FileStore, queue: UpdateQueue)
      ensures this.store == store && this.queue == queue
    {
      this.store := store;
      this.queue := queue;
    }

    /** handle_deleted. */
    method HandleDeleted(event: MessageDeleted)
      requires store.Valid()
      modifies store, queue
      ensures store.Valid()
      ensures event.deletedIds.None? ==> store.rows == old(store.rows) && queue.items == old(queue.items)
      ensures store.rows == OnDeleted(old(store.rows), event).0
      ensures queue.items == old(queue.items) + OnDeleted(old(store.rows), event).1
    {
      if event.deletedIds.None? {
        return;
      }
      var ids := event.deletedIds.value;
      for i := 0 to |ids|
        invariant store.Valid()
        invariant store.rows == DeleteBatch(old(store.rows), ids[..i]).0
        invariant queue.items == old(queue.items) + DeleteBatch(old(store.rows), ids[..i]).1
      {
        DeleteBatchPrefix(old(store.rows), ids, i);
        HandleDeletedId(ids[i]);
      }
      assert ids[..|ids|] == ids;
    }

    /** One pass of the loop in handle_deleted. */
    method HandleDeletedId(deletedId: int)
      requires store.Valid()
      modifies store, queue
      ensures store.Valid()
      ensures store.rows == DeleteStep(old(store.rows), deletedId).0
      ensures queue.items == old(queue.items) + DeleteStep(old(store.rows), deletedId).1
    {
      var deletedFileId := store.DeleteFileByMessageId(deletedId);
      // `if deleted_file_id:` also skips an empty string; a returned
      // file_id carries the "<id>:" prefix, so it is never empty.
      assert deletedFileId.Some? ==> |deletedFileId.value| >= |MessagePrefix(deletedId)| >= 2;
      if deletedFileId.Some? && deletedFileId.value != "" {
        queue.Put(Delete(deletedFileId.value));
      }
    }

    /** handle_edited. */
    method HandleEdited(event: MessageEdited)
      requires store.Valid()
      modifies store, queue
      ensures store.Valid()
      ensures store.rows == OnEdited(old(store.rows), event).0
      ensures queue.items == old(queue.items) + OnEdited(old(store.rows), event).1
    {
      if event.message.None? || !event.message.value.hasDocument {
        return;
      }
      var message := event.message.value;
      var newCaption := Caption(message);
      var updatedFileId := store.UpdateDescriptionByMessageId(message.id, newCaption);
      if updatedFileId.Some? && updatedFileId.value != "" {
        queue.Put(UpdateDescription(updatedFileId.value, newCaption));
      }
    }
  }
}
