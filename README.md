# tgstate-python: file metadata store and channel listener

tgstate-python keeps files in a Telegram channel and tracks them in a small
SQLite table `files`. Each row holds a filename, a `file_id` of the form
`"<message_id>:<token>"`, a size, a description and an upload date. A
listener reacts to two kinds of channel events. For each deleted message
id, it removes at most one row: the first one whose `file_id` carries that
message's prefix. When a caption is edited, it updates the description of
the first such row. For every row it touches, it puts a notification on a
queue that the web front end reads.

This project models that core in Dafny:

- `Identifier` (Identifier.dfy) covers how a message id is rendered as text. It defines the
  `"<message_id>:"` lookup prefix and the store's `LIKE '<id>:%'` test, and
  decodes the message id back out of a `file_id`.
- `Database` (Database.dfy) covers the `files` table of app/database.py. It holds pure table
  functions (insert-or-ignore, ordered listing, lookup, delete and update by
  `file_id` and by message id) with their lemmas. It also has the class
  `FileStore`, whose methods change its `rows` in place, one method per
  function of the source.
- `Events` (Events.dfy) covers the notification queue: `Delete` and `UpdateDescription`
  notifications, and `UpdateQueue.Put`.
- `Listener` (Listener.dfy) covers `handle_deleted` and `handle_edited` of
  app/services/telegram_listener.py. Each event's effect on (table,
  notifications) is a function (`DeleteStep`, `DeleteBatch`, `OnDeleted`,
  `OnEdited`) with lemmas about it. The class `TelegramListener` runs the
  handlers against a `FileStore` and an `UpdateQueue`, and each method is
  proved equal to its function.

The class invariant of `FileStore` is the `UNIQUE` constraint on `file_id`
(no two rows share a `file_id`). Every method keeps it. "One row per
message" (`OnePerMessage`) means that no two rows match the lookup prefix of
the same message id. The source assumes it in a comment but does not
enforce it. Delete and update keep it (DeleteByIdSpec,
DeleteByMessageIdSpec, SetDescriptionByMessageIdSpec, DeleteBatchKeepsTable,
EditKeepsInvariants). Insert does not: adding "1:b" to a table holding "1:a"
breaks it (InsertCanBreakOnePerMessage). The replay lemmas require it.

## Model

| member | source | states |
|---|---|---|
| Identifier.DecimalString | app/database.py:113 | The `f"{message_id}"` rendering: non-empty, never contains ':', starts with a digit iff the id is non-negative. ParseDecimalRoundTrip reads it back. |
| Identifier.MessagePrefix | app/database.py:113 | The lookup prefix "<message_id>:" has at least two characters, ends in ':' and has no other ':'. |
| Identifier.HasMessagePrefix | app/database.py:112-113 | `file_id LIKE '<message_id>:%'` as a prefix test. MessageIdOfPrefixed and MessagePrefixUnique state its properties. |
| Identifier.MessageIdOf | app/database.py:112 | Decodes the message id of a "<message_id>:<token>" file_id, the text before its first ':'. MessageIdOfPrefixed ties it to the prefix test. |
| Database.IndexOfId | app/database.py:77-78 | `WHERE file_id = ?` with fetchone: the first index carrying the file_id. Absent iff the file_id is not in the table. |
| Database.FirstWithMessagePrefix | app/database.py:113-114 | `WHERE file_id LIKE '<id>:%'` with fetchone: the first index, in table order, whose file_id carries the prefix. No earlier row carries it. Absent iff no row carries it. |
| Database.Inserted | app/database.py:50-53 | INSERT OR IGNORE on the table. InsertedSpec and InsertTwice state its properties. |
| Database.InsertByDate | app/database.py:65 | One insertion step of the ordered listing. InsertByDateSpec states that it keeps newest-first and adds exactly one row. |
| Database.OrderedByDate | app/database.py:65-66 | The ORDER BY upload_date DESC listing. OrderedByDateSpec states that it is newest-first and a permutation. |
| Database.View | app/database.py:80 | The result dictionary of get_file_by_id, with a NULL description mapped to "". LookupSpec states it. |
| Database.DeleteById | app/database.py:94-97 | `DELETE WHERE file_id = ?` with `rowcount > 0`. DeleteByIdSpec states its properties. |
| Database.SetDescriptionById | app/database.py:131-133 | `UPDATE ... WHERE file_id = ?` with `rowcount > 0`. SetDescriptionByIdSpec states its properties. |
| Database.DeleteByMessageId | app/database.py:113-121 | The first prefix match, then a delete by its file_id, returning that file_id. DeleteByMessageIdSpec states its properties. |
| Database.SetDescriptionByMessageId | app/database.py:143-150 | The first prefix match, then an update by its file_id, returning that file_id. SetDescriptionByMessageIdSpec states its properties. |
| Events.UpdateQueue.constructor | app/services/telegram_listener.py:5 | The shared file_update_queue starts empty. |
| Listener.TelegramListener.constructor | app/services/telegram_listener.py:10-17 | The listener holds the store and the queue it was given. The client and channel settings are left out. |
| Listener.Caption | app/services/telegram_listener.py:53 | `message.text or ""`: the text, or "" when it is absent. EditTracked uses it as the stored description. |
| Listener.DeleteStep | app/services/telegram_listener.py:34-43 | One loop pass: at most one notification. DeleteStepSpec, DeleteStepKeepsTable and DeleteStepKeyed state its properties. |
| Listener.DeleteBatch | app/services/telegram_listener.py:30-43 | The whole loop over deleted_ids: at most one notification per id. DeleteBatchSpec, DeleteBatchSplit and DeleteBatchReplay state its properties. |
| Listener.OnEdited | app/services/telegram_listener.py:46-68 | handle_edited on the table. OnEditedSpec, EditTracked, EditUntracked and EditReplay state its properties. |
| Database.FileStore.constructor | app/database.py:21-29 | The table starts empty and satisfies the unique-file_id invariant. |
| Database.FileStore.AddFileMetadata | app/database.py:41-57 | INSERT OR IGNORE. A taken file_id leaves the table unchanged. A fresh one appends exactly one row with the given fields. file_id stays unique. |
| Database.InsertedSpec | app/database.py:50-53 | On the table function: a taken file_id gives the same table, a fresh one gives the table plus that row. Uniqueness is kept and the file_id is present afterwards. |
| Database.InsertTwice | app/database.py:41-53 | Inserting a second row with the same file_id is a no-op. The first insert's fields win. |
| Database.FileStore.GetAllFiles | app/database.py:59-69 | The result is the table's rows, each exactly once (same multiset), ordered by upload date, newest first. The table is not modified. |
| Database.OrderedByDateSpec | app/database.py:65-66 | The ORDER BY upload_date DESC listing is newest-first and a permutation of the table. |
| Database.InsertByDateSpec | app/database.py:65 | Inserting one row into a newest-first list keeps it newest-first and adds exactly that row. |
| Database.FileStore.GetFileById | app/database.py:71-83 | Absent iff no row has that file_id. Otherwise the row's filename, size and description, with "" for a NULL description. |
| Database.Lookup | app/database.py:77-81 | Absent iff the file_id is not in the table. When present, the view is built from some row carrying that file_id. |
| Database.LookupSpec | app/database.py:77-81 | With unique file ids, the lookup returns exactly the row with that file_id, with a NULL description mapped to "". |
| Database.FileStore.DeleteFileMetadata | app/database.py:85-99 | Returns true iff a row had that file_id. Afterwards no row has it, and every other row is still there. |
| Database.DeleteByIdSpec | app/database.py:94-97 | On the table function: true iff the file_id existed. The remaining rows are exactly those with a different file_id. The size drops by one iff a row was deleted. Uniqueness and one-row-per-message are kept. |
| Database.RemoveAtSpec | app/database.py:94 | Removing one row keeps file ids unique and one row per message. The remaining rows are exactly those with a different file_id. |
| Database.FileStore.DeleteFileByMessageId | app/database.py:101-123 | With a row carrying the prefix "<message_id>:", that row is removed and its file_id is returned. The file_id carries the prefix, was in the table and is gone afterwards. With no such row, it returns absent and the table is unchanged. |
| Database.DeleteByMessageIdSpec | app/database.py:113-121 | Absent iff no row carries the prefix, and then the table is unchanged. Otherwise the returned file_id carries the prefix and was in the table. Exactly the rows with that file_id are gone, one row fewer. The invariants are kept. |
| Database.DeleteThenLookup | app/database.py:113-121 | After a delete by message id, a lookup of the returned file_id finds nothing. |
| Database.FileStore.UpdateFileDescription | app/database.py:125-135 | Returns true iff a row had that file_id. Only that row's description changes, every other field and row is unchanged. |
| Database.SetDescriptionByIdSpec | app/database.py:131-133 | On the table function: true iff the file_id existed. Every row with that file_id gets the description, every other row is unchanged, and ids stay unique. |
| Database.SetDescriptionAtKeepsIds | app/database.py:131 | Changing one row's description changes no file_id, so uniqueness and one-row-per-message are kept. |
| Database.FileStore.UpdateDescriptionByMessageId | app/database.py:137-152 | With a row carrying the prefix, it returns that row's file_id (which carries the prefix) and that row keeps its file_id. With no such row, it returns absent and nothing changes. |
| Database.SetDescriptionByMessageIdSpec | app/database.py:143-150 | Absent iff no row carries the prefix, and then nothing changes. Otherwise exactly the first matching row gets the new description, every other field and row is unchanged, and the file_id set is kept. |
| Database.InsertCanBreakOnePerMessage | app/database.py:50-53 | INSERT OR IGNORE checks only file_id: adding "1:b" to a table holding only "1:a" keeps ids unique but leaves two rows for message 1. |
| Database.UpdateThenLookup | app/database.py:143-150 | After an update by message id, a lookup of the returned file_id sees the new description. |
| Identifier.ParseDecimalRoundTrip | app/database.py:113 | Reading back the f-string rendering of any int gives that int. |
| Identifier.DecimalStringInjective | app/database.py:113 | Distinct message ids render to distinct prefixes. |
| Identifier.MessageIdOfPrefixed | app/database.py:112-113 | A file_id matched by LIKE '<id>:%' decodes to that id (the text before its first ':'). |
| Identifier.MessagePrefixUnique | app/database.py:112-113 | A file_id matches the lookup prefix of at most one message id: "4:" never matches "42:abc". |
| Identifier.PrefixExample | app/database.py:113 | "42:abc" matches message 42 and not message 4. |
| Events.UpdateQueue.Put | app/services/telegram_listener.py:40-43 | file_update_queue.put appends exactly one notification at the end. |
| Listener.TelegramListener.HandleDeleted | app/services/telegram_listener.py:25-43 | The store and queue end exactly as OnDeleted says, and the store stays valid. An event without deleted_ids changes neither. |
| Listener.TelegramListener.HandleDeletedId | app/services/telegram_listener.py:30-43 | One loop pass: delete by message id, then put a Delete notification iff a file_id came back. Matches DeleteStep. |
| Listener.OnDeleted | app/services/telegram_listener.py:27-28 | An event without deleted_ids leaves the table as it was and notifies nothing. |
| Listener.DeleteStepSpec | app/services/telegram_listener.py:34-43 | A deleted row has a Delete notification with its file_id. Notifications plus remaining rows equal the old row count. A notified file_id was in the table and is gone. |
| Listener.DeleteStepKeepsTable | app/services/telegram_listener.py:34 | One step keeps unique file ids and one row per message, and adds no row. |
| Listener.DeleteStepKeyed | app/services/telegram_listener.py:34-43 | The file_id a step notifies decodes to the step's message id. |
| Listener.DeleteBatchSpec | app/services/telegram_listener.py:30-43 | Over a whole batch, every removed row has a Delete notification carrying its file_id. One notification per removed row, and a notified file_id was in the table before and is gone after. |
| Listener.DeleteStepAccounted | app/services/telegram_listener.py:30-43 | One more loop pass after a prefix of the batch keeps that accounting. |
| Listener.DeleteBatchKeepsTable | app/services/telegram_listener.py:30-34 | A batch keeps unique file ids and one row per message, and adds no row. |
| Listener.DeleteBatchKeyed | app/services/telegram_listener.py:30-43 | Each notified file_id decodes to one of the batch's ids. |
| Listener.DeleteBatchSplit | app/services/telegram_listener.py:30-43 | Processing ids a ++ b is a, then b on the result. The notifications of a come first, so notifications follow the order of deleted_ids. |
| Listener.DeleteBatchSplitLast | app/services/telegram_listener.py:30-43 | The inductive step of DeleteBatchSplit: one more id at the end. |
| Listener.DeleteBatchLast | app/services/telegram_listener.py:30-43 | The batch for ids ++ [m] is the batch for ids followed by one step for m, its notification appended last. |
| Listener.DeleteBatchPrefix | app/services/telegram_listener.py:30-43 | The same fact for successive prefixes of deleted_ids, as the loop walks them. |
| Listener.DeleteBatchSingle | app/services/telegram_listener.py:30-43 | A batch of one id is one step. |
| Listener.DeleteStepNoRow | app/services/telegram_listener.py:34-36 | An id with no matching row changes nothing and notifies nothing. |
| Listener.DeleteBatchNoMatch | app/services/telegram_listener.py:34-36 | A batch none of whose ids matches a row changes nothing and notifies nothing. |
| Listener.DeleteStepClears | app/database.py:113-118 | With one row per message, no row carries the step's prefix after the step. |
| Listener.DeleteBatchClears | app/services/telegram_listener.py:30-34 | With one row per message, no remaining row carries the prefix of any id of the batch. |
| Listener.OnlyOneRowPerMessage | app/database.py:104 | When no two rows match the lookup prefix of the same message id, two rows carrying the same message prefix are the same row. |
| Listener.DeleteBatchReplay | app/services/telegram_listener.py:34-36 | With one row per message, replaying a batch removes nothing further and notifies nothing. |
| Listener.ReplayRemovesMoreWithTwoRowsPerMessage | app/database.py:113-118 | Rows "1:a" and "1:b" (unique file ids, two rows for message 1): each pass of [1] removes and notifies one more row, so replay is not a no-op without one row per message. |
| Listener.TelegramListener.HandleEdited | app/services/telegram_listener.py:46-68 | The store and queue end exactly as OnEdited says, and the store stays valid. |
| Listener.OnEditedSpec | app/services/telegram_listener.py:48-68 | No message or no document: nothing changes. At most one notification, and none means no change. A notification is UpdateDescription with the caption, a file_id from the table and a file_id carrying the edited message's prefix. |
| Listener.EditTracked | app/services/telegram_listener.py:52-68 | Editing a tracked message sets exactly the first matching row's description to the caption (text, or "" when absent). It emits exactly one UpdateDescription with that row's file_id and the caption. |
| Listener.EditUntracked | app/services/telegram_listener.py:58-60 | Editing a message no row is keyed by leaves the table unchanged and notifies nothing. |
| Listener.EditReplay | app/services/telegram_listener.py:46-68 | Replaying an edit leaves the table as the first one left it and repeats the same notification. |
| Listener.EditKeepsInvariants | app/services/telegram_listener.py:58 | An edit keeps file ids unique and one row per message. |

## Left out

- SQLite itself is not modelled. That covers connections, `row_factory`, commit/close and the database path. The table is a sequence of rows held by `FileStore`.
- `db_lock` is left out. It serialises access between threads, and the model's methods run one at a time.
- `init_db` is not modelled: the `CREATE TABLE` DDL and the `PRAGMA`/`ALTER TABLE` migration. Only the table's `UNIQUE(file_id)` constraint is kept, as the class invariant.
- The autoincrement `id` column is not modelled. The core never reads it.
- `upload_date DEFAULT CURRENT_TIMESTAMP` is not modelled as a clock. `AddFileMetadata` takes the timestamp as a parameter.
- Database.FileStore.AddFileMetadata: the source's `description` is a string defaulting to ""; the model takes an optional string. None stands for a NULL a caller could pass, which `get_file_by_id` maps to "".
- Database.OrderedByDateSpec: ties on upload date keep table order. SQLite leaves the order of ties unspecified, so the model fixes one of the orders it may return.
- `LIKE` is modelled only for the patterns the source builds. `f"{message_id}:%"` holds digits, '-' and ':' and ends in '%', so the match is a prefix test. Case-insensitive matching and the `_` wildcard never come into play.
- `fetchone` without ORDER BY is modelled as the first matching row in insertion order. SQLite does not promise this order. The lookups read only `file_id`, and the LIKE optimisation does not apply to a column with the default BINARY collation. So SQLite's planner will likely scan the covering `UNIQUE(file_id)` index, in which case `fetchone` returns the matching file_id that sorts first, not the oldest row. This matters only when two rows share a message prefix.
- filesize and message ids are unbounded integers. SQLite's 64-bit INTEGER limit is not modelled.
- The Telethon client is not modelled: construction, `start`, `run_until_disconnected`, `stop` and event registration. Neither are settings lookup or the `get_listener` singleton. They are network plumbing and a foreign library. The handlers are methods that receive the event.
- `hasattr(event, 'deleted_ids')` is modelled as an optional id list. `message.document` is modelled as a boolean.
- asyncio, `await` and JSON encoding are not modelled. The queue holds `Notification` values, not JSON strings.
- app/events.py is not part of this model. `file_update_queue` is `UpdateQueue`, and its consumer side is left out.
- All `print` logging is left out.
- Listener.DeleteBatchReplay: replay idempotence is proved only under one row per message. The store does not enforce that, and ReplayRemovesMoreWithTwoRowsPerMessage shows the replay otherwise deletes more.
- Storage errors are not modelled. In the source, a sqlite3 exception propagates out of every database function, since `try/finally` only closes the connection. The loop in `handle_deleted` has no `try`, so an error on one id abandons the rest of `deleted_ids`. In the model every table operation is total, and `DeleteBatch` always processes every id.
- The concurrency behaviour of the lock (no lost updates under parallel calls) is not modelled.
