# Telegram flashcard bot: item store and polling rule in Dafny

This project models the core of a Telegram flashcard bot written in Python.

- **`Storage`** (`storage.dfy`) models the flashcard item store `StorageManager`.
  - It covers an sqlite `items` table with the columns `id`, `inserted_date`, `answer`, `quiz`, `answer_correct_count`, `answer_wrong_count` and `item_type`.
  - `id` is the primary key and `answer` has a unique index.
  - The store also holds two pieces of state: the row picked by the last random selection (`self.item`), and whether the connection has been closed.
  - The table is a `seq<Row>` in insertion order.
  - Each SQL statement the store issues is a function on that sequence:
    - `InsertRow` is the INSERT, including its two failure causes.
    - `Bump` is the `field = field + 1` UPDATE keyed by `id`.
    - `HasAnswer` is the EXISTS lookup by `answer`.
  - The class `StorageManager` holds `rows`, `item` and `closed`. Each of its methods is proved against those functions and keeps the table constraints (`ValidTable`). The methods that change the table (`InsertItem`, `UpdateNumericField`, `CheckQuizItem`) also keep the growth relation `Grows`: rows are only appended, only counters change, and counters never decrease. `SelectRandomItem` and `CloseConnection` do not change the table.
- **`Flashcard`** (`flashcard.dfy`) models the new-message rule of the polling loop.
  - `last_message_id` starts at the sentinel `-1`.
  - A poll made while the sentinel is held only records the observed id.
  - After that, a message is handled (read and echoed once) only when its id is truthy and differs from the recorded one. Truthy means present and non-zero. Handling records the id.
  - The transport is abstracted away. Each poll is a value `Poll(messageId, text)`: the newest `update_id` (or `None`) and the text reading that message yields.
  - The loop runs over a finite sequence of polls.
- **`Wrappers`** (`wrappers.dfy`) holds `Option`, `Result` and `Outcome`.

## Model

| member | source | states |
|---|---|---|
| `Storage.MaxId` | src/storage_manager.py:41-42 | the result is at least every id in the table, is 0 on an empty table, and is carried by some row otherwise |
| `Storage.NextId` | src/storage_manager.py:41-42 | the id given to an inserted row is at least 1, is larger than every existing id (so no row has it), and is 1 on an empty table |
| `Storage.HasAnswer` | src/storage_manager.py:141-142 | the lookup, written as a scan of the table, is true exactly when some row carries the answer |
| `Storage.InsertRow` | src/storage_manager.py:55-89 | a closed connection raises `ConnectionClosed`; an answer already present raises `DuplicateAnswer`, whatever the quiz; otherwise exactly one row is appended with the given date, type, answer and quiz, both counters 0 and a fresh id (1 on an empty table), and existing rows are unchanged |
| `Storage.InsertKeepsTableValid` | src/storage_manager.py:41-53 | a successful insert keeps every id distinct and every answer distinct |
| `Storage.Bump` | src/storage_manager.py:102-105 | the UPDATE keeps the number of rows, changes no column of any row but its counters, and leaves every row with another id as it was; `BumpChangesOneCounter`, `BumpKeepsTableValid` and `BumpAddsOne` state what it does to the matching row |
| `Storage.BumpKeepsTableValid` | src/storage_manager.py:102-105 | the UPDATE keeps every id and every answer distinct, changes no column but the counters, decreases no counter, and changes nothing when no row has the id |
| `Storage.BumpChangesOneCounter` | src/storage_manager.py:91-107 | the UPDATE keyed by the id of a row increments exactly the named counter of that row by exactly one; the row's other columns and every other row are unchanged |
| `Storage.GrowsTransitive` | src/storage_manager.py:102-104 | growth composes, so along any run of store operations no counter decreases and no other column changes |
| `Storage.TotalBump` | src/storage_manager.py:102-105 | the UPDATE raises the sum of all counters by the number of rows carrying the id |
| `Storage.IdCountUnique` | src/storage_manager.py:41-42 | under the primary key an id is carried by exactly one row if present, by none otherwise |
| `Storage.BumpAddsOne` | src/storage_manager.py:102-105 | an UPDATE on an existing id raises the counter total by exactly one |
| `Storage.CheckQuizChangesOneCounter` | src/storage_manager.py:141-147 | for the selected row: the check matches iff some row (not necessarily the selected one) has the attempted answer; the selected row's correct counter then grows by one, otherwise its wrong counter does; no other row or column changes, and the counter total grows by exactly one |
| `Storage.StorageManager.constructor` | src/storage_manager.py:30-53 | opening the store keeps the rows already in the database, with no selected row and an open connection |
| `Storage.StorageManager.InsertItem` | src/storage_manager.py:55-89 | the table becomes the one `InsertRow` gives, or stays unchanged and the exception is returned; the constraints hold and the table only grows |
| `Storage.StorageManager.UpdateNumericField` | src/storage_manager.py:91-107 | the table becomes the `+1` UPDATE of the named counter on the given id |
| `Storage.StorageManager.SelectRandomItem` | src/storage_manager.py:109-127 | an empty table raises `EmptyTable` and keeps the selection; otherwise some existing row becomes the selection and its `quiz` is returned |
| `Storage.StorageManager.CheckQuizItem` | src/storage_manager.py:129-147 | returns whether any row has the attempted answer; increments the selected row's correct or wrong counter accordingly; the counter total grows by exactly one |
| `Storage.StorageManager.CloseConnection` | src/storage_manager.py:149-155 | on an open store, the connection becomes closed and the table constraints still hold, so later inserts fail |
| `Flashcard.Step` | src/flashcard.py:23-36 | while the sentinel is held, a poll only records the observed id; otherwise a message is handled iff its id is truthy and differs from the recorded id; handling records the id and echoes the text once; when nothing is handled, nothing is sent and the state is kept |
| `Flashcard.Run` | src/flashcard.py:21-38 | after any sequence of polls, the number of echoes equals the number of handled ids, at most one per poll, and no handled id is 0 |
| `Flashcard.Polling` | src/flashcard.py:15-38 | the loop's final state, handled ids and echoed texts are those of `Run` on the observed polls |
| `Flashcard.FirstPollOnlySeeds` | src/flashcard.py:21-27 | the first poll handles and sends nothing and records the observed id |
| `Flashcard.HandledIdsComeFromLaterPolls` | src/flashcard.py:25-36 | every handled id was observed by some poll after the first one |
| `Flashcard.StartupIdStaysBehind` | src/flashcard.py:21-36 | on a stream of non-negative, non-decreasing update ids that starts with an update, the recorded id was observed by some poll and is no smaller than the startup id, and every handled id is larger than the startup id |
| `Flashcard.StartupMessageNeverHandled` | src/flashcard.py:21-36 | on a stream of non-negative, non-decreasing update ids, which allows the startup update to be seen again until a newer one arrives, the id present at startup is never handled |
| `Flashcard.StartupRepeatedThenNew` | src/flashcard.py:25-36 | on the polls with ids 5, 5, 6 only the id 6 is handled |
| `Flashcard.LastAfterTruthyPoll` | src/flashcard.py:25-36 | after a poll with a truthy id, the recorded id is that id |
| `Flashcard.RepeatedIdNotProcessed` | src/flashcard.py:31-36 | a poll that sees the same id as the poll before it is never handled, so no id is handled on two consecutive polls |
| `Flashcard.RunAsWritten` | src/flashcard.py:31-36 | the loop as written raises exactly when `Run` would handle a message; until then it agrees with `Run` and has sent nothing |
| `Flashcard.ReadMessageRaisesOnFirstNewMessage` | src/flashcard.py:33 | on the polls with ids 5 then 6, the loop as written raises while `Run` echoes the second text |
| `Flashcard.ProcessedNeighboursDiffer` | src/flashcard.py:21-36 | with non-negative update ids, the recorded id is always the last handled one, and two consecutively handled messages never share an id |

`select_random_item` returns only the `quiz` column, `row[3]`, and the model follows that code. The test at test/storage_manager_test.py:37-41 indexes that result as if it were a whole row.

## Left out

- Scheduler, period classes, promotion and demotion: no code for these exists in src/storage_manager.py or src/flashcard.py. The command class `FlashCardBot` used by test/flashcardbot_test.py is not part of this model.
- Random pick: `ORDER BY RANDOM()` is modelled as a choice of any existing row. Uniformity is not modelled.
- Exception messages: the texts carried by `StorageManagerException` (src/storage_manager.py:83, 88, 123) are not modelled. The constructor of the exception datatype names the cause instead.
- Timestamp: `datetime.now()` and its formatting are an opaque `now` string passed to `InsertItem`.
- Ids at the maximum: sqlite picks a random unused id once the largest 64-bit id is taken. The model always uses the largest id plus one.
- Counters at the maximum: `answer_correct_count` and `answer_wrong_count` are sqlite 64-bit INTEGERs. At 2^63 − 1, the `field + 1` of src/storage_manager.py:102-104 overflows and sqlite stores the sum as a REAL (9.223372036854776e18). After that, further increments leave the counter unchanged. The model's counters are unbounded naturals, so "grows by exactly one" is stated for every counter value. This affects `Storage.BumpChangesOneCounter`, `Storage.TotalBump`, `Storage.BumpAddsOne`, `Storage.CheckQuizChangesOneCounter` and `Storage.StorageManager.CheckQuizItem`, and it holds for the program only below that bound.
- Storage.StorageManager.SelectRandomItem, Storage.StorageManager.CheckQuizItem, Storage.StorageManager.UpdateNumericField, Storage.StorageManager.CloseConnection: on a closed connection the source raises sqlite's `ProgrammingError` unwrapped (for a second `close_connection`, from `self.cursor.close()`). These methods therefore require an open connection. Only the wrapped insert failure is modelled as an error result.
- Storage.StorageManager.CheckQuizItem: before any selection, `self.item` is `()`, so `self.item[0]` raises `IndexError`. The method requires a selection.
- Storage.StorageManager.CheckQuizItem: the source returns sqlite's integer 0 or 1. The model returns a `bool`.
- Storage.StorageManager.CloseConnection: releasing the sqlite connection and cursor is not modelled. Only the closed state is.
- Opening the store: the database file, its path and the timeout are not modelled. The constructor takes the rows already stored. Creating the table and index is assumed to succeed, which means the stored rows satisfy the constraints.
- Polling transport: the HTTP calls of src/telegrambot.py are not part of this model. Each observation is an input.
  - `read_message()` is called without the `data` argument that src/telegrambot.py:57-62 requires. As written this raises `TypeError` at the first message to be handled (see "## Findings"). `Run` and `Polling` model the intended loop, with the message text as an opaque input.
  - Sending is modelled as appending the text to `sent`.
- Flashcard.Polling: runs over a finite sequence of polls instead of `while True`. Logging, `time.sleep`, `read_config` and `main` are not modelled.
- Configuration loading (src/configuration.py) is foreign-library file I/O and is not modelled.
- Logging throughout is not modelled.

## Findings

| source | as written | input that shows it | evidently intended | confidence | as-written member | corrected member |
|---|---|---|---|---|---|---|
| src/flashcard.py:33 | `telegrambot.read_message()` is called without the required `data` argument (src/telegrambot.py:57-62), so it raises `TypeError` and ends `polling` before the message is echoed | polls observing update ids 5 then 6: the second is new, and reading it raises | read the new message's text and echo it, then keep polling | high, not executed | `Flashcard.RunAsWritten`, `Flashcard.ReadMessageRaisesOnFirstNewMessage` | `Flashcard.Run`, `Flashcard.Polling` |
