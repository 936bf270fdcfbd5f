/**
 * The flashcard item store: the sqlite `items` table behind `StorageManager`,
 * as a sequence of rows in insertion order.
 *
 * The statements the store issues are modelled as functions on that sequence
 * (the INSERT, the `+1` UPDATE, the EXISTS lookup); the class at the end holds
 * the object's state (the table, the selected row and whether the connection
 * is closed) and its methods are proved against those functions.
 */
module Storage {
  import opened Wrappers

  /** One row of the `items` table, column by column. */
  datatype Row = Row(
    id: nat,
    insertedDate: string,
    answer: string,
    quiz: string,
    answerCorrectCount: nat,
    answerWrongCount: nat,
    itemType: string)

  /** The two numeric columns the store ever updates. */
  datatype Field = AnswerCorrectCount | AnswerWrongCount

  /** The causes for which the store raises `StorageManagerException`. */
  datatype StorageManagerException =
    | DuplicateAnswer(answer: string)
    | ConnectionClosed
    | EmptyTable

  // ---------------------------------------------------------------------------
  // The table and its constraints

  /** The constraints of the table: `id` is the primary key and `answer` has a unique index. */
  ghost predicate ValidTable(rows: seq<Row>) {
    forall i, j :: 0 <= i < j < |rows| ==>
      rows[i].id != rows[j].id && rows[i].answer != rows[j].answer
  }

  /** Some row has this id. */
  ghost predicate HasId(rows: seq<Row>, id: nat) {
    exists k :: 0 <= k < |rows| && rows[k].id == id
  }

  /**
   * `SELECT EXISTS(SELECT 1 FROM items WHERE answer = ?)`, as a scan of the
   * table: true exactly when some row carries the answer.
   */
  predicate HasAnswer(rows: seq<Row>, answer: string)
    ensures HasAnswer(rows, answer) <==> exists k :: 0 <= k < |rows| && rows[k].answer == answer
  {
    if rows == [] then false
    else
      var prefix := rows[..|rows| - 1];
      if rows[|rows| - 1].answer == answer then true
      else
        assert forall k :: 0 <= k < |prefix| ==> prefix[k] == rows[k];
        HasAnswer(prefix, answer)
  }

  /** The largest id in the table, 0 when the table is empty. */
  function MaxId(rows: seq<Row>): (m: nat)
    ensures forall k :: 0 <= k < |rows| ==> rows[k].id <= m
    ensures rows == [] ==> m == 0
    ensures rows != [] ==> HasId(rows, m)
  {
    if rows == [] then 0
    else
      var rest := MaxId(rows[..|rows| - 1]);
      var last := rows[|rows| - 1].id;
      if last < rest then
        var k :| 0 <= k < |rows| - 1 && rows[..|rows| - 1][k].id == rest;
        assert rows[k].id == rest;
        rest
      else last
  }

  /** The id sqlite gives a row inserted without one: one more than the largest id, 1 on an empty table. */
  function NextId(rows: seq<Row>): (id: nat)
    ensures id >= 1
    ensures !HasId(rows, id)
    ensures forall k :: 0 <= k < |rows| ==> rows[k].id < id
    ensures rows == [] ==> id == 1
  {
    MaxId(rows) + 1
  }

  // ---------------------------------------------------------------------------
  // insert_item

  /**
   * The INSERT of `insert_item`: the table afterwards, or the exception raised.
   * A closed connection fails before the statement runs; otherwise the unique
   * index on `answer` rejects a duplicate answer.
   */
  function InsertRow(rows: seq<Row>, closed: bool, now: string,
                     itemType: string, answer: string, quiz: string)
    : (r: Result<seq<Row>, StorageManagerException>)
    ensures closed ==> r == Err(ConnectionClosed)
    ensures !closed && HasAnswer(rows, answer) ==> r == Err(DuplicateAnswer(answer))
    ensures r.Ok? <==> !closed && !HasAnswer(rows, answer)
    ensures r.Ok? ==> |r.value| == |rows| + 1 && r.value[..|rows|] == rows
    ensures r.Ok? ==>
      var added := r.value[|rows|];
      && added.insertedDate == now
      && added.answer == answer
      && added.quiz == quiz
      && added.itemType == itemType
      && added.answerCorrectCount == 0
      && added.answerWrongCount == 0
      && !HasId(rows, added.id)
    ensures r.Ok? && rows == [] ==> r.value[0].id == 1
  {
    if closed then Err(ConnectionClosed)
    else if HasAnswer(rows, answer) then Err(DuplicateAnswer(answer))
    else Ok(rows + [Row(NextId(rows), now, answer, quiz, 0, 0, itemType)])
  }

  /** A successful insert keeps both the primary key and the unique answer index satisfied. */
  lemma InsertKeepsTableValid(rows: seq<Row>, closed: bool, now: string,
                              itemType: string, answer: string, quiz: string)
    requires ValidTable(rows)
    ensures var r := InsertRow(rows, closed, now, itemType, answer, quiz);
            r.Ok? ==> ValidTable(r.value)
  {
  }

  // ---------------------------------------------------------------------------
  // _update_db_numeric_field

  /** The row with one counter one higher. */
  function Incremented(row: Row, field: Field): Row {
    match field
    case AnswerCorrectCount => row.(answerCorrectCount := row.answerCorrectCount + 1)
    case AnswerWrongCount => row.(answerWrongCount := row.answerWrongCount + 1)
  }

  /** `UPDATE items SET field = field + 1 WHERE id = id`. */
  function Bump(rows: seq<Row>, field: Field, id: nat): (r: seq<Row>)
    ensures |r| == |rows|
    ensures forall k :: 0 <= k < |rows| ==> SameItem(rows[k], r[k])
    ensures forall k :: 0 <= k < |rows| && rows[k].id != id ==> r[k] == rows[k]
  {
    seq(|rows|, k requires 0 <= k < |rows| =>
      if rows[k].id == id then Incremented(rows[k], field) else rows[k])
  }

  /** Two rows that agree on every column but the counters. */
  predicate SameItem(a: Row, b: Row) {
    a.id == b.id && a.insertedDate == b.insertedDate && a.answer == b.answer &&
    a.quiz == b.quiz && a.itemType == b.itemType
  }

  /**
   * How the table may evolve: rows are only appended, no row changes anything
   * but its counters, and no counter decreases.
   */
  ghost predicate Grows(before: seq<Row>, after: seq<Row>) {
    |before| <= |after| &&
    forall k :: 0 <= k < |before| ==>
      SameItem(before[k], after[k]) &&
      before[k].answerCorrectCount <= after[k].answerCorrectCount &&
      before[k].answerWrongCount <= after[k].answerWrongCount
  }

  /** Growth composes, so counters never decrease along any run of operations. */
  lemma GrowsTransitive(a: seq<Row>, b: seq<Row>, c: seq<Row>)
    requires Grows(a, b) && Grows(b, c)
    ensures Grows(a, c)
  {
  }

  /** The UPDATE keeps the constraints, changes only counters and decreases none of them. */
  lemma BumpKeepsTableValid(rows: seq<Row>, field: Field, id: nat)
    requires ValidTable(rows)
    ensures ValidTable(Bump(rows, field, id)) && Grows(rows, Bump(rows, field, id))
    ensures !HasId(rows, id) ==> Bump(rows, field, id) == rows
  {
  }

  /**
   * The UPDATE keyed by the id of row `k` increments exactly the named counter
   * of that row by one and leaves every other row as it was.
   */
  lemma BumpChangesOneCounter(rows: seq<Row>, field: Field, k: nat)
    requires ValidTable(rows) && k < |rows|
    ensures var r := Bump(rows, field, rows[k].id);
      && SameItem(rows[k], r[k])
      && r[k].answerCorrectCount ==
           rows[k].answerCorrectCount + (if field == AnswerCorrectCount then 1 else 0)
      && r[k].answerWrongCount ==
           rows[k].answerWrongCount + (if field == AnswerWrongCount then 1 else 0)
      && forall j :: 0 <= j < |rows| && j != k ==> r[j] == rows[j]
  {
  }

  /** The sum of all counters in the table. */
  function Total(rows: seq<Row>): nat {
    if rows == [] then 0
    else
      var last := rows[|rows| - 1];
      Total(rows[..|rows| - 1]) + last.answerCorrectCount + last.answerWrongCount
  }

  /** How many rows carry this id. */
  function IdCount(rows: seq<Row>, id: nat): nat {
    if rows == [] then 0
    else IdCount(rows[..|rows| - 1], id) + (if rows[|rows| - 1].id == id then 1 else 0)
  }

  /** The UPDATE adds one to the counter total for every row it matches. */
  lemma {:induction false} TotalBump(rows: seq<Row>, field: Field, id: nat)
    ensures Total(Bump(rows, field, id)) == Total(rows) + IdCount(rows, id)
  {
    if rows != [] {
      var n := |rows| - 1;
      TotalBump(rows[..n], field, id);
      assert Bump(rows, field, id)[..n] == Bump(rows[..n], field, id);
    }
  }

  /** Under the primary key an existing id is carried by exactly one row. */
  lemma {:induction false} IdCountUnique(rows: seq<Row>, id: nat)
    requires ValidTable(rows)
    ensures IdCount(rows, id) == if HasId(rows, id) then 1 else 0
  {
    if rows != [] {
      var n := |rows| - 1;
      var prefix := rows[..n];
      assert ValidTable(prefix) by {
        forall i, j | 0 <= i < j < |prefix|
          ensures prefix[i].id != prefix[j].id && prefix[i].answer != prefix[j].answer
        {
          assert prefix[i] == rows[i] && prefix[j] == rows[j];
        }
      }
      IdCountUnique(prefix, id);
      if rows[n].id == id {
        assert !HasId(prefix, id) by {
          forall k | 0 <= k < n ensures prefix[k].id != id {
            assert prefix[k] == rows[k];
          }
        }
      } else if HasId(rows, id) {
        var k :| 0 <= k < |rows| && rows[k].id == id;
        assert prefix[k] == rows[k];
      } else {
        assert !HasId(prefix, id) by {
          forall k | 0 <= k < n ensures prefix[k].id != id {
            assert prefix[k] == rows[k];
          }
        }
      }
    }
  }

  /** Each answer check raises the counter total of the table by exactly one. */
  lemma BumpAddsOne(rows: seq<Row>, field: Field, id: nat)
    requires ValidTable(rows) && HasId(rows, id)
    ensures Total(Bump(rows, field, id)) == Total(rows) + 1
  {
    TotalBump(rows, field, id);
    IdCountUnique(rows, id);
  }

  // ---------------------------------------------------------------------------
  // check_quiz_item

  /** The counter an answer check increments. */
  function CounterFor(matched: bool): Field {
    if matched then AnswerCorrectCount else AnswerWrongCount
  }

  /**
   * An answer check against the selected row `k`: it matches when ANY row has
   * the attempted answer, and then only row `k`'s correct counter goes up by
   * one; otherwise only its wrong counter goes up by one.
   */
  lemma CheckQuizChangesOneCounter(rows: seq<Row>, k: nat, attempt: string)
    requires ValidTable(rows) && k < |rows|
    ensures var r := Bump(rows, CounterFor(HasAnswer(rows, attempt)), rows[k].id);
      && Total(r) == Total(rows) + 1
      && SameItem(rows[k], r[k])
      && r[k].answerCorrectCount ==
           rows[k].answerCorrectCount + (if HasAnswer(rows, attempt) then 1 else 0)
      && r[k].answerWrongCount ==
           rows[k].answerWrongCount + (if HasAnswer(rows, attempt) then 0 else 1)
      && forall j :: 0 <= j < |rows| && j != k ==> r[j] == rows[j]
  {
    BumpChangesOneCounter(rows, CounterFor(HasAnswer(rows, attempt)), k);
    BumpAddsOne(rows, CounterFor(HasAnswer(rows, attempt)), rows[k].id);
  }

  // ---------------------------------------------------------------------------
  // The store object

  /** `StorageManager`: the table, the selected row `self.item` and the connection state. */
  class StorageManager {
    /** The `items` table. */
    var rows: seq<Row>
    /** The row picked by the last successful `SelectRandomItem`; `None` stands for the initial `()`. */
    var item: Option<Row>
    /** Whether `CloseConnection` has run. */
    var closed: bool

    ghost predicate Valid()
      reads this
    {
      ValidTable(rows) && (item.Some? ==> HasId(rows, item.value.id))
    }

    /** Opening the store on a database file that already holds `existing`. */
    constructor (existing: seq<Row>)
      requires ValidTable(existing)
      ensures Valid()
      ensures rows == existing && item == None && !closed
    {
      rows := existing;
      item := None;
      closed := false;
    }

    /** `insert_item`; `now` is the timestamp the source takes from the clock. */
    method InsertItem(now: string, itemType: string, answer: string, quiz: string)
      returns (r: Outcome<StorageManagerException>)
      requires Valid()
      modifies this`rows
      ensures Valid() && Grows(old(rows), rows)
      ensures var spec := InsertRow(old(rows), closed, now, itemType, answer, quiz);
        && (spec.Ok? ==> r == Pass && rows == spec.value)
        && (spec.Err? ==> r == Fail(spec.error) && rows == old(rows))
    {
      var spec := InsertRow(rows, closed, now, itemType, answer, quiz);
      InsertKeepsTableValid(rows, closed, now, itemType, answer, quiz);
      match spec
      case Ok(t) =>
        if item.Some? {
          var k :| 0 <= k < |rows| && rows[k].id == item.value.id;
          assert t[k] == rows[k];
        }
        rows := t;
        r := Pass;
      case Err(e) =>
        r := Fail(e);
    }

    /** `_update_db_numeric_field`: one UPDATE keyed by `id`. */
    method UpdateNumericField(field: Field, id: nat)
      requires Valid() && !closed
      modifies this`rows
      ensures Valid() && Grows(old(rows), rows)
      ensures rows == Bump(old(rows), field, id)
    {
      BumpKeepsTableValid(rows, field, id);
      var t := Bump(rows, field, id);
      if item.Some? {
        var k :| 0 <= k < |rows| && rows[k].id == item.value.id;
        assert t[k].id == rows[k].id;
      }
      rows := t;
    }

    /** `select_random_item`: any existing row may be picked; its `quiz` is returned. */
    method SelectRandomItem() returns (r: Result<string, StorageManagerException>)
      requires Valid() && !closed
      modifies this`item
      ensures Valid()
      ensures rows == [] ==> r == Err(EmptyTable) && item == old(item)
      ensures rows != [] ==>
        && item.Some? && item.value in rows
        && r == Ok(item.value.quiz)
    {
      if rows == [] {
        r := Err(EmptyTable);
      } else {
        var k :| 0 <= k < |rows|;
        item := Some(rows[k]);
        r := Ok(rows[k].quiz);
      }
    }

    /**
     * `check_quiz_item`: whether any row has the attempted answer; the selected
     * row's correct or wrong counter goes up by one accordingly.
     */
    method CheckQuizItem(attempt: string) returns (matched: bool)
      requires Valid() && !closed && item.Some?
      modifies this`rows
      ensures Valid() && Grows(old(rows), rows)
      ensures matched == HasAnswer(old(rows), attempt)
      ensures rows == Bump(old(rows), CounterFor(matched), item.value.id)
      ensures Total(rows) == Total(old(rows)) + 1
    {
      matched := HasAnswer(rows, attempt);
      var k :| 0 <= k < |rows| && rows[k].id == item.value.id;
      CheckQuizChangesOneCounter(rows, k, attempt);
      UpdateNumericField(CounterFor(matched), item.value.id);
    }

    /** `close_connection`: later inserts fail with `ConnectionClosed`. */
    method CloseConnection()
      requires Valid() && !closed
      modifies this`closed
      ensures Valid() && closed
    {
      closed := true;
    }
  }
}
