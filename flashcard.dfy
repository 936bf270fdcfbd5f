/**
 * The new-message rule of the bot's polling loop, with the chat transport
 * abstracted away: each iteration observes the id of the newest update (or
 * none) and the text that reading that message would yield, and decides
 * whether to echo it, remembering the last id it acted on.
 */
module Flashcard {
  import opened Wrappers

  /** What one loop iteration observes: the newest `update_id`, if any, and that message's text. */
  datatype Poll = Poll(messageId: Option<int>, text: string)

  /** The loop's state and what it has done so far: ids acted on and texts sent back. */
  datatype Trace = Trace(last: Option<int>, processed: seq<int>, sent: seq<string>)

  /** The value `last_message_id` starts with, which makes the next poll only record an id. */
  const Sentinel: int := -1

  /** Python truthiness of a message id: present and non-zero. */
  predicate Truthy(messageId: Option<int>) {
    messageId.Some? && messageId.value != 0
  }

  /** One loop iteration. */
  function Step(t: Trace, p: Poll): (r: Trace)
    // While the sentinel is held the poll only records the observed id.
    ensures t.last == Some(Sentinel) ==> r.last == p.messageId && r.processed == t.processed
    // Otherwise a message is handled exactly when its id is truthy and new.
    ensures t.last != Some(Sentinel) ==>
      (|r.processed| > |t.processed| <==> Truthy(p.messageId) && p.messageId != t.last)
    // Handling appends the id and echoes the text once, and records the id.
    ensures |r.processed| > |t.processed| ==>
      && r.processed == t.processed + [p.messageId.value]
      && r.sent == t.sent + [p.text]
      && r.last == p.messageId
    // Without handling nothing is sent and the state is kept, unless it was the sentinel.
    ensures |r.processed| <= |t.processed| ==>
      && r.processed == t.processed
      && r.sent == t.sent
      && (t.last != Some(Sentinel) ==> r.last == t.last)
  {
    var last := if t.last == Some(Sentinel) then p.messageId else t.last;
    if Truthy(p.messageId) && p.messageId != last then
      Trace(p.messageId, t.processed + [p.messageId.value], t.sent + [p.text])
    else
      Trace(last, t.processed, t.sent)
  }

  /** The loop's trace after a finite sequence of polls. */
  function Run(polls: seq<Poll>): (t: Trace)
    ensures |t.sent| == |t.processed| <= |polls|
    ensures forall k :: 0 <= k < |t.processed| ==> t.processed[k] != 0
  {
    if polls == [] then Trace(Some(Sentinel), [], [])
    else Step(Run(polls[..|polls| - 1]), polls[|polls| - 1])
  }

  /** `polling`, run over a finite sequence of observations. */
  method Polling(polls: seq<Poll>) returns (last: Option<int>, processed: seq<int>, sent: seq<string>)
    ensures Trace(last, processed, sent) == Run(polls)
  {
    last, processed, sent := Some(Sentinel), [], [];
    var i := 0;
    while i < |polls|
      invariant 0 <= i <= |polls|
      invariant Trace(last, processed, sent) == Run(polls[..i])
    {
      var messageId := polls[i].messageId;
      if last == Some(Sentinel) {
        last := messageId;
      }
      if messageId.Some? && messageId.value != 0 {
        if messageId != last {
          var message := polls[i].text;
          sent := sent + [message];
          processed := processed + [messageId.value];
          last := messageId;
        }
      }
      assert polls[..i + 1][..i] == polls[..i];
      i := i + 1;
    }
    assert polls[..|polls|] == polls;
  }

  /** The first poll only seeds the state: it handles and sends nothing and records the observed id. */
  lemma FirstPollOnlySeeds(polls: seq<Poll>)
    requires |polls| >= 1
    ensures Run(polls[..1]).processed == [] && Run(polls[..1]).sent == []
    ensures Run(polls[..1]).last == polls[0].messageId
  {
  }

  /** After a poll with a truthy id, the state holds that id. */
  lemma LastAfterTruthyPoll(polls: seq<Poll>)
    requires |polls| >= 1 && Truthy(polls[|polls| - 1].messageId)
    ensures Run(polls).last == polls[|polls| - 1].messageId
  {
  }

  /** A poll that sees the same id as the poll before it is never handled. */
  lemma {:induction false} RepeatedIdNotProcessed(polls: seq<Poll>, i: nat)
    requires 0 < i < |polls| && polls[i].messageId == polls[i - 1].messageId
    ensures Run(polls[..i + 1]).processed == Run(polls[..i]).processed
    ensures Run(polls[..i + 1]).sent == Run(polls[..i]).sent
  {
    var before := polls[..i];
    assert polls[..i + 1][..i] == before;
    assert before[..i - 1] == polls[..i - 1];
    if Truthy(polls[i].messageId) {
      LastAfterTruthyPoll(before);
    }
  }

  /** Telegram update ids are never negative. */
  ghost predicate NonNegativeIds(polls: seq<Poll>) {
    forall k :: 0 <= k < |polls| && polls[k].messageId.Some? ==> polls[k].messageId.value >= 0
  }

  /**
   * With non-negative update ids, the state always holds the id last handled,
   * so two messages handled one after the other never share an id.
   */
  lemma {:induction false} ProcessedNeighboursDiffer(polls: seq<Poll>)
    requires NonNegativeIds(polls)
    ensures var t := Run(polls);
      && (t.processed != [] ==> t.last == Some(t.processed[|t.processed| - 1]))
      && forall k :: 0 <= k < |t.processed| - 1 ==> t.processed[k] != t.processed[k + 1]
  {
    if polls != [] {
      var prefix := polls[..|polls| - 1];
      assert NonNegativeIds(prefix) by {
        forall k | 0 <= k < |prefix| && prefix[k].messageId.Some?
          ensures prefix[k].messageId.value >= 0
        {
          assert prefix[k] == polls[k];
        }
      }
      ProcessedNeighboursDiffer(prefix);
    }
  }

  /** Every handled id was observed by some poll after the first one. */
  lemma {:induction false} HandledIdsComeFromLaterPolls(polls: seq<Poll>)
    ensures forall k :: 0 <= k < |Run(polls).processed| ==>
      exists j :: 1 <= j < |polls| && polls[j].messageId == Some(Run(polls).processed[k])
  {
    if polls != [] {
      var n := |polls| - 1;
      var prefix := polls[..n];
      HandledIdsComeFromLaterPolls(prefix);
      assert Run(polls) == Step(Run(prefix), polls[n]);
      forall k | 0 <= k < |Run(polls).processed|
        ensures exists j :: 1 <= j < |polls| && polls[j].messageId == Some(Run(polls).processed[k])
      {
        if k < |Run(prefix).processed| {
          assert Run(polls).processed[k] == Run(prefix).processed[k];
          var j :| 1 <= j < |prefix| && prefix[j].messageId == Some(Run(prefix).processed[k]);
          assert polls[j] == prefix[j];
        } else {
          assert polls[n].messageId == Some(Run(polls).processed[k]);
        }
      }
    } else {
      assert Run(polls).processed == [];
    }
  }

  /**
   * Update ids never decrease along the stream. `getUpdates` with offset -1
   * keeps returning the newest update until a newer one arrives, so ids repeat
   * and then grow.
   */
  ghost predicate NonDecreasingIds(polls: seq<Poll>) {
    forall i, j :: 0 <= i < j < |polls| && polls[i].messageId.Some? && polls[j].messageId.Some? ==>
      polls[i].messageId.value <= polls[j].messageId.value
  }

  /**
   * On such a stream that starts with an update, the state always holds an id
   * observed by some poll and no smaller than the startup id, and every
   * handled id is larger than the startup id.
   */
  lemma {:induction false} StartupIdStaysBehind(polls: seq<Poll>)
    requires |polls| >= 1 && polls[0].messageId.Some?
    requires NonNegativeIds(polls) && NonDecreasingIds(polls)
    ensures Run(polls).last.Some? && Run(polls).last.value >= polls[0].messageId.value
    ensures exists i :: 0 <= i < |polls| && polls[i].messageId == Run(polls).last
    ensures forall k :: 0 <= k < |Run(polls).processed| ==>
      Run(polls).processed[k] > polls[0].messageId.value
  {
    var n := |polls| - 1;
    var prefix := polls[..n];
    assert Run(polls) == Step(Run(prefix), polls[n]);
    if n == 0 {
      assert prefix == [];
    } else {
      assert NonNegativeIds(prefix) && NonDecreasingIds(prefix) by {
        assert forall k :: 0 <= k < |prefix| ==> prefix[k] == polls[k];
      }
      assert prefix[0] == polls[0];
      StartupIdStaysBehind(prefix);
      var t := Run(prefix);
      var i :| 0 <= i < n && prefix[i].messageId == t.last;
      assert polls[i] == prefix[i];
      if |Run(polls).processed| > |t.processed| {
        assert polls[n].messageId.value >= t.last.value;
      } else {
        assert Run(polls).last == polls[i].messageId;
      }
    }
  }

  /**
   * The message present at startup is never handled: on a stream of
   * non-negative, non-decreasing update ids (such as 5, 5, 6) the id observed
   * by the first poll is never among the handled ids.
   */
  lemma StartupMessageNeverHandled(polls: seq<Poll>)
    requires |polls| >= 1 && polls[0].messageId.Some?
    requires NonNegativeIds(polls) && NonDecreasingIds(polls)
    ensures polls[0].messageId.value !in Run(polls).processed
  {
    StartupIdStaysBehind(polls);
  }

  /** The startup update seen again and then a new one: only the new one is handled. */
  lemma StartupRepeatedThenNew()
    ensures Run([Poll(Some(5), "a"), Poll(Some(5), "a"), Poll(Some(6), "b")]).processed == [6]
  {
    var p5, p6 := Poll(Some(5), "a"), Poll(Some(6), "b");
    assert [p5][..0] == [];
    assert Run([p5]) == Trace(Some(5), [], []);
    assert [p5, p5][..1] == [p5];
    assert Run([p5, p5]) == Trace(Some(5), [], []);
    assert [p5, p5, p6][..2] == [p5, p5];
  }

  /**
   * The loop as written: `read_message()` is called without the `data`
   * argument it requires, so the first message that would be handled raises
   * before it is sent, ending the loop. `None` stands for that exception;
   * until it is raised the loop agrees with `Run`.
   */
  function RunAsWritten(polls: seq<Poll>): (r: Option<Trace>)
    ensures r.Some? <==> Run(polls).processed == []
    ensures r.Some? ==> r.value == Run(polls) && r.value.sent == []
  {
    if polls == [] then Some(Trace(Some(Sentinel), [], []))
    else
      match RunAsWritten(polls[..|polls| - 1])
      case None => None
      case Some(t) =>
        var s := Step(t, polls[|polls| - 1]);
        if |s.processed| > |t.processed| then None else Some(s)
  }

  /**
   * A two-poll stream on which the loop as written raises instead of echoing:
   * the second message is new, so `Run` echoes it, while the loop as written
   * raises while reading it.
   */
  lemma ReadMessageRaisesOnFirstNewMessage()
    ensures var polls := [Poll(Some(5), "a"), Poll(Some(6), "b")];
      RunAsWritten(polls) == None && Run(polls).sent == ["b"]
  {
    var polls := [Poll(Some(5), "a"), Poll(Some(6), "b")];
    assert polls[..1] == [Poll(Some(5), "a")];
    assert polls[..1][..0] == [];
  }
}
