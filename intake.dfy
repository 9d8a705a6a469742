/** Vote intake (`student-submit-vote`): the session's value types, the decision a
    submission gets, the records an accepted one produces, and the invariant that
    all records for one (main subject, client id) pair come from one submission. */
module Intake {
  import opened Base

  /** A rubric column, `{ id, name }`. */
  datatype Category = Category(id: string, name: string)

  /** One entry of `gameState.votes`. Scores are integers; a missing key is a
      missing score. */
  datatype Vote = Vote(mainSubject: string, subject: string, scores: map<string, int>,
                       voterId: string, voterIp: string, clientId: string)

  /** One element of `data.items`. */
  datatype Item = Item(itemType: string, name: string, scores: map<string, int>)

  /** The payload of `student-submit-vote`; `items` is None when it is absent. */
  datatype Submission = Submission(items: Option<seq<Item>>)

  const GroupType: string := "group"
  const ParticipantType: string := "participant"
  const MixedMode: string := "mixed"
  const AlreadyVotedMessage: string := "You have already voted for this subject!"

  /** `data.items || []`. */
  function ItemsOf(data: Submission): (items: seq<Item>)
    ensures data.items.None? ==> items == []
    ensures data.items.Some? ==> items == data.items.value
  {
    if data.items.Some? then data.items.value else []
  }

  /** The label an item is filed under for export. */
  function DisplaySubject(currentSubject: string, votingMode: string, item: Item): (shown: string)
    ensures StartsWith(shown, currentSubject)
    ensures item.itemType == ParticipantType ==> shown == currentSubject + " - " + item.name
    ensures item.itemType == GroupType ==>
              shown == (if votingMode == MixedMode then currentSubject + " (Group)" else currentSubject)
    ensures item.itemType != GroupType && item.itemType != ParticipantType ==> shown == currentSubject
  {
    if item.itemType == GroupType then
      if votingMode == MixedMode then currentSubject + " (Group)" else currentSubject
    else if item.itemType == ParticipantType then
      currentSubject + " - " + item.name
    else
      currentSubject
  }

  /** The duplicate check: some vote already has this main subject and client id. */
  predicate AlreadyVoted(votes: seq<Vote>, mainSubject: string, clientId: string)
  {
    exists v :: v in votes && v.mainSubject == mainSubject && v.clientId == clientId
  }

  /** The records the `items.forEach` loop pushes, one per item, in item order. */
  function Records(items: seq<Item>, currentSubject: string, votingMode: string,
                   socketId: string, clientIp: string, clientId: string): (r: seq<Vote>)
    ensures |r| == |items|
    ensures forall k :: 0 <= k < |r| ==>
              r[k].mainSubject == currentSubject && r[k].clientId == clientId &&
              r[k].subject == DisplaySubject(currentSubject, votingMode, items[k]) &&
              r[k].scores == items[k].scores &&
              r[k].voterId == socketId && r[k].voterIp == clientIp
  {
    if items == [] then []
    else
      var last := items[|items| - 1];
      Records(items[..|items| - 1], currentSubject, votingMode, socketId, clientIp, clientId) +
      [Vote(currentSubject, DisplaySubject(currentSubject, votingMode, last), last.scores,
            socketId, clientIp, clientId)]
  }

  /** One more turn of the `items.forEach` loop adds one more record. */
  lemma AppendRecord(items: seq<Item>, i: nat, currentSubject: string, votingMode: string,
                     socketId: string, clientIp: string, clientId: string)
    requires i < |items|
    ensures Records(items[..i + 1], currentSubject, votingMode, socketId, clientIp, clientId)
            == Records(items[..i], currentSubject, votingMode, socketId, clientIp, clientId) +
               [Vote(currentSubject, DisplaySubject(currentSubject, votingMode, items[i]), items[i].scores,
                     socketId, clientIp, clientId)]
  {
    assert items[..i + 1][..i] == items[..i];
  }

  /** A group item for "Team1" is filed under "Team1 (Group)" in mixed mode and
      under "Team1" in group mode; a participant item under "Team1 - <name>". */
  lemma Team1Labels(scores: map<string, int>)
    ensures DisplaySubject("Team1", MixedMode, Item(GroupType, "", scores)) == "Team1 (Group)"
    ensures DisplaySubject("Team1", GroupType, Item(GroupType, "", scores)) == "Team1"
    ensures DisplaySubject("Team1", MixedMode, Item(ParticipantType, "Alice", scores)) == "Team1 - Alice"
  {
  }

  /** What happens to a submission: ignored (voting closed), rejected (already
      voted) or accepted with the records to append. */
  datatype Outcome = Ignored | Rejected | Accepted(records: seq<Vote>)

  function Decide(isVotingOpen: bool, votes: seq<Vote>, currentSubject: string, votingMode: string,
                  socketId: string, clientIp: string, clientId: string, data: Submission): (o: Outcome)
    ensures o.Ignored? <==> !isVotingOpen
    ensures o.Rejected? <==> isVotingOpen && AlreadyVoted(votes, currentSubject, clientId)
    ensures o.Accepted? ==> |o.records| == |ItemsOf(data)|
  {
    if !isVotingOpen then Ignored
    else if AlreadyVoted(votes, currentSubject, clientId) then Rejected
    else Accepted(Records(ItemsOf(data), currentSubject, votingMode, socketId, clientIp, clientId))
  }

  function VotesAfter(votes: seq<Vote>, outcome: Outcome): seq<Vote>
  {
    if outcome.Accepted? then votes + outcome.records else votes
  }

  /** Ignored: nothing is emitted. Rejected: an error to the submitter only.
      Accepted: the state is broadcast, even when no record was added. */
  function Emitted(outcome: Outcome, socketId: string): seq<Event>
  {
    match outcome
    case Ignored => []
    case Rejected => [ErrorMessageTo(socketId, AlreadyVotedMessage)]
    case Accepted(_) => [StateUpdateToAll]
  }

  /** Closed gate: whatever the payload, votes are unchanged and nothing is emitted. */
  lemma ClosedGate(votes: seq<Vote>, currentSubject: string, votingMode: string,
                   socketId: string, clientIp: string, clientId: string, data: Submission)
    ensures var o := Decide(false, votes, currentSubject, votingMode, socketId, clientIp, clientId, data);
            VotesAfter(votes, o) == votes && Emitted(o, socketId) == []
  {
  }

  /** A device that has a record for the current subject is turned away with an
      error sent to its own socket, and the votes are unchanged. */
  lemma DuplicateRejected(votes: seq<Vote>, currentSubject: string, votingMode: string,
                          socketId: string, clientIp: string, clientId: string, data: Submission)
    requires AlreadyVoted(votes, currentSubject, clientId)
    ensures var o := Decide(true, votes, currentSubject, votingMode, socketId, clientIp, clientId, data);
            VotesAfter(votes, o) == votes &&
            Emitted(o, socketId) == [ErrorMessageTo(socketId, AlreadyVotedMessage)]
  {
  }

  /** An accepted submission keeps the existing votes as a prefix and appends
      one record per item, in item order, keyed by the current subject and the
      submitter's client id. */
  lemma AcceptedAppendsRecords(votes: seq<Vote>, currentSubject: string, votingMode: string,
                               socketId: string, clientIp: string, clientId: string, data: Submission)
    requires !AlreadyVoted(votes, currentSubject, clientId)
    ensures var after := VotesAfter(votes, Decide(true, votes, currentSubject, votingMode,
                                                  socketId, clientIp, clientId, data));
            var items := ItemsOf(data);
            |after| == |votes| + |items| && after[..|votes|] == votes &&
            (forall k :: 0 <= k < |items| ==>
               after[|votes| + k].mainSubject == currentSubject &&
               after[|votes| + k].clientId == clientId &&
               after[|votes| + k].subject == DisplaySubject(currentSubject, votingMode, items[k]) &&
               after[|votes| + k].scores == items[k].scores)
  {
  }

  /** Once a non-empty submission is accepted, the same device is rejected for
      the same subject, whatever socket, mode or payload it uses next. */
  lemma SecondSubmissionRejected(votes: seq<Vote>, currentSubject: string, votingMode: string,
                                 socketId: string, clientIp: string, clientId: string, data: Submission,
                                 mode2: string, socket2: string, ip2: string, data2: Submission)
    requires !AlreadyVoted(votes, currentSubject, clientId)
    requires ItemsOf(data) != []
    ensures var after := VotesAfter(votes, Decide(true, votes, currentSubject, votingMode,
                                                  socketId, clientIp, clientId, data));
            Decide(true, after, currentSubject, mode2, socket2, ip2, clientId, data2) == Rejected
  {
  }

  /** An accepted submission with no items records nothing, so the device may
      submit again for the same subject. */
  lemma EmptySubmissionAllowsRetry(votes: seq<Vote>, currentSubject: string, votingMode: string,
                                   socketId: string, clientIp: string, clientId: string, data: Submission,
                                   data2: Submission)
    requires !AlreadyVoted(votes, currentSubject, clientId)
    requires ItemsOf(data) == []
    ensures var after := VotesAfter(votes, Decide(true, votes, currentSubject, votingMode,
                                                  socketId, clientIp, clientId, data));
            after == votes &&
            Decide(true, after, currentSubject, votingMode, socketId, clientIp, clientId, data2).Accepted?
  {
  }

  // ---- The vote-count invariant -------------------------------------------

  /** Every record of `batch` has key (mainSubject, clientId). */
  predicate Uniform(batch: seq<Vote>, mainSubject: string, clientId: string)
  {
    forall k :: 0 <= k < |batch| ==> batch[k].mainSubject == mainSubject && batch[k].clientId == clientId
  }

  function KeyOf(batch: seq<Vote>): (string, string)
    requires |batch| > 0
  {
    (batch[0].mainSubject, batch[0].clientId)
  }

  /** The accepted non-empty submissions since the session was created: each one
      uniform in its key, and no two sharing a key. */
  predicate KeyedBatches(batches: seq<seq<Vote>>)
  {
    (forall i :: 0 <= i < |batches| ==>
       |batches[i]| > 0 && Uniform(batches[i], batches[i][0].mainSubject, batches[i][0].clientId)) &&
    (forall i, j :: 0 <= i < j < |batches| && |batches[i]| > 0 && |batches[j]| > 0 ==>
       KeyOf(batches[i]) != KeyOf(batches[j]))
  }

  function Concat(batches: seq<seq<Vote>>): seq<Vote>
  {
    if batches == [] then [] else Concat(batches[..|batches| - 1]) + batches[|batches| - 1]
  }

  /** The records of `votes` with key (mainSubject, clientId), in order. */
  function WithKey(votes: seq<Vote>, mainSubject: string, clientId: string): (r: seq<Vote>)
    ensures forall v :: v in r <==> v in votes && v.mainSubject == mainSubject && v.clientId == clientId
  {
    if votes == [] then []
    else
      var last := votes[|votes| - 1];
      WithKey(votes[..|votes| - 1], mainSubject, clientId) +
      (if last.mainSubject == mainSubject && last.clientId == clientId then [last] else [])
  }

  lemma {:induction false} WithKeyAppend(a: seq<Vote>, b: seq<Vote>, mainSubject: string, clientId: string)
    ensures WithKey(a + b, mainSubject, clientId) == WithKey(a, mainSubject, clientId) + WithKey(b, mainSubject, clientId)
    decreases |b|
  {
    if b == [] {
      assert a + b == a;
    } else {
      var b' := b[..|b| - 1];
      assert (a + b)[..|a + b| - 1] == a + b';
      WithKeyAppend(a, b', mainSubject, clientId);
    }
  }

  lemma {:induction false} WithKeyUniform(batch: seq<Vote>, mainSubject: string, clientId: string)
    requires Uniform(batch, mainSubject, clientId)
    ensures WithKey(batch, mainSubject, clientId) == batch
  {
    if batch != [] {
      var b' := batch[..|batch| - 1];
      WithKeyUniform(b', mainSubject, clientId);
    }
  }

  lemma WithKeyNonEmpty(votes: seq<Vote>, mainSubject: string, clientId: string)
    ensures WithKey(votes, mainSubject, clientId) != [] ==> AlreadyVoted(votes, mainSubject, clientId)
  {
    var r := WithKey(votes, mainSubject, clientId);
    if r != [] {
      assert r[0] in r;
    }
  }

  lemma UniformHasNoOtherKey(batch: seq<Vote>, m: string, c: string, mainSubject: string, clientId: string)
    requires Uniform(batch, m, c) && (m, c) != (mainSubject, clientId)
    ensures !AlreadyVoted(batch, mainSubject, clientId)
  {
  }

  lemma {:induction false} InConcat(batches: seq<seq<Vote>>, v: Vote)
    requires v in Concat(batches)
    ensures exists i :: 0 <= i < |batches| && v in batches[i]
  {
    var n := |batches| - 1;
    if v in batches[n] {
    } else {
      InConcat(batches[..n], v);
      var i :| 0 <= i < n && v in batches[..n][i];
      assert v in batches[i];
    }
  }

  lemma PrefixKeyed(batches: seq<seq<Vote>>)
    requires KeyedBatches(batches) && |batches| > 0
    ensures KeyedBatches(batches[..|batches| - 1])
  {
  }

  /** A key somebody voted on is the key of some batch. */
  lemma VotedKeyHasBatch(batches: seq<seq<Vote>>, mainSubject: string, clientId: string)
    requires KeyedBatches(batches)
    ensures AlreadyVoted(Concat(batches), mainSubject, clientId) ==>
            exists i :: 0 <= i < |batches| && KeyOf(batches[i]) == (mainSubject, clientId)
  {
    if v :| v in Concat(batches) && v.mainSubject == mainSubject && v.clientId == clientId {
      InConcat(batches, v);
      var i :| 0 <= i < |batches| && v in batches[i];
      var k :| 0 <= k < |batches[i]| && batches[i][k] == v;
      assert KeyOf(batches[i]) == (mainSubject, clientId);
    }
  }

  /** The invariant: the records for any (main subject, client id) pair are
      either none or exactly one accepted submission's records. */
  lemma {:induction false} OneSubmissionPerKey(batches: seq<seq<Vote>>, mainSubject: string, clientId: string)
    requires KeyedBatches(batches)
    ensures var w := WithKey(Concat(batches), mainSubject, clientId);
            w == [] || exists i :: 0 <= i < |batches| && w == batches[i]
  {
    if batches != [] {
      var n := |batches| - 1;
      var p, x := batches[..n], batches[n];
      assert batches == p + [x];
      PrefixKeyed(batches);
      WithKeyAppend(Concat(p), x, mainSubject, clientId);
      if KeyOf(x) == (mainSubject, clientId) {
        WithKeyUniform(x, mainSubject, clientId);
        forall i | 0 <= i < |p|
          ensures KeyOf(p[i]) != (mainSubject, clientId)
        {
          assert p[i] == batches[i];
        }
        VotedKeyHasBatch(p, mainSubject, clientId);
        WithKeyNonEmpty(Concat(p), mainSubject, clientId);
        assert WithKey(Concat(batches), mainSubject, clientId) == batches[n];
      } else {
        UniformHasNoOtherKey(x, x[0].mainSubject, x[0].clientId, mainSubject, clientId);
        WithKeyNonEmpty(x, mainSubject, clientId);
        OneSubmissionPerKey(p, mainSubject, clientId);
        var w := WithKey(Concat(p), mainSubject, clientId);
        assert WithKey(Concat(batches), mainSubject, clientId) == w;
        if w != [] {
          var i :| 0 <= i < |p| && w == p[i];
          assert w == batches[i];
        }
      }
    }
  }

  /** The batches after an outcome: an accepted non-empty submission is a new batch. */
  function BatchesAfter(batches: seq<seq<Vote>>, outcome: Outcome): seq<seq<Vote>>
  {
    if outcome.Accepted? && outcome.records != [] then batches + [outcome.records] else batches
  }

  /** A new batch with a key nobody has voted on keeps the invariant. */
  lemma AppendBatchKeepsKeyed(batches: seq<seq<Vote>>, batch: seq<Vote>, mainSubject: string, clientId: string)
    requires KeyedBatches(batches)
    requires |batch| > 0 && Uniform(batch, mainSubject, clientId)
    requires !AlreadyVoted(Concat(batches), mainSubject, clientId)
    ensures KeyedBatches(batches + [batch])
    ensures Concat(batches + [batch]) == Concat(batches) + batch
  {
    var b := batches + [batch];
    assert b[..|b| - 1] == batches;
    forall i | 0 <= i < |batches|
      ensures KeyOf(batches[i]) != (mainSubject, clientId)
    {
      ConcatHas(batches, i, batches[i][0]);
    }
    assert KeyOf(batch) == (mainSubject, clientId);
  }

  /** Every submission keeps the invariant, and the votes stay the concatenation
      of the batches. */
  lemma SubmissionKeepsBatches(batches: seq<seq<Vote>>, isVotingOpen: bool, currentSubject: string,
                               votingMode: string, socketId: string, clientIp: string, clientId: string,
                               data: Submission)
    requires KeyedBatches(batches)
    ensures var o := Decide(isVotingOpen, Concat(batches), currentSubject, votingMode,
                            socketId, clientIp, clientId, data);
            KeyedBatches(BatchesAfter(batches, o)) &&
            Concat(BatchesAfter(batches, o)) == VotesAfter(Concat(batches), o)
  {
    var o := Decide(isVotingOpen, Concat(batches), currentSubject, votingMode,
                    socketId, clientIp, clientId, data);
    if o.Accepted? {
      var r := o.records;
      if r == [] {
        assert Concat(batches) + r == Concat(batches);
      } else {
        assert Uniform(r, currentSubject, clientId);
        AppendBatchKeepsKeyed(batches, r, currentSubject, clientId);
      }
    }
  }

  lemma {:induction false} ConcatHas(batches: seq<seq<Vote>>, i: nat, v: Vote)
    requires i < |batches| && v in batches[i]
    ensures v in Concat(batches)
  {
    var n := |batches| - 1;
    if i < n {
      assert batches[..n][i] == batches[i];
      ConcatHas(batches[..n], i, v);
    }
  }
}
