/** The legacy `qa` app: the same publishable records and votes, a running
    `votes` column, and score annotations without `Coalesce`, so that a
    target with no votes has a NULL score. */
module Legacy {
  import opened Base
  import opened Tables
  import opened Publishing
  import opened Records
  import opened Scores
  import opened Voting

  /** A legacy `Publishable`: the common columns plus the `votes` counter. */
  datatype LegacyPub = LegacyPub(pub: Pub, votes: int)

  /** A new, unsaved legacy record: `votes` takes its default 0 and neither
      timestamp is set. */
  function NewLegacyPub(user: Pk, body: string): (r: LegacyPub)
    ensures r.votes == 0
    ensures r.pub.user == user && r.pub.body == body
    ensures !Saved(r.pub) && r.pub.created.None?
  {
    LegacyPub(Pub(user, body, None, None), 0)
  }

  /** Legacy `Publishable.save`: the same timestamp rule as the `qanda` app;
      the `votes` counter is written back as it is. */
  function LegacySave(id: Option<Pk>, p: LegacyPub, c: Clock): (r: (LegacyPub, Clock))
    ensures r.0.votes == p.votes
    ensures r.0.pub.user == p.pub.user && r.0.pub.body == p.pub.body
    ensures id.Some? ==> r.0.pub.created == p.pub.created
    ensures id.None? ==> r.0.pub.created.Some? && c.ticks <= r.0.pub.created.value
    ensures r.0.pub.modified.Some? && c.ticks <= r.0.pub.modified.value < r.1.ticks
  {
    var st := Stamp(id, p.pub, c);
    (p.(pub := st.pub), st.clock)
  }

  /** `n` further saves of a record stored under key `k`. */
  function SaveAgain(p: LegacyPub, k: Pk, c: Clock, n: nat): (LegacyPub, Clock)
    decreases n
  {
    if n == 0 then (p, c)
    else
      var once := LegacySave(Some(k), p, c);
      SaveAgain(once.0, k, once.1, n - 1)
  }

  /** However many times a stored record is saved again, `created` keeps the
      value of the first save, `votes` is untouched, and after at least one
      save `modified` is a reading taken no earlier than the first of them. */
  lemma {:induction false} SavesKeepCreated(p: LegacyPub, k: Pk, c: Clock, n: nat)
    decreases n
    ensures var r := SaveAgain(p, k, c, n);
      && r.0.pub.created == p.pub.created
      && r.0.votes == p.votes
      && c.ticks <= r.1.ticks
      && (n > 0 ==> r.0.pub.modified.Some? && c.ticks <= r.0.pub.modified.value < r.1.ticks)
  {
    if n > 0 {
      var once := LegacySave(Some(k), p, c);
      SavesKeepCreated(once.0, k, once.1, n - 1);
    }
  }

  /** `SUM(value)` without `Coalesce`: NULL (`None`) when no vote on the
      target carries a value, the signed sum otherwise. */
  function LegacySum(votes: seq<Row<VoteData>>, target: Pk): (r: Option<int>)
    ensures r.None? <==>
      forall i :: 0 <= i < |votes| ==> !(votes[i].data.target == target && votes[i].data.value.Some?)
    ensures r.None? ==> VoteSum(votes, target) == 0
    ensures r.Some? ==> r.value == VoteSum(votes, target)
  {
    if |votes| == 0 then None
    else
      var rest := LegacySum(votes[1..], target);
      assert forall i :: 1 <= i < |votes| ==> votes[1..][i - 1] == votes[i];
      if votes[0].data.target == target && votes[0].data.value.Some? then
        Some(votes[0].data.value.value + (if rest.Some? then rest.value else 0))
      else rest
  }

  /** The `score` annotation of the legacy `QuestionManager` and
      `AnswerManager`, over the matching vote table. */
  function LegacyScore(votes: seq<Row<VoteData>>, target: Pk): (r: Option<int>)
    ensures Coalesce(r) == VoteSum(votes, target)
    ensures r.None? <==>
      forall i :: 0 <= i < |votes| ==> !(votes[i].data.target == target && votes[i].data.value.Some?)
  {
    LegacySum(votes, target)
  }

  /** `Coalesce(..., 0)`, which the `qanda` app adds and the legacy app lacks. */
  function Coalesce(o: Option<int>): int
  {
    if o.Some? then o.value else 0
  }

  /** The two apps agree wherever the legacy score is not NULL, and the
      `qanda` score is the legacy one with NULL read as 0. In a legacy table,
      where every vote has a value, the score is NULL exactly when the target
      has no votes. */
  lemma LegacyScoreCoalesced(votes: seq<Row<VoteData>>, target: Pk)
    ensures Coalesce(LegacyScore(votes, target)) == VoteSum(votes, target)
    ensures ValidVoteValues(votes) ==>
      (LegacyScore(votes, target).None? <==> forall i :: 0 <= i < |votes| ==> votes[i].data.target != target)
  {
  }

  /** Saving a legacy `QuestionVote` or `AnswerVote` after model validation
      (`full_clean`): `targets` holds the keys of the question or answer
      table. A value outside the two choices, or a target key that names no
      row, fails validation; a second vote by the same user on the same
      target breaks `unique_together`. */
  function LegacyAddVote(votes: seq<Row<VoteData>>, targets: set<Pk>, user: Pk, target: Pk, value: int): (r: Result<Written<VoteData>>)
    ensures r == Err(InvalidForm) <==> !IsVoteValue(value) || target !in targets
    ensures r == Err(UniqueViolation) <==> IsVoteValue(value) && target in targets && HasVoted(votes, user, target)
    ensures r.Ok? ==> target in targets && r.value.id !in Ids(votes)
    ensures r.Ok? ==> r.value.table == votes + [Row(r.value.id, VoteData(user, target, Some(value)))]
  {
    if !IsVoteValue(value) || target !in targets then Err(InvalidForm)
    else if HasVoted(votes, user, target) then Err(UniqueViolation)
    else
      Ok(Write(votes, Instance(None, VoteData(user, target, Some(value)))))
  }

  /** Every stored legacy vote is 1 or -1 and there is at most one per user
      and target: adding votes keeps the vote table valid, and the target's
      score moves by exactly the added value. */
  lemma LegacyAddVoteKeepsTable(votes: seq<Row<VoteData>>, targets: set<Pk>, user: Pk, target: Pk, value: int)
    requires ValidVoteTable(votes)
    requires LegacyAddVote(votes, targets, user, target, value).Ok?
    ensures var w := LegacyAddVote(votes, targets, user, target, value).value;
      && ValidVoteTable(w.table)
      && Coalesce(LegacyScore(w.table, target)) == Coalesce(LegacyScore(votes, target)) + value
      && LegacyScore(w.table, target).Some?
  {
    var w := LegacyAddVote(votes, targets, user, target, value).value;
    forall i, j | 0 <= i < j < |w.table|
      ensures (w.table[i].data.user, w.table[i].data.target) != (w.table[j].data.user, w.table[j].data.target)
    {
      if j == |votes| {
        assert !VoteOf(user, target, votes[i]);
      }
    }
    LegacyScoreCoalesced(votes, target);
    LegacyScoreCoalesced(w.table, target);
    SumOverAppend(votes, Row(w.id, VoteData(user, target, Some(value))), {target});
    assert w.table[|votes|].data.target == target;
  }
}
