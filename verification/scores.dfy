/** The score annotations of the `QuestionManager`, `AnswerManager` and
    `ProfileManager`: SQL `SUM` aggregates over the vote tables, wrapped in
    `Coalesce(..., 0)`. */
module Scores {
  import opened Base
  import opened Tables
  import opened Records

  /** What SQL `SUM` adds for one vote row: a NULL value is skipped. */
  function Value(v: VoteData): int
  {
    if v.value.Some? then v.value.value else 0
  }

  /** `SUM(value)` over the votes whose target is one of `targets`, with
      `Coalesce` turning the empty sum into 0. */
  function SumOver(votes: seq<Row<VoteData>>, targets: set<Pk>): (r: int)
    ensures (forall i :: 0 <= i < |votes| ==> votes[i].data.target !in targets) ==> r == 0
  {
    if |votes| == 0 then 0 else
      assert forall i :: 1 <= i < |votes| ==> votes[1..][i - 1] == votes[i];
      (if votes[0].data.target in targets then Value(votes[0].data) else 0)
      + SumOver(votes[1..], targets)
  }

  /** The number of votes whose target is one of `targets`. */
  function CountOver(votes: seq<Row<VoteData>>, targets: set<Pk>): nat
  {
    if |votes| == 0 then 0
    else (if votes[0].data.target in targets then 1 else 0) + CountOver(votes[1..], targets)
  }

  /** The number of votes on `targets` whose value is `v`. */
  function CountValue(votes: seq<Row<VoteData>>, targets: set<Pk>, v: int): nat
  {
    if |votes| == 0 then 0
    else
      (if votes[0].data.target in targets && votes[0].data.value == Some(v) then 1 else 0)
      + CountValue(votes[1..], targets, v)
  }

  /** The signed sum of the votes on one question or answer. */
  function VoteSum(votes: seq<Row<VoteData>>, target: Pk): int
  {
    SumOver(votes, {target})
  }

  /** No vote in `votes` is cast on `target`. */
  predicate Unvoted(votes: seq<Row<VoteData>>, target: Pk)
  {
    forall i :: 0 <= i < |votes| ==> votes[i].data.target != target
  }

  /** The `score` annotation of `all_with_relations_and_score` and of the
      `score` subquery of `all_with_answer_score`. */
  function QuestionScore(s: Store, question: Pk): (r: int)
    ensures Unvoted(s.questionVotes, question) ==> r == 0
  {
    VoteSum(s.questionVotes, question)
  }

  /** The `score` annotation of `AnswerManager.all_with_score`. */
  function AnswerScore(s: Store, answer: Pk): (r: int)
    ensures Unvoted(s.answerVotes, answer) ==> r == 0
  {
    VoteSum(s.answerVotes, answer)
  }

  /** Which answers a join through the answer table keeps. */
  datatype Selector = OfQuestion(question: Pk) | OwnedBy(user: Pk)

  predicate Selects(sel: Selector, a: AnswerData)
  {
    match sel
    case OfQuestion(q) => a.question == q
    case OwnedBy(u) => a.pub.user == u
  }

  /** The join keeps no answer of `answers`. */
  predicate NoneSelected(answers: seq<Row<AnswerData>>, sel: Selector)
  {
    forall i :: 0 <= i < |answers| ==> !Selects(sel, answers[i].data)
  }

  /** `SUM(answer__answervote__value)` as the join computes it: for every
      selected answer, the sum of that answer's votes. */
  function JoinSum(answers: seq<Row<AnswerData>>, votes: seq<Row<VoteData>>, sel: Selector): (r: int)
    ensures NoneSelected(answers, sel) ==> r == 0
  {
    if |answers| == 0 then 0
    else
      assert NoneSelected(answers, sel) ==> NoneSelected(answers[1..], sel) by {
        assert forall i :: 1 <= i < |answers| ==> answers[1..][i - 1] == answers[i];
      }
      (if Selects(sel, answers[0].data) then VoteSum(votes, answers[0].id) else 0)
      + JoinSum(answers[1..], votes, sel)
  }

  /** The keys of the selected answers. */
  function SelectedIds(answers: seq<Row<AnswerData>>, sel: Selector): set<Pk>
  {
    set i | 0 <= i < |answers| && Selects(sel, answers[i].data) :: answers[i].id
  }

  /** The `ans_score` annotation of `all_with_answer_score`. */
  function AnswerAggregate(s: Store, question: Pk): (r: int)
    ensures NoneSelected(s.answers, OfQuestion(question)) ==> r == 0
  {
    JoinSum(s.answers, s.answerVotes, OfQuestion(question))
  }

  /** The `score` annotation of `ProfileManager.all_with_user_score`. */
  function ProfileScore(s: Store, user: Pk): (r: int)
    ensures NoneSelected(s.answers, OwnedBy(user)) ==> r == 0
  {
    JoinSum(s.answers, s.answerVotes, OwnedBy(user))
  }

  /** Summing over two disjoint sets of targets adds up. */
  lemma {:induction false} SumOverDisjointUnion(votes: seq<Row<VoteData>>, a: set<Pk>, b: set<Pk>)
    requires a !! b
    ensures SumOver(votes, a + b) == SumOver(votes, a) + SumOver(votes, b)
  {
    if |votes| > 0 {
      SumOverDisjointUnion(votes[1..], a, b);
    }
  }

  /** Adding a vote row adds exactly its value to the sums that cover its target. */
  lemma {:induction false} SumOverAppend(votes: seq<Row<VoteData>>, v: Row<VoteData>, targets: set<Pk>)
    ensures SumOver(votes + [v], targets)
         == SumOver(votes, targets) + (if v.data.target in targets then Value(v.data) else 0)
  {
    if |votes| > 0 {
      assert (votes + [v])[1..] == votes[1..] + [v];
      SumOverAppend(votes[1..], v, targets);
    } else {
      assert (votes + [v])[1..] == [];
    }
  }

  /** With values restricted to the two choices, a sum is the number of up
      votes minus the number of down votes, so it is bounded by the count. */
  lemma {:induction false} SumIsUpsMinusDowns(votes: seq<Row<VoteData>>, targets: set<Pk>)
    requires ValidVoteValues(votes)
    ensures SumOver(votes, targets) == CountValue(votes, targets, UP) - CountValue(votes, targets, DOWN)
    ensures CountValue(votes, targets, UP) + CountValue(votes, targets, DOWN) == CountOver(votes, targets)
    ensures -(CountOver(votes, targets) as int) <= SumOver(votes, targets) <= CountOver(votes, targets)
  {
    if |votes| > 0 {
      assert ValidVoteValues(votes[1..]) by {
        forall i | 0 <= i < |votes[1..]|
          ensures votes[1..][i].data.value.Some? && IsVoteValue(votes[1..][i].data.value.value)
        {
          assert votes[1..][i] == votes[i + 1];
        }
      }
      SumIsUpsMinusDowns(votes[1..], targets);
      assert votes[0].data.value.Some? && IsVoteValue(votes[0].data.value.value);
    }
  }

  /** The aggregated answer score (and the profile score) computed by the join
      equals the sum of the answer votes whose answer is selected: each vote
      is counted once, because answer keys are unique. */
  lemma {:induction false} JoinSumByVotes(answers: seq<Row<AnswerData>>, votes: seq<Row<VoteData>>, sel: Selector)
    requires UniqueIds(answers)
    ensures JoinSum(answers, votes, sel) == SumOver(votes, SelectedIds(answers, sel))
  {
    if |answers| == 0 {
      assert SelectedIds(answers, sel) == {};
    } else {
      var a := answers[0];
      var rest := answers[1..];
      assert UniqueIds(rest) by {
        forall i, j | 0 <= i < j < |rest| ensures rest[i].id != rest[j].id {
          assert rest[i] == answers[i + 1] && rest[j] == answers[j + 1];
        }
      }
      JoinSumByVotes(rest, votes, sel);
      var head: set<Pk> := if Selects(sel, a.data) then {a.id} else {};
      assert forall i :: 0 <= i < |rest| ==> rest[i].id != a.id by {
        forall i | 0 <= i < |rest| ensures rest[i].id != a.id {
          assert rest[i] == answers[i + 1];
        }
      }
      assert a.id !in SelectedIds(rest, sel);
      assert SelectedIds(answers, sel) == head + SelectedIds(rest, sel) by {
        forall k | k in SelectedIds(answers, sel) ensures k in head + SelectedIds(rest, sel) {
          var i :| 0 <= i < |answers| && Selects(sel, answers[i].data) && answers[i].id == k;
          if i > 0 { assert rest[i - 1] == answers[i]; }
        }
        forall k | k in SelectedIds(rest, sel) ensures k in SelectedIds(answers, sel) {
          var i :| 0 <= i < |rest| && Selects(sel, rest[i].data) && rest[i].id == k;
          assert answers[i + 1] == rest[i];
        }
      }
      SumOverDisjointUnion(votes, head, SelectedIds(rest, sel));
    }
  }

  /** A question's score is the signed sum of its votes: 0 with none, and
      never beyond the number of votes on it in either direction. */
  lemma QuestionScoreBounds(s: Store, question: Pk)
    requires Valid(s)
    ensures QuestionScore(s, question)
         == CountValue(s.questionVotes, {question}, UP) - CountValue(s.questionVotes, {question}, DOWN)
    ensures -(CountOver(s.questionVotes, {question}) as int) <= QuestionScore(s, question)
         <= CountOver(s.questionVotes, {question})
    ensures (forall i :: 0 <= i < |s.questionVotes| ==> s.questionVotes[i].data.target != question)
         ==> QuestionScore(s, question) == 0
  {
    SumIsUpsMinusDowns(s.questionVotes, {question});
  }

  /** An answer's score is the signed sum of its votes, 0 with none. */
  lemma AnswerScoreBounds(s: Store, answer: Pk)
    requires Valid(s)
    ensures AnswerScore(s, answer)
         == CountValue(s.answerVotes, {answer}, UP) - CountValue(s.answerVotes, {answer}, DOWN)
    ensures -(CountOver(s.answerVotes, {answer}) as int) <= AnswerScore(s, answer)
         <= CountOver(s.answerVotes, {answer})
    ensures (forall i :: 0 <= i < |s.answerVotes| ==> s.answerVotes[i].data.target != answer)
         ==> AnswerScore(s, answer) == 0
  {
    SumIsUpsMinusDowns(s.answerVotes, {answer});
  }

  /** `ans_score` is the sum of the values of all answer votes cast on the
      question's answers; it is 0 when the question has no answer votes. */
  lemma AnswerAggregateByVotes(s: Store, question: Pk)
    requires Valid(s)
    ensures AnswerAggregate(s, question) == SumOver(s.answerVotes, SelectedIds(s.answers, OfQuestion(question)))
    ensures (forall i :: 0 <= i < |s.answerVotes| ==>
               s.answerVotes[i].data.target !in SelectedIds(s.answers, OfQuestion(question)))
         ==> AnswerAggregate(s, question) == 0
  {
    JoinSumByVotes(s.answers, s.answerVotes, OfQuestion(question));
  }

  /** A profile's score is the sum of the values of all votes cast on the
      user's answers; it is 0 when none of them has a vote. */
  lemma ProfileScoreByVotes(s: Store, user: Pk)
    requires Valid(s)
    ensures ProfileScore(s, user) == SumOver(s.answerVotes, SelectedIds(s.answers, OwnedBy(user)))
    ensures (forall i :: 0 <= i < |s.answerVotes| ==>
               s.answerVotes[i].data.target !in SelectedIds(s.answers, OwnedBy(user)))
         ==> ProfileScore(s, user) == 0
  {
    JoinSumByVotes(s.answers, s.answerVotes, OwnedBy(user));
  }
}
