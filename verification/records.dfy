/** The records of the `qanda` app and the constraints the database and the
    application keep over them. */
module Records {
  import opened Base
  import opened Tables
  import opened Publishing

  /** `Votable.UP` and `Votable.DOWN`, the only two value choices. */
  const UP: int := 1
  const DOWN: int := -1

  predicate IsVoteValue(v: int)
  {
    v == UP || v == DOWN
  }

  datatype QuestionData = QuestionData(pub: Pub, title: string, viewed: nat, tags: set<Pk>)

  datatype AnswerData = AnswerData(pub: Pub, question: Pk, accepted: bool)

  datatype TagData = TagData(name: string)

  /** A `QuestionVote` or an `AnswerVote`: `target` is the question or answer
      voted on. A blank vote not yet submitted has no value. */
  datatype VoteData = VoteData(user: Pk, target: Pk, value: Option<int>)

  /** A `Profile`, keyed by its user. */
  datatype Profile = Profile(user: Pk, emailConfirmed: bool)

  datatype Store = Store(
    questions: seq<Row<QuestionData>>,
    answers: seq<Row<AnswerData>>,
    tags: seq<Row<TagData>>,
    questionVotes: seq<Row<VoteData>>,
    answerVotes: seq<Row<VoteData>>,
    profiles: seq<Profile>)

  /** `unique_together = ('user', 'question')` and `('user', 'answer')`. */
  predicate UniqueVotes(votes: seq<Row<VoteData>>)
  {
    forall i, j :: 0 <= i < j < |votes| ==>
      (votes[i].data.user, votes[i].data.target) != (votes[j].data.user, votes[j].data.target)
  }

  /** Every stored vote holds one of the two value choices. */
  predicate ValidVoteValues(votes: seq<Row<VoteData>>)
  {
    forall i :: 0 <= i < |votes| ==> votes[i].data.value.Some? && IsVoteValue(votes[i].data.value.value)
  }

  /** `unique_together = ('name',)` on `Tag`. */
  predicate UniqueTagNames(tags: seq<Row<TagData>>)
  {
    forall i, j :: 0 <= i < j < |tags| ==> tags[i].data.name != tags[j].data.name
  }

  /** At most one accepted answer per question. */
  predicate AtMostOneAccepted(answers: seq<Row<AnswerData>>)
  {
    forall i, j :: 0 <= i < j < |answers| && answers[i].data.accepted && answers[j].data.accepted ==>
      answers[i].data.question != answers[j].data.question
  }

  predicate ValidVoteTable(votes: seq<Row<VoteData>>)
  {
    UniqueIds(votes) && UniqueVotes(votes) && ValidVoteValues(votes)
  }

  /** The invariants the application keeps over the whole store. */
  predicate Valid(s: Store)
  {
    && UniqueIds(s.questions) && UniqueIds(s.answers) && UniqueIds(s.tags)
    && (forall i :: 0 <= i < |s.questions| ==> Saved(s.questions[i].data.pub))
    && (forall i :: 0 <= i < |s.answers| ==> Saved(s.answers[i].data.pub))
    && ValidVoteTable(s.questionVotes) && ValidVoteTable(s.answerVotes)
    && UniqueTagNames(s.tags)
    && AtMostOneAccepted(s.answers)
    && (forall i, j :: 0 <= i < j < |s.profiles| ==> s.profiles[i].user != s.profiles[j].user)
  }

  /** `Question.title_as_hyphen`: every space becomes a hyphen. */
  function TitleAsHyphen(title: string): (r: string)
    ensures |r| == |title|
    ensures forall i :: 0 <= i < |title| && title[i] != ' ' ==> r[i] == title[i]
    ensures forall i :: 0 <= i < |title| && title[i] == ' ' ==> r[i] == '-'
    ensures ' ' !in r
  {
    if |title| == 0 then ""
    else [if title[0] == ' ' then '-' else title[0]] + TitleAsHyphen(title[1..])
  }

  /** The slug of an already hyphenated title is itself. */
  lemma {:induction false} TitleAsHyphenIdempotent(title: string)
    ensures TitleAsHyphen(TitleAsHyphen(title)) == TitleAsHyphen(title)
  {
    var h := TitleAsHyphen(title);
    var hh := TitleAsHyphen(h);
    assert forall i :: 0 <= i < |h| ==> h[i] != ' ';
    assert forall i :: 0 <= i < |hh| ==> hh[i] == h[i];
  }

  /** `Question.can_accept_answers`: only the asker, and an anonymous visitor
      (no user) never. */
  function CanAcceptAnswers(q: QuestionData, user: Option<Pk>): (r: bool)
    ensures r <==> user.Some? && user.value == q.pub.user
  {
    user == Some(q.pub.user)
  }
}
