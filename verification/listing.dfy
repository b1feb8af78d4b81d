/** The listing views: the home page with its sort modes and side lists,
    and the user page with its score-ordered tabs. */
module Listing {
  import opened Base
  import opened Tables
  import opened Records
  import opened Scores
  import opened Sorting

  /** A question annotated by `all_with_answer_score`. */
  datatype RankedQuestion = RankedQuestion(row: Row<QuestionData>, score: int, ansScore: int)

  /** A question annotated by `all_with_relations_and_score`. */
  datatype ScoredQuestion = ScoredQuestion(row: Row<QuestionData>, score: int)

  /** An answer annotated by `all_with_score`. */
  datatype ScoredAnswer = ScoredAnswer(row: Row<AnswerData>, score: int)

  /** A profile annotated by `all_with_user_score`. */
  datatype ScoredProfile = ScoredProfile(profile: Profile, score: int)

  /** The number of items a shortened list shows: the `[:5]` slices. */
  const SHORT_LIST: nat := 5

  /** A stored timestamp as a sort key; stored rows always carry one. */
  function TimeKey(t: Option<int>): int
  {
    if t.Some? then t.value else 0
  }

  function ScoreKey(q: RankedQuestion): int { q.score }
  function AnsScoreKey(q: RankedQuestion): int { q.ansScore }
  function NewestKey(q: RankedQuestion): int { TimeKey(q.row.data.pub.created) }
  function AnswerCreatedKey(a: Row<AnswerData>): int { TimeKey(a.data.pub.created) }
  function ProfileScoreKey(p: ScoredProfile): int { p.score }
  function AnswerScoreKey(a: ScoredAnswer): int { a.score }
  function QuestionScoreKey(q: ScoredQuestion): int { q.score }

  /** `Question.objects.all_with_answer_score()`: every question, in table
      order, with its score and its answers' aggregated score. */
  function WithAnswerScore(s: Store): (r: seq<RankedQuestion>)
    ensures |r| == |s.questions|
    ensures forall i :: 0 <= i < |r| ==>
      r[i] == RankedQuestion(s.questions[i], QuestionScore(s, s.questions[i].id), AnswerAggregate(s, s.questions[i].id))
  {
    seq(|s.questions|, i requires 0 <= i < |s.questions| =>
      RankedQuestion(s.questions[i], QuestionScore(s, s.questions[i].id), AnswerAggregate(s, s.questions[i].id)))
  }

  /** The three orders of the home page. */
  datatype SortMode = ByAnswerScore | Newest | ByScore

  /** `HomePageView.get_queryset`: the `sort` query parameter picks the order;
      anything but `answered` and `newest`, or no parameter, sorts by score. */
  function SortModeOf(sort: Option<string>): (m: SortMode)
    ensures m == ByAnswerScore <==> sort == Some("answered")
    ensures m == Newest <==> sort == Some("newest")
    ensures m == ByScore <==> sort != Some("answered") && sort != Some("newest")
  {
    if sort == Some("answered") then ByAnswerScore
    else if sort != Some("newest") then ByScore
    else Newest
  }

  function KeyOf(m: SortMode): RankedQuestion -> int
  {
    match m
    case ByAnswerScore => AnsScoreKey
    case ByScore => ScoreKey
    case Newest => NewestKey   // the model's default ordering, `-created`
  }

  /** The home page's question list: every question once, in the order the
      `sort` parameter asks for. */
  function HomeQuestions(s: Store, sort: Option<string>): (r: seq<RankedQuestion>)
    ensures multiset(r) == multiset(WithAnswerScore(s))
    ensures SortedDesc(r, KeyOf(SortModeOf(sort)))
  {
    var rows := WithAnswerScore(s);
    SortDescSorted(rows, KeyOf(SortModeOf(sort)));
    SortDesc(rows, KeyOf(SortModeOf(sort)))
  }

  /** The three sort modes spelled out. */
  lemma HomeSortModes(s: Store, sort: Option<string>)
    ensures sort == Some("answered") ==> SortedDesc(HomeQuestions(s, sort), AnsScoreKey)
    ensures sort == Some("newest") ==> SortedDesc(HomeQuestions(s, sort), NewestKey)
    ensures sort != Some("answered") && sort != Some("newest") ==> SortedDesc(HomeQuestions(s, sort), ScoreKey)
    ensures |HomeQuestions(s, sort)| == |s.questions|
  {
    var r := HomeQuestions(s, sort);
    assert |r| == |multiset(r)| == |multiset(WithAnswerScore(s))| == |s.questions|;
  }

  /** `Profile.objects.all_with_user_score()`. */
  function WithUserScore(s: Store): (r: seq<ScoredProfile>)
    ensures |r| == |s.profiles|
    ensures forall i :: 0 <= i < |r| ==> r[i] == ScoredProfile(s.profiles[i], ProfileScore(s, s.profiles[i].user))
  {
    seq(|s.profiles|, i requires 0 <= i < |s.profiles| =>
      ScoredProfile(s.profiles[i], ProfileScore(s, s.profiles[i].user)))
  }

  /** `HomePageView.get_context_data`: the five newest answers and the five
      users with the highest score. */
  datatype HomeSide = HomeSide(lastAnswers: seq<Row<AnswerData>>, topUsers: seq<ScoredProfile>)

  function HomeSideLists(s: Store): (r: HomeSide)
    ensures |r.lastAnswers| == if |s.answers| < SHORT_LIST then |s.answers| else SHORT_LIST
    ensures |r.topUsers| == if |s.profiles| < SHORT_LIST then |s.profiles| else SHORT_LIST
    ensures multiset(r.lastAnswers) <= multiset(s.answers)
    ensures multiset(r.topUsers) <= multiset(WithUserScore(s))
  {
    HomeSide(TopN(s.answers, AnswerCreatedKey, SHORT_LIST), TopN(WithUserScore(s), ProfileScoreKey, SHORT_LIST))
  }

  /** The side lists really are the newest answers and the best users: no
      answer left out is newer than the last one shown, and no user left out
      has a higher score than the last one shown. */
  lemma HomeSideListsAreTop(s: Store)
    ensures var r := HomeSideLists(s);
      && SortedDesc(r.lastAnswers, AnswerCreatedKey)
      && SortedDesc(r.topUsers, ProfileScoreKey)
      && (forall i :: 0 <= i < |s.answers| ==>
            (s.answers[i] in r.lastAnswers
             || (|r.lastAnswers| > 0
                 && AnswerCreatedKey(s.answers[i]) <= AnswerCreatedKey(r.lastAnswers[|r.lastAnswers| - 1]))))
      && (forall i :: 0 <= i < |s.profiles| ==>
            (ScoredProfile(s.profiles[i], ProfileScore(s, s.profiles[i].user)) in r.topUsers
             || (|r.topUsers| > 0 && ProfileScore(s, s.profiles[i].user) <= r.topUsers[|r.topUsers| - 1].score)))
  {
    TopNIsTop(s.answers, AnswerCreatedKey, SHORT_LIST);
    var users := WithUserScore(s);
    TopNIsTop(users, ProfileScoreKey, SHORT_LIST);
    forall i | 0 <= i < |s.profiles| ensures users[i] == ScoredProfile(s.profiles[i], ProfileScore(s, s.profiles[i].user)) {
    }
  }

  /** `UserDetail.get_context_data`: the list is shortened unless the `tab`
      parameter names a tab. The test `tab == 'None'` is subsumed. */
  function ShortensTabs(tab: Option<string>): (r: bool)
    ensures r <==> tab != Some("questions") && tab != Some("answers")
  {
    tab == Some("None") || (tab != Some("questions") && tab != Some("answers"))
  }

  /** The rows of a scored list, in order. */
  function AnswerRows(r: seq<ScoredAnswer>): seq<Row<AnswerData>>
  {
    seq(|r|, i requires 0 <= i < |r| => r[i].row)
  }

  function QuestionRows(r: seq<ScoredQuestion>): seq<Row<QuestionData>>
  {
    seq(|r|, i requires 0 <= i < |r| => r[i].row)
  }

  /** Each answer of `rows` paired with its score, in order. */
  function ScoreAnswers(s: Store, rows: seq<Row<AnswerData>>): (r: seq<ScoredAnswer>)
    ensures AnswerRows(r) == rows
    ensures forall i :: 0 <= i < |r| ==> r[i] == ScoredAnswer(rows[i], AnswerScore(s, rows[i].id))
    ensures forall a :: a in rows ==> ScoredAnswer(a, AnswerScore(s, a.id)) in r
  {
    var r := seq(|rows|, i requires 0 <= i < |rows| => ScoredAnswer(rows[i], AnswerScore(s, rows[i].id)));
    assert AnswerRows(r) == rows;
    forall a | a in rows ensures ScoredAnswer(a, AnswerScore(s, a.id)) in r {
      var j :| 0 <= j < |rows| && rows[j] == a;
      assert r[j] == ScoredAnswer(a, AnswerScore(s, a.id));
    }
    r
  }

  /** Each question of `rows` paired with its score, in order. */
  function ScoreQuestions(s: Store, rows: seq<Row<QuestionData>>): (r: seq<ScoredQuestion>)
    ensures QuestionRows(r) == rows
    ensures forall i :: 0 <= i < |r| ==> r[i] == ScoredQuestion(rows[i], QuestionScore(s, rows[i].id))
    ensures forall q :: q in rows ==> ScoredQuestion(q, QuestionScore(s, q.id)) in r
  {
    var r := seq(|rows|, i requires 0 <= i < |rows| => ScoredQuestion(rows[i], QuestionScore(s, rows[i].id)));
    assert QuestionRows(r) == rows;
    forall q | q in rows ensures ScoredQuestion(q, QuestionScore(s, q.id)) in r {
      var j :| 0 <= j < |rows| && rows[j] == q;
      assert r[j] == ScoredQuestion(q, QuestionScore(s, q.id));
    }
    r
  }

  /** `listed` holds every stored answer by `user` as often as it is stored,
      and no other answer. */
  ghost predicate CountsAnswers(listed: seq<Row<AnswerData>>, stored: seq<Row<AnswerData>>, user: Pk)
  {
    forall a :: multiset(listed)[a] == if a.data.pub.user == user then multiset(stored)[a] else 0
  }

  /** `listed` holds every stored question by `user` as often as it is
      stored, and no other question. */
  ghost predicate CountsQuestions(listed: seq<Row<QuestionData>>, stored: seq<Row<QuestionData>>, user: Pk)
  {
    forall q :: multiset(listed)[q] == if q.data.pub.user == user then multiset(stored)[q] else 0
  }

  /** `Answer.objects.filter(user=user)`. */
  function UserAnswers(s: Store, user: Pk): (r: seq<Row<AnswerData>>)
    ensures forall i :: 0 <= i < |r| ==> r[i] in s.answers && r[i].data.pub.user == user
    ensures forall i :: 0 <= i < |s.answers| && s.answers[i].data.pub.user == user ==> s.answers[i] in r
    ensures CountsAnswers(r, s.answers, user)
    ensures UniqueIds(s.answers) ==> UniqueIds(r)
  {
    var p := (a: Row<AnswerData>) => a.data.pub.user == user;
    FilterRows(s.answers, p);
    Filter(s.answers, p)
  }

  /** `Question.objects.filter(user=user)`. */
  function UserQuestions(s: Store, user: Pk): (r: seq<Row<QuestionData>>)
    ensures forall i :: 0 <= i < |r| ==> r[i] in s.questions && r[i].data.pub.user == user
    ensures forall i :: 0 <= i < |s.questions| && s.questions[i].data.pub.user == user ==> s.questions[i] in r
    ensures CountsQuestions(r, s.questions, user)
    ensures UniqueIds(s.questions) ==> UniqueIds(r)
  {
    var p := (q: Row<QuestionData>) => q.data.pub.user == user;
    FilterRows(s.questions, p);
    Filter(s.questions, p)
  }

  /** The user's answers with their scores: every stored answer by the user
      is listed as often as it is stored, and nothing else is listed. */
  function AnswersOf(s: Store, user: Pk): (r: seq<ScoredAnswer>)
    ensures forall i :: 0 <= i < |r| ==> r[i].row in s.answers && r[i].row.data.pub.user == user
    ensures forall i :: 0 <= i < |r| ==> r[i].score == AnswerScore(s, r[i].row.id)
    ensures forall i :: 0 <= i < |s.answers| && s.answers[i].data.pub.user == user ==>
      ScoredAnswer(s.answers[i], AnswerScore(s, s.answers[i].id)) in r
    ensures AnswerRows(r) == UserAnswers(s, user)
  {
    var mine := UserAnswers(s, user);
    var r := ScoreAnswers(s, mine);
    r
  }

  /** The user's questions with their scores: every stored question by the
      user is listed as often as it is stored, and nothing else is listed. */
  function QuestionsOf(s: Store, user: Pk): (r: seq<ScoredQuestion>)
    ensures forall i :: 0 <= i < |r| ==> r[i].row in s.questions && r[i].row.data.pub.user == user
    ensures forall i :: 0 <= i < |r| ==> r[i].score == QuestionScore(s, r[i].row.id)
    ensures forall i :: 0 <= i < |s.questions| && s.questions[i].data.pub.user == user ==>
      ScoredQuestion(s.questions[i], QuestionScore(s, s.questions[i].id)) in r
    ensures QuestionRows(r) == UserQuestions(s, user)
  {
    var mine := UserQuestions(s, user);
    var r := ScoreQuestions(s, mine);
    r
  }

  /** With unique answer keys, no answer of the user is listed twice. */
  lemma AnswersOfListedOnce(s: Store, user: Pk)
    requires UniqueIds(s.answers)
    ensures var r := AnswersOf(s, user);
      forall i, j :: 0 <= i < j < |r| ==> r[i].row.id != r[j].row.id
  {
  }

  /** With unique question keys, no question of the user is listed twice. */
  lemma QuestionsOfListedOnce(s: Store, user: Pk)
    requires UniqueIds(s.questions)
    ensures var r := QuestionsOf(s, user);
      forall i, j :: 0 <= i < j < |r| ==> r[i].row.id != r[j].row.id
  {
  }

  datatype UserPage = UserPage(answers: seq<ScoredAnswer>, questions: seq<ScoredQuestion>)

  /** One tab of the user page: the rows by key, highest first, cut to the
      five best when `shortened`. */
  function TabList<T>(rows: seq<T>, key: T -> int, shortened: bool): (r: seq<T>)
    ensures SortedDesc(r, key)
    ensures multiset(r) <= multiset(rows)
    ensures shortened ==> |r| == if |rows| < SHORT_LIST then |rows| else SHORT_LIST
    ensures !shortened ==> multiset(r) == multiset(rows)
    ensures shortened ==> NoneLeftAbove(rows, r, key)
  {
    SortDescSorted(rows, key);
    if shortened then
      TopNIsTop(rows, key, SHORT_LIST);
      TopN(rows, key, SHORT_LIST)
    else
      SortDesc(rows, key)
  }

  /** The user page: the user's answers and questions by score, highest
      first, cut to the five best each unless a tab is chosen. */
  function UserDetail(s: Store, user: Pk, tab: Option<string>): (r: UserPage)
    ensures SortedDesc(r.answers, AnswerScoreKey) && SortedDesc(r.questions, QuestionScoreKey)
    ensures multiset(r.answers) <= multiset(AnswersOf(s, user))
    ensures multiset(r.questions) <= multiset(QuestionsOf(s, user))
    ensures ShortensTabs(tab) ==>
      |r.answers| == (if |AnswersOf(s, user)| < SHORT_LIST then |AnswersOf(s, user)| else SHORT_LIST)
      && |r.questions| == (if |QuestionsOf(s, user)| < SHORT_LIST then |QuestionsOf(s, user)| else SHORT_LIST)
    ensures !ShortensTabs(tab) ==>
      multiset(r.answers) == multiset(AnswersOf(s, user)) && multiset(r.questions) == multiset(QuestionsOf(s, user))
    ensures ShortensTabs(tab) ==>
      NoneLeftAbove(AnswersOf(s, user), r.answers, AnswerScoreKey)
      && NoneLeftAbove(QuestionsOf(s, user), r.questions, QuestionScoreKey)
  {
    UserPage(TabList(AnswersOf(s, user), AnswerScoreKey, ShortensTabs(tab)),
             TabList(QuestionsOf(s, user), QuestionScoreKey, ShortensTabs(tab)))
  }
}
