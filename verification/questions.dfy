/** The question views: asking a question (with the tag find-or-create and
    the SAVE / PREVIEW actions), and the question page with its view counter
    and vote forms. */
module QuestionViews {
  import opened Base
  import opened Tables
  import opened Publishing
  import opened Records
  import opened Scores
  import opened Sorting
  import opened Voting

  /** The question table after a save, the saved question as a stored row,
      and the clock after the readings. */
  datatype SavedQuestion = SavedQuestion(table: seq<Row<QuestionData>>, row: Row<QuestionData>, clock: Clock)

  /** `Question.save`: `Publishable.save` followed by `Model.save`. The
      search-index update that follows is not part of this model. */
  function PersistQuestion(t: seq<Row<QuestionData>>, x: Instance<QuestionData>, c: Clock): (r: SavedQuestion)
    ensures r.row.data == x.data.(pub := r.row.data.pub)
    ensures r.row.data.pub.user == x.data.pub.user && r.row.data.pub.body == x.data.pub.body
    ensures x.id.Some? ==> r.row.id == x.id.value && r.row.data.pub.created == x.data.pub.created
    ensures x.id.None? ==> r.row.id !in Ids(t) && r.table == t + [r.row]
    ensures x.id.None? || Saved(x.data.pub) ==> Saved(r.row.data.pub)
    ensures r.row.data.pub.modified.Some? && c.ticks <= r.row.data.pub.modified.value < r.clock.ticks
    ensures r.row in r.table
    ensures Ids(r.table) == Ids(t) + {r.row.id}
    ensures |t| <= |r.table| <= |t| + 1
    ensures forall i :: 0 <= i < |t| ==> r.table[i] == (if t[i].id == r.row.id then r.row else t[i])
    ensures forall i :: |t| <= i < |r.table| ==> r.table[i] == r.row && r.row.id !in Ids(t)
    ensures UniqueIds(t) ==> UniqueIds(r.table)
  {
    var st := Stamp(x.id, x.data.pub, c);
    var w := Write(t, Instance(x.id, x.data.(pub := st.pub)));
    SavedQuestion(w.table, Row(w.id, x.data.(pub := st.pub)), st.clock)
  }

  // ---- Tags ----

  function NameSet(names: seq<string>): set<string>
  {
    set i | 0 <= i < |names| :: names[i]
  }

  function TagNames(t: seq<Row<TagData>>): set<string>
  {
    set i | 0 <= i < |t| :: t[i].data.name
  }

  /** The keys of the tags whose name is one of `names`. */
  function IdsNamed(t: seq<Row<TagData>>, names: set<string>): set<Pk>
  {
    set i | 0 <= i < |t| && t[i].data.name in names :: t[i].id
  }

  /** The tag table after one lookup, and the key of the tag found or made. */
  datatype TagStep = TagStep(tags: seq<Row<TagData>>, id: Pk)

  /** `Tag.objects.get(name=tag)`, and `Tag.objects.create(name=tag)` when it
      does not exist. */
  function FindOrCreateTag(tags: seq<Row<TagData>>, name: string): (r: Result<TagStep>)
    ensures r.Err? ==> r.error == MultipleObjectsReturned
    ensures r.Err? <==>
      exists i, j :: 0 <= i < j < |tags| && tags[i].data.name == name && tags[j].data.name == name
    ensures r.Ok? ==> |tags| <= |r.value.tags| <= |tags| + 1 && r.value.tags[..|tags|] == tags
    ensures r.Ok? ==> Row(r.value.id, TagData(name)) in r.value.tags
    ensures r.Ok? && |r.value.tags| == |tags| ==> Row(r.value.id, TagData(name)) in tags
    ensures r.Ok? && |r.value.tags| > |tags| ==>
      && r.value.tags == tags + [Row(r.value.id, TagData(name))]
      && name !in TagNames(tags) && r.value.id !in Ids(tags)
  {
    match Get(tags, (t: Row<TagData>) => t.data.name == name)
    case Ok(t) => Ok(TagStep(tags, t.id))
    case Err(e) =>
      if e == DoesNotExist then
        var w := Write(tags, Instance(None, TagData(name)));
        Ok(TagStep(w.table, w.id))
      else Err(e)
  }

  /** The tag table after the loop, and the keys added to the question. */
  datatype Tagged = Tagged(tags: seq<Row<TagData>>, ids: set<Pk>)

  /** The loop of `CreateQuestion.form_valid` over the cleaned tag names. */
  function FindOrCreateTags(tags: seq<Row<TagData>>, names: seq<string>): (r: Result<Tagged>)
    decreases |names|
    ensures r.Err? ==> r.error == MultipleObjectsReturned
    ensures r.Ok? ==> |tags| <= |r.value.tags| && r.value.tags[..|tags|] == tags
  {
    if |names| == 0 then Ok(Tagged(tags, {}))
    else
      match FindOrCreateTag(tags, names[0])
      case Err(e) => Err(e)
      case Ok(step) =>
        match FindOrCreateTags(step.tags, names[1..])
        case Err(e) => Err(e)
        case Ok(rest) =>
          assert rest.tags[..|tags|] == rest.tags[..|step.tags|][..|tags|];
          Ok(Tagged(rest.tags, {step.id} + rest.ids))
  }

  predicate TagTableOk(t: seq<Row<TagData>>)
  {
    UniqueIds(t) && UniqueTagNames(t)
  }

  /** One lookup keeps tag keys and names unique. */
  lemma FindOrCreateTagKeepsUnique(tags: seq<Row<TagData>>, name: string)
    requires TagTableOk(tags)
    ensures FindOrCreateTag(tags, name).Ok?
    ensures TagTableOk(FindOrCreateTag(tags, name).value.tags)
  {
    var r := FindOrCreateTag(tags, name).value;
    if |r.tags| > |tags| {
      assert forall i :: 0 <= i < |tags| ==> tags[i].data.name != name && tags[i].id != r.id by {
        forall i | 0 <= i < |tags| ensures tags[i].data.name != name && tags[i].id != r.id {
          assert tags[i].data.name in TagNames(tags);
          assert tags[i].id in Ids(tags);
        }
      }
    }
  }

  /** With unique names, the keys of the tags named from a set are exactly
      the keys of the tags named from each part. */
  lemma IdsNamedSplit(t: seq<Row<TagData>>, name: string, k: Pk, rest: set<string>)
    requires UniqueTagNames(t)
    requires Row(k, TagData(name)) in t
    ensures IdsNamed(t, {name} + rest) == {k} + IdsNamed(t, rest)
  {
    forall id | id in IdsNamed(t, {name} + rest) ensures id in {k} + IdsNamed(t, rest) {
      var i :| 0 <= i < |t| && t[i].data.name in {name} + rest && t[i].id == id;
      if t[i].data.name == name {
        var j :| 0 <= j < |t| && t[j] == Row(k, TagData(name));
        assert i == j;
      }
    }
    var j :| 0 <= j < |t| && t[j] == Row(k, TagData(name));
    assert k in IdsNamed(t, {name} + rest);
  }

  /** A tag row of a prefix is still a row of the whole table. */
  lemma PrefixKeepsRow(t: seq<Row<TagData>>, prefix: seq<Row<TagData>>, row: Row<TagData>)
    requires |prefix| <= |t| && t[..|prefix|] == prefix
    requires row in prefix
    ensures row in t
  {
    var i :| 0 <= i < |prefix| && prefix[i] == row;
    assert t[i] == row;
  }

  /** The names of a non-empty list: its head and the names of its tail. */
  lemma NameSetCons(names: seq<string>)
    requires |names| > 0
    ensures NameSet(names) == {names[0]} + NameSet(names[1..])
  {
    forall n | n in NameSet(names) ensures n in {names[0]} + NameSet(names[1..]) {
      var i :| 0 <= i < |names| && names[i] == n;
      if i > 0 { assert names[1..][i - 1] == n; }
    }
    forall n | n in NameSet(names[1..]) ensures n in NameSet(names) {
      var i :| 0 <= i < |names[1..]| && names[1..][i] == n;
      assert names[i + 1] == n;
    }
  }

  /** The loop's result for a non-empty list, given the first lookup and
      the facts about the rest of the loop. */
  lemma FindOrCreateTagsStep(tags: seq<Row<TagData>>, names: seq<string>, step: TagStep, rest: Tagged)
    requires |names| > 0
    requires |tags| <= |step.tags| && step.tags[..|tags|] == tags
    requires forall j :: |tags| <= j < |step.tags| ==> step.tags[j] == Row(step.id, TagData(names[0]))
    requires Row(step.id, TagData(names[0])) in step.tags
    requires |step.tags| <= |rest.tags| && rest.tags[..|step.tags|] == step.tags
    requires UniqueTagNames(rest.tags)
    requires forall j :: |step.tags| <= j < |rest.tags| ==> rest.tags[j].data.name in NameSet(names[1..])
    requires forall i :: 0 <= i < |names[1..]| ==> names[1..][i] in TagNames(rest.tags)
    requires rest.ids == IdsNamed(rest.tags, NameSet(names[1..]))
    ensures forall j :: |tags| <= j < |rest.tags| ==> rest.tags[j].data.name in NameSet(names)
    ensures forall i :: 0 <= i < |names| ==> names[i] in TagNames(rest.tags)
    ensures {step.id} + rest.ids == IdsNamed(rest.tags, NameSet(names))
  {
    NameSetCons(names);
    PrefixKeepsRow(rest.tags, step.tags, Row(step.id, TagData(names[0])));
    IdsNamedSplit(rest.tags, names[0], step.id, NameSet(names[1..]));
    forall j | |tags| <= j < |rest.tags| ensures rest.tags[j].data.name in NameSet(names) {
      if j < |step.tags| {
        assert rest.tags[j] == step.tags[j];
      }
    }
    forall i | 0 <= i < |names| ensures names[i] in TagNames(rest.tags) {
      if i == 0 {
        var k :| 0 <= k < |rest.tags| && rest.tags[k] == Row(step.id, TagData(names[0]));
      } else {
        assert names[1..][i - 1] == names[i];
      }
    }
  }

  /** The find-or-create loop: no exception under unique tag names; every
      name ends up with a tag, existing tags are reused, only new names get
      new tags, and the keys added to the question are exactly those of the
      tags named in the input. */
  lemma {:induction false} FindOrCreateTagsCorrect(tags: seq<Row<TagData>>, names: seq<string>)
    requires TagTableOk(tags)
    decreases |names|
    ensures FindOrCreateTags(tags, names).Ok?
    ensures var r := FindOrCreateTags(tags, names).value;
      && TagTableOk(r.tags)
      && (forall j :: |tags| <= j < |r.tags| ==> r.tags[j].data.name in NameSet(names))
      && (forall i :: 0 <= i < |names| ==> names[i] in TagNames(r.tags))
      && r.ids == IdsNamed(r.tags, NameSet(names))
  {
    if |names| == 0 {
      assert NameSet(names) == {};
      assert IdsNamed(tags, {}) == {};
    } else {
      FindOrCreateTagKeepsUnique(tags, names[0]);
      var step := FindOrCreateTag(tags, names[0]).value;
      FindOrCreateTagsCorrect(step.tags, names[1..]);
      var rest := FindOrCreateTags(step.tags, names[1..]).value;
      assert FindOrCreateTags(tags, names).value == Tagged(rest.tags, {step.id} + rest.ids);
      FindOrCreateTagsStep(tags, names, step, rest);
    }
  }

  // ---- Asking a question ----

  const SAVE: string := "SAVE"
  const PREVIEW: string := "PREVIEW"

  datatype Outcome =
    | Created(store: Store, question: Row<QuestionData>, clock: Clock)
    | Previewed(title: string, body: string)

  /** The three saves of a new question on the SAVE path: `form.save()`
      inserts it, `question.save()` writes it again after the tags are
      attached, and `CreateView.form_valid` saves the form's instance once
      more. */
  function SaveNewQuestion(t: seq<Row<QuestionData>>, user: Pk, title: string, body: string,
                           tags: set<Pk>, c: Clock): (r: SavedQuestion)
    ensures r.row.id !in Ids(t) && r.table == t + [r.row]
    ensures r.row.data.pub.user == user && r.row.data.pub.body == body
    ensures r.row.data.title == title && r.row.data.viewed == 0 && r.row.data.tags == tags
    ensures Saved(r.row.data.pub) && r.row.data.pub.created.value < r.row.data.pub.modified.value
    ensures c.ticks <= r.row.data.pub.created.value && r.row.data.pub.modified.value < r.clock.ticks
    ensures UniqueIds(t) ==> UniqueIds(r.table)
  {
    var saved := PersistQuestion(t, Instance(None, QuestionData(Pub(user, body, None, None), title, 0, {})), c);
    var q := saved.row;
    var resaved := PersistQuestion(saved.table, Instance(Some(q.id), q.data.(tags := q.data.tags + tags)), saved.clock);
    var last := PersistQuestion(resaved.table, Instance(Some(q.id), resaved.row.data), resaved.clock);
    assert last.table == t + [last.row] by {
      assert |last.table| == |saved.table|;
    }
    last
  }

  /** `CreateQuestion.form_valid` for a valid form, given the form's user,
      title, body and cleaned tag names. SAVE stores the question, attaches a
      tag per name (creating the missing ones) and saves the question again;
      PREVIEW builds an unsaved question and changes nothing; any other
      action, or none, is a bad request. */
  function CreateQuestion(s: Store, action: Option<string>, user: Pk, title: string, body: string,
                          tagNames: seq<string>, c: Clock): (r: Result<Outcome>)
    ensures r == Err(BadRequest) <==> action != Some(SAVE) && action != Some(PREVIEW)
    ensures r.Ok? && r.value.Previewed? <==> action == Some(PREVIEW)
    ensures r.Ok? && r.value.Previewed? ==> r.value == Previewed(title, body)
    ensures r.Ok? && r.value.Created? ==>
      && r.value.question.id !in Ids(s.questions)
      && r.value.store.questions == s.questions + [r.value.question]
      && r.value.question.data.pub.user == user
      && r.value.question.data.title == title
      && r.value.question.data.pub.body == body
      && r.value.question.data.viewed == 0
      && Saved(r.value.question.data.pub)
      && r.value.store.answers == s.answers
      && r.value.store.questionVotes == s.questionVotes
      && r.value.store.answerVotes == s.answerVotes
      && r.value.store.profiles == s.profiles
      && |s.tags| <= |r.value.store.tags| && r.value.store.tags[..|s.tags|] == s.tags
      && c.ticks < r.value.clock.ticks
  {
    if action == Some(SAVE) then
      // The question is inserted before the tag loop; a failed lookup is
      // an exception, so the model returns the error.
      match FindOrCreateTags(s.tags, tagNames)
      case Err(e) => Err(e)
      case Ok(tagged) =>
        var saved := SaveNewQuestion(s.questions, user, title, body, tagged.ids, c);
        Ok(Created(s.(questions := saved.table, tags := tagged.tags), saved.row, saved.clock))
    else if action == Some(PREVIEW) then
      Ok(Previewed(title, body))
    else
      Err(BadRequest)
  }

  /** With unique tag names SAVE succeeds; the new question's tag set holds
      exactly the tags named by the input, every name has its tag, and the
      tag table keeps unique keys and names. */
  lemma CreateQuestionTags(s: Store, user: Pk, title: string, body: string, tagNames: seq<string>, c: Clock)
    requires TagTableOk(s.tags)
    ensures CreateQuestion(s, Some(SAVE), user, title, body, tagNames, c).Ok?
    ensures var r := CreateQuestion(s, Some(SAVE), user, title, body, tagNames, c).value;
      && r.Created?
      && TagTableOk(r.store.tags)
      && r.question.data.tags == IdsNamed(r.store.tags, NameSet(tagNames))
      && (forall i :: 0 <= i < |tagNames| ==> tagNames[i] in TagNames(r.store.tags))
  {
    FindOrCreateTagsCorrect(s.tags, tagNames);
  }

  /** Asking a question keeps every store invariant. */
  lemma CreateQuestionKeepsValid(s: Store, action: Option<string>, user: Pk, title: string, body: string,
                                 tagNames: seq<string>, c: Clock)
    requires Valid(s)
    ensures CreateQuestion(s, action, user, title, body, tagNames, c).Ok? <==>
      action == Some(SAVE) || action == Some(PREVIEW)
    ensures var r := CreateQuestion(s, action, user, title, body, tagNames, c);
      r.Ok? && r.value.Created? ==> Valid(r.value.store)
  {
    var r := CreateQuestion(s, action, user, title, body, tagNames, c);
    if action == Some(SAVE) {
      FindOrCreateTagsCorrect(s.tags, tagNames);
      var tagged := FindOrCreateTags(s.tags, tagNames).value;
      var saved := SaveNewQuestion(s.questions, user, title, body, tagged.ids, c);
      assert r.value.store == s.(questions := saved.table, tags := tagged.tags);
      assert forall i :: 0 <= i < |saved.table| ==> Saved(saved.table[i].data.pub) by {
        forall i | 0 <= i < |saved.table| ensures Saved(saved.table[i].data.pub) {
          if i < |s.questions| {
            assert saved.table[i] == s.questions[i];
          }
        }
      }
    }
  }

  // ---- The question page ----

  /** The question page after rendering: the store with the view counted,
      the question as saved, and the clock. */
  datatype Viewed = Viewed(store: Store, question: Row<QuestionData>, clock: Clock)

  /** `QuestionDetail.get_context_data` counts a view: `viewed += 1`, then
      the question is saved. A missing key is a 404. */
  function ViewQuestion(s: Store, question: Pk, c: Clock): (r: Result<Viewed>)
    requires UniqueIds(s.questions)
    ensures r.Err? <==> question !in Ids(s.questions)
    ensures r.Err? ==> r.error == NotFound
    ensures r.Ok? ==>
      var before := Find(s.questions, question).value;
      && r.value.question.id == question
      && r.value.question.data.viewed == before.data.viewed + 1
      && r.value.question.data == before.data.(viewed := before.data.viewed + 1, pub := r.value.question.data.pub)
      && r.value.question.data.pub == before.data.pub.(modified := r.value.question.data.pub.modified)
      && |r.value.store.questions| == |s.questions|
      && (forall i :: 0 <= i < |s.questions| ==>
            r.value.store.questions[i] == if s.questions[i].id == question then r.value.question else s.questions[i])
      && r.value.store == s.(questions := r.value.store.questions)
  {
    match Find(s.questions, question)
    case None => Err(NotFound)
    case Some(row) =>
      var saved := PersistQuestion(s.questions,
        Instance(Some(question), row.data.(viewed := row.data.viewed + 1)), c);
      Ok(Viewed(s.(questions := saved.table), saved.row, saved.clock))
  }

  /** Counting a view keeps every store invariant, and a second view counts
      again: two renderings raise `viewed` by exactly two. */
  lemma ViewQuestionKeepsValid(s: Store, question: Pk, c: Clock)
    requires Valid(s)
    requires question in Ids(s.questions)
    ensures ViewQuestion(s, question, c).Ok?
    ensures var v := ViewQuestion(s, question, c).value;
      && Valid(v.store)
      && question in Ids(v.store.questions)
      && ViewQuestion(v.store, question, v.clock).Ok?
      && ViewQuestion(v.store, question, v.clock).value.question.data.viewed
         == Find(s.questions, question).value.data.viewed + 2
  {
    var v := ViewQuestion(s, question, c).value;
    var k :| 0 <= k < |s.questions| && s.questions[k].id == question;
    assert v.store.questions[k] == v.question;
    assert question in Ids(v.store.questions);
    assert UniqueIds(v.store.questions) by {
      forall i, j | 0 <= i < j < |v.store.questions|
        ensures v.store.questions[i].id != v.store.questions[j].id
      {
        assert s.questions[i].id != s.questions[j].id;
      }
    }
    assert forall i :: 0 <= i < |v.store.questions| ==> Saved(v.store.questions[i].data.pub) by {
      forall i | 0 <= i < |v.store.questions| ensures Saved(v.store.questions[i].data.pub) {
        assert Saved(s.questions[i].data.pub);
      }
    }
    var before := Find(s.questions, question).value;
    var between := Find(v.store.questions, question).value;
    assert between == v.question;
  }

  /** Answers are listed accepted first (the model's `-accepted` ordering). */
  function AcceptedKey(a: Row<AnswerData>): int
  {
    if a.data.accepted then 1 else 0
  }

  /** An answer on the question page, with its score and, for a signed-in
      visitor, the address of its vote form. */
  datatype AnswerItem = AnswerItem(answer: Row<AnswerData>, score: int, voteUrl: Option<VoteUrl>)

  /** The vote form address for one target, only for a signed-in visitor. */
  function VoteUrlFor(votes: seq<Row<VoteData>>, target: Pk, viewer: Option<Pk>): (r: Result<Option<VoteUrl>>)
    ensures viewer.None? ==> r == Ok(None)
    ensures viewer.Some? && UniqueVotes(votes) ==> r.Ok? && r.value.Some?
    ensures r.Ok? && r.value.Some? ==>
      && viewer.Some? && r.value.value.target == target
      && (r.value.value.UpdateUrl? <==> HasVoted(votes, viewer.value, target))
  {
    match viewer
    case None => Ok(None)
    case Some(user) =>
      match GetVoteOrBlank(votes, target, user)
      case Err(e) => Err(e)
      case Ok(v) => Ok(Some(VoteFormUrl(v, target)))
  }

  /** The answer list of the page, in the given order. */
  function AnswerItems(s: Store, answers: seq<Row<AnswerData>>, viewer: Option<Pk>): (r: Result<seq<AnswerItem>>)
    ensures r.Ok? ==> |r.value| == |answers|
    ensures r.Ok? ==> forall i :: 0 <= i < |answers| ==>
      && r.value[i].answer == answers[i]
      && r.value[i].score == AnswerScore(s, answers[i].id)
      && (r.value[i].voteUrl.Some? <==> viewer.Some?)
      && (r.value[i].voteUrl.Some? ==>
            && r.value[i].voteUrl.value.target == answers[i].id
            && (r.value[i].voteUrl.value.UpdateUrl? <==> HasVoted(s.answerVotes, viewer.value, answers[i].id)))
    ensures UniqueVotes(s.answerVotes) ==> r.Ok?
  {
    if |answers| == 0 then Ok([])
    else
      match VoteUrlFor(s.answerVotes, answers[0].id, viewer)
      case Err(e) => Err(e)
      case Ok(url) =>
        match AnswerItems(s, answers[1..], viewer)
        case Err(e) => Err(e)
        case Ok(rest) => Ok([AnswerItem(answers[0], AnswerScore(s, answers[0].id), url)] + rest)
  }

  datatype DetailPage = DetailPage(
    question: Row<QuestionData>,
    score: int,
    answers: seq<AnswerItem>,
    canAccept: bool,
    voteUrl: Option<VoteUrl>)

  /** The answers of a question, in table order. */
  function AnswersTo(s: Store, question: Pk): seq<Row<AnswerData>>
  {
    Filter(s.answers, (a: Row<AnswerData>) => a.data.question == question)
  }

  /** The answers a page lists, without their scores and forms. */
  function Listed(page: DetailPage): seq<Row<AnswerData>>
  {
    seq(|page.answers|, i requires 0 <= i < |page.answers| => page.answers[i].answer)
  }

  /** `QuestionDetail`: the question with its score, the view counted, its
      answers accepted first with their scores, the acceptance forms for the
      asker, and vote forms for a signed-in visitor. */
  function QuestionDetail(s: Store, question: Pk, viewer: Option<Pk>, c: Clock): (r: Result<(DetailPage, Viewed)>)
    requires UniqueIds(s.questions)
    ensures question !in Ids(s.questions) ==> r == Err(NotFound)
    ensures r.Ok? ==>
      && ViewQuestion(s, question, c) == Ok(r.value.1)
      && r.value.0.question == r.value.1.question
      && r.value.0.score == QuestionScore(s, question)
      && (r.value.0.canAccept <==> viewer == Some(r.value.1.question.data.pub.user))
      && (r.value.0.voteUrl.Some? <==> viewer.Some?)
      && (r.value.0.voteUrl.Some? ==>
            (r.value.0.voteUrl.value.UpdateUrl? <==> HasVoted(s.questionVotes, viewer.value, question)))
      && Listed(r.value.0) == SortDesc(AnswersTo(s, question), AcceptedKey)
    ensures question in Ids(s.questions) && UniqueVotes(s.questionVotes) && UniqueVotes(s.answerVotes) ==> r.Ok?
  {
    match ViewQuestion(s, question, c)
    case Err(e) => Err(e)
    case Ok(viewed) =>
      var ordered := SortDesc(AnswersTo(s, question), AcceptedKey);
      match AnswerItems(s, ordered, viewer)
      case Err(e) => Err(e)
      case Ok(items) =>
        match VoteUrlFor(s.questionVotes, question, viewer)
        case Err(e) => Err(e)
        case Ok(url) =>
          var page := DetailPage(viewed.question, QuestionScore(s, question), items,
                                 CanAcceptAnswers(viewed.question.data, viewer), url);
          assert Listed(page) == ordered;
          Ok((page, viewed))
  }

  /** The answers of a question in the page's order: sorted accepted first,
      exactly the question's answers. */
  lemma SortedAnswersTo(s: Store, question: Pk)
    ensures var ordered := SortDesc(AnswersTo(s, question), AcceptedKey);
      && SortedDesc(ordered, AcceptedKey)
      && multiset(ordered) == multiset(AnswersTo(s, question))
      && (forall i :: 0 <= i < |ordered| ==> ordered[i].data.question == question)
      && (forall a :: a in s.answers && a.data.question == question ==> a in ordered)
  {
    var ordered := SortDesc(AnswersTo(s, question), AcceptedKey);
    SortDescSorted(AnswersTo(s, question), AcceptedKey);
    forall i | 0 <= i < |ordered| ensures ordered[i].data.question == question {
      assert ordered[i] in multiset(AnswersTo(s, question));
    }
    forall a | a in s.answers && a.data.question == question ensures a in ordered {
      assert a in multiset(AnswersTo(s, question));
    }
  }

  /** The page lists every answer of the question and no other, accepted
      ones first. */
  lemma DetailListsAnswersAcceptedFirst(s: Store, question: Pk, viewer: Option<Pk>, c: Clock)
    requires UniqueIds(s.questions)
    requires QuestionDetail(s, question, viewer, c).Ok?
    ensures var page := QuestionDetail(s, question, viewer, c).value.0;
      && SortedDesc(Listed(page), AcceptedKey)
      && multiset(Listed(page)) == multiset(AnswersTo(s, question))
      && (forall i :: 0 <= i < |page.answers| ==> page.answers[i].answer.data.question == question)
      && (forall a :: a in s.answers && a.data.question == question ==> a in Listed(page))
  {
    var page := QuestionDetail(s, question, viewer, c).value.0;
    SortedAnswersTo(s, question);
    forall i | 0 <= i < |page.answers| ensures page.answers[i].answer.data.question == question {
      assert page.answers[i].answer == Listed(page)[i];
    }
  }
}
