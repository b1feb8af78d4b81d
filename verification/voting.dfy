/** Votes on questions and answers: the vote lookup of `VoteManager`, the
    value choices of the vote forms, and the create and update vote views. */
module Voting {
  import opened Base
  import opened Tables
  import opened Records
  import opened Scores

  predicate VoteOf(user: Pk, target: Pk, v: Row<VoteData>)
  {
    v.data.user == user && v.data.target == target
  }

  predicate HasVoted(votes: seq<Row<VoteData>>, user: Pk, target: Pk)
  {
    exists i :: 0 <= i < |votes| && VoteOf(user, target, votes[i])
  }

  /** `VoteManager.get_vote_or_unsaved_blank_vote`: the user's stored vote on
      the target, or else a new, unsaved vote by that user on that target
      with no value chosen. The table is never changed. */
  function GetVoteOrBlank(votes: seq<Row<VoteData>>, target: Pk, user: Pk): (r: Result<Instance<VoteData>>)
    ensures r.Ok? ==> r.value.data.user == user && r.value.data.target == target
    ensures r.Ok? && r.value.id.Some? ==> Row(r.value.id.value, r.value.data) in votes
    ensures r.Ok? ==> (r.value.id.None? <==> !HasVoted(votes, user, target))
    ensures r.Ok? && r.value.id.None? ==> r.value.data.value.None?
    ensures r.Err? <==>
      exists i, j :: 0 <= i < j < |votes| && VoteOf(user, target, votes[i]) && VoteOf(user, target, votes[j])
    ensures r.Err? ==> r.error == MultipleObjectsReturned
  {
    match Get(votes, (v: Row<VoteData>) => VoteOf(user, target, v))
    case Ok(v) => Ok(Instance(Some(v.id), v.data))
    case Err(e) =>
      if e == DoesNotExist then Ok(Instance(None, VoteData(user, target, None))) else Err(e)
  }

  /** Under the `unique_together` constraint the lookup never raises, and a
      found vote is the only vote of that user on that target. */
  lemma GetVoteOrBlankUnderUniqueness(votes: seq<Row<VoteData>>, target: Pk, user: Pk)
    requires UniqueVotes(votes)
    ensures GetVoteOrBlank(votes, target, user).Ok?
    ensures var v := GetVoteOrBlank(votes, target, user).value;
      v.id.Some? ==> forall i :: 0 <= i < |votes| && VoteOf(user, target, votes[i]) ==> votes[i] == Row(v.id.value, v.data)
  {
    var r := Get(votes, (v: Row<VoteData>) => VoteOf(user, target, v));
    if r.Ok? {
      assert forall i :: 0 <= i < |votes| && VoteOf(user, target, votes[i]) ==> votes[i] == r.value;
    }
  }

  /** The `value` choice field of the vote forms: the submitted text must be
      the text of one of `VALUE_CHOICES`, and is stored as that integer. */
  function ParseVoteChoice(text: string): (r: Option<int>)
    ensures r.Some? ==> IsVoteValue(r.value)
    ensures r.None? <==> text != "1" && text != "-1"
  {
    if text == "1" then Some(UP) else if text == "-1" then Some(DOWN) else None
  }

  /** The text the radio widget submits for a choice: `str(value)`. */
  function ChoiceText(v: int): string
    requires IsVoteValue(v)
  {
    if v == UP then "1" else "-1"
  }

  /** Every choice the widget offers parses back to itself, and only the
      offered texts parse. */
  lemma ChoiceRoundTrip(v: int, text: string)
    requires IsVoteValue(v)
    ensures ParseVoteChoice(ChoiceText(v)) == Some(v)
    ensures ParseVoteChoice(text) == Some(v) ==> text == ChoiceText(v)
  {
  }

  /** `QuestionVoteCreate` and `AnswerVoteCreate` with a bound vote form: the
      request user votes on the target named in the URL. `targets` holds the
      keys of the question or answer table the form's hidden target field
      chooses from. An invalid choice, or a target key that names no row,
      fails validation; a second vote by the same user on the same target is
      refused by the uniqueness check. Every refusal stores nothing. */
  function CreateVote(votes: seq<Row<VoteData>>, targets: set<Pk>, user: Pk, target: Pk, choice: string): (r: Result<Written<VoteData>>)
    ensures r == Err(InvalidForm) <==> ParseVoteChoice(choice).None? || target !in targets
    ensures r == Err(UniqueViolation) <==>
      ParseVoteChoice(choice).Some? && target in targets && HasVoted(votes, user, target)
    ensures r.Ok? ==> target in targets && r.value.id !in Ids(votes)
    ensures r.Ok? ==> r.value.table == votes + [Row(r.value.id, VoteData(user, target, ParseVoteChoice(choice)))]
    ensures r.Ok? && ValidVoteTable(votes) ==> ValidVoteTable(r.value.table)
  {
    var value := ParseVoteChoice(choice);
    if value.None? || target !in targets then Err(InvalidForm)
    else if HasVoted(votes, user, target) then Err(UniqueViolation)
    else
      var w := Write(votes, Instance(None, VoteData(user, target, value)));
      assert UniqueVotes(votes) ==> UniqueVotes(w.table) by {
        if UniqueVotes(votes) {
          forall i, j | 0 <= i < j < |w.table|
            ensures (w.table[i].data.user, w.table[i].data.target) != (w.table[j].data.user, w.table[j].data.target)
          {
            if j == |votes| {
              assert !VoteOf(user, target, votes[i]);
            }
          }
        }
      }
      Ok(w)
  }

  /** A created vote adds exactly its value to the target's score and leaves
      every other target's score alone. */
  lemma CreateVoteScores(votes: seq<Row<VoteData>>, targets: set<Pk>, user: Pk, target: Pk, choice: string, other: Pk)
    requires CreateVote(votes, targets, user, target, choice).Ok?
    ensures var t := CreateVote(votes, targets, user, target, choice).value.table;
      && VoteSum(t, target) == VoteSum(votes, target) + ParseVoteChoice(choice).value
      && (other != target ==> VoteSum(t, other) == VoteSum(votes, other))
  {
    var w := CreateVote(votes, targets, user, target, choice).value;
    SumOverAppend(votes, Row(w.id, VoteData(user, target, ParseVoteChoice(choice))), {target});
    SumOverAppend(votes, Row(w.id, VoteData(user, target, ParseVoteChoice(choice))), {other});
  }

  /** Before voting the page offers a blank vote; once the vote is created,
      the lookup returns the stored vote. */
  lemma BlankThenStored(votes: seq<Row<VoteData>>, targets: set<Pk>, user: Pk, target: Pk, choice: string)
    requires target in targets
    requires UniqueVotes(votes)
    requires !HasVoted(votes, user, target)
    requires ParseVoteChoice(choice).Some?
    ensures GetVoteOrBlank(votes, target, user) == Ok(Instance(None, VoteData(user, target, None)))
    ensures CreateVote(votes, targets, user, target, choice).Ok?
    ensures var w := CreateVote(votes, targets, user, target, choice).value;
      GetVoteOrBlank(w.table, target, user) == Ok(Instance(Some(w.id), VoteData(user, target, ParseVoteChoice(choice))))
  {
    var w := CreateVote(votes, targets, user, target, choice).value;
    var stored := Row(w.id, VoteData(user, target, ParseVoteChoice(choice)));
    assert w.table[|votes|] == stored;
    GetVoteOrBlankUnderUniqueness(w.table, target, user);
    assert forall i :: 0 <= i < |w.table| && VoteOf(user, target, w.table[i]) ==> i == |votes|;
  }

  /** `get_object` of `QuestionVoteUpdate` and `AnswerVoteUpdate`: the vote with
      the key from the URL, refused when another user owns it. */
  function GetOwnedVote(votes: seq<Row<VoteData>>, pk: Pk, requester: Pk): (r: Result<Row<VoteData>>)
    ensures r == Err(NotFound) <==> pk !in Ids(votes)
    ensures r == Err(PermissionDenied) <==> Find(votes, pk).Some? && Find(votes, pk).value.data.user != requester
    ensures r.Ok? ==> r.value in votes && r.value.id == pk && r.value.data.user == requester
    ensures r.Ok? ==> r.value == Find(votes, pk).value
  {
    match Find(votes, pk)
    case None => Err(NotFound)
    case Some(v) => if v.data.user != requester then Err(PermissionDenied) else Ok(v)
  }

  /** The update views: the owner re-submits the vote form; user and target
      are disabled fields and keep the stored values, only the value changes. */
  function UpdateVote(votes: seq<Row<VoteData>>, pk: Pk, requester: Pk, choice: string): (r: Result<seq<Row<VoteData>>>)
    requires UniqueIds(votes)
    ensures r.Err? ==> r.error == NotFound || r.error == PermissionDenied || r.error == InvalidForm
    ensures r.Err? <==> GetOwnedVote(votes, pk, requester).Err? || ParseVoteChoice(choice).None?
    ensures r.Ok? ==> |r.value| == |votes|
    ensures r.Ok? ==> forall i :: 0 <= i < |votes| ==>
      if votes[i].id == pk then
        r.value[i] == Row(pk, votes[i].data.(value := ParseVoteChoice(choice)))
        && votes[i].data.user == requester
      else r.value[i] == votes[i]
    ensures r.Ok? && ValidVoteTable(votes) ==> ValidVoteTable(r.value)
  {
    match GetOwnedVote(votes, pk, requester)
    case Err(e) => Err(e)
    case Ok(v) =>
      var value := ParseVoteChoice(choice);
      if value.None? then Err(InvalidForm)
      else
        var w := Write(votes, Instance(Some(pk), v.data.(value := value)));
        assert forall i :: 0 <= i < |votes| && votes[i].id == pk ==> votes[i] == v by {
          var k :| 0 <= k < |votes| && votes[k] == v;
          forall i | 0 <= i < |votes| && votes[i].id == pk ensures votes[i] == v {
            assert votes[i].id == votes[k].id;
          }
        }
        Ok(w.table)
  }

  /** The address the vote form posts to. */
  datatype VoteUrl = CreateUrl(target: Pk) | UpdateUrl(target: Pk, vote: Pk)

  /** `QuestionDetail.get_vote_data`: a vote with a key is updated, a blank
      one is created. */
  function VoteFormUrl(vote: Instance<VoteData>, target: Pk): (r: VoteUrl)
    ensures r.target == target
    ensures r.UpdateUrl? <==> vote.id.Some?
    ensures r.UpdateUrl? ==> r.vote == vote.id.value
  {
    if vote.id.Some? then UpdateUrl(target, vote.id.value) else CreateUrl(target)
  }

  /** The detail page posts to the update route exactly when the user has
      already voted on the target, and then names that vote. */
  lemma VoteUrlMatchesStore(votes: seq<Row<VoteData>>, target: Pk, user: Pk)
    requires UniqueVotes(votes)
    ensures GetVoteOrBlank(votes, target, user).Ok?
    ensures var url := VoteFormUrl(GetVoteOrBlank(votes, target, user).value, target);
      && (url.UpdateUrl? <==> HasVoted(votes, user, target))
      && (url.UpdateUrl? ==> exists i :: 0 <= i < |votes| && VoteOf(user, target, votes[i]) && votes[i].id == url.vote)
  {
    GetVoteOrBlankUnderUniqueness(votes, target, user);
    var v := GetVoteOrBlank(votes, target, user).value;
    if v.id.Some? {
      var i :| 0 <= i < |votes| && votes[i] == Row(v.id.value, v.data);
      assert VoteOf(user, target, votes[i]);
    }
  }
}
