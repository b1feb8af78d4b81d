/** `Answer.save`: there can only be one accepted answer per question. */
module Acceptance {
  import opened Base
  import opened Tables
  import opened Publishing
  import opened Records

  /** The answer table after a save, the saved instance as a stored row (its
      key and timestamps filled in), and the clock after the readings. */
  datatype SavedAnswer = SavedAnswer(table: seq<Row<AnswerData>>, row: Row<AnswerData>, clock: Clock)

  predicate AcceptedOf(question: Pk, a: Row<AnswerData>)
  {
    a.data.question == question && a.data.accepted
  }

  /** `Publishable.save` followed by `Model.save` of an answer. */
  function PersistAnswer(t: seq<Row<AnswerData>>, x: Instance<AnswerData>, c: Clock): (r: SavedAnswer)
    ensures r.row.data == x.data.(pub := r.row.data.pub)
    ensures r.row.data.pub.user == x.data.pub.user && r.row.data.pub.body == x.data.pub.body
    ensures x.id.Some? ==> r.row.id == x.id.value && r.row.data.pub.created == x.data.pub.created
    ensures x.id.None? ==> r.row.id !in Ids(t)
    ensures r.row.data.pub.modified.Some? && c.ticks <= r.row.data.pub.modified.value < r.clock.ticks
    ensures r.row in r.table
    ensures |t| <= |r.table| <= |t| + 1
    ensures forall i :: 0 <= i < |t| ==> r.table[i] == (if t[i].id == r.row.id then r.row else t[i])
    ensures forall i :: |t| <= i < |r.table| ==> r.table[i] == r.row && r.row.id !in Ids(t)
    ensures UniqueIds(t) ==> UniqueIds(r.table)
  {
    var st := Stamp(x.id, x.data.pub, c);
    var w := Write(t, Instance(x.id, x.data.(pub := st.pub)));
    SavedAnswer(w.table, Row(w.id, x.data.(pub := st.pub)), st.clock)
  }

  /** `Answer.save`. Saving an accepted answer first looks up the accepted
      answer of the same question with `get`; when that is another answer
      (a new instance equals no stored row) it is saved with `accepted`
      cleared, and then this answer is saved. Several accepted answers make
      `get` raise. */
  function SaveAnswer(t: seq<Row<AnswerData>>, x: Instance<AnswerData>, c: Clock): (r: Result<SavedAnswer>)
    decreases if x.data.accepted then 1 else 0
    ensures r.Err? <==> (x.data.accepted && TwoAccepted(t, x.data.question))
    ensures r.Err? ==> r.error == MultipleObjectsReturned
    ensures r.Ok? ==> r.value.row in r.value.table
    ensures r.Ok? ==> r.value.row.data == x.data.(pub := r.value.row.data.pub)
    ensures r.Ok? ==> r.value.row.data.pub.user == x.data.pub.user && r.value.row.data.pub.body == x.data.pub.body
    ensures r.Ok? && x.id.Some? ==>
      r.value.row.id == x.id.value && r.value.row.data.pub.created == x.data.pub.created
    ensures r.Ok? ==> c.ticks < r.value.clock.ticks
    ensures r.Ok? ==> |t| <= |r.value.table| <= |t| + 1
  {
    if x.data.accepted then
      match Get(t, (a: Row<AnswerData>) => AcceptedOf(x.data.question, a))
      case Ok(previous) =>
        if x.id != Some(previous.id) then
          var demoted := SaveAnswer(t, Instance(Some(previous.id), previous.data.(accepted := false)), c);
          match demoted
          case Ok(d) => Ok(PersistAnswer(d.table, x, d.clock))
          case Err(e) => Err(e)
        else
          Ok(PersistAnswer(t, x, c))
      case Err(e) =>
        if e == DoesNotExist then Ok(PersistAnswer(t, x, c)) else Err(e)
    else
      Ok(PersistAnswer(t, x, c))
  }

  /** Two different rows are accepted answers of `question`: `get` raises. */
  predicate TwoAccepted(t: seq<Row<AnswerData>>, question: Pk)
  {
    exists i, j :: 0 <= i < j < |t| && AcceptedOf(question, t[i]) && AcceptedOf(question, t[j])
  }

  /** What a save does to the rest of the table: the saved row replaces the
      row with its key or is appended, the previously accepted answer of the
      same question loses `accepted` (and only its `modified` changes too),
      and every other row is left as it was. */
  predicate Framed(t: seq<Row<AnswerData>>, x: Instance<AnswerData>, r: SavedAnswer)
  {
    && |t| <= |r.table|
    && (forall i :: 0 <= i < |t| && t[i].id == r.row.id ==> r.table[i] == r.row)
    && (forall i :: |t| <= i < |r.table| ==> r.table[i] == r.row && r.row.id !in Ids(t))
    && (forall i :: 0 <= i < |t| && t[i].id != r.row.id && !(x.data.accepted && AcceptedOf(x.data.question, t[i]))
          ==> r.table[i] == t[i])
    && (forall i :: 0 <= i < |t| && t[i].id != r.row.id && x.data.accepted && AcceptedOf(x.data.question, t[i]) ==>
          && r.table[i].id == t[i].id
          && r.table[i].data == t[i].data.(accepted := false, pub := r.table[i].data.pub)
          && r.table[i].data.pub == t[i].data.pub.(modified := r.table[i].data.pub.modified))
    && (UniqueIds(t) ==> UniqueIds(r.table))
  }

  /** The direct save, when no other row is an accepted answer of the question. */
  lemma PersistIsFramed(t: seq<Row<AnswerData>>, x: Instance<AnswerData>, c: Clock)
    requires forall i :: 0 <= i < |t| && x.data.accepted && AcceptedOf(x.data.question, t[i]) ==>
      t[i].id == PersistAnswer(t, x, c).row.id
    ensures Framed(t, x, PersistAnswer(t, x, c))
  {
  }

  /** The save that first clears `accepted` on the previously accepted answer. */
  lemma DemoteThenPersistIsFramed(t: seq<Row<AnswerData>>, x: Instance<AnswerData>, c: Clock, previous: Row<AnswerData>)
    requires x.data.accepted
    requires previous in t && AcceptedOf(x.data.question, previous)
    requires forall i :: 0 <= i < |t| && AcceptedOf(x.data.question, t[i]) ==> t[i] == previous
    requires x.id != Some(previous.id)
    requires UniqueIds(t)
    ensures var d := PersistAnswer(t, Instance(Some(previous.id), previous.data.(accepted := false)), c);
      Framed(t, x, PersistAnswer(d.table, x, d.clock))
  {
    var d := PersistAnswer(t, Instance(Some(previous.id), previous.data.(accepted := false)), c);
    assert previous.id in Ids(t);
    var r := PersistAnswer(d.table, x, d.clock);
    assert r.row.id != previous.id;
    assert |d.table| == |t|;
    forall i | 0 <= i < |t| && t[i].id == previous.id ensures t[i] == previous {
      var k :| 0 <= k < |t| && t[k] == previous;
      assert t[i].id == t[k].id;
    }
  }

  lemma {:induction false} SaveAnswerFrame(t: seq<Row<AnswerData>>, x: Instance<AnswerData>, c: Clock)
    requires UniqueIds(t)
    requires SaveAnswer(t, x, c).Ok?
    ensures Framed(t, x, SaveAnswer(t, x, c).value)
  {
    if x.data.accepted {
      var lookup := Get(t, (a: Row<AnswerData>) => AcceptedOf(x.data.question, a));
      if lookup.Ok? && x.id != Some(lookup.value.id) {
        var previous := lookup.value;
        var d := PersistAnswer(t, Instance(Some(previous.id), previous.data.(accepted := false)), c);
        assert SaveAnswer(t, Instance(Some(previous.id), previous.data.(accepted := false)), c) == Ok(d);
        DemoteThenPersistIsFramed(t, x, c, previous);
      } else {
        PersistIsFramed(t, x, c);
      }
    } else {
      PersistIsFramed(t, x, c);
    }
  }

  /** After saving an accepted answer it is its question's only accepted answer. */
  lemma {:induction false} SaveAnswerSoleAccepted(t: seq<Row<AnswerData>>, x: Instance<AnswerData>, c: Clock)
    requires UniqueIds(t)
    requires x.data.accepted
    requires SaveAnswer(t, x, c).Ok?
    ensures var r := SaveAnswer(t, x, c).value;
      forall i :: 0 <= i < |r.table| && AcceptedOf(x.data.question, r.table[i]) ==> r.table[i].id == r.row.id
  {
    SaveAnswerFrame(t, x, c);
  }

  /** Saving an answer that is not accepted changes no other answer. */
  lemma SaveUnacceptedTouchesNothingElse(t: seq<Row<AnswerData>>, x: Instance<AnswerData>, c: Clock)
    requires UniqueIds(t)
    requires !x.data.accepted
    ensures SaveAnswer(t, x, c).Ok?
    ensures var r := SaveAnswer(t, x, c).value;
      forall i :: 0 <= i < |t| && t[i].id != r.row.id ==> r.table[i] == t[i]
  {
    SaveAnswerFrame(t, x, c);
  }

  /** Saving an answer keeps the store's invariants: keys stay unique and no
      question ends up with two accepted answers. The lookup cannot raise. */
  lemma {:induction false} SaveAnswerKeepsInvariant(t: seq<Row<AnswerData>>, x: Instance<AnswerData>, c: Clock)
    requires UniqueIds(t) && AtMostOneAccepted(t)
    ensures SaveAnswer(t, x, c).Ok?
    ensures UniqueIds(SaveAnswer(t, x, c).value.table)
    ensures AtMostOneAccepted(SaveAnswer(t, x, c).value.table)
  {
    assert !TwoAccepted(t, x.data.question);
    SaveAnswerFrame(t, x, c);
    if x.data.accepted {
      SaveAnswerSoleAccepted(t, x, c);
    }
  }

  // ---- Changing acceptance ----

  /** `UpdateAnswerAcceptanceView`: the answer with the key from the URL is
      saved with the submitted `accepted` flag. The view requires a signed-in
      user but never asks which one, so `requester` plays no part. */
  function UpdateAcceptance(t: seq<Row<AnswerData>>, pk: Pk, requester: Pk, accepted: bool, c: Clock): (r: Result<SavedAnswer>)
    ensures r == Err(NotFound) <==> pk !in Ids(t)
    ensures r.Ok? ==> r.value.row.id == pk && r.value.row.data.accepted == accepted
    ensures pk in Ids(t) && UniqueIds(t) && AtMostOneAccepted(t) ==>
      r.Ok? && UniqueIds(r.value.table) && AtMostOneAccepted(r.value.table)
    ensures pk in Ids(t) ==> var a := Find(t, pk).value;
      r.Err? <==> accepted && TwoAccepted(t, a.data.question)
    ensures r.Ok? ==> var a := Find(t, pk).value;
      && r.value.row.data == a.data.(accepted := accepted, pub := r.value.row.data.pub)
      && r.value.row.data.pub == a.data.pub.(modified := r.value.row.data.pub.modified)
      && c.ticks < r.value.clock.ticks
    ensures r.Ok? && UniqueIds(t) ==> var a := Find(t, pk).value;
      Framed(t, Instance(Some(pk), a.data.(accepted := accepted)), r.value)
  {
    match Find(t, pk)
    case None => Err(NotFound)
    case Some(a) =>
      var x := Instance(Some(pk), a.data.(accepted := accepted));
      if UniqueIds(t) && AtMostOneAccepted(t) then
        SaveAnswerKeepsInvariant(t, x, c);
        SaveAnswerFrame(t, x, c);
        SaveAnswer(t, x, c)
      else if UniqueIds(t) && SaveAnswer(t, x, c).Ok? then
        SaveAnswerFrame(t, x, c);
        SaveAnswer(t, x, c)
      else
        SaveAnswer(t, x, c)
  }

  /** The asker of the question an answer belongs to, if both exist. */
  function AskerOf(questions: seq<Row<QuestionData>>, t: seq<Row<AnswerData>>, pk: Pk): Option<Pk>
  {
    match Find(t, pk)
    case None => None
    case Some(a) =>
      match Find(questions, a.data.question)
      case None => None
      case Some(q) => Some(q.data.pub.user)
  }

  /** As written, a signed-in user who did not ask the question can accept
      an answer to it: the result is the same as the asker's. */
  lemma AnyoneCanAccept(questions: seq<Row<QuestionData>>, t: seq<Row<AnswerData>>, pk: Pk, stranger: Pk, c: Clock)
    requires UniqueIds(t) && AtMostOneAccepted(t)
    requires AskerOf(questions, t, pk).Some? && AskerOf(questions, t, pk).value != stranger
    ensures UpdateAcceptance(t, pk, stranger, true, c).Ok?
    ensures UpdateAcceptance(t, pk, stranger, true, c).value.row.data.accepted
    ensures UpdateAcceptance(t, pk, stranger, true, c) == UpdateAcceptance(t, pk, AskerOf(questions, t, pk).value, true, c)
  {
  }

  /** The evidently intended view: only the asker, the one user
      `can_accept_answers` admits, may change an answer's acceptance; for
      the asker it does what the view does. */
  function UpdateAcceptanceIntended(questions: seq<Row<QuestionData>>, t: seq<Row<AnswerData>>, pk: Pk,
                                    requester: Pk, accepted: bool, c: Clock): (r: Result<SavedAnswer>)
    ensures r == Err(NotFound) <==> AskerOf(questions, t, pk).None?
    ensures r == Err(PermissionDenied) <==>
      AskerOf(questions, t, pk).Some? && AskerOf(questions, t, pk).value != requester
    ensures r.Ok? ==> AskerOf(questions, t, pk) == Some(requester)
    ensures AskerOf(questions, t, pk) == Some(requester) ==>
      r == UpdateAcceptance(t, pk, requester, accepted, c)
  {
    match AskerOf(questions, t, pk)
    case None => Err(NotFound)
    case Some(asker) =>
      if asker != requester then Err(PermissionDenied)
      else
        assert pk in Ids(t);
        UpdateAcceptance(t, pk, requester, accepted, c)
  }

  /** The corrected view never lets a stranger change acceptance, and keeps
      the store invariant whenever it lets the asker do so. */
  lemma IntendedOnlyAskerAccepts(questions: seq<Row<QuestionData>>, t: seq<Row<AnswerData>>,
                                                    pk: Pk, requester: Pk, accepted: bool, c: Clock)
    requires UniqueIds(t) && AtMostOneAccepted(t)
    ensures var r := UpdateAcceptanceIntended(questions, t, pk, requester, accepted, c);
      && (r.Ok? <==> AskerOf(questions, t, pk) == Some(requester))
      && (r.Ok? ==> AtMostOneAccepted(r.value.table) && r.value.row.data.accepted == accepted)
  {
    if AskerOf(questions, t, pk) == Some(requester) {
      assert pk in Ids(t);
    }
  }
}
