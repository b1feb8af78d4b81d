/** The abstract `Publishable` base of questions and answers: an owner, a
    body, and the creation and modification timestamps that `save` keeps. */
module Publishing {
  import opened Base

  /** The wall clock behind `timezone.now()`: each reading yields `ticks` and
      moves the clock strictly forward. */
  datatype Clock = Clock(ticks: int)

  function Tick(c: Clock): Clock
  {
    Clock(c.ticks + 1)
  }

  /** The `Publishable` columns. A fresh instance has no timestamps yet. */
  datatype Pub = Pub(user: Pk, body: string, created: Option<int>, modified: Option<int>)

  datatype Stamped = Stamped(pub: Pub, clock: Clock)

  /** A record as the database holds it: both timestamps set. */
  predicate Saved(p: Pub)
  {
    p.created.Some? && p.modified.Some?
  }

  /** `Publishable.save` before the row is written: `created` is taken from the
      clock only when the instance has no key, `modified` on every save. */
  function Stamp(id: Option<Pk>, p: Pub, c: Clock): (r: Stamped)
    ensures r.pub.user == p.user && r.pub.body == p.body
    ensures id.Some? ==> r.pub.created == p.created
    ensures id.None? ==> r.pub.created.Some? && c.ticks <= r.pub.created.value
    ensures r.pub.modified.Some? && c.ticks <= r.pub.modified.value < r.clock.ticks
    ensures id.None? ==> r.pub.created.value < r.pub.modified.value
    ensures id.None? || Saved(p) ==> Saved(r.pub)
  {
    if id.None? then
      var created := c.ticks;
      var c1 := Tick(c);
      Stamped(p.(created := Some(created), modified := Some(c1.ticks)), Tick(c1))
    else
      Stamped(p.(modified := Some(c.ticks)), Tick(c))
  }

  /** Once a record has been inserted, later saves never move `created`, and
      each of them moves `modified` strictly forward. */
  lemma CreatedNeverChanges(p: Pub, c: Clock, k: Pk)
    ensures var first := Stamp(None, p, c);
            var second := Stamp(Some(k), first.pub, first.clock);
            second.pub.created == first.pub.created
            && first.pub.modified.value < second.pub.modified.value
            && first.pub.created.value < second.pub.modified.value
  {
  }
}
