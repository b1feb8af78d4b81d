/** Shared vocabulary of the Q&A model: primary keys, optional values, the
    errors the application and its ORM can raise, and the manager lookup
    `get(...)` that raises two of them. */
module Base {

  /** Primary keys as the database hands them out: auto-increment from 1. */
  type Pk = k: nat | k > 0 witness 1

  datatype Option<+T> = None | Some(value: T)

  /** The exceptions and error responses that the modelled code can produce. */
  datatype Error =
    | DoesNotExist            // a manager `get` matched no row
    | MultipleObjectsReturned // a manager `get` matched more than one row
    | UniqueViolation         // a `unique_together` constraint would be broken
    | PermissionDenied        // raised by a view that refuses the request user
    | NotFound                // Http404 from a detail view's object lookup
    | InvalidForm             // a bound form that did not validate
    | BadRequest              // HttpResponseBadRequest

  datatype Result<+T> = Ok(value: T) | Err(error: Error)

  /** The elements of `s` that satisfy `p`, in order: a filtered queryset. */
  function Filter<T>(s: seq<T>, p: T -> bool): (r: seq<T>)
    ensures |r| <= |s|
    ensures forall i :: 0 <= i < |r| ==> r[i] in s && p(r[i])
    ensures forall i :: 0 <= i < |s| && p(s[i]) ==> s[i] in r
    ensures |r| == 0 <==> forall i :: 0 <= i < |s| ==> !p(s[i])
    ensures |r| <= 1 <==> forall i, j :: 0 <= i < j < |s| ==> !(p(s[i]) && p(s[j]))
  {
    if |s| == 0 then []
    else
      var rest := Filter(s[1..], p);
      assert forall i :: 1 <= i < |s| ==> s[i] == s[1..][i - 1];
      if p(s[0]) then
        [s[0]] + rest
      else
        rest
  }

  /** A filter keeps every element that passes as often as it occurs, and
      nothing else. */
  lemma {:induction false} FilterCount<T>(s: seq<T>, p: T -> bool, x: T)
    ensures multiset(Filter(s, p))[x] == if p(x) then multiset(s)[x] else 0
  {
    if |s| > 0 {
      var rest := Filter(s[1..], p);
      FilterCount(s[1..], p, x);
      assert multiset(s) == multiset{s[0]} + multiset(s[1..]) by {
        assert s == [s[0]] + s[1..];
      }
      if p(s[0]) {
        assert Filter(s, p) == [s[0]] + rest;
        assert multiset(Filter(s, p)) == multiset{s[0]} + multiset(rest);
      } else {
        assert Filter(s, p) == rest;
      }
    }
  }

  /** `Manager.get(**filters)`: the single matching row, or the exception
      Django raises when there is none or more than one. */
  function Get<T>(s: seq<T>, p: T -> bool): (r: Result<T>)
    ensures r.Ok? <==> |Filter(s, p)| == 1
    ensures r.Ok? ==> r.value in s && p(r.value)
    ensures r.Ok? ==> forall i :: 0 <= i < |s| && p(s[i]) ==> s[i] == r.value
    ensures r == Err(DoesNotExist) <==> forall i :: 0 <= i < |s| ==> !p(s[i])
    ensures r.Err? ==> r.error == DoesNotExist || r.error == MultipleObjectsReturned
    ensures r == Err(MultipleObjectsReturned) <==>
      exists i, j :: 0 <= i < j < |s| && p(s[i]) && p(s[j])
  {
    var matches := Filter(s, p);
    if |matches| == 0 then
      Err(DoesNotExist)
    else if |matches| == 1 then
      assert matches[0] in matches;
      Ok(matches[0])
    else
      assert matches[0] in matches;
      Err(MultipleObjectsReturned)
  }

  /** Python slicing `s[:n]` for a non-negative `n`. */
  function Take<T>(s: seq<T>, n: nat): (r: seq<T>)
    ensures |r| == if |s| < n then |s| else n
    ensures r == s[..|r|]
  {
    if |s| < n then s else s[..n]
  }
}
