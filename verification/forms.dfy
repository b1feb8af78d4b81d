/** `QuestionForm.is_valid`: the comma-separated tag input is split, its
    pieces counted, and on success stripped and lowercased; on failure the
    fields in error get the `is-danger` widget class. */
module Forms {
  import opened Base

  // ---- Python string operations used by the form ----

  /** `str.isspace` for one character: the Unicode whitespace characters. */
  predicate IsSpace(c: char)
  {
    var n := c as int;
    || 0x09 <= n <= 0x0D
    || 0x1C <= n <= 0x20
    || n == 0x85 || n == 0xA0 || n == 0x1680
    || 0x2000 <= n <= 0x200A
    || n == 0x2028 || n == 0x2029 || n == 0x202F || n == 0x205F || n == 0x3000
  }

  /** `str.lstrip()`: drops the leading whitespace. */
  function StripLeft(s: string): (r: string)
    ensures |r| <= |s| && r == s[|s| - |r|..]
    ensures forall k :: 0 <= k < |s| - |r| ==> IsSpace(s[k])
    ensures |r| == 0 || !IsSpace(r[0])
  {
    if |s| > 0 && IsSpace(s[0]) then StripLeft(s[1..]) else s
  }

  /** `str.rstrip()`: drops the trailing whitespace. */
  function StripRight(s: string): (r: string)
    ensures |r| <= |s| && r == s[..|r|]
    ensures forall k :: |r| <= k < |s| ==> IsSpace(s[k])
    ensures |r| == 0 || !IsSpace(r[|r| - 1])
  {
    if |s| > 0 && IsSpace(s[|s| - 1]) then StripRight(s[..|s| - 1]) else s
  }

  /** `str.strip()`: drops whitespace at both ends. */
  function Strip(s: string): (r: string)
    ensures |r| <= |s|
    ensures |r| == 0 || (!IsSpace(r[0]) && !IsSpace(r[|r| - 1]))
  {
    var l := StripLeft(s);
    var r := StripRight(l);
    assert |r| > 0 ==> r[0] == l[0];
    r
  }

  /** A prefix of a suffix is an infix, and whitespace after the prefix
      sits at the same place in the whole string. */
  lemma InfixOfSuffix(s: string, a: nat, l: string, r: string)
    requires a <= |s| && l == s[a..]
    requires |r| <= |l| && r == l[..|r|]
    requires forall k :: |r| <= k < |l| ==> IsSpace(l[k])
    ensures a + |r| <= |s| && r == s[a..a + |r|]
    ensures forall k :: a + |r| <= k < |s| ==> IsSpace(s[k])
  {
    forall k | a + |r| <= k < |s| ensures IsSpace(s[k]) {
      assert s[k] == l[k - a];
    }
  }

  /** What `strip` keeps is an infix of the input, and everything it drops
      before and after that infix is whitespace. */
  lemma StripIsInfix(s: string)
    ensures var r := Strip(s);
      var a := |s| - |StripLeft(s)|;
      && a + |r| <= |s|
      && r == s[a..a + |r|]
      && (forall k :: 0 <= k < a ==> IsSpace(s[k]))
      && (forall k :: a + |r| <= k < |s| ==> IsSpace(s[k]))
  {
    var l := StripLeft(s);
    var r := StripRight(l);
    InfixOfSuffix(s, |s| - |l|, l, r);
  }

  /** Stripping twice strips no more than stripping once. */
  lemma StripIdempotent(s: string)
    ensures Strip(Strip(s)) == Strip(s)
  {
    var r := Strip(s);
    assert StripLeft(r) == r;
    assert StripRight(r) == r;
  }

  /** `str.lower()` for one character, on the ASCII letters. */
  function LowerChar(c: char): char
  {
    if 'A' <= c <= 'Z' then (c as int + 32) as char else c
  }

  /** `str.lower()`: every ASCII capital becomes its small letter. */
  function Lower(s: string): (r: string)
    ensures |r| == |s|
    ensures forall i :: 0 <= i < |s| ==> r[i] == LowerChar(s[i])
    ensures forall i :: 0 <= i < |r| ==> !('A' <= r[i] <= 'Z')
  {
    if |s| == 0 then "" else [LowerChar(s[0])] + Lower(s[1..])
  }

  /** Lowercasing twice changes nothing more, and lowercasing keeps every
      character that is not an ASCII capital. */
  lemma LowerIdempotent(s: string)
    ensures Lower(Lower(s)) == Lower(s)
    ensures forall i :: 0 <= i < |s| && !('A' <= s[i] <= 'Z') ==> Lower(s)[i] == s[i]
  {
    assert forall i :: 0 <= i < |s| ==> Lower(Lower(s))[i] == Lower(s)[i];
  }

  /** The number of occurrences of `c` in `s`. */
  function Count(s: string, c: char): nat
  {
    if |s| == 0 then 0 else (if s[0] == c then 1 else 0) + Count(s[1..], c)
  }

  /** `sep.join(parts)`. */
  function Join(parts: seq<string>, sep: char): string
  {
    if |parts| == 0 then ""
    else if |parts| == 1 then parts[0]
    else parts[0] + [sep] + Join(parts[1..], sep)
  }

  /** `str.split(sep)`: the pieces between separators, one more than there
      are separators; joining them back gives the input. */
  function Split(s: string, sep: char): (r: seq<string>)
    ensures |r| == Count(s, sep) + 1
    ensures forall i :: 0 <= i < |r| ==> sep !in r[i]
    ensures Join(r, sep) == s
  {
    if |s| == 0 then [""]
    else
      var rest := Split(s[1..], sep);
      if s[0] == sep then
        assert Join([""] + rest, sep) == "" + [sep] + Join(rest, sep) by {
          assert ([""] + rest)[1..] == rest;
        }
        assert s == [sep] + s[1..];
        [""] + rest
      else
        var r := [[s[0]] + rest[0]] + rest[1..];
        assert r[1..] == rest[1..];
        assert |rest| > 1 ==> Join(rest, sep) == rest[0] + [sep] + Join(rest[1..], sep);
        assert Join(r, sep) == [s[0]] + Join(rest, sep);
        assert s == [s[0]] + s[1..];
        r
  }

  /** Splitting a join of separator-free pieces gives the pieces back. */
  lemma {:induction false} SplitJoin(parts: seq<string>, sep: char)
    requires |parts| > 0
    requires forall i :: 0 <= i < |parts| ==> sep !in parts[i]
    ensures Split(Join(parts, sep), sep) == parts
  {
    if |parts| == 1 {
      SplitPiece(parts[0], sep);
    } else {
      var tail := parts[1..];
      assert forall i :: 0 <= i < |tail| ==> sep !in tail[i] by {
        forall i | 0 <= i < |tail| ensures sep !in tail[i] { assert tail[i] == parts[i + 1]; }
      }
      SplitJoin(tail, sep);
      SplitAfterPiece(parts[0], sep, Join(tail, sep));
      assert parts == [parts[0]] + tail;
    }
  }

  /** A separator-free string is one piece. */
  lemma {:induction false} SplitPiece(p: string, sep: char)
    requires sep !in p
    ensures Split(p, sep) == [p]
  {
    if |p| > 0 {
      assert sep !in p[1..];
      SplitPiece(p[1..], sep);
      assert p == [p[0]] + p[1..];
    }
  }

  /** A separator-free piece in front of a separator is split off as the first piece. */
  lemma {:induction false} SplitAfterPiece(p: string, sep: char, rest: string)
    requires sep !in p
    ensures Split(p + [sep] + rest, sep) == [p] + Split(rest, sep)
  {
    if |p| == 0 {
      assert p + [sep] + rest == [sep] + rest;
      assert ([sep] + rest)[1..] == rest;
    } else {
      assert sep !in p[1..];
      SplitAfterPiece(p[1..], sep, rest);
      assert (p + [sep] + rest)[1..] == p[1..] + [sep] + rest;
      assert p == [p[0]] + p[1..];
    }
  }

  // ---- The form ----

  const MIN_TAGS: nat := 2
  const MAX_TAGS: nat := 4
  const CUSTOM_TAGS: string := "custom_tags"
  const ERROR_CSS_CLASS: string := "is-danger"
  const TOO_FEW_TAGS: string := "You must add at least two tags"
  const TOO_MANY_TAGS: string := "You cannot add more than six tags"

  /** The state of a `QuestionForm` that the tag check reads and writes:
      whether it is bound, the errors of its fields, the `class` attribute of
      each field's widget (a field without one is absent), and `custom_tags`,
      which the check sets on success. */
  datatype Form = Form(
    bound: bool,
    errors: map<string, seq<string>>,
    classes: map<string, string>,
    customTags: Option<seq<string>>)

  datatype Validation = Validation(valid: bool, form: Form)

  /** The framework's own `is_valid`: bound and no field errors. */
  predicate BaseValid(f: Form)
  {
    f.bound && |f.errors| == 0
  }

  /** `add_error(field, message)`: appends the message to the field's errors. */
  function AddError(f: Form, field: string, message: string): (r: Form)
    ensures r.errors.Keys == f.errors.Keys + {field}
    ensures r.errors[field] == (if field in f.errors then f.errors[field] else []) + [message]
    ensures forall k :: k in f.errors && k != field ==> r.errors[k] == f.errors[k]
    ensures r.classes == f.classes && r.customTags == f.customTags && r.bound == f.bound
  {
    f.(errors := f.errors[field := (if field in f.errors then f.errors[field] else []) + [message]])
  }

  /** The widget class of a field, `''` when it has none. */
  function ClassOf(f: Form, field: string): string
  {
    if field in f.classes then f.classes[field] else ""
  }

  /** The loop over `self.errors`: each field in error gets ` is-danger`
      appended to its widget class. */
  function MarkErrors(f: Form): (r: Form)
    ensures r.classes.Keys == f.classes.Keys + f.errors.Keys
    ensures forall k :: k in f.errors ==> r.classes[k] == ClassOf(f, k) + " " + ERROR_CSS_CLASS
    ensures forall k :: k in f.classes && k !in f.errors ==> r.classes[k] == f.classes[k]
    ensures r.errors == f.errors && r.customTags == f.customTags && r.bound == f.bound
    ensures f.errors == map[] ==> r == f
  {
    f.(classes := map k | k in f.classes.Keys + f.errors.Keys ::
         if k in f.errors then ClassOf(f, k) + " " + ERROR_CSS_CLASS else f.classes[k])
  }

  /** Each piece stripped, then lowercased, in order. */
  function CleanTags(pieces: seq<string>): (r: seq<string>)
    ensures |r| == |pieces|
    ensures forall i :: 0 <= i < |pieces| ==> r[i] == Lower(Strip(pieces[i]))
  {
    if |pieces| == 0 then [] else [Lower(Strip(pieces[0]))] + CleanTags(pieces[1..])
  }

  /** The rejection branch as written: a message for too few and for more
      than MAX_TAGS pieces, none for exactly MAX_TAGS; then the fields in
      error are marked. */
  function RejectTags(f: Form, pieces: nat): (r: Form)
    requires f.errors == map[]
    requires pieces < MIN_TAGS || pieces >= MAX_TAGS
    ensures pieces < MIN_TAGS ==> r.errors == map[CUSTOM_TAGS := [TOO_FEW_TAGS]]
    ensures pieces > MAX_TAGS ==> r.errors == map[CUSTOM_TAGS := [TOO_MANY_TAGS]]
    ensures pieces == MAX_TAGS ==> r == f
    ensures r.customTags == f.customTags && r.bound == f.bound
    ensures r.classes.Keys == f.classes.Keys + r.errors.Keys
    ensures forall k :: k in r.errors ==> r.classes[k] == ClassOf(f, k) + " " + ERROR_CSS_CLASS
    ensures forall k :: k in f.classes && k !in r.errors ==> r.classes[k] == f.classes[k]
  {
    if pieces == MAX_TAGS then
      MarkErrors(f)
    else
      var message := if pieces < MIN_TAGS then TOO_FEW_TAGS else TOO_MANY_TAGS;
      var f1 := AddError(f, CUSTOM_TAGS, message);
      assert f1.errors == map[CUSTOM_TAGS := [message]] by {
        assert f1.errors[CUSTOM_TAGS] == [] + [message] == [message];
      }
      MarkErrors(f1)
  }

  /** `QuestionForm.is_valid` as written, given the cleaned `custom_tags` text.
      The piece count must satisfy MIN_TAGS <= n < MAX_TAGS, so only 2 or 3
      tags pass; 4 tags fail without an error message. */
  function IsValid(f: Form, rawTags: string): (r: Validation)
    ensures r.valid <==> BaseValid(f) && 1 <= Count(rawTags, ',') <= 2
    ensures !BaseValid(f) ==> r.form == f
    ensures r.valid ==> r.form == f.(customTags := Some(CleanTags(Split(rawTags, ','))))
    ensures r.valid ==> |r.form.customTags.value| == Count(rawTags, ',') + 1
    ensures BaseValid(f) && Count(rawTags, ',') == 0 ==>
      r.form.errors == map[CUSTOM_TAGS := [TOO_FEW_TAGS]]
    ensures BaseValid(f) && Count(rawTags, ',') >= 4 ==>
      r.form.errors == map[CUSTOM_TAGS := [TOO_MANY_TAGS]]
    ensures BaseValid(f) && Count(rawTags, ',') == 3 ==> r.form == f
    ensures BaseValid(f) && !r.valid ==>
      && r.form.customTags == f.customTags
      && r.form.classes.Keys == f.classes.Keys + r.form.errors.Keys
      && (forall k :: k in r.form.errors ==> r.form.classes[k] == ClassOf(f, k) + " " + ERROR_CSS_CLASS)
      && (forall k :: k in f.classes && k !in r.form.errors ==> r.form.classes[k] == f.classes[k])
  {
    if !BaseValid(f) then Validation(false, f)
    else
      assert f.errors == map[] by { assert f.errors.Keys == {}; }
      var tags := Split(rawTags, ',');
      if |tags| >= MIN_TAGS && |tags| < MAX_TAGS then
        Validation(true, f.(customTags := Some(CleanTags(tags))))
      else
        Validation(false, RejectTags(f, |tags|))
  }

  /** The input the placeholder invites, four tags, is rejected and no
      message says why. */
  lemma FourTagsRejectedSilently(f: Form)
    requires BaseValid(f)
    ensures Count("a,b,c,d", ',') == 3
    ensures var r := IsValid(f, "a,b,c,d"); !r.valid && |r.form.errors| == 0
  {
    assert Count("a,b,c,d", ',') == 3 by {
      assert "a,b,c,d"[1..] == ",b,c,d";
      assert ",b,c,d"[1..] == "b,c,d";
      assert "b,c,d"[1..] == ",c,d";
      assert ",c,d"[1..] == "c,d";
      assert "c,d"[1..] == ",d";
      assert ",d"[1..] == "d";
      assert "d"[1..] == "";
    }
  }

  /** The tag check as the placeholder and MAX_TAGS describe it: between 2
      and 4 tags inclusive, and every rejected input carries a message. */
  function IsValidIntended(f: Form, rawTags: string): (r: Validation)
    ensures r.valid <==> BaseValid(f) && 1 <= Count(rawTags, ',') <= 3
    ensures !BaseValid(f) ==> r.form == f
    ensures r.valid ==> r.form == f.(customTags := Some(CleanTags(Split(rawTags, ','))))
    ensures BaseValid(f) && !r.valid ==> CUSTOM_TAGS in r.form.errors && |r.form.errors[CUSTOM_TAGS]| == 1
    ensures BaseValid(f) && !r.valid ==>
      CUSTOM_TAGS in r.form.classes && r.form.classes[CUSTOM_TAGS] == ClassOf(f, CUSTOM_TAGS) + " " + ERROR_CSS_CLASS
  {
    if !BaseValid(f) then Validation(false, f)
    else
      assert f.errors == map[] by { assert f.errors.Keys == {}; }
      var tags := Split(rawTags, ',');
      if |tags| >= MIN_TAGS && |tags| <= MAX_TAGS then
        Validation(true, f.(customTags := Some(CleanTags(tags))))
      else
        var f1 := AddError(f, CUSTOM_TAGS, if |tags| < MIN_TAGS then TOO_FEW_TAGS else TOO_MANY_TAGS);
        assert CUSTOM_TAGS in f1.errors && |f1.errors[CUSTOM_TAGS]| == 1;
        Validation(false, MarkErrors(f1))
  }

  /** The two checks agree on every input except four tags. */
  lemma IntendedDiffersOnlyOnFour(f: Form, rawTags: string)
    ensures IsValid(f, rawTags).valid != IsValidIntended(f, rawTags).valid <==>
      BaseValid(f) && Count(rawTags, ',') == 3
  {
  }
}
