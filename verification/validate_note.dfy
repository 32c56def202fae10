/**
 * The request-body checks run before a note is created or updated. Each one
 * collects an ordered list of error messages; an empty list lets the request
 * through to the store, anything else answers 400 with the list.
 */
module ValidateNote {
  import opened Wrappers

  /** A field read from the request body, as JavaScript sees it. */
  datatype Value =
    | Undefined      // the key is absent
    | Str(s: string)
    | NonString      // null, a number, a boolean, an object or an array

  datatype Body = Body(title: Value, content: Value)

  /** What the middleware does: call `next()`, or answer 400 with a JSON error. */
  datatype Response =
    | Next
    | Reject(statusCode: int, status: string, message: string, errors: seq<string>)

  const TitleRequired := "title is required and must be a non-empty string"
  const ContentRequired := "content is required and must be a string"
  const TitleInvalid := "title must be a non-empty string when provided"
  const ContentInvalid := "content must be a string when provided"
  const NothingToUpdate := "at least one of title or content must be provided"

  /**
   * The characters `String.prototype.trim` strips: the ECMAScript WhiteSpace
   * (tab, vertical tab, form feed, BOM and the Unicode space separators) and
   * LineTerminator code points.
   */
  predicate IsTrimmable(c: char) {
    || c == '\t' || c == '\U{000B}' || c == '\U{000C}' || c == ' ' || c == '\U{00A0}' || c == '\U{FEFF}'
    || c == '\U{1680}' || ('\U{2000}' <= c <= '\U{200A}') || c == '\U{202F}' || c == '\U{205F}' || c == '\U{3000}'
    || c == '\n' || c == '\r' || c == '\U{2028}' || c == '\U{2029}'
  }

  /** Nothing but whitespace. */
  ghost predicate IsBlank(s: string) {
    forall i :: 0 <= i < |s| ==> IsTrimmable(s[i])
  }

  function TrimStart(s: string): (r: string)
    ensures r == [] || !IsTrimmable(r[0])
    ensures |r| <= |s|
  {
    if s == [] || !IsTrimmable(s[0]) then s else TrimStart(s[1..])
  }

  function TrimEnd(s: string): (r: string)
    ensures r == [] || !IsTrimmable(r[|r| - 1])
    ensures r <= s
  {
    if s == [] || !IsTrimmable(s[|s| - 1]) then s else TrimEnd(s[..|s| - 1])
  }

  /** Trimming the start removes a blank prefix and nothing else. */
  lemma {:induction false} TrimStartDrops(s: string)
    ensures |TrimStart(s)| <= |s|
    ensures TrimStart(s) == s[|s| - |TrimStart(s)|..]
    ensures IsBlank(s[..|s| - |TrimStart(s)|])
  {
    if s != [] && IsTrimmable(s[0]) {
      var t := s[1..];
      TrimStartDrops(t);
      var k := |t| - |TrimStart(t)|;
      assert t[k..] == s[k + 1..];
      var blank := s[..k + 1];
      forall i | 0 <= i < |blank| ensures IsTrimmable(blank[i]) {
        if i > 0 { assert blank[i] == t[..k][i - 1]; }
      }
    }
  }

  /** Trimming the end removes a blank suffix and nothing else. */
  lemma {:induction false} TrimEndDrops(s: string)
    ensures TrimEnd(s) <= s
    ensures IsBlank(s[|TrimEnd(s)|..])
  {
    if s != [] && IsTrimmable(s[|s| - 1]) {
      var t := s[..|s| - 1];
      TrimEndDrops(t);
      var k := |TrimEnd(t)|;
      forall i | 0 <= i < |s| - k ensures IsTrimmable(s[k..][i]) {
        if i < |t| - k { assert s[k..][i] == t[k..][i]; }
      }
    }
  }

  /** Trimming both ends keeps `s[i..j]`, where `s[..i]` and `s[j..]` are blank. */
  lemma TrimDrops(s: string, i: nat, j: nat)
    requires i == |s| - |TrimStart(s)| && j == i + |TrimEnd(TrimStart(s))|
    ensures i <= j <= |s| && TrimEnd(TrimStart(s)) == s[i..j]
    ensures IsBlank(s[..i]) && IsBlank(s[j..])
  {
    var t := TrimStart(s);
    TrimStartDrops(s);
    var r := TrimEnd(t);
    TrimEndDrops(t);
    assert t == s[i..];
    assert r == t[..|r|];
    assert s[j..] == t[|r|..];
  }

  /** `String.prototype.trim`: the input with its blank start and blank end removed. */
  function Trim(s: string): (r: string)
    ensures r == [] || (!IsTrimmable(r[0]) && !IsTrimmable(r[|r| - 1]))
    ensures exists i, j :: 0 <= i <= j <= |s| && r == s[i..j] && IsBlank(s[..i]) && IsBlank(s[j..])
  {
    var t := TrimStart(s);
    var i := |s| - |t|;
    var j := i + |TrimEnd(t)|;
    TrimDrops(s, i, j);
    TrimEnd(t)
  }

  lemma {:induction false} TrimStartEmpty(s: string)
    ensures TrimStart(s) == [] <==> IsBlank(s)
  {
    if s != [] && IsTrimmable(s[0]) {
      TrimStartEmpty(s[1..]);
      assert IsBlank(s) <==> IsBlank(s[1..]) by {
        if IsBlank(s[1..]) {
          forall i | 0 <= i < |s| ensures IsTrimmable(s[i]) {
            if i > 0 { assert s[i] == s[1..][i - 1]; }
          }
        }
      }
    }
  }

  lemma {:induction false} TrimEndEmpty(s: string)
    requires s == [] || !IsTrimmable(s[0])
    ensures TrimEnd(s) == [] <==> s == []
  {
    if s != [] && IsTrimmable(s[|s| - 1]) {
      assert |s| > 1;
      TrimEndEmpty(s[..|s| - 1]);
    }
  }

  /** A string trims to nothing exactly when it is blank. */
  lemma TrimEmptyIffBlank(s: string)
    ensures |Trim(s)| == 0 <==> IsBlank(s)
  {
    TrimStartEmpty(s);
    TrimEndEmpty(TrimStart(s));
  }

  /** What a field must be to be accepted as a title: a string that is not blank. */
  ghost predicate GoodTitle(v: Value) {
    v.Str? && !IsBlank(v.s)
  }

  /** The fields of `req.body || {}`. */
  function BodyFields(body: Option<Body>): Body {
    body.GetOr(Body(Undefined, Undefined))
  }

  /** The answer for a finished error list. */
  function Respond(errors: seq<string>): (r: Response)
    ensures r.Next? <==> errors == []
    ensures r.Reject? ==> r.statusCode == 400 && r.status == "error" && r.message == "Validation failed"
    ensures r.Reject? ==> r.errors == errors
  {
    if |errors| > 0 then Reject(400, "error", "Validation failed", errors) else Next
  }

  /** Checks the body of a create request: a non-blank string title and a string content. */
  method ValidateCreateNote(body: Option<Body>) returns (errors: seq<string>, res: Response)
    ensures TitleRequired in errors <==> !GoodTitle(BodyFields(body).title)
    ensures ContentRequired in errors <==> !BodyFields(body).content.Str?
    ensures forall i :: 0 <= i < |errors| ==> errors[i] == TitleRequired || errors[i] == ContentRequired
    ensures |errors| == (if GoodTitle(BodyFields(body).title) then 0 else 1) + (if BodyFields(body).content.Str? then 0 else 1)
    ensures TitleRequired in errors ==> errors[0] == TitleRequired
    ensures body.None? ==> errors == [TitleRequired, ContentRequired]
    ensures res == Respond(errors)
    ensures res.Next? <==> GoodTitle(BodyFields(body).title) && BodyFields(body).content.Str?
  {
    var b := BodyFields(body);
    errors := [];
    if !b.title.Str? || |Trim(b.title.s)| == 0 {
      errors := errors + [TitleRequired];
    }
    if !b.content.Str? {
      errors := errors + [ContentRequired];
    }
    if b.title.Str? {
      TrimEmptyIffBlank(b.title.s);
    }
    res := Respond(errors);
  }

  /**
   * Checks the body of an update request: each provided field must have the
   * right type, a provided title must not be blank, and at least one field
   * must be provided.
   */
  method ValidateUpdateNote(body: Option<Body>) returns (errors: seq<string>, res: Response)
    ensures TitleInvalid in errors <==> BodyFields(body).title != Undefined && !GoodTitle(BodyFields(body).title)
    ensures ContentInvalid in errors <==> BodyFields(body).content != Undefined && !BodyFields(body).content.Str?
    ensures NothingToUpdate in errors <==> BodyFields(body).title == Undefined && BodyFields(body).content == Undefined
    ensures NothingToUpdate in errors ==> errors == [NothingToUpdate]
    ensures forall i :: 0 <= i < |errors| ==>
      errors[i] == TitleInvalid || errors[i] == ContentInvalid || errors[i] == NothingToUpdate
    ensures TitleInvalid in errors ==> errors[0] == TitleInvalid
    ensures |errors| ==
      (if TitleInvalid in errors then 1 else 0) + (if ContentInvalid in errors then 1 else 0)
      + (if NothingToUpdate in errors then 1 else 0)
    ensures body.None? ==> errors == [NothingToUpdate]
    ensures res == Respond(errors)
    ensures res.Next? <==>
      && (BodyFields(body).title != Undefined || BodyFields(body).content != Undefined)
      && (BodyFields(body).title != Undefined ==> GoodTitle(BodyFields(body).title))
      && (BodyFields(body).content != Undefined ==> BodyFields(body).content.Str?)
  {
    var b := BodyFields(body);
    errors := [];
    if b.title != Undefined && (!b.title.Str? || |Trim(b.title.s)| == 0) {
      errors := errors + [TitleInvalid];
    }
    if b.content != Undefined && !b.content.Str? {
      errors := errors + [ContentInvalid];
    }
    if b.title == Undefined && b.content == Undefined {
      errors := errors + [NothingToUpdate];
    }
    if b.title.Str? {
      TrimEmptyIffBlank(b.title.s);
    }
    res := Respond(errors);
  }
}
