/** How Mongoose judges one path of a document when the document is saved: the built-in
    validators a schema declares on a `String` or `Number` path, and the `default: Date.now` of a
    `Date` path. A document's value for a path is an `Option`: `None` is `null` or `undefined`. */
module Schema {
  import opened Common

  /** The validators of a `String` path: `required`, `minlength`, `maxlength` and a custom
      `validate` function. */
  datatype StringRule = StringRule(
    required: bool,
    minLength: Option<nat>,
    maxLength: Option<nat>,
    check: Option<string -> bool>)

  /** `{ type: String }` with nothing else. */
  const PlainString := StringRule(false, None, None, None)

  /** `{ type: String, required: ... }` */
  const RequiredString := StringRule(true, None, None, None)

  /** Whether a `String` path fails validation. A required string must be present AND non-empty;
      the length and custom validators only look at a present value. */
  predicate StringPathFails(v: Option<string>, rule: StringRule) {
    match v
    case None => rule.required
    case Some(s) =>
      || (rule.required && |s| == 0)
      || (rule.minLength.Some? && |s| < rule.minLength.value)
      || (rule.maxLength.Some? && |s| > rule.maxLength.value)
      || (rule.check.Some? && !rule.check.value(s))
  }

  /** Whether a `Number` path fails validation: only `required` is declared on numbers here. */
  predicate NumberPathFails(v: Option<int>, required: bool) {
    required && v.None?
  }

  /** A string path without validators accepts every value, `null` included. */
  lemma PlainStringAccepts(v: Option<string>)
    ensures !StringPathFails(v, PlainString)
  {
  }

  /** A required string path refuses exactly the missing value and the empty string. */
  lemma RequiredStringRefuses(v: Option<string>)
    ensures StringPathFails(v, RequiredString) <==> v.None? || |v.value| == 0
  {
  }

  /** What a `Date` path with `default: Date.now` holds once the document is built from a body:
      the creation time when the body leaves the field out; a `null` in the body stays `null`. */
  function DefaultNow(field: Json<int>, now: int): Option<int> {
    if field.Undefined? then Some(now) else field.ToOption()
  }
}
