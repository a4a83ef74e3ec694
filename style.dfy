/**
 * The style record (src/style.ts), the store's errors, and the key a
 * style name is stored under (`keyFor` in src/styles.ts).
 *
 * JavaScript's falsy values are modelled as follows: a missing, `null`,
 * `undefined` or empty name is the empty string; a missing record or
 * array is `None`.
 */
module StyleRecord {
  import opened Text

  /**
   * A style: its required display name and, carried verbatim and never
   * inspected by the store, its other properties (`mode`, `description`,
   * `styles`), each given as its JSON text.
   */
  datatype Style = Style(styleName: string, properties: map<string, string>)

  /** The errors the store throws. */
  datatype Error =
    | ArgumentRequired(argument: string)   // badArgument(name)
    | InvalidStyles                        // merge found a falsy record or name
    | NotFound(name: string)               // rename: no style under the old name
    | AlreadyExists(name: string)          // rename: the new name is taken

  /**
   * The message each error carries: it names the argument or style at
   * fault and says what went wrong in words a caller can match.
   */
  function Message(e: Error): (r: string)
    ensures e.ArgumentRequired? ==> Contains(r, e.argument) && Contains(r, "required")
    ensures e.InvalidStyles? ==> Contains(r, "styles") && Contains(r, "invalid")
    ensures e.NotFound? ==> Contains(r, e.name) && Contains(r, "not found")
    ensures e.AlreadyExists? ==> Contains(r, e.name) && Contains(r, "already exists")
  {
    match e
    case ArgumentRequired(argument) =>
      OccursInJoin("The \"", argument, "\" argument is ", "required", ".");
      "The \"" + argument + "\" argument is " + "required" + "."
    case InvalidStyles =>
      OccursInJoin("One or more ", "styles", " are ", "invalid", ".");
      "One or more " + "styles" + " are " + "invalid" + "."
    case NotFound(name) =>
      OccursInJoin("The style named \"", name, "\" was ", "not found", ".");
      "The style named \"" + name + "\" was " + "not found" + "."
    case AlreadyExists(name) =>
      OccursInJoin("A style named \"", name, "\" ", "already exists", ".");
      "A style named \"" + name + "\" " + "already exists" + "."
  }

  /** A value or the error thrown instead; usable with `:-`. */
  datatype Result<+T> = Ok(value: T) | Err(error: Error) {
    predicate IsFailure() {
      Err?
    }

    function PropagateFailure<U>(): Result<U>
      requires Err?
    {
      Err(error)
    }

    function Extract(): T
      requires Ok?
    {
      value
    }
  }

  /** `void` results: the call returned, or threw. */
  datatype Outcome = Pass | Fail(error: Error)

  /**
   * `keyFor`: the case-insensitive key of a style name. A falsy name
   * throws the missing-argument error naming "styleName".
   */
  function KeyFor(styleName: string): (r: Result<string>)
    ensures r.Err? <==> styleName == ""
    ensures r.Err? ==> r.error == ArgumentRequired("styleName")
    ensures r.Ok? ==> r.value != "" && !HasUpper(r.value) && EqualIgnoringCase(styleName, r.value)
  {
    if styleName == "" then Err(ArgumentRequired("styleName"))
    else Ok(Lower(styleName))
  }

  /** Every case variant of a name gets the same key, and only those do. */
  lemma KeyForCaseInsensitive(a: string, b: string)
    ensures KeyFor(a) == KeyFor(b) <==> EqualIgnoringCase(a, b)
  {
    LowerEqualIff(a, b);
  }

  /** The key a (named) style is stored under. */
  function KeyOf(s: Style): (k: string)
    ensures s.styleName != "" ==> KeyFor(s.styleName) == Ok(k)
  {
    Lower(s.styleName)
  }

  /** Every entry is stored under the key of its own, non-empty, name. */
  ghost predicate KeyedByName(m: map<string, Style>) {
    forall k :: k in m ==> m[k].styleName != "" && KeyOf(m[k]) == k
  }
}
