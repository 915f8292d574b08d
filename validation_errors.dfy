/**
 * The errors the validator collects (validator.go:10-30): the sentinel errors, the
 * "Unexpected validator option" error and the value failures of the five checkers,
 * with the message each one prints and the aggregate's Error() string.
 */
module ValidationErrors {
  import opened Wrappers
  import opened GoStrings

  /** The five validator options of the dispatch table. */
  datatype Rule = Len | In | Min | Max | Between

  /** Whether a value failure concerns a string (its byte length) or an integer. */
  datatype Subject = Text | Integer

  /** The error a ValidationError wraps. */
  datatype ValidationError =
    | SyntaxError        // ErrInvalidValidatorSyntax
    | UnexportedField    // ErrValidateForUnexportedFields
    | UnexpectedOption   // errors.New("Unexpected validator option")
      /** A value that fails its rule; pos is the index of the first failing element of a slice. */
    | ValueError(rule: Rule, subject: Subject, pos: Option<nat>)

  /** The Error() text of each kind, with slice positions printed as by "%d" (all ASCII). */
  function Message(e: ValidationError): string {
    match e
    case SyntaxError => "invalid validator syntax"
    case UnexportedField => "validation for unexported field is not allowed"
    case UnexpectedOption => "Unexpected validator option"
    case ValueError(rule, subject, None) =>
      (match (rule, subject)
      case (Len, _) => "lengths don't match"
      case (In, _) => "Field value isn't allowed"
      case (Min, Text) => "String length is less than allowed"
      case (Min, Integer) => "Integer is less than allowed"
      case (Max, Text) => "String length is more than allowed"
      case (Max, Integer) => "Integer is more than allowed"
      case (Between, Text) => "String length is not allowed"
      case (Between, Integer) => "Integer is more than allowed")
    case ValueError(rule, subject, Some(i)) =>
      (if subject == Text then "The string on position " else "The integer on position ")
      + Itoa(i) + PositionTail(rule, subject)
  }

  /** What a per-element message says after the position. */
  function PositionTail(rule: Rule, subject: Subject): string {
    match (rule, subject)
    case (In, Text) => " is not allowed"
    case (Len, _) => " is shorter than allowed"
    case (Min, Text) => " is shorter than allowed"
    case (In, Integer) => " is less than allowed"
    case (Min, Integer) => " is less than allowed"
    case (_, Text) => " is longer than allowed"
    case (_, Integer) => " is more than allowed"
  }

  /** The messages of vs concatenated in order, with no separator. */
  function Concat(vs: seq<ValidationError>): string {
    ConcatWith(vs, Message)
  }

  /** The strings f(vs[0]), f(vs[1]), ... glued together. */
  function ConcatWith<T>(vs: seq<T>, f: T -> string): string {
    if vs == [] then [] else ConcatWith(vs[..|vs| - 1], f) + f(vs[|vs| - 1])
  }

  lemma {:induction false} ConcatWithAppend<T>(a: seq<T>, b: seq<T>, f: T -> string)
    ensures ConcatWith(a + b, f) == ConcatWith(a, f) + ConcatWith(b, f)
    decreases |b|
  {
    if b == [] {
      assert a + b == a;
    } else {
      var b' := b[..|b| - 1];
      assert (a + b)[..|a + b| - 1] == a + b';
      assert (a + b)[|a + b| - 1] == b[|b| - 1];
      ConcatWithAppend(a, b', f);
    }
  }

  /** Concatenating the messages distributes over appending error lists. */
  lemma ConcatAppend(a: seq<ValidationError>, b: seq<ValidationError>)
    ensures Concat(a + b) == Concat(a) + Concat(b)
  {
    ConcatWithAppend(a, b, Message);
  }

  /** The text of a one-entry aggregate is that entry's own message. */
  lemma ConcatSingle(e: ValidationError)
    ensures Concat([e]) == Message(e)
  {
    assert [e][..0] == [];
    assert ConcatWith([e], Message) == ConcatWith([], Message) + Message(e);
  }

  /** A slice failure's message carries the position it names, printed in decimal. */
  lemma PositionInMessage(rule: Rule, subject: Subject, i: nat)
    ensures var m := Message(ValueError(rule, subject, Some(i)));
      var prefix := if subject == Text then 23 else 24;
      |m| > prefix + |Itoa(i)| && Atoi(m[prefix..prefix + |Itoa(i)|]) == Some(i)
  {
    var m := Message(ValueError(rule, subject, Some(i)));
    var prefix: string := if subject == Text then "The string on position " else "The integer on position ";
    assert m == prefix + Itoa(i) + PositionTail(rule, subject);
    assert m[|prefix|..|prefix| + |Itoa(i)|] == Itoa(i);
    AtoiItoa(i);
  }

  /**
   * ValidationErrors.Error (validator.go:24-30): appends each entry's message to an
   * accumulator, in order.
   */
  method ErrorText(vs: seq<ValidationError>) returns (res: string)
    ensures res == Concat(vs)
  {
    res := "";
    for i := 0 to |vs|
      invariant res == Concat(vs[..i])
    {
      assert vs[..i + 1][..i] == vs[..i];
      res := res + Message(vs[i]);
    }
    assert vs[..|vs|] == vs;
  }
}
