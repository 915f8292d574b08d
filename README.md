# tag_validation: a verified model of validator.go

The Go package `validation` checks a struct against constraints written in its fields'
`validate:"<name>:<parameter>"` tags. `Validate(v)` returns `ErrNotStruct` for anything
that is not a struct. For a struct, it walks the fields in declaration order:

- untagged fields are skipped;
- a tagged unexported field adds `ErrValidateForUnexportedFields`;
- every other tag is split on `:`, and its name is looked up in a five-entry table
  (`len`, `in`, `min`, `max`, `between`);
- the checker found there is run on the field's value and the parameter.

Every failure is collected into a `ValidationErrors` list. The list is returned, or
`nil` when it is empty. The list's `Error()` is the concatenation of the entries'
messages.

The model replaces reflection with plain data:

- a `Record` is `NotStruct` or a `Struct` of `Field`s;
- a field is exported or not, has an optional tag, and holds a `Value`: a string, an
  int, a `[]string`, an `[]int` or anything else;
- Go strings are byte sequences (`GoStrings.Bytes`), so string lengths are byte lengths;
- `strings.Split`, `strconv.Atoi` and `strconv.Itoa` are written out as functions
  (`GoStrings`).

Modules, in dependency order:

- `Wrappers`: `Option` and `Result`.
- `GoStrings`: `Split` and `Join` (inverse to each other), `Atoi` as the decimal grammar
  (optional sign, then at least one digit), and `Itoa` with `Atoi(Itoa(n)) == Some(n)`.
- `ValidationErrors`: the error kinds, their exact messages, and the aggregate `Error()`
  (the method `ErrorText`, proved equal to `Concat`).
- `Checkers`: the five checkers.
  - Each one is a specification function and a method that follows the Go control flow,
    slice loops included.
  - `validateIn` is specified by the relation `InAllows`, because its scalar-int branch
    walks a Go map whose iteration order is unspecified.
- `Validator`: tag parsing, the field walk `Validate` (a method with a loop), and lemmas
  about what it may return.
  - `Possible(r, out)` is the relation between a record and the outcomes Go can produce.
  - It has at most one outcome whenever no field falls into `validateIn`'s map-order
    case (`ValidateDeterministic`).
  - It has at least one whenever no field's `between` tag lacks a second limit
    (`ValidateHasOutcome`), so with both conditions exactly one (`ValidateExactlyOne`).
- `ValidatorTests`: the cases of validator_test.go, stated as lemmas that pin the exact
  list of errors each test struct produces.

Some consequences of the code in validator.go:

- A tag is split on every `:`, so `len:1:2` has three parts and is a
  syntax error.
- A tag with an empty name such as `:5` splits into two parts. It therefore reports
  "Unexpected validator option", not a syntax error.
- `unexpected_option:heh` splits into two parts; it is the table lookup that fails.
- In `in:` on a scalar int, an unparseable token is a syntax error only if Go's map walk
  reaches it before a matching token.
- `between` does not require two integers:
  - an unparseable first limit is read as 0;
  - limits after the second are ignored.

## Model

| member | source | states |
|---|---|---|
| GoStrings.Split | validator.go:56 | strings.Split on one byte: always at least one part, and no part contains the separator |
| GoStrings.SplitCount | validator.go:56-57 | there is exactly one more part than there are separator bytes in the string |
| GoStrings.JoinSplit | validator.go:56 | joining the parts back with the separator restores the original string |
| GoStrings.SplitJoin | validator.go:116 | splitting a join of separator-free parts gives those parts back |
| GoStrings.SplitNoSeparator | validator.go:56 | a string without the separator splits to itself alone |
| GoStrings.SplitAfterPrefix | validator.go:56-57 | a separator-free prefix followed by the separator becomes the first part; the rest splits independently |
| GoStrings.Atoi | validator.go:85 | strconv.Atoi succeeds exactly on an optional sign followed by one or more digits; a leading '-' gives a non-positive value, anything else a non-negative one |
| GoStrings.AtoiOrZeroValues | validator.go:225 | the integer Go's Atoi returns beside its error reads every integer's decimal text back as that integer, and any non-decimal text as 0 |
| GoStrings.DigitChar | validator.go:103 | the digit character for 0..9 is a digit whose code offset is that value |
| GoStrings.NatDigitsValue | validator.go:103 | the decimal digits of n are digits, start with no sign and evaluate back to n |
| GoStrings.AtoiItoa | validator.go:103 | parsing the "%d" text of any integer gives that integer back |
| ValidationErrors.ConcatWithAppend | validator.go:24-30 | concatenating the images of a + b is the concatenation of the images of a and of b |
| ValidationErrors.ConcatAppend | validator.go:24-30 | the aggregate text of a + b is the text of a followed by the text of b |
| ValidationErrors.ConcatSingle | validator.go:24-30 | a one-entry aggregate prints exactly its entry's message |
| ValidationErrors.PositionInMessage | validator.go:103 | a slice failure's message carries, right after its fixed prefix, the decimal text of the failing position |
| ValidationErrors.ErrorText | validator.go:24-30 | the accumulating loop returns the messages of all entries concatenated in order, with no separator |
| Checkers.FirstFailing | validator.go:101-105 | None exactly when every element passes; otherwise the index of the first element that fails, every earlier one passing |
| Checkers.Measure | validator.go:89-109 | unsupported shapes give a syntax error; otherwise success exactly when every measured length or integer is within the bound; a failure is a value error of the rule, with a position exactly for slices, naming the first element outside the bound |
| Checkers.MeasureValue | validator.go:181-220 | the string/int/slice/other type switch returns exactly Measure |
| Checkers.MeasureTexts | validator.go:206-217 | the early-exit loop over a []string returns exactly Measure: pass, or the first element whose byte length is outside the bound |
| Checkers.MeasureInts | validator.go:194-205 | the early-exit loop over an []int returns exactly Measure: pass, or the first element outside the bound |
| Checkers.LenSpec | validator.go:84-110 | an unparseable length or a value other than string or []string is a syntax error; success exactly when every byte length equals the parsed length; failures are ValidationErrors |
| Checkers.CheckLen | validator.go:84-110 | validateLen's control flow returns exactly LenSpec |
| Checkers.LenNegativeNeverMatches | validator.go:91-104 | a negative length fails a string, and fails a non-empty []string at position 0 |
| Checkers.MinSpec | validator.go:176-221 | unparseable minimum or unsupported shape is a syntax error; success exactly when every length or integer is at least the minimum; failures are ValidationErrors |
| Checkers.CheckMin | validator.go:176-221 | validateMin's control flow returns exactly MinSpec |
| Checkers.MaxSpec | validator.go:272-317 | unparseable maximum or unsupported shape is a syntax error; success exactly when every length or integer is at most the maximum; failures are ValidationErrors |
| Checkers.CheckMax | validator.go:272-317 | validateMax's control flow returns exactly MaxSpec |
| Checkers.BetweenSpec | validator.go:223-270 | only the second limit's parse error is a syntax error; an unsupported shape is a syntax error; success exactly when every length or integer lies between the first limit (0 if unparseable) and the second |
| Checkers.CheckBetween | validator.go:223-270 | validateBetween's control flow returns exactly BetweenSpec |
| Checkers.BetweenReadsOnlyTwoLimits | validator.go:224-226 | two parameters whose second limits match and whose first limits read the same give the same verdict |
| Checkers.BetweenIgnoresExtraLimits | validator.go:224-226 | appending further comma-separated limits does not change between's verdict |
| Checkers.BetweenFirstLimitDefaultsToZero | validator.go:225-227 | an unparseable first limit behaves exactly like the limit 0 |
| Checkers.TokenSetOfJoin | validator.go:116-120 | a parameter made of comma-free tokens joined by commas has exactly those tokens as the keys of its token set |
| Checkers.CheckIn | validator.go:112-173 | validateIn's control flow, including its map walk in any order, returns a verdict InAllows admits |
| Checkers.InDeterministic | validator.go:128-136 | outside the map-order case, any two verdicts validateIn may return are equal |
| Checkers.InAmbiguousAdmitsBoth | validator.go:128-136 | when the value matches one token and another token is unparseable, both success and a syntax error are possible |
| Checkers.InEmptyParameter | validator.go:113-115 | an empty parameter refuses every value with "Field value isn't allowed" |
| Checkers.InScalarInt | validator.go:127-137 | on an int with parseable tokens, success exactly when some token equals the value, else the value failure; with no match and an unparseable token, a syntax error |
| Checkers.InIntSliceParsesAllTokens | validator.go:151-158 | on an []int any unparseable token is a syntax error, whatever the elements |
| Checkers.InPassMeans | validator.go:112-173 | success means a non-empty parameter and a string, each string element, the int or each int element equal to some token; an []int also needs every token to parse; other shapes never succeed |
| Checkers.Check | validator.go:41-45 | the dispatch runs the checker the table registers for the rule |
| Checkers.CheckersFailWithValidationErrors | validator.go:66-70 | every failure any checker may return is a ValidationError, so the abort branch is never taken |
| Validator.ValidatorsTable | validator.go:41-45 | the table maps exactly the five names, each to its own rule, and no name contains ':' |
| Validator.ParseTag | validator.go:56-65 | a tag that does not split into exactly two parts is a syntax error; a first part outside the table is an unexpected option; otherwise the tag is the rule's name, ':', and a parameter without ':' |
| Validator.ParseTagOfName | validator.go:56-65 | name:param with no ':' in param parses back to that rule and parameter |
| Validator.Tagged | validator.go:48-51 | a field is kept exactly when it is one of the fields and carries a tag; no more are kept than there are fields |
| Validator.TaggedConcat | validator.go:46-50 | selecting the tagged fields keeps their order: it distributes over concatenation |
| Validator.Validate | validator.go:32-82 | a non-struct gives exactly ErrNotStruct; the abort branch is never taken; the result is one the field walk admits (Possible) |
| Validator.UnexportedFieldReported | validator.go:52-55 | a tagged unexported field adds exactly ErrValidateForUnexportedFields, whatever its tag |
| Validator.CollectsField | validator.go:47-76 | walking one more field appends exactly what that field adds |
| Validator.CollectsConcat | validator.go:47-76 | walking two runs of fields collects their lists one after the other, preserving field order |
| Validator.CollectsAtMostOnePerField | validator.go:47-76 | the walk collects at most one entry per field |
| Validator.CollectsOnlyTagged | validator.go:48-51 | untagged fields, exported or not, change nothing: the walk collects the same as over the tagged fields alone |
| Validator.AtMostOneErrorPerTaggedField | validator.go:47-76 | at most one entry per tagged field |
| Validator.NilIffEveryFieldPasses | validator.go:77-81 | the result is nil exactly when no field adds anything |
| Validator.NoTaggedFields | validator.go:48-51 | a struct without tags has no tagged fields |
| Validator.UntaggedStructIsValid | validator_test.go:50-66 | a struct whose fields carry no tags, including one with no fields, has nil as its only outcome |
| Validator.FieldAllowsDeterministic | validator.go:48-75 | outside validateIn's map-order case any two contributions a field may add are equal |
| Validator.CollectsDeterministic | validator.go:47-76 | outside that case any two lists the walk may collect are equal |
| Validator.ValidateDeterministic | validator.go:32-82 | outside that case a record has at most one outcome |
| Checkers.CheckerHasVerdict | validator.go:84-315 | each of the five checkers, between given a second limit, returns some verdict |
| Validator.FieldHasContribution | validator.go:48-75 | a field whose checker does not panic adds nothing or one error |
| Validator.CollectsSome | validator.go:46-76 | when no field panics, the walk collects some list |
| Validator.ValidateHasOutcome | validator.go:32-82 | wherever Validate is callable it has an outcome |
| Validator.ValidateExactlyOne | validator.go:32-82 | with no panicking field and no field in the map-order case, a record has exactly one outcome |
| Validator.CollectsEach | validator.go:47-76 | walking fields that each add os[i] collects the errors among os, in order |
| Validator.ValidateExactly | validator.go:77-81 | when each field's contribution is determined, the outcomes are exactly nil (no errors) or the list of errors, in field order |
| Validator.ValidateAllFail | validator.go:47-81 | when every field adds an error, the one outcome is exactly those errors in field order |
| Validator.ValidateAllPass | validator.go:47-81 | when no field adds anything, the one outcome is nil |
| Validator.PresentAllSome | validator.go:47-76 | contributions that are all errors keep every error, in order |
| Validator.PresentAllNone | validator.go:77-78 | contributions that are all empty give no errors |
| ValidatorTests.UnexportedTagged | validator_test.go:67-79 | the unexported tagged field gives exactly one entry, whose text is ErrValidateForUnexportedFields' text |
| ValidatorTests.LenNotANumber | validator_test.go:80-92 | len:abcdef gives exactly one syntax error, printed as ErrInvalidValidatorSyntax |
| ValidatorTests.ValidTagged | validator_test.go:93-125 | the twelve-field struct of passing len, in, min and max constraints validates to nil |
| ValidatorTests.WrongLength | validator_test.go:126-148 | the five len fields give five entries: four mismatches and, for %12, a syntax error |
| ValidatorTests.WrongIn | validator_test.go:149-171 | the five in fields give five entries: three refusals, a syntax error for 5-, a refusal for the empty list |
| ValidatorTests.WrongMin | validator_test.go:172-194 | the five min fields give two value errors and three syntax errors |
| ValidatorTests.WrongMax | validator_test.go:195-219 | the six max fields give three value errors and three syntax errors |
| ValidatorTests.UnexpectedName | validator_test.go:220-234 | unexpected_option:heh gives exactly one "Unexpected validator option" entry |
| ValidatorTests.SliceIn | validator_test.go:235-249 | the first []string element outside the list is reported at position 1 |
| ValidatorTests.SliceSpacedBounds | validator_test.go:250-266 | "max: 4" and "min: 4" are syntax errors, two entries |
| ValidatorTests.SliceLen | validator_test.go:267-281 | the first []string element of another length is reported at position 2 |
| ValidatorTests.BetweenText | validator_test.go:282-296 | a 3-byte string is outside between:15,35, one entry |
| ValidatorTests.ValidSlices | validator_test.go:297-321 | the eight-field struct of passing slice constraints and between:3,17 validates to nil |

## Left out

- Reflection is not modelled. Type and value lookup, tag lookup, `IsExported` and the type
  switches become the `Record`, `Field` and `Value` datatypes. A named type that fails the
  concrete type switch is `Value.Other`.
- A field of interface type (such as `any`) holding a string or an int is not modelled. Go's
  type switch reaches the `string` or `int` case for it, but `v.String()` then returns the
  text `<interface {} Value>` and `v.Int()` panics (validator.go:91, 123, 133, 183, 189, 232,
  238, 279, 285). The model has no `Value` for such a field; its `Str` and `Int` stand for
  fields of type string and int.
- A `nil` argument is not modelled: `reflect.TypeOf(nil).Kind()` panics in Go.
- Validate: a `between` tag whose parameter has no comma panics in Go on `limits[1]`.
  The model makes "no field panics" a precondition instead of modelling the panic.
- GoStrings.Atoi: 64-bit range errors are not modelled. Integers are unbounded, and
  `Atoi` is the pure digit grammar.
- The map order in `validateIn`'s scalar-int branch is not chosen. When a matching token and
  an unparseable token coexist, both success and a syntax error are admitted.
- Error identity is not modelled: `pkg/errors` stack capture, `errors.Is`/`errors.As`, and
  the sentinel pointers. Error kinds are constructors, each with its exact message text.
- The re-assertions `if slice, ok = v.Interface().([]T); !ok` inside the slice cases cannot
  fail once the type switch has matched. The model has no branch for them.
- The testify harness of validator_test.go is not modelled. Its cases appear as lemmas
  about the outcomes Validate may return. The three non-struct cases are covered by
  Validate's contract, and the two empty or untagged structs by UntaggedStructIsValid.
