/**
 * Validate (validator.go:32-82): walks the fields of a struct in declaration order,
 * skips untagged fields, reports tagged unexported fields, parses each remaining
 * `validate` tag into a rule and its parameter, runs the rule's checker, and collects
 * every failure into a ValidationErrors list. Reflection is replaced by plain data: a
 * record is either not a struct or a sequence of fields, each with its exportedness,
 * its `validate` tag (if any) and its value.
 */
module Validator {
  import opened Wrappers
  import opened GoStrings
  import opened ValidationErrors
  import opened Checkers

  /** One struct field: whether it is exported, its `validate` tag if present, and its value. */
  datatype Field = Field(exported: bool, tag: Option<Bytes>, value: Value)

  /** The argument of Validate: a struct with its fields, or a value of any other kind. */
  datatype Record = NotStruct | Struct(fields: seq<Field>)

  /** What Validate returns: nil, ErrNotStruct, a non-empty ValidationErrors, or an aborting error. */
  datatype Outcome = Nil | ErrNotStruct | Errors(vs: seq<ValidationError>) | Aborted(err: CheckError)

  // ---------------------------------------------------------------------------
  // The rule parser
  // ---------------------------------------------------------------------------

  /** The option names of the dispatch table (validator.go:41-45). */
  const Validators: map<Bytes, Rule> :=
    map["len" := Len, "in" := In, "min" := Min, "max" := Max, "between" := Between]

  function Name(rule: Rule): Bytes {
    match rule
    case Len => "len"
    case In => "in"
    case Min => "min"
    case Max => "max"
    case Between => "between"
  }

  /** The table maps exactly the five names, each to its own rule. */
  lemma ValidatorsTable()
    ensures forall rule :: Name(rule) in Validators && Validators[Name(rule)] == rule
    ensures forall name :: name in Validators ==> Name(Validators[name]) == name
    ensures forall rule :: ':' !in Name(rule)
  {
    forall rule ensures ':' !in Name(rule) {
      var n := Name(rule);
      assert forall i :: 0 <= i < |n| ==> n[i] != ':';
    }
  }

  /**
   * Splits a tag on every ':' and looks the first part up in the table: a syntax error
   * unless there are exactly two parts, an unexpected option unless the first part is
   * one of the five names, else the rule and the parameter.
   */
  function ParseTag(tag: Bytes): (r: Result<(Rule, Bytes), ValidationError>)
    ensures |Split(tag, ':')| != 2 ==> r == Failure(SyntaxError)
    ensures |Split(tag, ':')| == 2 ==> (r == Failure(UnexpectedOption) <==> Split(tag, ':')[0] !in Validators)
    ensures r.Failure? ==> r.error == SyntaxError || r.error == UnexpectedOption
    ensures r.Success? ==> tag == Name(r.value.0) + [':'] + r.value.1 && ':' !in r.value.1
  {
    var rule := Split(tag, ':');
    if |rule| != 2 then Failure(SyntaxError)
    else if rule[0] !in Validators then Failure(UnexpectedOption)
    else
      JoinSplit(tag, ':');
      ValidatorsTable();
      assert rule[1..] == [rule[1]];
      Success((Validators[rule[0]], rule[1]))
  }

  /** A tag written as name:param, with no ':' in param, parses back to that rule and param. */
  lemma ParseTagOfName(rule: Rule, param: Bytes)
    requires ':' !in param
    ensures ParseTag(Name(rule) + [':'] + param) == Success((rule, param))
  {
    ValidatorsTable();
    SplitAfterPrefix(Name(rule), ':', param);
    SplitNoSeparator(param, ':');
  }

  // ---------------------------------------------------------------------------
  // What one field contributes, and what a whole struct may collect
  // ---------------------------------------------------------------------------

  /** The field's checker is between with a parameter lacking a second limit: Go panics. */
  ghost predicate Panics(f: Field) {
    f.tag.Some? && f.exported
    && var parsed := ParseTag(f.tag.value);
    parsed.Success? && parsed.value.0 == Between && !BetweenCallable(parsed.value.1)
  }

  /** The field's checker is validateIn on a scalar int in its map-order-dependent case. */
  ghost predicate FieldAmbiguous(f: Field) {
    f.tag.Some? && f.exported
    && var parsed := ParseTag(f.tag.value);
    parsed.Success? && parsed.value.0 == In && InAmbiguous(f.value, parsed.value.1)
  }

  /** The checker result that stands for "adds nothing" or "adds e". */
  function VerdictOf(o: Option<ValidationError>): Verdict {
    match o
    case None => Pass
    case Some(e) => Fail(Validation(e))
  }

  /** o is what the field may add to the list: nothing, or one error (validator.go:48-75). */
  ghost predicate FieldAllows(f: Field, o: Option<ValidationError>) {
    match f.tag
    case None => o == None
    case Some(tag) =>
      if !f.exported then o == Some(UnexportedField)
      else
        match ParseTag(tag)
        case Failure(e) => o == Some(e)
        case Success((rule, param)) => CheckAllows(rule, f.value, param, VerdictOf(o))
  }

  /** vs is a list the field walk may collect over fs, one entry at most per field, in order. */
  ghost predicate Collects(fs: seq<Field>, vs: seq<ValidationError>)
    decreases |fs|
  {
    if fs == [] then vs == []
    else
      var f, rest := fs[|fs| - 1], fs[..|fs| - 1];
      (FieldAllows(f, None) && Collects(rest, vs))
      || (vs != [] && FieldAllows(f, Some(vs[|vs| - 1])) && Collects(rest, vs[..|vs| - 1]))
  }

  /** out is a result Validate may return for r. */
  ghost predicate Possible(r: Record, out: Outcome) {
    match r
    case NotStruct => out == ErrNotStruct
    case Struct(fs) =>
      match out
      case Nil => Collects(fs, [])
      case Errors(vs) => vs != [] && Collects(fs, vs)
      case _ => false
  }

  /** The fields that carry a `validate` tag, in order. */
  function Tagged(fs: seq<Field>): (ts: seq<Field>)
    ensures |ts| <= |fs|
    ensures forall i :: 0 <= i < |ts| ==> ts[i].tag.Some?
    ensures forall f :: f in ts <==> f in fs && f.tag.Some?
  {
    if fs == [] then []
    else Tagged(fs[..|fs| - 1]) + (if fs[|fs| - 1].tag.Some? then [fs[|fs| - 1]] else [])
  }

  /** Selecting the tagged fields keeps their order: it distributes over concatenation. */
  lemma {:induction false} TaggedConcat(a: seq<Field>, b: seq<Field>)
    ensures Tagged(a + b) == Tagged(a) + Tagged(b)
    decreases |b|
  {
    if b == [] {
      assert a + b == a;
    } else {
      var init := b[..|b| - 1];
      var last := b[|b| - 1];
      assert (a + b)[..|a + b| - 1] == a + init;
      assert (a + b)[|a + b| - 1] == last;
      TaggedConcat(a, init);
    }
  }

  // ---------------------------------------------------------------------------
  // Validate
  // ---------------------------------------------------------------------------

  method Validate(r: Record) returns (out: Outcome)
    requires r.Struct? ==> forall i :: 0 <= i < |r.fields| ==> !Panics(r.fields[i])
    ensures r.NotStruct? <==> out == ErrNotStruct
    ensures !out.Aborted?
    ensures Possible(r, out)
  {
    if r.NotStruct? {
      return ErrNotStruct;
    }
    var fields := r.fields;
    var vs: seq<ValidationError> := [];
    for i := 0 to |fields|
      invariant Collects(fields[..i], vs)
    {
      var field := fields[i];
      assert fields[..i + 1][..i] == fields[..i];
      var before := vs;
      if field.tag.None? {
        // no `validate` tag: skipped
      } else if !field.exported {
        vs := vs + [UnexportedField];
      } else {
        var parsed := ParseTag(field.tag.value);
        if parsed.Failure? {
          vs := vs + [parsed.error];
        } else {
          var (rule, param) := parsed.value;
          assert !Panics(field);
          var verdict := Check(rule, field.value, param);
          if verdict.Fail? {
            var err := verdict.err;
            if !err.Validation? {
              // not a ValidationError: abort with it (never taken by the five checkers)
              CheckersFailWithValidationErrors(rule, field.value, param, verdict);
              assert false;
              return Aborted(err);
            }
            vs := vs + [err.ve];
          }
        }
      }
      assert vs == before || (vs == before + [vs[|vs| - 1]] && vs[..|vs| - 1] == before);
    }
    assert fields[..|fields|] == fields;
    if |vs| == 0 {
      return Nil;
    }
    return Errors(vs);
  }

  // ---------------------------------------------------------------------------
  // Properties of the field walk
  // ---------------------------------------------------------------------------

  /** A tagged unexported field adds exactly ErrValidateForUnexportedFields, whatever its tag says. */
  lemma UnexportedFieldReported(f: Field, o: Option<ValidationError>)
    requires f.tag.Some? && !f.exported
    ensures FieldAllows(f, o) <==> o == Some(UnexportedField)
  {
  }

  /** Appending a field to the walk appends what the field adds. */
  lemma CollectsField(fs: seq<Field>, vs: seq<ValidationError>, f: Field, o: Option<ValidationError>)
    requires Collects(fs, vs) && FieldAllows(f, o)
    ensures Collects(fs + [f], vs + (if o.Some? then [o.value] else []))
  {
    var fs' := fs + [f];
    assert fs'[..|fs|] == fs && fs'[|fs|] == f;
    if o.Some? {
      var vs' := vs + [o.value];
      assert vs'[..|vs|] == vs && vs'[|vs|] == o.value;
    } else {
      assert vs + [] == vs;
    }
  }

  /** Walking two runs of fields one after the other collects their lists in that order. */
  lemma {:induction false} CollectsConcat(a: seq<Field>, x: seq<ValidationError>, b: seq<Field>, y: seq<ValidationError>)
    requires Collects(a, x) && Collects(b, y)
    ensures Collects(a + b, x + y)
    decreases |b|
  {
    if b == [] {
      assert a + b == a && x + y == x;
    } else {
      var f, b' := b[|b| - 1], b[..|b| - 1];
      assert a + b == (a + b') + [f];
      if FieldAllows(f, None) && Collects(b', y) {
        CollectsConcat(a, x, b', y);
        CollectsField(a + b', x + y, f, None);
      } else {
        var e, y' := y[|y| - 1], y[..|y| - 1];
        assert y == y' + [e];
        CollectsConcat(a, x, b', y');
        CollectsField(a + b', x + y', f, Some(e));
        assert x + y == (x + y') + [e];
      }
    }
  }

  /** Every field adds at most one entry. */
  lemma {:induction false} CollectsAtMostOnePerField(fs: seq<Field>, vs: seq<ValidationError>)
    requires Collects(fs, vs)
    ensures |vs| <= |fs|
    decreases |fs|
  {
    if fs != [] {
      var rest := fs[..|fs| - 1];
      if Collects(rest, vs) {
        CollectsAtMostOnePerField(rest, vs);
      } else {
        CollectsAtMostOnePerField(rest, vs[..|vs| - 1]);
      }
    }
  }

  /** Untagged fields are skipped: the walk collects over fs exactly what it collects over its tagged fields. */
  lemma {:induction false} CollectsOnlyTagged(fs: seq<Field>)
    ensures forall vs :: Collects(fs, vs) <==> Collects(Tagged(fs), vs)
    decreases |fs|
  {
    if fs != [] {
      var f, rest := fs[|fs| - 1], fs[..|fs| - 1];
      CollectsOnlyTagged(rest);
      if f.tag.Some? {
        var ts := Tagged(rest) + [f];
        assert Tagged(fs) == ts;
        assert ts[..|ts| - 1] == Tagged(rest);
      } else {
        assert Tagged(fs) == Tagged(rest);
      }
    }
  }

  /** At most one entry per tagged field. */
  lemma AtMostOneErrorPerTaggedField(fs: seq<Field>, vs: seq<ValidationError>)
    requires Collects(fs, vs)
    ensures |vs| <= |Tagged(fs)|
  {
    CollectsOnlyTagged(fs);
    CollectsAtMostOnePerField(Tagged(fs), vs);
  }

  /** Validate returns nil exactly when every field adds nothing. */
  lemma {:induction false} NilIffEveryFieldPasses(fs: seq<Field>)
    ensures Possible(Struct(fs), Nil) <==> forall i :: 0 <= i < |fs| ==> FieldAllows(fs[i], None)
    decreases |fs|
  {
    if fs != [] {
      var rest := fs[..|fs| - 1];
      NilIffEveryFieldPasses(rest);
      assert forall i :: 0 <= i < |rest| ==> rest[i] == fs[i];
    }
  }

  /** A struct none of whose fields is tagged (including one with no fields) always validates to nil. */
  lemma UntaggedStructIsValid(fs: seq<Field>, out: Outcome)
    requires forall i :: 0 <= i < |fs| ==> fs[i].tag.None?
    ensures Possible(Struct(fs), out) <==> out == Nil
  {
    NoTaggedFields(fs);
    NilIffEveryFieldPasses(fs);
    forall vs | Collects(fs, vs) ensures vs == [] {
      AtMostOneErrorPerTaggedField(fs, vs);
    }
  }

  lemma {:induction false} NoTaggedFields(fs: seq<Field>)
    requires forall i :: 0 <= i < |fs| ==> fs[i].tag.None?
    ensures Tagged(fs) == []
    decreases |fs|
  {
    if fs != [] {
      NoTaggedFields(fs[..|fs| - 1]);
    }
  }

  /** Outside validateIn's map-order case, one field never has two different contributions. */
  lemma FieldAllowsDeterministic(f: Field, o1: Option<ValidationError>, o2: Option<ValidationError>)
    requires !FieldAmbiguous(f)
    requires FieldAllows(f, o1) && FieldAllows(f, o2)
    ensures o1 == o2
  {
    if f.tag.Some? && f.exported {
      match ParseTag(f.tag.value)
      case Failure(_) =>
      case Success((rule, param)) =>
        if rule == In {
          InDeterministic(f.value, param, VerdictOf(o1), VerdictOf(o2));
        }
    }
  }

  /** Without validateIn's map-order case, any two lists the walk may collect are the same. */
  lemma {:induction false} CollectsDeterministic(fs: seq<Field>, x: seq<ValidationError>, y: seq<ValidationError>)
    requires forall i :: 0 <= i < |fs| ==> !FieldAmbiguous(fs[i])
    requires Collects(fs, x) && Collects(fs, y)
    ensures x == y
    decreases |fs|
  {
    if fs != [] {
      var f, rest := fs[|fs| - 1], fs[..|fs| - 1];
      assert forall i :: 0 <= i < |rest| ==> rest[i] == fs[i];
      var ox := if FieldAllows(f, None) && Collects(rest, x) then None else Some(x[|x| - 1]);
      var oy := if FieldAllows(f, None) && Collects(rest, y) then None else Some(y[|y| - 1]);
      FieldAllowsDeterministic(f, ox, oy);
      var x' := if ox.None? then x else x[..|x| - 1];
      var y' := if oy.None? then y else y[..|y| - 1];
      CollectsDeterministic(rest, x', y');
      if ox.Some? {
        assert x == x' + [x[|x| - 1]] && y == y' + [y[|y| - 1]];
      }
    }
  }

  /** Without validateIn's map-order case, a record has at most one possible outcome. */
  lemma ValidateDeterministic(r: Record, out1: Outcome, out2: Outcome)
    requires r.Struct? ==> forall i :: 0 <= i < |r.fields| ==> !FieldAmbiguous(r.fields[i])
    requires Possible(r, out1) && Possible(r, out2)
    ensures out1 == out2
  {
    if r.Struct? {
      var x := if out1.Nil? then [] else out1.vs;
      var y := if out2.Nil? then [] else out2.vs;
      CollectsDeterministic(r.fields, x, y);
    }
  }

  /** A field whose checker does not panic adds something: nothing, or one error. */
  lemma FieldHasContribution(f: Field)
    requires !Panics(f)
    ensures exists o :: FieldAllows(f, o)
  {
    if f.tag.None? {
      assert FieldAllows(f, None);
    } else if !f.exported {
      assert FieldAllows(f, Some(UnexportedField));
    } else {
      match ParseTag(f.tag.value)
      case Failure(e) =>
        assert FieldAllows(f, Some(e));
      case Success((rule, param)) =>
        CheckerHasVerdict(rule, f.value, param);
        var r :| CheckAllows(rule, f.value, param, r);
        if r.Fail? {
          CheckersFailWithValidationErrors(rule, f.value, param, r);
        }
        var o := if r.Pass? then None else Some(r.err.ve);
        assert VerdictOf(o) == r;
        assert FieldAllows(f, o);
    }
  }

  /** When no field panics, the field walk collects some list. */
  lemma {:induction false} CollectsSome(fs: seq<Field>)
    requires forall i :: 0 <= i < |fs| ==> !Panics(fs[i])
    ensures exists vs :: Collects(fs, vs)
    decreases |fs|
  {
    if fs == [] {
      assert Collects(fs, []);
    } else {
      var f, rest := fs[|fs| - 1], fs[..|fs| - 1];
      assert forall i :: 0 <= i < |rest| ==> rest[i] == fs[i];
      CollectsSome(rest);
      var vs :| Collects(rest, vs);
      FieldHasContribution(f);
      var o :| FieldAllows(f, o);
      if o.None? {
        assert Collects(fs, vs);
      } else {
        var ws := vs + [o.value];
        assert ws[..|ws| - 1] == vs;
        assert Collects(fs, ws);
      }
    }
  }

  /** Wherever Validate is callable (no field panics), it has an outcome. */
  lemma ValidateHasOutcome(r: Record)
    requires r.Struct? ==> forall i :: 0 <= i < |r.fields| ==> !Panics(r.fields[i])
    ensures exists out :: Possible(r, out)
  {
    if r.NotStruct? {
      assert Possible(r, ErrNotStruct);
    } else {
      CollectsSome(r.fields);
      var vs :| Collects(r.fields, vs);
      assert Possible(r, if vs == [] then Nil else Errors(vs));
    }
  }

  /**
   * When no field panics and none falls into validateIn's map-order case, a record has
   * exactly one outcome.
   */
  lemma ValidateExactlyOne(r: Record)
    requires r.Struct? ==> forall i :: 0 <= i < |r.fields| ==> !Panics(r.fields[i]) && !FieldAmbiguous(r.fields[i])
    ensures exists out :: Possible(r, out) && forall other :: Possible(r, other) ==> other == out
  {
    ValidateHasOutcome(r);
    var out :| Possible(r, out);
    forall other | Possible(r, other) ensures other == out {
      ValidateDeterministic(r, out, other);
    }
  }

  /** The errors among the contributions os, in order. */
  function Present(os: seq<Option<ValidationError>>): seq<ValidationError> {
    if os == [] then []
    else
      var o := os[|os| - 1];
      Present(os[..|os| - 1]) + (if o.Some? then [o.value] else [])
  }

  /** Walking fields whose contributions are os collects the errors of os, in order. */
  lemma {:induction false} CollectsEach(fs: seq<Field>, os: seq<Option<ValidationError>>)
    requires |os| == |fs|
    requires forall i :: 0 <= i < |fs| ==> FieldAllows(fs[i], os[i])
    ensures Collects(fs, Present(os))
    decreases |fs|
  {
    if fs != [] {
      var n := |fs| - 1;
      assert fs == fs[..n] + [fs[n]];
      CollectsEach(fs[..n], os[..n]);
      CollectsField(fs[..n], Present(os[..n]), fs[n], os[n]);
    }
  }

  /**
   * When every field's contribution is known and none is map-order dependent, Validate
   * returns nil if no field adds anything and otherwise exactly the added errors in order.
   */
  lemma ValidateExactly(fs: seq<Field>, os: seq<Option<ValidationError>>, out: Outcome)
    requires |os| == |fs|
    requires forall i :: 0 <= i < |fs| ==> FieldAllows(fs[i], os[i]) && !FieldAmbiguous(fs[i])
    ensures Possible(Struct(fs), out) <==> out == if Present(os) == [] then Nil else Errors(Present(os))
  {
    CollectsEach(fs, os);
    if Possible(Struct(fs), out) {
      CollectsDeterministic(fs, if out.Nil? then [] else out.vs, Present(os));
    }
  }

  /** When every field adds its own error, Validate returns exactly those errors in field order. */
  lemma ValidateAllFail(fs: seq<Field>, vs: seq<ValidationError>, out: Outcome)
    requires |vs| == |fs| > 0
    requires forall i :: 0 <= i < |fs| ==> FieldAllows(fs[i], Some(vs[i])) && !FieldAmbiguous(fs[i])
    ensures Possible(Struct(fs), out) <==> out == Errors(vs)
  {
    var os := seq(|vs|, i requires 0 <= i < |vs| => Some(vs[i]));
    PresentAllSome(vs, os);
    ValidateExactly(fs, os, out);
  }

  /** When no field adds anything, Validate returns nil and nothing else. */
  lemma ValidateAllPass(fs: seq<Field>, out: Outcome)
    requires forall i :: 0 <= i < |fs| ==> FieldAllows(fs[i], None) && !FieldAmbiguous(fs[i])
    ensures Possible(Struct(fs), out) <==> out == Nil
  {
    var os := seq(|fs|, i requires 0 <= i < |fs| => None);
    PresentAllNone(os);
    ValidateExactly(fs, os, out);
  }

  lemma {:induction false} PresentAllSome(vs: seq<ValidationError>, os: seq<Option<ValidationError>>)
    requires |os| == |vs| && forall i :: 0 <= i < |vs| ==> os[i] == Some(vs[i])
    ensures Present(os) == vs
    decreases |vs|
  {
    if vs != [] {
      var n := |vs| - 1;
      PresentAllSome(vs[..n], os[..n]);
      assert vs == vs[..n] + [vs[n]];
    }
  }

  lemma {:induction false} PresentAllNone(os: seq<Option<ValidationError>>)
    requires forall i :: 0 <= i < |os| ==> os[i] == None
    ensures Present(os) == []
    decreases |os|
  {
    if os != [] {
      PresentAllNone(os[..|os| - 1]);
    }
  }
}
