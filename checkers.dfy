/**
 * The five checkers of validator.go (validateLen, validateIn, validateMin, validateMax,
 * validateBetween). Each takes a field's value and the parameter part of its tag and
 * returns success or an error. The value is one of the shapes the checkers' type
 * switches distinguish: string, int, []string, []int, or anything else.
 */
module Checkers {
  import opened Wrappers
  import opened GoStrings
  import opened ValidationErrors

  /** A field's runtime value, as seen by the checkers' type switches. */
  datatype Value = Str(s: Bytes) | Int(n: int) | StrSlice(ss: seq<Bytes>) | IntSlice(ns: seq<int>) | Other

  /** The error a checker returns: a ValidationError, or any other error value. */
  datatype CheckError = Validation(ve: ValidationError) | Foreign

  /** A checker's (bool, error) result: (true, nil) or (false, err). */
  datatype Verdict = Pass | Fail(err: CheckError)

  const Syntax: Verdict := Fail(Validation(SyntaxError))

  predicate IsSlice(v: Value) { v.StrSlice? || v.IntSlice? }

  /** Integers and integer slices give integer failures; everything else text failures. */
  function SubjectOf(v: Value): Subject {
    if v.Int? || v.IntSlice? then Integer else Text
  }

  // ---------------------------------------------------------------------------
  // The early-exit slice loops: the first element that fails a test
  // ---------------------------------------------------------------------------

  /** k is the first index of s whose element fails ok. */
  predicate FirstFailureAt<T>(s: seq<T>, ok: T -> bool, k: nat) {
    k < |s| && !ok(s[k]) && forall j :: 0 <= j < k ==> ok(s[j])
  }

  /** The index of the first element of s that fails ok, if any. */
  function FirstFailing<T>(s: seq<T>, ok: T -> bool): (k: Option<nat>)
    ensures k.None? <==> forall i :: 0 <= i < |s| ==> ok(s[i])
    ensures k.Some? ==> FirstFailureAt(s, ok, k.value)
  {
    if s == [] then None
    else if !ok(s[0]) then Some(0)
    else
      match FirstFailing(s[1..], ok)
      case None => None
      case Some(j) => Some(j + 1)
  }

  /** The verdict of a slice loop: pass, or a value error naming the failing position. */
  function SliceVerdict(rule: Rule, subject: Subject, k: Option<nat>): Verdict {
    match k
    case None => Pass
    case Some(i) => Fail(Validation(ValueError(rule, subject, Some(i))))
  }

  // ---------------------------------------------------------------------------
  // len, min, max and between: a bound on byte lengths or integers
  // ---------------------------------------------------------------------------

  /** The comparison each numeric checker makes. */
  datatype Bound = Exactly(n: int) | AtLeast(lo: int) | AtMost(hi: int) | Range(lo: int, hi: int)

  predicate Within(b: Bound, q: int) {
    match b
    case Exactly(n) => q == n
    case AtLeast(lo) => q >= lo
    case AtMost(hi) => q <= hi
    case Range(lo, hi) => lo <= q <= hi
  }

  /** The shapes a numeric checker handles; len handles no integer shape. */
  predicate Supported(v: Value, intsAllowed: bool) {
    v.Str? || v.StrSlice? || (intsAllowed && (v.Int? || v.IntSlice?))
  }

  /** Every measured quantity of v (a byte length, an integer, or each element's) lies within b. */
  predicate Meets(b: Bound, v: Value) {
    match v
    case Str(s) => Within(b, |s|)
    case Int(n) => Within(b, n)
    case StrSlice(ss) => forall i :: 0 <= i < |ss| ==> Within(b, |ss[i]|)
    case IntSlice(ns) => forall i :: 0 <= i < |ns| ==> Within(b, ns[i])
    case Other => false
  }

  /** k is the first element of slice v whose quantity lies outside b. */
  predicate FirstOutside(b: Bound, v: Value, k: nat) {
    match v
    case StrSlice(ss) =>
      k < |ss| && !Within(b, |ss[k]|) && forall j :: 0 <= j < k ==> Within(b, |ss[j]|)
    case IntSlice(ns) =>
      k < |ns| && !Within(b, ns[k]) && forall j :: 0 <= j < k ==> Within(b, ns[j])
    case _ => false
  }

  /** A value error of the given rule about v, at a position exactly when v is a slice. */
  predicate RuleFailure(rule: Rule, v: Value, r: Verdict) {
    r.Fail? && r.err.Validation? && r.err.ve.ValueError?
    && r.err.ve.rule == rule && r.err.ve.subject == SubjectOf(v)
    && (r.err.ve.pos.Some? <==> IsSlice(v))
  }

  /** The shape switch shared by validateLen, validateMin, validateMax and validateBetween. */
  function Measure(rule: Rule, b: Bound, v: Value, intsAllowed: bool): (r: Verdict)
    ensures !Supported(v, intsAllowed) ==> r == Syntax
    ensures Supported(v, intsAllowed) ==> (r.Pass? <==> Meets(b, v))
    ensures Supported(v, intsAllowed) && r.Fail? ==> RuleFailure(rule, v, r)
    ensures RuleFailure(rule, v, r) && IsSlice(v) ==> FirstOutside(b, v, r.err.ve.pos.value)
  {
    match v
    case Str(s) => if Within(b, |s|) then Pass else Fail(Validation(ValueError(rule, Text, None)))
    case Int(n) =>
      if !intsAllowed then Syntax
      else if Within(b, n) then Pass
      else Fail(Validation(ValueError(rule, Integer, None)))
    case StrSlice(ss) => SliceVerdict(rule, Text, FirstFailing(ss, (e: Bytes) => Within(b, |e|)))
    case IntSlice(ns) =>
      if !intsAllowed then Syntax
      else SliceVerdict(rule, Integer, FirstFailing(ns, (e: int) => Within(b, e)))
    case Other => Syntax
  }

  /** The type switch of a numeric checker. */
  method MeasureValue(rule: Rule, b: Bound, v: Value, intsAllowed: bool) returns (r: Verdict)
    ensures r == Measure(rule, b, v, intsAllowed)
  {
    match v {
      case Str(s) =>
        if !Within(b, |s|) {
          return Fail(Validation(ValueError(rule, Text, None)));
        }
        return Pass;
      case Int(n) =>
        if !intsAllowed {
          return Syntax;
        }
        if !Within(b, n) {
          return Fail(Validation(ValueError(rule, Integer, None)));
        }
        return Pass;
      case StrSlice(ss) =>
        r := MeasureTexts(rule, b, ss);
      case IntSlice(ns) =>
        if !intsAllowed {
          return Syntax;
        }
        r := MeasureInts(rule, b, ns);
      case Other =>
        return Syntax;
    }
  }

  /** The early-exit loop over a []string: the byte length of each element against b. */
  method MeasureTexts(rule: Rule, b: Bound, ss: seq<Bytes>) returns (r: Verdict)
    ensures r == Measure(rule, b, StrSlice(ss), true)
  {
    for i := 0 to |ss|
      invariant forall j :: 0 <= j < i ==> Within(b, |ss[j]|)
    {
      if !Within(b, |ss[i]|) {
        ghost var ok := (e: Bytes) => Within(b, |e|);
        assert FirstFailureAt(ss, ok, i);
        return Fail(Validation(ValueError(rule, Text, Some(i))));
      }
    }
    return Pass;
  }

  /** The early-exit loop over an []int: each element against b. */
  method MeasureInts(rule: Rule, b: Bound, ns: seq<int>) returns (r: Verdict)
    ensures r == Measure(rule, b, IntSlice(ns), true)
  {
    for i := 0 to |ns|
      invariant forall j :: 0 <= j < i ==> Within(b, ns[j])
    {
      if !Within(b, ns[i]) {
        ghost var ok := (e: int) => Within(b, e);
        assert FirstFailureAt(ns, ok, i);
        return Fail(Validation(ValueError(rule, Integer, Some(i))));
      }
    }
    return Pass;
  }

  // ---------------------------------------------------------------------------
  // validateLen
  // ---------------------------------------------------------------------------

  /** len:n — the byte length of a string, or of every element of a []string, is n. */
  function LenSpec(v: Value, param: Bytes): (r: Verdict)
    ensures Atoi(param).None? ==> r == Syntax
    ensures !(v.Str? || v.StrSlice?) ==> r == Syntax
    ensures r.Pass? <==> Atoi(param).Some? && (v.Str? || v.StrSlice?) && Meets(Exactly(Atoi(param).value), v)
    ensures r.Fail? ==> r.err.Validation?
  {
    match Atoi(param)
    case None => Syntax
    case Some(n) => Measure(Len, Exactly(n), v, false)
  }

  method CheckLen(v: Value, param: Bytes) returns (r: Verdict)
    ensures r == LenSpec(v, param)
  {
    var expected := Atoi(param);
    if expected.None? {
      return Syntax;
    }
    r := MeasureValue(Len, Exactly(expected.value), v, false);
  }

  /** A negative length never matches: a string fails, and so does the first element of a []string. */
  lemma LenNegativeNeverMatches(v: Value, param: Bytes)
    requires v.Str? || (v.StrSlice? && |v.ss| > 0)
    requires Atoi(param).Some? && Atoi(param).value < 0
    ensures LenSpec(v, param) == Fail(Validation(ValueError(Len, Text, if v.Str? then None else Some(0))))
  {
  }

  // ---------------------------------------------------------------------------
  // validateMin and validateMax
  // ---------------------------------------------------------------------------

  /** min:m — byte lengths and integers are at least m. */
  function MinSpec(v: Value, param: Bytes): (r: Verdict)
    ensures Atoi(param).None? ==> r == Syntax
    ensures v.Other? ==> r == Syntax
    ensures r.Pass? <==> Atoi(param).Some? && Meets(AtLeast(Atoi(param).value), v)
    ensures r.Fail? ==> r.err.Validation?
  {
    match Atoi(param)
    case None => Syntax
    case Some(m) => Measure(Min, AtLeast(m), v, true)
  }

  method CheckMin(v: Value, param: Bytes) returns (r: Verdict)
    ensures r == MinSpec(v, param)
  {
    var min := Atoi(param);
    if min.None? {
      return Syntax;
    }
    r := MeasureValue(Min, AtLeast(min.value), v, true);
  }

  /** max:m — byte lengths and integers are at most m. */
  function MaxSpec(v: Value, param: Bytes): (r: Verdict)
    ensures Atoi(param).None? ==> r == Syntax
    ensures v.Other? ==> r == Syntax
    ensures r.Pass? <==> Atoi(param).Some? && Meets(AtMost(Atoi(param).value), v)
    ensures r.Fail? ==> r.err.Validation?
  {
    match Atoi(param)
    case None => Syntax
    case Some(m) => Measure(Max, AtMost(m), v, true)
  }

  method CheckMax(v: Value, param: Bytes) returns (r: Verdict)
    ensures r == MaxSpec(v, param)
  {
    var max := Atoi(param);
    if max.None? {
      return Syntax;
    }
    r := MeasureValue(Max, AtMost(max.value), v, true);
  }

  // ---------------------------------------------------------------------------
  // validateBetween
  // ---------------------------------------------------------------------------

  /** The parameter has a second comma-separated limit; without one Go's limits[1] panics. */
  predicate BetweenCallable(param: Bytes) { |Split(param, ',')| >= 2 }

  /**
   * between:lo,hi — byte lengths and integers lie in [lo, hi]. Only the second limit's
   * parse error is reported; an unparseable first limit is read as 0.
   */
  function BetweenSpec(v: Value, param: Bytes): (r: Verdict)
    requires BetweenCallable(param)
    ensures Atoi(Split(param, ',')[1]).None? ==> r == Syntax
    ensures v.Other? ==> r == Syntax
    ensures r.Pass? <==> (Atoi(Split(param, ',')[1]).Some?
                          && Meets(Range(AtoiOrZero(Split(param, ',')[0]), Atoi(Split(param, ',')[1]).value), v))
    ensures r.Fail? ==> r.err.Validation?
  {
    var limits := Split(param, ',');
    var min := AtoiOrZero(limits[0]);
    match Atoi(limits[1])
    case None => Syntax
    case Some(max) => Measure(Between, Range(min, max), v, true)
  }

  method CheckBetween(v: Value, param: Bytes) returns (r: Verdict)
    requires BetweenCallable(param)
    ensures r == BetweenSpec(v, param)
  {
    var limits := Split(param, ',');
    var min := AtoiOrZero(limits[0]);
    var max := Atoi(limits[1]);
    if max.None? {
      return Syntax;
    }
    r := MeasureValue(Between, Range(min, max.value), v, true);
  }

  /** between reads nothing of its parameter but the values of the first two limits. */
  lemma BetweenReadsOnlyTwoLimits(v: Value, p1: Bytes, p2: Bytes)
    requires BetweenCallable(p1) && BetweenCallable(p2)
    requires Split(p1, ',')[1] == Split(p2, ',')[1]
    requires AtoiOrZero(Split(p1, ',')[0]) == AtoiOrZero(Split(p2, ',')[0])
    ensures BetweenSpec(v, p1) == BetweenSpec(v, p2)
  {
  }

  /** Limits after the second are ignored. */
  lemma BetweenIgnoresExtraLimits(v: Value, lo: Bytes, hi: Bytes, rest: Bytes)
    requires ',' !in lo && ',' !in hi
    ensures BetweenCallable(lo + [','] + hi)
    ensures BetweenCallable(lo + [','] + hi + [','] + rest)
    ensures BetweenSpec(v, lo + [','] + hi + [','] + rest) == BetweenSpec(v, lo + [','] + hi)
  {
    var p1, p2 := lo + [','] + hi + [','] + rest, lo + [','] + hi;
    SplitAfterPrefix(lo, ',', hi);
    SplitNoSeparator(hi, ',');
    assert p1 == lo + [','] + (hi + [','] + rest);
    SplitAfterPrefix(lo, ',', hi + [','] + rest);
    SplitAfterPrefix(hi, ',', rest);
    assert Split(p1, ',')[..2] == [lo, hi] == Split(p2, ',');
    BetweenReadsOnlyTwoLimits(v, p1, p2);
  }

  /** An unparseable first limit behaves exactly like the limit 0. */
  lemma BetweenFirstLimitDefaultsToZero(v: Value, lo: Bytes, hi: Bytes)
    requires ',' !in lo && ',' !in hi
    requires Atoi(lo).None?
    ensures BetweenCallable(lo + [','] + hi) && BetweenCallable("0," + hi)
    ensures BetweenSpec(v, lo + [','] + hi) == BetweenSpec(v, "0," + hi)
  {
    var zero: Bytes := "0";
    var p1, p2 := lo + [','] + hi, zero + [','] + hi;
    SplitNoSeparator(hi, ',');
    SplitAfterPrefix(lo, ',', hi);
    SplitAfterPrefix(zero, ',', hi);
    assert Split(p1, ',') == [lo, hi];
    assert Split(p2, ',') == [zero, hi];
    assert p2 == "0," + hi;
    assert DigitsValue(zero) == 0 by { assert zero[..0] == []; }
    BetweenReadsOnlyTwoLimits(v, p1, p2);
  }

  // ---------------------------------------------------------------------------
  // validateIn
  // ---------------------------------------------------------------------------

  /** The keys of the token set: every comma-separated token of the parameter. */
  function TokenSet(param: Bytes): set<Bytes> {
    set t | t in Split(param, ',')
  }

  /** A parameter written as comma-free tokens joined by commas has exactly those tokens as keys. */
  lemma TokenSetOfJoin(ts: seq<Bytes>)
    requires |ts| >= 1 && forall i :: 0 <= i < |ts| ==> ',' !in ts[i]
    ensures TokenSet(Join(ts, ',')) == set i | 0 <= i < |ts| :: ts[i]
  {
    SplitJoin(ts, ',');
  }

  /** Some token parses to n. */
  ghost predicate Listed(n: int, tokens: set<Bytes>) {
    exists t :: t in tokens && Atoi(t) == Some(n)
  }

  /** Every token parses as an integer. */
  predicate AllParse(tokens: set<Bytes>) {
    forall t :: t in tokens ==> Atoi(t).Some?
  }

  /** The error validateIn gives a value that is not in the list, or for an empty parameter. */
  function NotAllowed(v: Value): Verdict {
    Fail(Validation(ValueError(In, SubjectOf(v), None)))
  }

  /**
   * The verdicts validateIn may return. For a scalar int it walks the token set in Go's
   * unspecified map order and stops at the first token that is unparseable (syntax error)
   * or equal to the value (success), so when both kinds of token exist either is possible.
   */
  ghost predicate InAllows(v: Value, param: Bytes, r: Verdict) {
    if |param| == 0 then r == NotAllowed(v)
    else
      var tokens := TokenSet(param);
      match v
      case Str(s) => r == (if s in tokens then Pass else NotAllowed(v))
      case Int(n) =>
        (r == Pass && Listed(n, tokens))
        || (r == Syntax && !AllParse(tokens))
        || (r == NotAllowed(v) && AllParse(tokens) && !Listed(n, tokens))
      case StrSlice(ss) => r == SliceVerdict(In, Text, FirstFailing(ss, (e: Bytes) => e in tokens))
      case IntSlice(ns) =>
        if !AllParse(tokens) then r == Syntax
        else r == SliceVerdict(In, Integer, FirstFailing(ns, (e: int) => Listed(e, tokens)))
      case Other => r == Syntax
  }

  /** The one case in which validateIn's outcome depends on Go's map iteration order. */
  ghost predicate InAmbiguous(v: Value, param: Bytes) {
    |param| > 0 && v.Int? && Listed(v.n, TokenSet(param)) && !AllParse(TokenSet(param))
  }

  method CheckIn(v: Value, param: Bytes) returns (r: Verdict)
    ensures InAllows(v, param, r)
  {
    if |param| == 0 {
      return NotAllowed(v);
    }
    var tokens := Split(param, ',');
    var tokensSet: set<Bytes> := {};
    for i := 0 to |tokens|
      invariant tokensSet == set j | 0 <= j < i :: tokens[j]
    {
      tokensSet := tokensSet + {tokens[i]};
    }
    assert tokensSet == TokenSet(param) by {
      forall t ensures t in tokensSet <==> t in tokens {
        if t in tokens {
          var j :| 0 <= j < |tokens| && tokens[j] == t;
        }
      }
    }
    match v {
      case Str(s) =>
        if s in tokensSet {
          return Pass;
        }
        return NotAllowed(v);
      case Int(n) =>
        var keys := tokensSet;
        while keys != {}
          invariant keys <= tokensSet
          invariant forall t :: t in tokensSet && t !in keys ==> Atoi(t).Some? && Atoi(t).value != n
          decreases keys
        {
          var key :| key in keys;
          var val := Atoi(key);
          if val.None? {
            return Syntax;
          }
          if val.value == n {
            return Pass;
          }
          keys := keys - {key};
        }
        return NotAllowed(v);
      case StrSlice(ss) =>
        for i := 0 to |ss|
          invariant forall j :: 0 <= j < i ==> ss[j] in tokensSet
        {
          if ss[i] !in tokensSet {
            return Fail(Validation(ValueError(In, Text, Some(i))));
          }
        }
        return Pass;
      case IntSlice(ns) =>
        var keys := tokensSet;
        var tokensSetInt: set<int> := {};
        while keys != {}
          invariant keys <= tokensSet
          invariant forall t :: t in tokensSet && t !in keys ==> Atoi(t).Some? && Atoi(t).value in tokensSetInt
          invariant forall x :: x in tokensSetInt ==> Listed(x, tokensSet)
          decreases keys
        {
          var key :| key in keys;
          var elemInt := Atoi(key);
          if elemInt.None? {
            return Syntax;
          }
          tokensSetInt := tokensSetInt + {elemInt.value};
          keys := keys - {key};
        }
        for i := 0 to |ns|
          invariant forall j :: 0 <= j < i ==> Listed(ns[j], tokensSet)
        {
          if ns[i] !in tokensSetInt {
            return Fail(Validation(ValueError(In, Integer, Some(i))));
          }
        }
        return Pass;
      case Other =>
        return Syntax;
    }
  }

  /** Outside the ambiguous case validateIn has at most one outcome (CheckerHasVerdict gives one). */
  lemma InDeterministic(v: Value, param: Bytes, r1: Verdict, r2: Verdict)
    requires !InAmbiguous(v, param)
    requires InAllows(v, param, r1) && InAllows(v, param, r2)
    ensures r1 == r2
  {
  }

  /** In the ambiguous case both outcomes Go's map order can produce are admitted. */
  lemma InAmbiguousAdmitsBoth(v: Value, param: Bytes)
    requires InAmbiguous(v, param)
    ensures InAllows(v, param, Pass) && InAllows(v, param, Syntax)
  {
  }

  /** An empty parameter refuses every value, whatever its shape. */
  lemma InEmptyParameter(v: Value, r: Verdict)
    requires InAllows(v, [], r)
    ensures r == Fail(Validation(ValueError(In, SubjectOf(v), None)))
  {
  }

  /**
   * On a scalar int: with parseable tokens, success exactly when a token gives the value;
   * with no token giving it and some token unparseable, a syntax error.
   */
  lemma InScalarInt(n: int, param: Bytes, r: Verdict)
    requires |param| > 0 && InAllows(Int(n), param, r)
    ensures AllParse(TokenSet(param)) ==> (r == Pass <==> Listed(n, TokenSet(param)))
    ensures AllParse(TokenSet(param)) && r != Pass ==> r == NotAllowed(Int(n))
    ensures !AllParse(TokenSet(param)) && !Listed(n, TokenSet(param)) ==> r == Syntax
  {
  }

  /** On an []int every token must parse, even when the slice is empty. */
  lemma InIntSliceParsesAllTokens(ns: seq<int>, param: Bytes, r: Verdict)
    requires |param| > 0 && !AllParse(TokenSet(param)) && InAllows(IntSlice(ns), param, r)
    ensures r == Syntax
  {
  }

  /** When in: succeeds: the value, or every element, equals some comma-separated token. */
  lemma InPassMeans(v: Value, param: Bytes)
    requires InAllows(v, param, Pass)
    ensures |param| > 0
    ensures v.Str? ==> v.s in Split(param, ',')
    ensures v.Int? ==> Listed(v.n, TokenSet(param))
    ensures v.StrSlice? ==> forall i :: 0 <= i < |v.ss| ==> v.ss[i] in Split(param, ',')
    ensures v.IntSlice? ==> AllParse(TokenSet(param))
    ensures v.IntSlice? ==> forall i :: 0 <= i < |v.ns| ==> Listed(v.ns[i], TokenSet(param))
    ensures !v.Other?
  {
    var tokens := TokenSet(param);
    match v
    case Str(s) =>
    case Int(n) =>
    case StrSlice(ss) =>
      assert FirstFailing(ss, (e: Bytes) => e in tokens).None?;
    case IntSlice(ns) =>
      assert FirstFailing(ns, (e: int) => Listed(e, tokens)).None?;
    case Other =>
  }

  // ---------------------------------------------------------------------------
  // The dispatch table
  // ---------------------------------------------------------------------------

  /** r is a result the checker registered for rule may return for v and param. */
  ghost predicate CheckAllows(rule: Rule, v: Value, param: Bytes, r: Verdict) {
    match rule
    case Len => r == LenSpec(v, param)
    case In => InAllows(v, param, r)
    case Min => r == MinSpec(v, param)
    case Max => r == MaxSpec(v, param)
    case Between => BetweenCallable(param) && r == BetweenSpec(v, param)
  }

  /** Calls the checker the table holds for rule. */
  method Check(rule: Rule, v: Value, param: Bytes) returns (r: Verdict)
    requires rule == Between ==> BetweenCallable(param)
    ensures CheckAllows(rule, v, param, r)
  {
    match rule {
      case Len => r := CheckLen(v, param);
      case In => r := CheckIn(v, param);
      case Min => r := CheckMin(v, param);
      case Max => r := CheckMax(v, param);
      case Between => r := CheckBetween(v, param);
    }
  }

  /** Every failure any of the five checkers returns is a ValidationError. */
  lemma CheckersFailWithValidationErrors(rule: Rule, v: Value, param: Bytes, r: Verdict)
    requires CheckAllows(rule, v, param, r)
    requires r.Fail?
    ensures r.err.Validation?
  {
  }

  /** Every checker but a between without a second limit returns some verdict. */
  lemma CheckerHasVerdict(rule: Rule, v: Value, param: Bytes)
    requires rule == Between ==> BetweenCallable(param)
    ensures exists r :: CheckAllows(rule, v, param, r)
  {
    match rule
    case Len => assert CheckAllows(rule, v, param, LenSpec(v, param));
    case Min => assert CheckAllows(rule, v, param, MinSpec(v, param));
    case Max => assert CheckAllows(rule, v, param, MaxSpec(v, param));
    case Between => assert CheckAllows(rule, v, param, BetweenSpec(v, param));
    case In =>
      var tokens := TokenSet(param);
      var r: Verdict :=
        if |param| == 0 then NotAllowed(v)
        else match v
          case Str(s) => if s in tokens then Pass else NotAllowed(v)
          case Int(n) =>
            if Listed(n, tokens) then Pass else if !AllParse(tokens) then Syntax else NotAllowed(v)
          case StrSlice(ss) => SliceVerdict(In, Text, FirstFailing(ss, (e: Bytes) => e in tokens))
          case IntSlice(ns) =>
            if !AllParse(tokens) then Syntax
            else SliceVerdict(In, Integer, FirstFailing(ns, (e: int) => Listed(e, tokens)))
          case Other => Syntax;
      assert CheckAllows(rule, v, param, r);
  }
}
