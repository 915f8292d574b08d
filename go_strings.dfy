/**
 * The parts of Go's standard library the validator relies on, on byte strings:
 * strings.Split with a one-byte separator, strconv.Atoi (decimal parsing) and
 * strconv.Itoa / "%d" (decimal formatting, used in the position messages).
 */
module GoStrings {
  import opened Wrappers

  /** A Go string is a sequence of bytes; byte b is represented by the character with code b. */
  type Byte = c: char | c as int < 256 witness '0'
  type Bytes = seq<Byte>

  // ---------------------------------------------------------------------------
  // strings.Split(s, sep) for a one-byte separator, and its inverse strings.Join
  // ---------------------------------------------------------------------------

  /** The pieces of s between occurrences of sep; "" splits to [""]. */
  function Split(s: Bytes, sep: Byte): (parts: seq<Bytes>)
    ensures |parts| >= 1
    ensures forall i :: 0 <= i < |parts| ==> sep !in parts[i]
  {
    if s == [] then [[]]
    else
      var rest := Split(s[1..], sep);
      assert s == [s[0]] + s[1..];
      if s[0] == sep then [[]] + rest
      else [[s[0]] + rest[0]] + rest[1..]
  }

  /** The parts glued back together with sep between consecutive parts. */
  function Join(parts: seq<Bytes>, sep: Byte): Bytes
    requires |parts| >= 1
  {
    if |parts| == 1 then parts[0] else parts[0] + [sep] + Join(parts[1..], sep)
  }

  /** There is one more part than there are separators. */
  lemma {:induction false} SplitCount(s: Bytes, sep: Byte)
    ensures |Split(s, sep)| == multiset(s)[sep] + 1
  {
    if s != [] {
      assert s == [s[0]] + s[1..];
      SplitCount(s[1..], sep);
    }
  }

  /** Joining the parts of a split gives back the original string. */
  lemma {:induction false} JoinSplit(s: Bytes, sep: Byte)
    ensures Join(Split(s, sep), sep) == s
  {
    if s != [] {
      JoinSplit(s[1..], sep);
      var rest := Split(s[1..], sep);
      if s[0] != sep && |rest| > 1 {
        assert Split(s, sep)[1..] == rest[1..];
      }
    }
  }

  /** Splitting a join of separator-free parts gives back the parts. */
  lemma {:induction false} SplitJoin(parts: seq<Bytes>, sep: Byte)
    requires |parts| >= 1
    requires forall i :: 0 <= i < |parts| ==> sep !in parts[i]
    ensures Split(Join(parts, sep), sep) == parts
  {
    if |parts| == 1 {
      SplitNoSeparator(parts[0], sep);
    } else {
      SplitJoin(parts[1..], sep);
      SplitAfterPrefix(parts[0], sep, Join(parts[1..], sep));
      assert parts == [parts[0]] + parts[1..];
    }
  }

  /** A string without the separator is a single part. */
  lemma {:induction false} SplitNoSeparator(s: Bytes, sep: Byte)
    requires sep !in s
    ensures Split(s, sep) == [s]
  {
    if s != [] {
      assert s == [s[0]] + s[1..];
      SplitNoSeparator(s[1..], sep);
    }
  }

  /** The first part is everything before the first separator. */
  lemma {:induction false} SplitAfterPrefix(a: Bytes, sep: Byte, b: Bytes)
    requires sep !in a
    ensures Split(a + [sep] + b, sep) == [a] + Split(b, sep)
  {
    if a == [] {
      assert a + [sep] + b == [sep] + b;
      assert ([sep] + b)[1..] == b;
    } else {
      var s := a + [sep] + b;
      assert s[0] == a[0] && s[1..] == a[1..] + [sep] + b;
      SplitAfterPrefix(a[1..], sep, b);
      assert [a[0]] + a[1..] == a;
    }
  }

  // ---------------------------------------------------------------------------
  // strconv.Atoi and strconv.Itoa
  // ---------------------------------------------------------------------------

  predicate IsDigit(c: Byte) { '0' <= c <= '9' }

  /** One or more ASCII digits. */
  predicate IsDigits(s: Bytes) { |s| > 0 && forall i :: 0 <= i < |s| ==> IsDigit(s[i]) }

  predicate IsSign(c: Byte) { c == '+' || c == '-' }

  /** The grammar strconv.Atoi accepts in base 10: an optional sign, then one or more digits. */
  predicate IsDecimal(s: Bytes) {
    IsDigits(s) || (|s| >= 1 && IsSign(s[0]) && IsDigits(s[1..]))
  }

  /** The value of a run of digits, most significant first. */
  function DigitsValue(s: Bytes): nat
    requires forall i :: 0 <= i < |s| ==> IsDigit(s[i])
  {
    if s == [] then 0
    else
      assert IsDigit(s[|s| - 1]);
      DigitsValue(s[..|s| - 1]) * 10 + (s[|s| - 1] as int - '0' as int)
  }

  /**
   * strconv.Atoi(s): Some(n) on success, None where Go returns a syntax error
   * (Go then also returns the value 0, see AtoiOrZero).
   */
  function Atoi(s: Bytes): (r: Option<int>)
    ensures r.Some? <==> IsDecimal(s)
    ensures r.Some? && |s| > 0 && s[0] == '-' ==> r.value <= 0
    ensures r.Some? && |s| > 0 && s[0] != '-' ==> r.value >= 0
  {
    if |s| >= 1 && IsSign(s[0]) then
      if IsDigits(s[1..]) then
        var m: int := DigitsValue(s[1..]);
        Some(if s[0] == '-' then -m else m)
      else None
    else if IsDigits(s) then Some(DigitsValue(s))
    else None
  }

  /** The integer strconv.Atoi returns alongside its error: 0 on a syntax error. */
  function AtoiOrZero(s: Bytes): int {
    match Atoi(s)
    case Some(n) => n
    case None => 0
  }

  function DigitChar(d: int): (c: Byte)
    requires 0 <= d < 10
    ensures IsDigit(c) && c as int - '0' as int == d
  {
    ('0' as int + d) as char
  }

  /** The shortest decimal digits of n. */
  function NatDigits(n: nat): Bytes
    decreases n
  {
    if n < 10 then [DigitChar(n)] else NatDigits(n / 10) + [DigitChar(n % 10)]
  }

  /** strconv.Itoa(n), which is also what "%d" prints. */
  function Itoa(n: int): Bytes {
    if n < 0 then ['-'] + NatDigits(-n) else NatDigits(n)
  }

  lemma {:induction false} NatDigitsValue(n: nat)
    ensures IsDigits(NatDigits(n))
    ensures DigitsValue(NatDigits(n)) == n
    ensures NatDigits(n)[0] != '-'
    decreases n
  {
    if n >= 10 {
      NatDigitsValue(n / 10);
      var a := NatDigits(n / 10);
      var s := a + [DigitChar(n % 10)];
      assert s[..|s| - 1] == a;
    }
  }

  /** Atoi undoes Itoa: every integer prints to a string that parses back to it. */
  lemma AtoiItoa(n: int)
    ensures Atoi(Itoa(n)) == Some(n)
  {
    if n < 0 {
      NatDigitsValue(-n);
      assert Itoa(n)[1..] == NatDigits(-n);
    } else {
      NatDigitsValue(n);
    }
  }

  /**
   * The integer Go's Atoi returns beside its error: the value of a decimal text (every
   * integer's own text among them), and 0 for a text that is not decimal.
   */
  lemma AtoiOrZeroValues(n: int, s: Bytes)
    ensures AtoiOrZero(Itoa(n)) == n
    ensures !IsDecimal(s) ==> AtoiOrZero(s) == 0
  {
    AtoiItoa(n);
  }
}
