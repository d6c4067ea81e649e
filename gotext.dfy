/**
 * The two Go standard-library text functions the node manager's constructor
 * relies on (netutils/clusternodemanager.go:57 and :68), stated with the
 * semantics Go gives them: `strings.Split(s, ":")` and
 * `strconv.ParseUint(s, 10, 16)`.
 */
module GoText {
  import opened Wrappers

  const COLON: char := ':'
  const MAX_UINT16: nat := 65535

  /** Number of occurrences of c in s. */
  function Count(s: string, c: char): nat
  {
    if s == [] then 0 else (if s[0] == c then 1 else 0) + Count(s[1..], c)
  }

  /**
   * strings.Split(s, ":"): the pieces of s between colons, in order; a string
   * with k colons has k + 1 pieces (the empty string has one empty piece).
   */
  function Split(s: string): (parts: seq<string>)
    ensures |parts| >= 1
  {
    if s == [] then [""]
    else
      var rest := Split(s[1..]);
      if s[0] == COLON then [""] + rest
      else [[s[0]] + rest[0]] + rest[1..]
  }

  /** strings.Join(parts, ":"), the inverse of Split. */
  function Join(parts: seq<string>): string
    requires |parts| >= 1
  {
    if |parts| == 1 then parts[0] else parts[0] + [COLON] + Join(parts[1..])
  }

  /** Split cuts at every colon and nowhere else: one more piece than colons. */
  lemma {:induction false} SplitCount(s: string)
    ensures |Split(s)| == Count(s, COLON) + 1
  {
    if s != [] {
      SplitCount(s[1..]);
    }
  }

  /** No piece contains the separator. */
  lemma {:induction false} SplitPiecesHaveNoColon(s: string)
    ensures forall i :: 0 <= i < |Split(s)| ==> COLON !in Split(s)[i]
  {
    if s != [] {
      SplitPiecesHaveNoColon(s[1..]);
    }
  }

  /** Joining the pieces with colons rebuilds the input: nothing is lost. */
  lemma {:induction false} JoinSplit(s: string)
    ensures Join(Split(s)) == s
  {
    if s != [] {
      var rest := Split(s[1..]);
      JoinSplit(s[1..]);
      if s[0] != COLON {
        if |rest| == 1 {
          assert Split(s) == [[s[0]] + rest[0]];
        } else {
          var parts := Split(s);
          assert parts[1..] == rest[1..];
          assert Join(parts) == [s[0]] + rest[0] + [COLON] + Join(rest[1..]);
        }
      }
    }
  }

  /** A string without a colon is a single piece. */
  lemma {:induction false} SplitNoColon(a: string)
    requires COLON !in a
    ensures Split(a) == [a]
  {
    if a != [] {
      assert COLON !in a[1..];
      SplitNoColon(a[1..]);
      assert [a[0]] + a[1..] == a;
    }
  }

  /** The first colon ends the first piece; the rest is split on its own. */
  lemma {:induction false} SplitAtFirstColon(a: string, b: string)
    requires COLON !in a
    ensures Split(a + [COLON] + b) == [a] + Split(b)
  {
    var s := a + [COLON] + b;
    if a == [] {
      assert s[1..] == b;
    } else {
      assert s[1..] == a[1..] + [COLON] + b;
      assert COLON !in a[1..];
      SplitAtFirstColon(a[1..], b);
      assert [s[0]] + a[1..] == a;
    }
  }

  /**
   * An entry splits into exactly two pieces iff it has exactly one colon, and
   * then it is host + ":" + port with neither piece holding a colon.
   */
  lemma HostPortShape(s: string)
    ensures |Split(s)| == 2 <==> Count(s, COLON) == 1
    ensures |Split(s)| == 2 ==>
      s == Split(s)[0] + [COLON] + Split(s)[1] &&
      COLON !in Split(s)[0] && COLON !in Split(s)[1]
  {
    SplitCount(s);
    SplitPiecesHaveNoColon(s);
    JoinSplit(s);
    if |Split(s)| == 2 {
      assert Split(s)[1..] == [Split(s)[1]];
    }
  }

  predicate IsDigit(c: char)
  {
    '0' <= c <= '9'
  }

  predicate AllDigits(s: string)
  {
    forall i :: 0 <= i < |s| ==> IsDigit(s[i])
  }

  /** The value of a decimal numeral, last digit least significant. */
  function DecimalValue(s: string): nat
    requires AllDigits(s)
  {
    if s == [] then 0
    else DecimalValue(s[..|s| - 1]) * 10 + (s[|s| - 1] as int - '0' as int)
  }

  /** The two failures of strconv.ParseUint: `ErrSyntax` and `ErrRange`. */
  datatype NumError = ErrSyntax | ErrRange

  /**
   * strconv.ParseUint(s, 10, 16): empty input is a syntax error; the digits
   * are read left to right; a character that is not a decimal digit is a
   * syntax error, and a running value above 65535 is a range error at once,
   * whatever follows.
   */
  function ParseUint16(s: string): (r: Result<nat, NumError>)
    ensures s == [] ==> r == Failure(ErrSyntax)
    ensures r.Success? ==> r.value <= MAX_UINT16
  {
    if s == [] then Failure(ErrSyntax) else ScanDigits(s, 0, 0)
  }

  /** The scan loop of ParseUint from position i, with n the value of the digits read so far. */
  function ScanDigits(s: string, i: nat, n: nat): (r: Result<nat, NumError>)
    requires i <= |s| && n <= MAX_UINT16
    ensures r.Success? ==> n <= r.value <= MAX_UINT16
    decreases |s| - i
  {
    if i == |s| then Success(n)
    else if !IsDigit(s[i]) then Failure(ErrSyntax)
    else
      var n1 := n * 10 + (s[i] as int - '0' as int);
      if n1 > MAX_UINT16 then Failure(ErrRange) else ScanDigits(s, i + 1, n1)
  }

  /** A longer numeral never has a smaller value than its prefix. */
  lemma {:induction false} DecimalValuePrefix(s: string, j: nat)
    requires AllDigits(s) && j <= |s|
    ensures DecimalValue(s[..j]) <= DecimalValue(s)
  {
    if j < |s| {
      var p := s[..|s| - 1];
      assert p[..j] == s[..j];
      DecimalValuePrefix(p, j);
    } else {
      assert s[..j] == s;
    }
  }

  lemma {:induction false} ScanDigitsValue(s: string, i: nat, n: nat)
    requires i <= |s| && AllDigits(s) && n == DecimalValue(s[..i]) && n <= MAX_UINT16
    ensures ScanDigits(s, i, n) ==
      if DecimalValue(s) <= MAX_UINT16 then Success(DecimalValue(s)) else Failure(ErrRange)
    decreases |s| - i
  {
    if i == |s| {
      assert s[..i] == s;
    } else {
      var n1 := n * 10 + (s[i] as int - '0' as int);
      assert s[..i + 1][..i] == s[..i];
      assert n1 == DecimalValue(s[..i + 1]);
      if n1 > MAX_UINT16 {
        DecimalValuePrefix(s, i + 1);
      } else {
        ScanDigitsValue(s, i + 1, n1);
      }
    }
  }

  lemma {:induction false} ScanDigitsOnlyDigits(s: string, i: nat, n: nat)
    requires i <= |s| && n <= MAX_UINT16
    ensures ScanDigits(s, i, n).Success? ==> forall k :: i <= k < |s| ==> IsDigit(s[k])
    decreases |s| - i
  {
    if i < |s| && IsDigit(s[i]) && n * 10 + (s[i] as int - '0' as int) <= MAX_UINT16 {
      ScanDigitsOnlyDigits(s, i + 1, n * 10 + (s[i] as int - '0' as int));
    }
  }

  /**
   * A port string is accepted exactly when it is a non-empty string of
   * decimal digits whose value is at most 65535 (leading zeros allowed, no
   * sign), and the parsed value is then that value.
   */
  lemma ParseUint16Accepts(s: string)
    ensures ParseUint16(s).Success? <==>
      |s| > 0 && AllDigits(s) && DecimalValue(s) <= MAX_UINT16
    ensures ParseUint16(s).Success? ==> ParseUint16(s).value == DecimalValue(s)
  {
    if s != [] {
      ScanDigitsOnlyDigits(s, 0, 0);
      if AllDigits(s) {
        assert s[..0] == [];
        ScanDigitsValue(s, 0, 0);
      }
    }
  }

  /** A well-formed numeral above 65535 is a range error, not a syntax error. */
  lemma ParseUint16OutOfRange(s: string)
    requires |s| > 0 && AllDigits(s) && DecimalValue(s) > MAX_UINT16
    ensures ParseUint16(s) == Failure(ErrRange)
  {
    assert s[..0] == [];
    ScanDigitsValue(s, 0, 0);
  }
}
