/** strconv.Itoa and strconv.Atoi, which carry the stream limits through the handshake. */
module Decimal {
  import opened Wrappers
  import opened Bytes

  predicate IsDigit(c: char)
  {
    '0' <= c <= '9'
  }

  function DigitValue(c: char): (d: nat)
    requires IsDigit(c)
    ensures d < 10
  {
    c as nat - '0' as nat
  }

  function Digit(d: nat): (c: char)
    requires d < 10
    ensures IsDigit(c) && DigitValue(c) == d
  {
    (d + '0' as nat) as char
  }

  function Dec(n: nat): (s: string)
    ensures s != [] && forall i :: 0 <= i < |s| ==> IsDigit(s[i])
  {
    if n < 10 then [Digit(n)] else Dec(n / 10) + [Digit(n % 10)]
  }

  function Itoa(n: int): (s: string)
  {
    if n < 0 then "-" + Dec(-n) else Dec(n)
  }

  /** One or more digits. */
  function ParseDigits(s: string): (r: Option<nat>)
  {
    if s == [] || !IsDigit(s[|s| - 1]) then None
    else if |s| == 1 then Some(DigitValue(s[0]))
    else
      match ParseDigits(s[..|s| - 1])
      case None => None
      case Some(n) => Some(n * 10 + DigitValue(s[|s| - 1]))
  }

  /** An optional sign and digits, in the range of a 64-bit int. */
  function Atoi(s: string): (r: Option<int>)
  {
    if s == [] then None
    else
      var signed := s[0] == '-' || s[0] == '+';
      match ParseDigits(if signed then s[1..] else s)
      case None => None
      case Some(n) =>
        var v := if s[0] == '-' then -(n as int) else n;
        if -(INT64_LIMIT as int) <= v < INT64_LIMIT then Some(v) else None
  }

  lemma {:induction false} ParseDec(n: nat)
    ensures ParseDigits(Dec(n)) == Some(n)
  {
    if n >= 10 {
      ParseDec(n / 10);
      assert Dec(n)[..|Dec(n)| - 1] == Dec(n / 10);
    }
  }

  lemma {:induction false} AtoiItoa(n: int)
    requires -(INT64_LIMIT as int) <= n < INT64_LIMIT
    ensures Itoa(n) != "" && Atoi(Itoa(n)) == Some(n)
  {
    ParseDec(if n < 0 then -n else n);
    if n < 0 {
      assert Itoa(n)[1..] == Dec(-n);
    } else {
      assert IsDigit(Dec(n)[0]);
    }
  }

  // ---------------------------------------------------------------- digit by digit

  function Pow10(k: nat): (p: nat)
    ensures p > 0
  {
    if k == 0 then 1 else 10 * Pow10(k - 1)
  }

  lemma {:induction false} DecStep(n: nat)
    requires n >= 10
    ensures |Dec(n)| == |Dec(n / 10)| + 1 && Dec(n)[..|Dec(n)| - 1] == Dec(n / 10)
    ensures Dec(n)[|Dec(n)| - 1] as nat == '0' as nat + n % 10
  {
  }

  function DigitAt(n: nat, k: nat): (d: nat)
  {
    n / Pow10(k) % 10
  }

  lemma {:induction false} NextDigit(n: nat, k: nat)
    ensures DigitAt(n, 0) == n % 10
    ensures k > 0 ==> DigitAt(n, k) == DigitAt(n / 10, k - 1)
  {
    if k > 0 {
      DivDiv(n, 10, Pow10(k - 1), Pow10(k));
    }
  }

  lemma {:induction false} OneDigit(n: nat)
    requires n < 10
    ensures |Dec(n)| == 1 && Dec(n)[0] as nat == '0' as nat + n && n % 10 == n
  {
  }

  /** Digit k from the right is that of 10^k. */
  lemma {:induction false} DecDigits(n: nat, k: nat)
    requires k < |Dec(n)|
    ensures Dec(n)[|Dec(n)| - 1 - k] as nat == '0' as nat + DigitAt(n, k)
  {
    hide Dec, DigitAt;
    NextDigit(n, k);
    if n >= 10 {
      DecStep(n);
      if k > 0 {
        DecDigits(n / 10, k - 1);
        assert Dec(n)[|Dec(n)| - 1 - k] == Dec(n)[..|Dec(n)| - 1][|Dec(n)| - 1 - k];
      }
    } else {
      OneDigit(n);
    }
  }

  /** And there are no leading zeros. */
  lemma {:induction false} NoLeadingZero(n: nat)
    requires n > 0
    ensures Dec(n)[0] != '0'
  {
    if n >= 10 {
      NoLeadingZero(n / 10);
    }
  }

  function Zeros(k: nat): (s: string)
  {
    seq(k, _ => '0')
  }

  lemma {:induction false} ParseZeros(k: nat, n: nat)
    ensures ParseDigits(Zeros(k) + Dec(n)) == Some(n)
  {
    var s := Zeros(k) + Dec(n);
    if n >= 10 {
      ParseZeros(k, n / 10);
      assert s[..|s| - 1] == Zeros(k) + Dec(n / 10);
    } else if k > 0 {
      ParseZeros(k - 1, 0);
      assert s[..|s| - 1] == Zeros(k - 1) + Dec(0);
    }
  }

  lemma {:induction false} DigitsOf(s: string) returns (k: nat)
    requires ParseDigits(s).Some?
    ensures s == Zeros(k) + Dec(ParseDigits(s).value)
  {
    var n := |s| - 1;
    assert Digit(DigitValue(s[n])) == s[n];
    if n == 0 {
      k := 0;
      assert s == [s[0]];
    } else {
      k := DigitsOf(s[..n]);
      var m := ParseDigits(s[..n]).value;
      var v := m * 10 + DigitValue(s[n]);
      assert v / 10 == m && v % 10 == DigitValue(s[n]);
      if v < 10 {
        k := k + 1;
        assert s[..n] == Zeros(k - 1) + [Digit(0)] == Zeros(k);
      } else {
        assert Dec(v) == Dec(m) + [s[n]];
      }
      assert s == s[..n] + [s[n]];
    }
  }

  /** A sign that is allowed, some zeros, and the digits of n. */
  predicate WrittenAs(s: string, n: int, sign: string, zeros: nat)
  {
    && s == sign + (Zeros(zeros) + Dec(if n < 0 then -n else n))
    && ((sign == "" && n >= 0) || (sign == "+" && n >= 0) || (sign == "-" && n <= 0))
  }

  ghost predicate Writes(s: string, n: int)
  {
    exists sign, zeros :: WrittenAs(s, n, sign, zeros)
  }

  lemma {:induction false} AtoiPlain(s: string, m: nat)
    requires ParseDigits(s) == Some(m) && s != "" && IsDigit(s[0]) && m < INT64_LIMIT
    ensures Atoi(s) == Some(m)
  {
    hide ParseDigits;
  }

  lemma {:induction false} AtoiSigned(sign: char, s: string, m: nat)
    requires ParseDigits(s) == Some(m) && (sign == '-' || sign == '+')
    requires m < INT64_LIMIT || (sign == '-' && m == INT64_LIMIT)
    ensures Atoi([sign] + s) == Some(if sign == '-' then -(m as int) else m)
  {
    hide ParseDigits;
    assert ([sign] + s)[1..] == s;
  }

  lemma {:induction false} ReadAsWritten(s: string, n: int, sign: string, zeros: nat)
    requires WrittenAs(s, n, sign, zeros) && -(INT64_LIMIT as int) <= n < INT64_LIMIT
    ensures Atoi(s) == Some(n)
  {
    var m := if n < 0 then -n else n;
    var rest := Zeros(zeros) + Dec(m);
    ParseZeros(zeros, m);
    assert rest != "" && IsDigit(rest[0]);
    hide ParseDigits, Zeros, Dec, Atoi, IsDigit;
    if sign == "" {
      assert s == rest;
      AtoiPlain(s, m);
    } else {
      assert sign == [sign[0]];
      AtoiSigned(sign[0], rest, m);
    }
  }

  lemma {:induction false} WrittenAsRead(s: string) returns (sign: string, zeros: nat)
    requires Atoi(s).Some?
    ensures WrittenAs(s, Atoi(s).value, sign, zeros)
  {
    hide ParseDigits, Zeros, Dec;
    if s[0] == '-' || s[0] == '+' {
      zeros := DigitsOf(s[1..]);
      sign := [s[0]];
      assert s == sign + s[1..];
    } else {
      zeros := DigitsOf(s);
      sign := "";
      assert s == sign + s;
    }
  }

  /** What is read as n: exactly the ways of writing it, if it has 64 bits. */
  lemma {:induction false} AtoiIff(s: string, n: int)
    ensures Atoi(s) == Some(n) <==> Writes(s, n) && -(INT64_LIMIT as int) <= n < INT64_LIMIT
  {
    hide WrittenAs;
    if Atoi(s) == Some(n) {
      var sign, zeros := WrittenAsRead(s);
    }
    if Writes(s, n) && -(INT64_LIMIT as int) <= n < INT64_LIMIT {
      var sign, zeros :| WrittenAs(s, n, sign, zeros);
      ReadAsWritten(s, n, sign, zeros);
    }
  }
}
