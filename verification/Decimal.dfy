/** Decimal sizes: the canonical field of a loose object's header, and the printing it inverts. */
module Decimal {
  import opened Options
  import opened Bytes

  predicate IsDigit(c: char) {
    '0' <= c <= '9'
  }

  function DigitValue(c: char): (d: nat)
    requires IsDigit(c)
    ensures d < 10
  {
    c as int - '0' as int
  }

  function DigitChar(d: nat): (c: char)
    requires d < 10
    ensures IsDigit(c) && DigitValue(c) == d
  {
    ('0' as int + d) as char
  }

  /** The decimal form without leading zeros, as strconv.AppendInt prints it. */
  function Print(n: nat): (s: string)
    ensures |s| >= 1 && forall i :: 0 <= i < |s| ==> IsDigit(s[i])
  {
    if n < 10 then [DigitChar(n)] else Print(n / 10) + [DigitChar(n % 10)]
  }

  lemma {:induction false} PrintLeading(n: nat)
    ensures Print(n)[0] == '0' <==> n == 0
    ensures |Print(n)| > 1 <==> n >= 10
  {
    if n >= 10 {
      PrintLeading(n / 10);
    }
  }

  /** parseLooseSize's loop over the digits from position i on. */
  function SizeFrom(s: string, i: nat, n: nat): Option<nat>
    requires i <= |s|
    decreases |s| - i
  {
    if i == |s| then Some(n)
    else if !IsDigit(s[i]) then None
    else if n > (U63 - 1 - DigitValue(s[i])) / 10 then None
    else SizeFrom(s, i + 1, n * 10 + DigitValue(s[i]))
  }

  function LooseSize(s: string): Option<nat> {
    if s == "" || (|s| > 1 && s[0] == '0') then None else SizeFrom(s, 0, 0)
  }

  method ParseLooseSize(s: string) returns (r: Option<nat>)
    ensures r == LooseSize(s)
  {
    if s == "" {
      return None;
    }
    if |s| > 1 && s[0] == '0' {
      return None;
    }
    var n: nat := 0;
    for i := 0 to |s|
      invariant SizeFrom(s, i, n) == LooseSize(s)
    {
      var c := s[i];
      if c < '0' || c > '9' {
        return None;
      }
      if n > (U63 - 1 - DigitValue(c)) / 10 {
        return None;
      }
      n := n * 10 + DigitValue(c);
    }
    return Some(n);
  }

  /** The overflow guard refuses a digit exactly when the next value leaves int64. */
  lemma GuardExact(n: nat, d: nat)
    requires d < 10
    ensures n > (U63 - 1 - d) / 10 <==> n * 10 + d >= U63
  {
  }

  /** Reading the printed digits of m brings any loop that has room for them to m. */
  lemma {:induction false} PrintedReads(s: string, i: nat, m: nat)
    requires i <= |s| && m < U63 && s[..i] == Print(m)
    ensures SizeFrom(s, 0, 0) == SizeFrom(s, i, m)
  {
    if m < 10 {
      assert s[0] == s[..i][0];
    } else {
      assert s[..i - 1] == s[..i][..i - 1] == Print(m / 10);
      PrintedReads(s, i - 1, m / 10);
      assert s[i - 1] == s[..i][i - 1];
      GuardExact(m / 10, m % 10);
    }
  }

  lemma PrintNext(s: string, i: nat, n: nat, d: nat)
    requires 1 <= i < |s| && s[..i] == Print(n) && s[0] != '0' && IsDigit(s[i]) && d == DigitValue(s[i])
    ensures s[..i + 1] == Print(n * 10 + d)
  {
    PrintLeading(n);
    assert s[0] == s[..i][0];
    assert DigitChar(d) == s[i];
    assert s[..i + 1] == s[..i] + [s[i]];
  }

  lemma {:induction false} ReadIsPrinted(s: string, i: nat, n: nat)
    requires 1 <= i <= |s| && s[..i] == Print(n) && n < U63 && (s[0] == '0' ==> |s| == 1)
    ensures var r := SizeFrom(s, i, n); r.Some? ==> r.value < U63 && s == Print(r.value)
    decreases |s| - i
  {
    if i == |s| {
      assert s[..i] == s;
    } else if IsDigit(s[i]) {
      var d := DigitValue(s[i]);
      GuardExact(n, d);
      if n * 10 + d < U63 {
        assert s[..i + 1] == Print(n * 10 + d) by { PrintNext(s, i, n, d); }
        ReadIsPrinted(s, i + 1, n * 10 + d);
      }
    }
  }

  /** parseLooseSize inverts decimal printing on exactly 0..2^63-1 and accepts nothing else. */
  lemma LooseSizeExact(s: string, n: nat)
    ensures LooseSize(s) == Some(n) <==> n < U63 && s == Print(n)
  {
    if LooseSize(s) == Some(n) {
      var d := if IsDigit(s[0]) then DigitValue(s[0]) else 0;
      if IsDigit(s[0]) {
        assert DigitChar(d) == s[0];
        assert s[..1] == Print(d);
        ReadIsPrinted(s, 1, d);
        assert SizeFrom(s, 0, 0) == SizeFrom(s, 1, d);
      }
    }
    if n < U63 && s == Print(n) {
      PrintLeading(n);
      assert s[..|s|] == s;
      PrintedReads(s, |s|, n);
    }
  }

  /** Numbers to the letter. */
  lemma Letters()
    ensures Print(0) == "0" && Print(42) == "42" && Print(907) == "907" && LooseSize("907") == Some(907)
  {
    assert Print(90) == "90";
    LooseSizeExact("907", 907);
  }
}
