/** Decimal text of integers: `String(n)` and `Number(s)`. */
module Decimal {
  import opened Wrappers

  predicate IsDigit(c: char) { '0' <= c <= '9' }

  function DigitOf(d: int): char
    requires 0 <= d < 10
  {
    (d + '0' as int) as char
  }

  function PrintNat(n: nat): (s: string)
    ensures s != "" && forall k :: 0 <= k < |s| ==> IsDigit(s[k])
  {
    if n < 10 then [DigitOf(n)] else PrintNat(n / 10) + [DigitOf(n % 10)]
  }

  function Print(n: int): (s: string)
    ensures s != "" && (s[0] == '-' || IsDigit(s[0]))
  {
    if n < 0 then "-" + PrintNat(-n) else PrintNat(n)
  }

  function ParseDigits(s: string): Option<nat> {
    if s == "" then None
    else
      var last := s[|s| - 1];
      if !IsDigit(last) then None
      else
        var digit := last as int - '0' as int;
        if |s| == 1 then Some(digit)
        else
          match ParseDigits(s[..|s| - 1])
          case None => None
          case Some(front) => Some(front * 10 + digit)
  }

  /** `None` stands for NaN. The empty string reads as 0. */
  function Parse(s: string): Option<int> {
    if s == "" then Some(0)
    else
      var digits := ParseDigits(if s[0] == '-' then s[1..] else s);
      if digits.None? then None
      else
        var n: int := digits.value;
        Some(if s[0] == '-' then -n else n)
  }

  lemma {:induction false} ParsePrintNat(n: nat)
    ensures ParseDigits(PrintNat(n)) == Some(n)
  {
    if n >= 10 {
      ParsePrintNat(n / 10);
      var s := PrintNat(n);
      assert s[..|s| - 1] == PrintNat(n / 10);
      assert s[|s| - 1] == DigitOf(n % 10);
    }
  }

  lemma ParseSigned(s: string, n: int)
    requires n >= 0 && ParseDigits(s) == Some(n) && s != "" && s[0] != '-'
    ensures Parse(s) == Some(n)
    ensures Parse("-" + s) == Some(-n)
  {
    assert ("-" + s)[0] == '-' && ("-" + s)[1..] == s;
  }

  lemma ParsePrint(n: int)
    ensures Parse(Print(n)) == Some(n)
  {
    var m := if n < 0 then -n else n;
    var s := PrintNat(m);
    ParsePrintNat(m);
    assert IsDigit(s[0]);
    ParseSigned(s, m);
  }

  /** The numbers are decimal. */
  lemma TenIsTen()
    ensures Print(0) == "0" && Print(10) == "10" && Print(404) == "404" && Print(-75) == "-75"
  {
    assert PrintNat(40) == "40" && PrintNat(4) == "4";
    assert PrintNat(404) == PrintNat(40) + "4";
  }

  lemma PrintIsNotFalse(n: int)
    ensures Print(n) != "false"
  {
    assert Print(n)[0] != "false"[0];
  }
}
