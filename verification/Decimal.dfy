/** Decimal numbers as `sprintf("%d")` writes them and `sscanf("%d")` reads them back. */
module Decimal {

  function Digit(d: nat): char
    requires d < 10
  {
    ('0' as int + d) as char
  }

  predicate IsDigit(c: char)
  {
    '0' <= c <= '9'
  }

  function PrintNat(n: nat): string
  {
    if n < 10 then [Digit(n)] else PrintNat(n / 10) + [Digit(n % 10)]
  }

  function Print(n: int): string
  {
    if n < 0 then "-" + PrintNat(-n) else PrintNat(n)
  }

  /** Reads digits onto `acc` and returns the number with the rest of the text. */
  function ScanDigits(text: string, acc: nat): (nat, string)
  {
    if text != [] && IsDigit(text[0]) then ScanDigits(text[1..], 10 * acc + (text[0] as int - '0' as int))
    else (acc, text)
  }

  /** White space of `scanf`, as `isspace` has it. */
  predicate Blank(c: char)
  {
    c == ' ' || c == '\t' || c == '\n' || c == '\U{0B}' || c == '\U{0C}' || c == '\r'
  }

  datatype Scanned = Number(value: int, rest: string) | NoNumber

  function Scan(text: string): Scanned
  {
    if text != [] && Blank(text[0]) then Scan(text[1..])
    else
      var negative := text != [] && text[0] == '-';
      var digits := if text != [] && (text[0] == '-' || text[0] == '+') then text[1..] else text;
      if digits == [] || !IsDigit(digits[0]) then NoNumber
      else
        var (n, rest) := ScanDigits(digits, 0);
        Number(if negative then 0 - n else n, rest)
  }

  lemma {:induction false} ScanDigitsOfPrint(n: nat, rest: string)
    ensures ScanDigits(PrintNat(n) + rest, 0) == ScanDigits(rest, n)
    ensures IsDigit(PrintNat(n)[0])
  {
    if n < 10 {
      assert (PrintNat(n) + rest)[1..] == rest;
    } else {
      var last := [Digit(n % 10)] + rest;
      ScanDigitsOfPrint(n / 10, last);
      assert PrintNat(n) + rest == PrintNat(n / 10) + last;
      assert last[1..] == rest;
    }
  }

  lemma ScanSign(digits: string, m: nat, rest: string)
    requires digits != [] && IsDigit(digits[0]) && ScanDigits(digits, 0) == (m, rest)
    ensures Scan(digits) == Number(m, rest)
    ensures Scan("-" + digits) == Number(0 - m, rest)
  {
    assert ("-" + digits)[1..] == digits;
  }

  /** A printed number is read back whatever non-digit follows it. */
  lemma {:induction false} ScanOfPrint(n: int, rest: string)
    requires rest == [] || !IsDigit(rest[0])
    ensures Scan(Print(n) + rest) == Number(n, rest)
  {
    var m: nat := if n < 0 then -n else n;
    ScanDigitsOfPrint(m, rest);
    ScanSign(PrintNat(m) + rest, m, rest);
    assert n < 0 ==> Print(n) + rest == "-" + (PrintNat(m) + rest);
  }
}
