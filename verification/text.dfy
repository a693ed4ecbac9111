/**
 * The few Python string built-ins the channel relies on: `str(n)` and `int(s)`
 * on decimal numbers, `s.split(sep)` and `sep.join(parts)`, and `''.join` of a
 * list of strings.
 */
module Text {
  import opened Outcomes

  /** Every character is in the ASCII range, below code point 128. */
  predicate IsAscii(s: string) {
    forall i :: 0 <= i < |s| ==> s[i] as int < 128
  }

  predicate IsDigit(c: char) {
    '0' <= c <= '9'
  }

  predicate AllDigits(s: string) {
    forall i :: 0 <= i < |s| ==> IsDigit(s[i])
  }

  function DigitChar(d: nat): (c: char)
    requires d < 10
    ensures IsDigit(c) && c as int - '0' as int == d
  {
    (d + '0' as int) as char
  }

  /** `str(n)` for a non-negative integer: its decimal digits, most significant first. */
  function Decimal(n: nat): (s: string)
    ensures |s| >= 1 && AllDigits(s)
    decreases n
  {
    if n < 10 then [DigitChar(n)] else Decimal(n / 10) + [DigitChar(n % 10)]
  }

  /** The value of a string of decimal digits (leading zeros allowed, as `int` allows them). */
  function DigitsValue(s: string): nat
    requires AllDigits(s)
  {
    if s == [] then 0 else DigitsValue(s[..|s| - 1]) * 10 + (s[|s| - 1] as int - '0' as int)
  }

  /** `int(s)` on a piece of text; `None` where `int` raises. Only plain ASCII digit strings are read. */
  function ParseDecimal(s: string): Option<nat> {
    if |s| >= 1 && AllDigits(s) then Some(DigitsValue(s)) else None
  }

  /** `str(n)` for any integer: a minus sign before the digits of a negative number. */
  function IntToDecimal(n: int): (s: string)
    ensures |s| >= 1
  {
    if n < 0 then "-" + Decimal(-n) else Decimal(n)
  }

  /** `int(str(n)) == n`: reading back a rendered number gives the number. */
  lemma {:induction false} ParseDecimalOfDecimal(n: nat)
    ensures ParseDecimal(Decimal(n)) == Some(n)
    decreases n
  {
    if n < 10 {
      var s := [DigitChar(n)];
      assert s[..0] == [];
      assert DigitsValue(s) == n;
    } else {
      ParseDecimalOfDecimal(n / 10);
      var prefix := Decimal(n / 10);
      var s := prefix + [DigitChar(n % 10)];
      assert s[..|s| - 1] == prefix;
      assert DigitsValue(s) == DigitsValue(prefix) * 10 + n % 10;
      assert n == (n / 10) * 10 + n % 10;
    }
  }

  /** `sep.join(parts)`: the parts with one separator between neighbours. */
  function Join(parts: seq<string>, sep: char): string {
    if |parts| == 0 then []
    else if |parts| == 1 then parts[0]
    else parts[0] + [sep] + Join(parts[1..], sep)
  }

  /** `s.split(sep)`: the maximal pieces between separators; never an empty list. */
  function Split(s: string, sep: char): (parts: seq<string>)
    ensures |parts| >= 1
    ensures forall k :: 0 <= k < |parts| ==> sep !in parts[k]
  {
    if s == [] then [[]]
    else
      var rest := Split(s[1..], sep);
      if s[0] == sep then [[]] + rest else [[s[0]] + rest[0]] + rest[1..]
  }

  /** Joining the pieces of a split puts the text back together. */
  lemma {:induction false} JoinSplit(s: string, sep: char)
    ensures Join(Split(s, sep), sep) == s
  {
    if s != [] {
      var rest := Split(s[1..], sep);
      JoinSplit(s[1..], sep);
      if s[0] == sep {
        assert ([[]] + rest)[1..] == rest;
      } else if |rest| > 1 {
        var parts := [[s[0]] + rest[0]] + rest[1..];
        assert parts[1..] == rest[1..];
        assert Join(rest, sep) == rest[0] + [sep] + Join(rest[1..], sep);
      }
    }
  }

  /** A piece without separators splits into itself alone. */
  lemma {:induction false} SplitPiece(a: string, sep: char)
    requires sep !in a
    ensures Split(a, sep) == [a]
  {
    if a != [] {
      SplitPiece(a[1..], sep);
      assert a[0] != sep;
      assert [a[0]] + a[1..] == a;
    }
  }

  /** A separator right after a piece closes that piece. */
  lemma {:induction false} SplitAfterPiece(a: string, b: string, sep: char)
    requires sep !in a
    ensures Split(a + [sep] + b, sep) == [a] + Split(b, sep)
  {
    if a == [] {
      assert ([sep] + b)[1..] == b;
    } else {
      SplitAfterPiece(a[1..], b, sep);
      var s := a + [sep] + b;
      assert s[0] == a[0] && a[0] != sep;
      assert s[1..] == a[1..] + [sep] + b;
      assert [a[0]] + a[1..] == a;
    }
  }

  /** Splitting a join recovers the parts, provided no part holds the separator. */
  lemma {:induction false} SplitJoin(parts: seq<string>, sep: char)
    requires |parts| >= 1
    requires forall k :: 0 <= k < |parts| ==> sep !in parts[k]
    ensures Split(Join(parts, sep), sep) == parts
    decreases |parts|
  {
    if |parts| == 1 {
      SplitPiece(parts[0], sep);
    } else {
      SplitJoin(parts[1..], sep);
      SplitAfterPiece(parts[0], Join(parts[1..], sep), sep);
      assert [parts[0]] + parts[1..] == parts;
    }
  }

  /** `[int(x) for x in fields]`; `None` as soon as one of them raises. */
  function ParseAll(fields: seq<string>): (values: Option<seq<nat>>)
    ensures values.Some? ==> |values.value| == |fields|
  {
    if fields == [] then Some([])
    else
      match (ParseDecimal(fields[0]), ParseAll(fields[1..]))
      case (Some(v), Some(vs)) => Some([v] + vs)
      case _ => None
  }

  /** `[int(x) for x in ip.split('.')]`: the numbers of a dotted address. */
  function DottedValues(ip: string): Option<seq<nat>> {
    ParseAll(Split(ip, '.'))
  }

  /** `map(str, values)`. */
  function Decimals(values: seq<nat>): seq<string> {
    seq(|values|, i requires 0 <= i < |values| => Decimal(values[i]))
  }

  /** `".".join(map(str, values))`: numbers written as a dotted address. */
  function Dotted(values: seq<nat>): string {
    Join(Decimals(values), '.')
  }

  lemma {:induction false} ParseAllDecimals(values: seq<nat>)
    ensures ParseAll(Decimals(values)) == Some(values)
  {
    if values != [] {
      ParseDecimalOfDecimal(values[0]);
      ParseAllDecimals(values[1..]);
      assert Decimals(values)[1..] == Decimals(values[1..]);
      assert [values[0]] + values[1..] == values;
    }
  }

  /**
   * Reading a rendered dotted address back field by field gives the numbers it
   * was rendered from: `[int(x) for x in ".".join(map(str, vs)).split('.')] == vs`.
   */
  lemma DottedRoundTrip(values: seq<nat>)
    requires |values| >= 1
    ensures DottedValues(Dotted(values)) == Some(values)
  {
    var texts := Decimals(values);
    forall k | 0 <= k < |texts|
      ensures '.' !in texts[k]
    {
      assert AllDigits(texts[k]);
    }
    SplitJoin(texts, '.');
    ParseAllDecimals(values);
  }

  /** `''.join(xss)`: the items one after another. */
  function Concat<T>(xss: seq<seq<T>>): seq<T> {
    if xss == [] then [] else xss[0] + Concat(xss[1..])
  }
}
