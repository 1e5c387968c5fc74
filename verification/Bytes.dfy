/** Byte strings, the line scan of `BufRead::read_until(b'\n')`, and numerals. */
module Bytes {

  datatype Option<+T> = None | Some(value: T)
  {
    function GetOr(default: T): T { if Some? then value else default }
  }

  datatype Result<+T, +E> = Ok(value: T) | Err(error: E)

  type byte = b: int | 0 <= b < 256
  type bytes = seq<byte>

  const HT: byte := 9
  const LF: byte := 10
  const CR: byte := 13
  const SP: byte := 32
  const COMMA: byte := 44
  const COLON: byte := 58
  const SEMICOLON: byte := 59
  const CRLF: bytes := [13, 10]

  /** The largest value of a `u64` (and of `usize` on the 64-bit targets modelled). */
  const U64_MAX: nat := 0xFFFF_FFFF_FFFF_FFFF

  /** The bytes of an ASCII literal. */
  function Ascii(s: string): (r: bytes)
    requires forall i :: 0 <= i < |s| ==> s[i] < 128 as char
    ensures |r| == |s|
    ensures forall i :: 0 <= i < |s| ==> r[i] == s[i] as int
  {
    seq(|s|, i requires 0 <= i < |s| => s[i] as int)
  }

  function Min(a: nat, b: nat): nat { if a < b then a else b }

  /** The first position of `b` in `s`, or `|s|` when it does not occur. */
  function IndexOf(s: bytes, b: byte): (i: nat)
    ensures i <= |s|
    ensures forall k :: 0 <= k < i ==> s[k] != b
    ensures i < |s| ==> s[i] == b
  {
    if s == [] || s[0] == b then 0 else 1 + IndexOf(s[1..], b)
  }

  lemma IndexOfAt(a: bytes, b: byte, r: bytes)
    requires b !in a
    ensures IndexOf(a + [b] + r, b) == |a|
    ensures IndexOf(a, b) == |a|
  {
    var s := a + [b] + r;
    assert s[|a|] == b;
    assert forall k :: 0 <= k < |a| ==> s[k] == a[k] && a[k] in a;
  }

  /** How many bytes one `read_until(b'\n')` takes: through the first line feed, else everything. */
  function LineLen(s: bytes): (n: nat)
    ensures n <= |s|
    ensures n == 0 <==> s == []
  {
    Min(IndexOf(s, LF) + 1, |s|)
  }

  lemma LineLenAt(a: bytes, r: bytes)
    requires LF !in a
    ensures LineLen(a + [LF] + r) == |a| + 1
    ensures LineLen(a) == |a|
  {
    IndexOfAt(a, LF, r);
  }

  lemma LineLenOfLine(line: bytes, r: bytes)
    requires line != [] && line[|line| - 1] == LF
    requires forall k :: 0 <= k < |line| - 1 ==> line[k] != LF
    ensures LineLen(line + r) == |line|
    ensures (line + r)[..|line|] == line && (line + r)[|line|..] == r
  {
    var a := line[..|line| - 1];
    assert line + r == a + [LF] + r;
    LineLenAt(a, r);
  }

  function Concat(parts: seq<bytes>): bytes
  {
    if parts == [] then [] else parts[0] + Concat(parts[1..])
  }

  lemma {:induction false} ConcatAppend(a: seq<bytes>, b: seq<bytes>)
    ensures Concat(a + b) == Concat(a) + Concat(b)
  {
    if a == [] {
      assert a + b == b;
    } else {
      assert (a + b)[1..] == a[1..] + b;
      ConcatAppend(a[1..], b);
    }
  }

  lemma Regroup(a: bytes, b: bytes, c: bytes, d: bytes)
    ensures a + (b + c) + d == (a + b) + (c + d)
    ensures ((a + b) + (c + d))[..|a + b|] == a + b && ((a + b) + (c + d))[|a + b|..] == c + d
  {
  }

  lemma TakeOneMore<T>(s: seq<T>, k: nat)
    requires 0 < k <= |s|
    ensures s[..k] == [s[0]] + s[1..][..k - 1]
  {
  }

  lemma SplitAt<T>(s: seq<T>, i: nat)
    requires i < |s|
    ensures s[i..] != [] && s[i..][0] == s[i] && s[i..][1..] == s[i + 1..]
    ensures s[..i + 1] == s[..i] + [s[i]]
  {
  }

  // ----- optional white space -----

  predicate IsBlank(b: byte) { b == SP || b == HT }

  function TrimLeft(s: bytes): bytes
  {
    if s != [] && IsBlank(s[0]) then TrimLeft(s[1..]) else s
  }

  function TrimRight(s: bytes): bytes
  {
    if s != [] && IsBlank(s[|s| - 1]) then TrimRight(s[..|s| - 1]) else s
  }

  function Trim(s: bytes): bytes { TrimRight(TrimLeft(s)) }

  predicate Trimmed(s: bytes)
  {
    s == [] || (!IsBlank(s[0]) && !IsBlank(s[|s| - 1]))
  }

  lemma TrimSpaced(s: bytes)
    requires Trimmed(s)
    ensures Trim([SP] + s) == s && Trim(s) == s
  {
    assert ([SP] + s)[1..] == s;
    assert TrimLeft(s) == s;
  }

  predicate AllBlank(s: bytes)
  {
    forall i :: 0 <= i < |s| ==> s[i] == SP || s[i] == HT
  }

  /** `s` is `token` with blanks around it. */
  ghost predicate Padded(s: bytes, token: bytes)
  {
    exists a, b :: AllBlank(a) && AllBlank(b) && s == a + token + b
  }

  lemma {:induction false} TrimLeftBlanks(a: bytes, s: bytes)
    requires AllBlank(a)
    ensures TrimLeft(a + s) == TrimLeft(s)
  {
    if a == [] {
      assert a + s == s;
    } else {
      assert (a + s)[1..] == a[1..] + s;
      TrimLeftBlanks(a[1..], s);
    }
  }

  lemma {:induction false} TrimRightBlanks(s: bytes, b: bytes)
    requires AllBlank(b)
    ensures TrimRight(s + b) == TrimRight(s)
  {
    if b == [] {
      assert s + b == s;
    } else {
      assert (s + b)[..|s + b| - 1] == s + b[..|b| - 1];
      TrimRightBlanks(s, b[..|b| - 1]);
    }
  }

  lemma TrimPadded(a: bytes, token: bytes, b: bytes)
    requires AllBlank(a) && AllBlank(b) && Trimmed(token)
    ensures Trim(a + token + b) == token
  {
    assert a + token + b == a + (token + b);
    TrimLeftBlanks(a, token + b);
    if token == [] {
      TrimLeftBlanks(b, []);
      assert token + b == b == b + [];
    } else {
      TrimRightBlanks(token, b);
    }
  }

  lemma {:induction false} TrimLeftSplits(s: bytes) returns (a: bytes)
    ensures AllBlank(a) && s == a + TrimLeft(s)
    ensures TrimLeft(s) == [] || !IsBlank(TrimLeft(s)[0])
  {
    if s != [] && IsBlank(s[0]) {
      a := TrimLeftSplits(s[1..]);
      a := [s[0]] + a;
    } else {
      a := [];
    }
  }

  lemma {:induction false} TrimRightSplits(s: bytes) returns (b: bytes)
    ensures AllBlank(b) && s == TrimRight(s) + b
    ensures TrimRight(s) == [] || !IsBlank(TrimRight(s)[|TrimRight(s)| - 1])
  {
    if s != [] && IsBlank(s[|s| - 1]) {
      b := TrimRightSplits(s[..|s| - 1]);
      b := b + [s[|s| - 1]];
    } else {
      b := [];
    }
  }

  /** Trimming is taking the blanks off both ends. */
  lemma TrimIsPadded(s: bytes, token: bytes)
    requires Trimmed(token)
    ensures Trim(s) == token <==> Padded(s, token)
  {
    if Trim(s) == token {
      var a := TrimLeftSplits(s);
      var b := TrimRightSplits(TrimLeft(s));
      assert s == a + token + b;
    } else if Padded(s, token) {
      var a, b :| AllBlank(a) && AllBlank(b) && s == a + token + b;
      TrimPadded(a, token, b);
    }
  }

  // ----- numerals: `{}` and `{:x}` formatting, and their values -----

  predicate IsBase(base: nat) { base == 10 || base == 16 }

  function Digit(d: nat): (b: byte)
    requires d < 16
  {
    if d < 10 then 48 + d else 87 + d
  }

  /** The value of a hexadecimal digit of either case. */
  function DigitValue(b: byte): Option<nat>
  {
    if 48 <= b <= 57 then Some(b - 48)
    else if 97 <= b <= 102 then Some(b - 87)
    else if 65 <= b <= 70 then Some(b - 55)
    else None
  }

  predicate IsDigit(b: byte, base: nat)
  {
    DigitValue(b).Some? && DigitValue(b).value < base
  }

  predicate AllDigits(s: bytes, base: nat)
  {
    forall i :: 0 <= i < |s| ==> IsDigit(s[i], base)
  }

  function Numeral(n: nat, base: nat): (s: bytes)
    requires IsBase(base)
    ensures s != []
    ensures AllDigits(s, base)
  {
    if n < base then [Digit(n)] else Numeral(n / base, base) + [Digit(n % base)]
  }

  function Value(s: bytes, base: nat): nat
    requires AllDigits(s, base)
  {
    if s == [] then 0
    else Value(s[..|s| - 1], base) * base + DigitValue(s[|s| - 1]).value
  }

  /** Printing and reading a number are inverse, in both bases. */
  lemma {:induction false} NumeralValue(n: nat, base: nat)
    requires IsBase(base)
    ensures Value(Numeral(n, base), base) == n
  {
    var s := Numeral(n, base);
    if n < base {
      assert s[..0] == [];
    } else {
      assert s[..|s| - 1] == Numeral(n / base, base);
      NumeralValue(n / base, base);
      if base == 10 { assert n / 10 * 10 + n % 10 == n; } else { assert n / 16 * 16 + n % 16 == n; }
    }
  }

  function Pow(base: nat, k: nat): nat { if k == 0 then 1 else base * Pow(base, k - 1) }

  lemma {:induction false} NumeralLength(n: nat, base: nat, k: nat)
    requires IsBase(base) && k > 0 && n < Pow(base, k)
    ensures |Numeral(n, base)| <= k
  {
    if n >= base {
      assert Pow(base, 1) == base * Pow(base, 0);
      if base == 10 { assert n < 10 * Pow(10, k - 1); } else { assert n < 16 * Pow(16, k - 1); }
      NumeralLength(n / base, base, k - 1);
    }
  }

  /** A `u64` written in hexadecimal has at most sixteen digits. */
  lemma HexLength(n: nat)
    requires n <= U64_MAX
    ensures |Numeral(n, 16)| <= 16
  {
    assert Pow(16, 4) == 0x1_0000;
    assert Pow(16, 8) == 0x1_0000_0000;
    assert Pow(16, 12) == 0x1_0000_0000_0000;
    assert Pow(16, 16) == 0x1_0000_0000_0000_0000;
    NumeralLength(n, 16, 16);
  }

  /** A three digit status code is written with three digits. */
  lemma CodeLength(n: nat)
    requires 100 <= n <= 999
    ensures |Numeral(n, 10)| == 3
  {
    assert |Numeral(n / 10, 10)| == 2;
  }

  /** Numbers are printed in digits and lower-case letters, without leading zeros. */
  lemma {:induction false} NumeralIsPlain(n: nat, base: nat)
    requires IsBase(base)
    ensures var s := Numeral(n, base);
            && (forall i :: 0 <= i < |s| ==> 48 <= s[i] <= 57 || (base == 16 && 97 <= s[i] <= 102))
            && (n > 0 ==> s[0] != 48)
  {
    if n >= base { NumeralIsPlain(n / base, base); }
  }

  /** `str::parse::<u64>` on digits: `None` for no digits, other bytes, or overflow. */
  function ParseDecimal(s: bytes): Option<nat>
  {
    if s != [] && AllDigits(s, 10) && Value(s, 10) <= U64_MAX then Some(Value(s, 10)) else None
  }

  lemma DecimalRoundTrip(n: nat)
    requires n <= U64_MAX
    ensures ParseDecimal(Numeral(n, 10)) == Some(n)
  {
    NumeralValue(n, 10);
  }
}
