/** The number readers `fmt.Sscanf(line, "%d")` and `fmt.Sscanf(line, "%x")` on ASCII text: blanks, an
    optional sign, then the longest run of digits; whatever follows is ignored. */
module Scan {
  import opened Basics

  const MAX_INT := 0x7fff_ffff_ffff_ffff

  predicate IsBase(base: nat) { base == 10 || base == 16 }

  predicate IsDigit(ch: char, base: nat) {
    '0' <= ch <= '9' || (base == 16 && ('a' <= ch <= 'f' || 'A' <= ch <= 'F'))
  }

  /** The value of a digit; other characters never reach it. */
  function DigitValue(ch: char): nat {
    if '0' <= ch <= '9' then (ch as int) - ('0' as int)
    else if 'A' <= ch <= 'F' then (ch as int) - ('A' as int) + 10
    else if 'a' <= ch <= 'f' then (ch as int) - ('a' as int) + 10
    else 0
  }

  /** How many leading characters are digits. */
  function DigitRun(s: string, base: nat): (n: nat)
    ensures n <= |s|
  {
    if s == "" || !IsDigit(s[0], base) then 0 else 1 + DigitRun(s[1..], base)
  }

  function DigitsValue(s: string, base: nat): nat {
    if s == "" then 0
    else DigitsValue(s[..|s| - 1], base) * base + DigitValue(s[|s| - 1])
  }

  /** Skips blanks; a newline is an error of the reader. */
  function SkipBlanks(s: string): Option<string> {
    if s == "" then Some(s)
    else if s[0] == '\n' then None
    else if s[0] in "\t\r " || s[0] as int in {11, 12} then SkipBlanks(s[1..])
    else Some(s)
  }

  /** The value read, or `None` when the reader reports an error and leaves its variable alone. */
  function ScanInt(s: string, base: nat): Option<int>
    requires IsBase(base)
  {
    match SkipBlanks(s)
    case None => None
    case Some(t) => ScanSigned(t, base)
  }

  /** The reader behind the blanks. */
  function ScanSigned(t: string, base: nat): Option<int> {
    var signed := t != "" && t[0] in "+-";
    var u := if signed then t[1..] else t;
    var n := DigitRun(u, base);
    var v: int := DigitsValue(u[..n], base);
    if n == 0 then None
    else if signed && t[0] == '-' then (if v <= MAX_INT + 1 then Some(-v) else None)
    else if v <= MAX_INT then Some(v)
    else None
  }

  // ---------- numerals ----------

  /** `ch` writes the digit `v`: "0" to "9", "a" to "f" or "A" to "F". */
  predicate Writes(ch: char, v: nat) {
    (v < 10 && ch as int == 48 + v) || (10 <= v < 16 && (ch as int == 87 + v || ch as int == 55 + v))
  }

  /** `s` writes the digits `ds` of that base, one by one. */
  predicate Spells(s: string, ds: seq<nat>, base: nat) {
    |s| == |ds| && forall k :: 0 <= k < |s| ==> ds[k] < base && Writes(s[k], ds[k])
  }

  /** The number with the digits `ds`. */
  function Numeral(ds: seq<nat>, base: nat): nat {
    if ds == [] then 0 else Numeral(ds[..|ds| - 1], base) * base + ds[|ds| - 1]
  }

  /** `s` is a numeral for `n`, leading zeros and either case of letters allowed. */
  ghost predicate SpellsNumber(s: string, n: nat, base: nat) {
    s != "" && exists ds :: Spells(s, ds, base) && Numeral(ds, base) == n
  }

  /** Blanks a reader skips: tab, vertical tab, form feed, carriage return, space. */
  predicate Blanks(s: string) {
    forall k :: 0 <= k < |s| ==> s[k] as int in {9, 11, 12, 13, 32}
  }

  /** No digit comes first. */
  ghost predicate NoDigitFirst(s: string, base: nat) {
    s == "" || forall v: nat :: v < base ==> !Writes(s[0], v)
  }

  lemma DigitWritten(ch: char, v: nat, base: nat)
    requires IsBase(base) && Writes(ch, v) && v < base
    ensures IsDigit(ch, base) && DigitValue(ch) == v
  {
  }

  lemma NotADigit(s: string, base: nat)
    requires IsBase(base) && NoDigitFirst(s, base)
    ensures s == "" || !IsDigit(s[0], base)
  {
    if s != "" && IsDigit(s[0], base) {
      var ch, v := s[0], DigitValue(s[0]);
      assert v < base;
      assert Writes(ch, v);
    }
  }

  lemma {:induction false} SpelledValue(s: string, ds: seq<nat>, base: nat)
    requires IsBase(base) && Spells(s, ds, base)
    ensures AllDigits(s, base) && DigitsValue(s, base) == Numeral(ds, base)
  {
    forall k | 0 <= k < |s| ensures IsDigit(s[k], base) {
      DigitWritten(s[k], ds[k], base);
    }
    if s != "" {
      var n := |s| - 1;
      SpelledValue(s[..n], ds[..n], base);
      DigitWritten(s[n], ds[n], base);
    }
  }

  ghost predicate AllDigits(s: string, base: nat) {
    forall k :: 0 <= k < |s| ==> IsDigit(s[k], base)
  }

  lemma {:induction false} DigitRunStops(digits: string, rest: string, base: nat)
    requires AllDigits(digits, base)
    requires rest == "" || !IsDigit(rest[0], base)
    ensures DigitRun(digits + rest, base) == |digits|
  {
    if digits == "" {
      assert digits + rest == rest;
    } else {
      assert (digits + rest)[1..] == digits[1..] + rest;
      DigitRunStops(digits[1..], rest, base);
    }
  }

  lemma {:induction false} BlanksSkipped(blanks: string, rest: string)
    requires Blanks(blanks)
    ensures SkipBlanks(blanks + rest) == SkipBlanks(rest)
  {
    if blanks == "" {
      assert blanks + rest == rest;
    } else {
      assert (blanks + rest)[1..] == blanks[1..] + rest;
      BlanksSkipped(blanks[1..], rest);
    }
  }

  /** What a numeral behind a sign stands for, if it fits the machine. */
  function Signed(sign: string, n: int): Option<int> {
    if sign == "-" then (if n <= 0x8000_0000_0000_0000 then Some(-n) else None)
    else if n <= 0x7fff_ffff_ffff_ffff then Some(n)
    else None
  }

  lemma Unsigned(u: string, base: nat)
    requires IsBase(base) && u != "" && u[0] !in "+-" && DigitRun(u, base) > 0
    ensures ScanSigned(u, base) == Signed("", DigitsValue(u[..DigitRun(u, base)], base))
  {
    hide DigitsValue, DigitRun;
  }

  lemma WithSign(sign: string, u: string, base: nat)
    requires IsBase(base) && sign in {"+", "-"} && DigitRun(u, base) > 0
    ensures ScanSigned(sign + u, base) == Signed(sign, DigitsValue(u[..DigitRun(u, base)], base))
  {
    hide DigitsValue, DigitRun;
    assert (sign + u)[0] == sign[0] && (sign + u)[1..] == u;
  }

  /** Nothing is skipped before a sign or a digit. */
  lemma NoBlankFirst(t: string, base: nat)
    requires t != "" && (t[0] in "+-" || IsDigit(t[0], base))
    ensures SkipBlanks(t) == Some(t)
  {
  }

  lemma SignedScanned(sign: string, s: string, ds: seq<nat>, rest: string, base: nat)
    requires IsBase(base) && sign in {"", "+", "-"} && s != "" && Spells(s, ds, base) && NoDigitFirst(rest, base)
    ensures ScanSigned(sign + (s + rest), base) == Signed(sign, Numeral(ds, base))
    ensures SkipBlanks(sign + (s + rest)) == Some(sign + (s + rest))
  {
    hide DigitsValue, DigitRun, Numeral, ScanSigned, SkipBlanks, Signed, Spells, NoDigitFirst;
    var u := s + rest;
    SpelledValue(s, ds, base);
    NotADigit(rest, base);
    DigitRunStops(s, rest, base);
    assert u[..|s|] == s && u[0] == s[0] && IsDigit(s[0], base);
    if sign == "" {
      assert sign + u == u;
      Unsigned(u, base);
    } else {
      WithSign(sign, u, base);
      assert (sign + u)[0] == sign[0];
    }
    NoBlankFirst(sign + u, base);
  }

  /** A number is read whatever blanks stand before it and whatever non-digit behind it, with either sign, leading
      zeros and either case of letters; one that does not fit the machine is an error. */
  lemma ScanSpelled(blanks: string, sign: string, s: string, ds: seq<nat>, rest: string, base: nat)
    requires IsBase(base) && Blanks(blanks) && sign in {"", "+", "-"}
    requires s != "" && Spells(s, ds, base) && NoDigitFirst(rest, base)
    ensures ScanInt(blanks + (sign + (s + rest)), base) == Signed(sign, Numeral(ds, base))
  {
    hide SkipBlanks, DigitsValue, DigitRun, Numeral, Spells, NoDigitFirst;
    BlanksSkipped(blanks, sign + (s + rest));
    SignedScanned(sign, s, ds, rest, base);
  }

  /** Where no digit stands behind the blanks and the sign, nothing is read. */
  lemma ScanNothing(blanks: string, sign: string, rest: string, base: nat)
    requires IsBase(base) && Blanks(blanks) && sign in {"", "+", "-"} && NoDigitFirst(rest, base)
    requires sign == "" ==> rest == "" || !(rest[0] in "+-" || Blanks(rest[..1]))
    ensures ScanInt(blanks + (sign + rest), base) == None
  {
    hide DigitsValue;
    BlanksSkipped(blanks, sign + rest);
    NotADigit(rest, base);
    var t := sign + rest;
    if sign == "" {
      assert t == rest;
    } else {
      assert t[1..] == rest && t[0] == sign[0];
    }
  }

  /** Nor behind a line feed. */
  lemma ScanNoLine(blanks: string, rest: string, base: nat)
    requires IsBase(base) && Blanks(blanks)
    ensures ScanInt(blanks + ("\n" + rest), base) == None
  {
    BlanksSkipped(blanks, "\n" + rest);
  }

  // ---------- printing ----------

  function DigitChar(v: nat): char
    requires v < 16
  {
    if v < 10 then ('0' as int + v) as char else ('a' as int + v - 10) as char
  }

  function Print(n: nat, base: nat): (s: string)
    requires IsBase(base)
    ensures s != ""
  {
    if n < base then [DigitChar(n)]
    else if base == 10 then Print(n / 10, base) + [DigitChar(n % 10)]
    else Print(n / 16, base) + [DigitChar(n % 16)]
  }

  /** Every number has a numeral. */
  lemma {:induction false} PrintSpells(n: nat, base: nat) returns (ds: seq<nat>)
    requires IsBase(base)
    ensures Spells(Print(n, base), ds, base) && Numeral(ds, base) == n
  {
    if n < base {
      ds := [n];
      assert ds[..0] == [];
    } else {
      var high, low := if base == 10 then n / 10 else n / 16, if base == 10 then n % 10 else n % 16;
      var init := PrintSpells(high, base);
      ds := init + [low];
      assert ds[..|init|] == init;
    }
  }

  /** Reading back a printed number, whatever non-digit follows it. */
  lemma ScanPrinted(n: nat, base: nat, rest: string)
    requires IsBase(base) && n <= MAX_INT && NoDigitFirst(rest, base)
    ensures ScanInt(Print(n, base) + rest, base) == Some(n)
  {
    hide ScanInt, Print, NoDigitFirst;
    var ds := PrintSpells(n, base);
    var s := Print(n, base);
    ScanSpelled("", "", s, ds, rest, base);
    assert "" + ("" + (s + rest)) == s + rest;
  }
}
