/**
 * The key under which a diagnostic is filed: `file:line:column`, with the
 * parser's 0-based column turned 1-based and both numbers in decimal.
 */
module Locations {
  import opened Syntax

  function DigitChar(d: nat): (c: char)
    requires d < 10
    ensures '0' <= c <= '9' && c as int - '0' as int == d
  {
    (('0' as int) + d) as char
  }

  /** The number a string of decimal digits spells, most significant digit first. */
  function DigitsValue(s: string): (value: nat)
    requires forall i | 0 <= i < |s| :: '0' <= s[i] <= '9'
  {
    if s == [] then 0 else 10 * DigitsValue(s[..|s| - 1]) + (s[|s| - 1] as int - '0' as int)
  }

  /** The decimal form of a natural number, as JavaScript prints it in a template string. */
  function DecimalString(n: nat): (s: string)
    ensures |s| >= 1
    ensures n < 10 <==> |s| == 1
    ensures forall i | 0 <= i < |s| :: '0' <= s[i] <= '9'
    decreases n
  {
    if n < 10 then [DigitChar(n)] else DecimalString(n / 10) + [DigitChar(n % 10)]
  }

  /** The printed digits spell the number, and only zero prints with a leading zero. */
  lemma {:induction false} DecimalStringSpells(n: nat)
    ensures DigitsValue(DecimalString(n)) == n
    ensures DecimalString(n)[0] == '0' <==> n == 0
    decreases n
  {
    var s := DecimalString(n);
    if n >= 10 {
      DecimalStringSpells(n / 10);
      var head := DecimalString(n / 10);
      assert s[..|s| - 1] == head;
      assert s[0] == head[0];
    }
  }

  /** Different numbers print differently. */
  lemma {:induction false} DecimalStringInjective(m: nat, n: nat)
    ensures DecimalString(m) == DecimalString(n) <==> m == n
    decreases m
  {
    if DecimalString(m) == DecimalString(n) && m >= 10 && n >= 10 {
      var s := DecimalString(m);
      assert s[..|s| - 1] == DecimalString(m / 10);
      assert s[..|s| - 1] == DecimalString(n / 10);
      assert DigitChar(m % 10) == s[|s| - 1] == DigitChar(n % 10);
      DecimalStringInjective(m / 10, n / 10);
    }
  }

  /** `${filePath}:${line}:${column + 1}`. */
  function LocationKey(file: string, at: Position): (key: string)
  {
    file + ":" + DecimalString(at.line) + ":" + DecimalString(at.column + 1)
  }

  /** Two colon-free heads followed by a colon can be told apart. */
  lemma SplitAtColon(a: string, b: string, c: string, d: string)
    requires ':' !in a && ':' !in c
    requires a + ":" + b == c + ":" + d
    ensures a == c && b == d
  {
    var s := a + ":" + b;
    assert forall i | 0 <= i < |a| :: s[i] == a[i] && s[i] != ':';
    assert forall i | 0 <= i < |c| :: s[i] == c[i] && s[i] != ':';
    assert s[|a|] == ':' && s[|c|] == ':';
    assert |a| == |c|;
    assert a == s[..|a|] == c;
    assert b == s[|a| + 1..] == d;
  }

  lemma NoColon(n: nat)
    ensures ':' !in DecimalString(n)
  {
    var s := DecimalString(n);
    assert forall i | 0 <= i < |s| :: s[i] != ':';
  }

  /**
   * Within one file, two diagnostics share a key exactly when they are
   * reported at the same position: a later one overwrites an earlier one only
   * then.
   */
  lemma LocationKeyInjective(file: string, p: Position, q: Position)
    ensures LocationKey(file, p) == LocationKey(file, q) <==> p == q
  {
    if LocationKey(file, p) == LocationKey(file, q) {
      var tp := DecimalString(p.line) + ":" + DecimalString(p.column + 1);
      var tq := DecimalString(q.line) + ":" + DecimalString(q.column + 1);
      assert LocationKey(file, p) == (file + ":") + tp;
      assert LocationKey(file, q) == (file + ":") + tq;
      assert tp == LocationKey(file, p)[|file| + 1..];
      assert tq == LocationKey(file, q)[|file| + 1..];
      NoColon(p.line);
      NoColon(q.line);
      SplitAtColon(DecimalString(p.line), DecimalString(p.column + 1),
                   DecimalString(q.line), DecimalString(q.column + 1));
      DecimalStringInjective(p.line, q.line);
      DecimalStringInjective(p.column + 1, q.column + 1);
    }
  }
}
