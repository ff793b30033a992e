/** The quote rewrite applied to a string literal's raw text: `raw.replace(/"/g, "'")`. */
module Quotes {

  /** Every double quote becomes a single quote; every other character stays. */
  function SingleQuoted(raw: string): (r: string)
    ensures |r| == |raw|
    ensures forall i | 0 <= i < |raw| :: r[i] == (if raw[i] == '"' then '\'' else raw[i])
    ensures '"' !in r
  {
    if raw == [] then [] else [if raw[0] == '"' then '\'' else raw[0]] + SingleQuoted(raw[1..])
  }

  /** Text without a double quote is left as it is, so rewriting twice is rewriting once. */
  lemma {:induction false} SingleQuotedIdempotent(raw: string)
    ensures '"' !in raw ==> SingleQuoted(raw) == raw
    ensures SingleQuoted(SingleQuoted(raw)) == SingleQuoted(raw)
  {
    if '"' !in raw {
      assert forall i | 0 <= i < |raw| :: SingleQuoted(raw)[i] == raw[i];
    }
    var once := SingleQuoted(raw);
    assert forall i | 0 <= i < |once| :: SingleQuoted(once)[i] == once[i];
  }
}
