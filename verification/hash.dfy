/** The 16-character random suffix of a copy's file name. Each character is drawn
    from the `rand` crate's `Alphanumeric` distribution, whose alphabet is
    A-Z, then a-z, then 0-9. The random source is an input: a sequence of
    alphabet indices, one per character drawn. */
module Hash {
  import Decimal

  const HashLength: nat := 16
  const AlphabetSize: nat := 62

  predicate IsAlphanumeric(c: char)
  {
    'A' <= c <= 'Z' || 'a' <= c <= 'z' || Decimal.IsDigit(c)
  }

  /** What the generator can produce: exactly 16 ASCII letters or digits. */
  predicate IsHash(h: string)
  {
    |h| == HashLength && forall i :: 0 <= i < |h| ==> IsAlphanumeric(h[i])
  }

  /** The alphabet entry at index `k`. */
  function AlphabetChar(k: nat): (c: char)
    requires k < AlphabetSize
    ensures IsAlphanumeric(c)
  {
    if k < 26 then (('A' as int) + k) as char
    else if k < 52 then (('a' as int) + (k - 26)) as char
    else Decimal.DigitChar(k - 52)
  }

  /** Where `c` sits in the alphabet. */
  function AlphabetIndex(c: char): (k: nat)
    requires IsAlphanumeric(c)
    ensures k < AlphabetSize && AlphabetChar(k) == c
  {
    if 'A' <= c <= 'Z' then (c as int) - ('A' as int)
    else if 'a' <= c <= 'z' then 26 + (c as int) - ('a' as int)
    else 52 + Decimal.DigitValue(c)
  }

  predicate ValidDraws(draws: seq<nat>)
  {
    |draws| >= HashLength && forall i :: 0 <= i < |draws| ==> draws[i] < AlphabetSize
  }

  /** `sample_iter(&Alphanumeric).take(16).map(char::from).collect()`. */
  function Generate(draws: seq<nat>): (h: string)
    requires ValidDraws(draws)
    ensures IsHash(h)
  {
    seq(HashLength, i requires 0 <= i < HashLength => AlphabetChar(draws[i]))
  }

  /** Every 16-character alphanumeric string is a possible hash, so `IsHash`
      describes exactly the generator's range. */
  lemma EveryHashIsGenerated(h: string)
    requires IsHash(h)
    ensures exists draws :: ValidDraws(draws) && Generate(draws) == h
  {
    var draws := seq(HashLength, i requires 0 <= i < HashLength => AlphabetIndex(h[i]));
    assert ValidDraws(draws);
    assert Generate(draws) == h;
  }
}
