/**
 * `generate_id`: a fixed-length id over `string.ascii_lowercase + string.digits`.
 * The random choices are a parameter: `draws[i]` is the index `random.choice`
 * picked for the i-th character.
 */
module Ids {

  /** `n` consecutive characters starting at `first`. */
  function CharRange(first: char, n: nat): (r: string)
    requires first as int + n < 0xD800
    ensures |r| == n
    ensures forall k :: 0 <= k < n ==> r[k] as int == first as int + k
    decreases n
  {
    if n == 0 then [] else [first] + CharRange((first as int + 1) as char, n - 1)
  }

  /** `string.ascii_lowercase` and `string.digits`. */
  const AsciiLowercase: string := CharRange('a', 26)
  const Digits: string := CharRange('0', 10)

  lemma AlphabetLiterals()
    ensures AsciiLowercase == "abcdefghijklmnopqrstuvwxyz"
    ensures Digits == "0123456789"
  {
  }

  /** The 36 symbols ids are drawn from. */
  const IdChars: string := AsciiLowercase + Digits

  /** The default `size` of an id. */
  const DefaultIdSize: nat := 6

  predicate IsIdChar(c: char) {
    'a' <= c <= 'z' || '0' <= c <= '9'
  }

  /** Valid random draws: one index into the alphabet per character. */
  predicate ValidDraws(draws: seq<nat>) {
    forall i :: 0 <= i < |draws| ==> draws[i] < |IdChars|
  }

  /**
   * `''.join(random.choice(chars) for _ in range(size))` with `size == |draws|`:
   * one character per draw, each a lower-case letter or a digit.
   */
  function GenerateId(draws: seq<nat>): (id: string)
    requires ValidDraws(draws)
    ensures |id| == |draws|
    ensures forall i :: 0 <= i < |id| ==> IsIdChar(id[i])
  {
    IdCharsAlphabet();
    seq(|draws|, i requires 0 <= i < |draws| => IdChars[draws[i]])
  }

  /** The code of each alphabet position: the letters in order, then the digits in order. */
  lemma IdCharsCodes()
    ensures |IdChars| == 36
    ensures forall k :: 0 <= k < 26 ==> IdChars[k] as int == 'a' as int + k
    ensures forall k :: 26 <= k < 36 ==> IdChars[k] as int == '0' as int + k - 26
  {
    assert forall k :: 26 <= k < 36 ==> IdChars[k] == Digits[k - 26];
  }

  /** The alphabet has 36 distinct symbols and holds exactly the lower-case letters and digits. */
  lemma IdCharsAlphabet()
    ensures |IdChars| == 36
    ensures forall k :: 0 <= k < |IdChars| ==> IsIdChar(IdChars[k])
    ensures forall j, k :: 0 <= j < k < |IdChars| ==> IdChars[j] != IdChars[k]
    ensures forall c :: IsIdChar(c) ==> c in IdChars
  {
    IdCharsCodes();
    forall c | IsIdChar(c) ensures c in IdChars {
      assert IdChars[IndexOfIdChar(c)] == c;
    }
  }

  /** Different draws give different ids: the id space has 36^size elements. */
  lemma GenerateIdInjective(d1: seq<nat>, d2: seq<nat>)
    requires ValidDraws(d1) && ValidDraws(d2) && |d1| == |d2|
    requires GenerateId(d1) == GenerateId(d2)
    ensures d1 == d2
  {
    IdCharsAlphabet();
    forall i | 0 <= i < |d1| ensures d1[i] == d2[i] {
      assert GenerateId(d1)[i] == GenerateId(d2)[i];
    }
  }

  /** Every string of lower-case letters and digits is some id of its length. */
  lemma GenerateIdCovers(id: string)
    requires forall i :: 0 <= i < |id| ==> IsIdChar(id[i])
    ensures exists draws :: ValidDraws(draws) && |draws| == |id| && GenerateId(draws) == id
  {
    IdCharsAlphabet();
    var draws := seq(|id|, i requires 0 <= i < |id| => IndexOfIdChar(id[i]));
    assert ValidDraws(draws);
    assert GenerateId(draws) == id;
  }

  /** The position of an id character in the alphabet. */
  function IndexOfIdChar(c: char): (k: nat)
    requires IsIdChar(c)
    ensures k < |IdChars| && IdChars[k] == c
  {
    IdCharsCodes();
    if 'a' <= c <= 'z' then c as int - 'a' as int else 26 + c as int - '0' as int
  }
}
