/**
 Short-key generation (`generateShortKey`).

 The generator fills a fixed-length buffer by indexing a 62-character
 alphanumeric alphabet with pseudo-random numbers. The random source is not
 modelled; the numbers it would yield are the parameter `draws`, one per
 buffer position, each in `[0, |Charset|)` as `rand.Intn(len(charset))`
 guarantees.
 */
module KeyGen {

  /** The three runs the alphabet is made of, each in code-point order. */
  const Lower: string := "abcdefghijklmnopqrstuvwxyz"
  const Upper: string := "ABCDEFGHIJKLMNOPQRSTUVWXYZ"
  const Digits: string := "0123456789"

  /** The alphabet, in the order the generator indexes it. */
  const Charset: string := Lower + Upper + Digits

  /** `Charset` is the generator's 62-character literal. */
  lemma CharsetLiteral()
    ensures Charset == "abcdefghijklmnopqrstuvwxyzABCDEFGHIJKLMNOPQRSTUVWXYZ0123456789"
    ensures |Charset| == 62
  {
  }

  /** Number of characters in a generated key. */
  const KeyLength: nat := 8

  /** A number the random source may yield for one position. */
  predicate IsDraw(d: int) {
    0 <= d < |Charset|
  }

  /** The numbers consumed by one call of the generator. */
  predicate ValidDraws(draws: seq<int>) {
    |draws| == KeyLength && forall i :: 0 <= i < |draws| ==> IsDraw(draws[i])
  }

  /** A well-formed short key: the right length, alphabet characters only. */
  predicate IsKey(key: string) {
    |key| == KeyLength && forall i :: 0 <= i < |key| ==> key[i] in Charset
  }

  /** Each run holds consecutive code points. */
  lemma CharsetRuns()
    ensures forall i :: 0 <= i < |Lower| ==> Lower[i] as int == 'a' as int + i
    ensures forall i :: 0 <= i < |Upper| ==> Upper[i] as int == 'A' as int + i
    ensures forall i :: 0 <= i < |Digits| ==> Digits[i] as int == '0' as int + i
  {
  }

  /** Position of an alphabet character, computed from its code point;
      -1 for a character outside the alphabet. */
  function CharIndex(c: char): (i: int)
    ensures -1 <= i < |Charset|
  {
    if 'a' <= c <= 'z' then c as int - 'a' as int
    else if 'A' <= c <= 'Z' then 26 + (c as int - 'A' as int)
    else if '0' <= c <= '9' then 52 + (c as int - '0' as int)
    else -1
  }

  /** `CharIndex` inverts indexing into the alphabet, so the alphabet has no
      repeated character. */
  lemma CharIndexInverts()
    ensures forall i :: 0 <= i < |Charset| ==> CharIndex(Charset[i]) == i
    ensures forall i, j :: 0 <= i < j < |Charset| ==> Charset[i] != Charset[j]
  {
    CharsetRuns();
  }

  /** The key the generator builds from the given draws: position `i` holds
      the alphabet character the `i`-th draw selects. */
  function ShortKey(draws: seq<int>): (key: string)
    requires ValidDraws(draws)
    ensures IsKey(key)
  {
    seq(KeyLength, i requires 0 <= i < KeyLength => Charset[draws[i]])
  }

  /** The draws a key was generated from, read back off its characters. */
  function DrawsOf(key: string): (draws: seq<int>)
    ensures |draws| == |key|
  {
    seq(|key|, i requires 0 <= i < |key| => CharIndex(key[i]))
  }

  /** Decoding a generated key recovers the draws: distinct draws never give
      the same short key. */
  lemma DrawsOfShortKey(draws: seq<int>)
    requires ValidDraws(draws)
    ensures DrawsOf(ShortKey(draws)) == draws
  {
    CharIndexInverts();
  }

  /** Every well-formed key is generated by exactly the draws it decodes to,
      so the generator reaches all `62^8` keys. */
  lemma ShortKeyOfDrawsOf(key: string)
    requires IsKey(key)
    ensures ValidDraws(DrawsOf(key))
    ensures ShortKey(DrawsOf(key)) == key
  {
    CharIndexInverts();
  }

  /** Exchanging the first two draws exchanges the first two characters of
      the key. */
  lemma SwappedDrawsSwapKey(d1: seq<int>, d2: seq<int>)
    requires ValidDraws(d1) && d2 == [d1[1], d1[0]] + d1[2..]
    ensures ValidDraws(d2)
    ensures ShortKey(d2)[0] == ShortKey(d1)[1] && ShortKey(d2)[1] == ShortKey(d1)[0]
    ensures ShortKey(d2)[2..] == ShortKey(d1)[2..]
  {
  }
}
