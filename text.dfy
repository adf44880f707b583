/** Upper-casing of typed text, as done by `toUpperCase()` on the secret,
    the typed guess and the word of a new game. Only ASCII letters are
    mapped; every other character is kept as it is. */
module Text {

  predicate IsLower(c: char) {
    'a' <= c <= 'z'
  }

  /** The upper-case form of one character. */
  function UpperChar(c: char): (u: char)
    ensures !IsLower(u)
  {
    if IsLower(c) then (c as int - 32) as char else c
  }

  /** No lower-case letter left in `s`. */
  predicate IsUpperText(s: string) {
    forall i :: 0 <= i < |s| ==> !IsLower(s[i])
  }

  /** `s.toUpperCase()`: same length, every character upper-cased in place. */
  function Upper(s: string): (r: string)
    ensures |r| == |s|
    ensures IsUpperText(r)
    ensures forall i :: 0 <= i < |s| ==> r[i] == UpperChar(s[i])
  {
    if s == [] then [] else [UpperChar(s[0])] + Upper(s[1..])
  }

  /** Upper-casing twice is upper-casing once: the secret that the game
      upper-cases again when it starts is the word that was upper-cased
      when the link was made. */
  lemma UpperIdempotent(s: string)
    ensures Upper(Upper(s)) == Upper(s)
  {
  }
}
