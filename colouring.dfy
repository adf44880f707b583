/** The colour each letter of a guess is given against the secret
    (`submitGuess`, the loop over the five cells). The rule is decided one
    position at a time, with no counting of letters: a letter that is not in
    place is `present` whenever the secret holds it anywhere. */
module Colouring {

  datatype Colour = Correct | Present | Absent

  /** The colour of position `i` of `guess`. A position past the end of the
      secret holds nothing, so it never matches in place. */
  function ColourAt(secret: string, guess: string, i: nat): Colour
    requires i < |guess|
  {
    if i < |secret| && guess[i] == secret[i] then Correct
    else if guess[i] in secret then Present
    else Absent
  }

  /** The colours of a whole guess, one per position. */
  function Colours(secret: string, guess: string): (cs: seq<Colour>)
    ensures |cs| == |guess|
  {
    seq(|guess|, i requires 0 <= i < |guess| => ColourAt(secret, guess, i))
  }

  /** What each colour means. With the secret as long as the guess:
      `correct` exactly where the letters agree; `present` exactly where they
      disagree but the secret holds the letter elsewhere; `absent` exactly
      where the secret does not hold the letter at all. */
  lemma ColourMeaning(secret: string, guess: string, i: nat)
    requires |secret| == |guess|
    requires i < |guess|
    ensures Colours(secret, guess)[i] == Correct <==> guess[i] == secret[i]
    ensures Colours(secret, guess)[i] == Present <==> guess[i] != secret[i] && guess[i] in secret
    ensures Colours(secret, guess)[i] == Absent <==> guess[i] !in secret
  {
  }

  /** A letter is coloured (`correct` or `present`) exactly when the secret
      holds it; so every occurrence in the guess of a letter of the secret is
      credited. */
  lemma CreditedIff(secret: string, guess: string, i: nat)
    requires |secret| == |guess|
    requires i < |guess|
    ensures Colours(secret, guess)[i] != Absent <==> guess[i] in secret
  {
  }

  predicate AllCorrect(cs: seq<Colour>) {
    forall i :: 0 <= i < |cs| ==> cs[i] == Correct
  }

  /** The win test `guess === secret` succeeds exactly when every position of
      the guess is coloured `correct`. */
  lemma WinIffAllCorrect(secret: string, guess: string)
    requires |secret| == |guess|
    ensures guess == secret <==> AllCorrect(Colours(secret, guess))
  {
    if AllCorrect(Colours(secret, guess)) {
      forall i | 0 <= i < |guess| ensures guess[i] == secret[i] {
        ColourMeaning(secret, guess, i);
      }
    }
  }

  /** The number of entries of `cs` equal to `c`. */
  function Occurrences(cs: seq<Colour>, c: Colour): nat
  {
    if cs == [] then 0 else (if cs[0] == c then 1 else 0) + Occurrences(cs[1..], c)
  }

  /** The number of positions where `guess` and `secret` hold the same letter. */
  function Matches(secret: string, guess: string): nat
  {
    if secret == [] || guess == [] then 0
    else (if guess[0] == secret[0] then 1 else 0) + Matches(secret[1..], guess[1..])
  }

  /** Any labelling that is `correct` exactly at the positions where the
      letters agree has as many `correct` entries as there are such positions. */
  lemma {:induction false} CorrectsCountMatches(secret: string, guess: string, cs: seq<Colour>)
    requires |secret| == |guess| == |cs|
    requires forall i :: 0 <= i < |cs| ==> (cs[i] == Correct <==> guess[i] == secret[i])
    ensures Occurrences(cs, Correct) == Matches(secret, guess)
  {
    if cs != [] {
      CorrectsCountMatches(secret[1..], guess[1..], cs[1..]);
    }
  }

  /** The number of `correct` colours is the number of letters in place. */
  lemma CorrectCount(secret: string, guess: string)
    requires |secret| == |guess|
    ensures Occurrences(Colours(secret, guess), Correct) == Matches(secret, guess)
  {
    var cs := Colours(secret, guess);
    forall i | 0 <= i < |cs| ensures cs[i] == Correct <==> guess[i] == secret[i] {
      ColourMeaning(secret, guess, i);
    }
    CorrectsCountMatches(secret, guess, cs);
  }

  /** The number of positions holding letter `x` whose colour is `correct`
      or `present`: the credit the guess gets for `x`. */
  function Credits(guess: string, cs: seq<Colour>, x: char): nat
    requires |cs| == |guess|
  {
    if guess == [] then 0
    else (if guess[0] == x && cs[0] != Absent then 1 else 0) + Credits(guess[1..], cs[1..], x)
  }

  /** Any labelling that credits exactly the letters of the secret credits a
      letter of the secret once for every time the guess holds it. */
  lemma {:induction false} CreditsOfLabelling(secret: string, guess: string, cs: seq<Colour>, x: char)
    requires |cs| == |guess|
    requires forall i :: 0 <= i < |cs| ==> (cs[i] != Absent <==> guess[i] in secret)
    ensures Credits(guess, cs, x) == if x in secret then multiset(guess)[x] else 0
  {
    if guess != [] {
      assert guess == [guess[0]] + guess[1..];
      assert forall i :: 0 <= i < |cs| - 1 ==> cs[1..][i] == cs[i + 1] && guess[1..][i] == guess[i + 1];
      CreditsOfLabelling(secret, guess[1..], cs[1..], x);
    }
  }

  /** The credit a guess gets for a letter is the number of times the guess
      holds it when the secret holds it at all, and nothing otherwise. The
      number of times the secret holds it plays no part. */
  lemma CreditsOfColours(secret: string, guess: string, x: char)
    requires |secret| == |guess|
    ensures Credits(guess, Colours(secret, guess), x) == if x in secret then multiset(guess)[x] else 0
  {
    var cs := Colours(secret, guess);
    forall i | 0 <= i < |cs| ensures cs[i] != Absent <==> guess[i] in secret {
      CreditedIff(secret, guess, i);
    }
    CreditsOfLabelling(secret, guess, cs, x);
  }

  /** The credit for a letter can exceed the number of times the secret holds
      it: against "ABBEY" (two B's) the guess "BBBBB" gets five B's coloured. */
  lemma FrequencyBoundFails()
    ensures Colours("ABBEY", "BBBBB") == [Present, Correct, Correct, Present, Present]
    ensures multiset("ABBEY")['B'] == 2
    ensures Credits("BBBBB", Colours("ABBEY", "BBBBB"), 'B') == 5
  {
    var secret, guess := "ABBEY", "BBBBB";
    assert secret[1] == 'B';
    assert ColourAt(secret, guess, 0) == Present;
    assert ColourAt(secret, guess, 3) == Present;
    assert ColourAt(secret, guess, 4) == Present;
    assert multiset(secret) == multiset{'A', 'B', 'B', 'E', 'Y'};
    assert multiset(guess) == multiset{'B', 'B', 'B', 'B', 'B'};
    CreditsOfColours(secret, guess, 'B');
  }
}
