# Wordle share-a-word game, modelled in Dafny

The game is one browser script. Someone types a five-letter word and gets a
link that carries it as the `word` query parameter. Whoever opens the link
plays against that word as the secret. There are six attempts on a board of
six rows of five cells. Each guess is written into the next row, and each of
its letters is coloured:

- `correct` when it matches the secret's letter at that position;
- otherwise `present` when the secret holds that letter anywhere;
- otherwise `absent`.

A guess equal to the secret shows the win message and disables the guess box.
A sixth guess that misses shows the game-over message. After six attempts
every further five-letter guess is ignored; a guess of another length still
gets the "Guess must be 5 letters" alert.

The project has four modules:

- `Text` (`text.dfy`): upper-casing, as `toUpperCase()` is applied to the
  secret, the typed guess and the typed word.
- `Colouring` (`colouring.dfy`): the per-position colour rule as pure
  functions, with lemmas on what each colour means, on winning and on
  counting.
- `Link` (`link.dfy`): `createGame`, which checks the word's length and
  builds the link.
- `Game` (`session.dfy`): the game's state as a class `Session`. Its fields
  are the secret, a 6×5 `array2` of cells, the attempt counter, the message,
  and the guess box's text and disabled flag. `submitGuess` is the method
  `SubmitGuess`. It colours the row in place with a loop.

`Session` keeps a ghost record of the accepted guesses. Its invariant `Valid`
ties every field to that record:

- the counter is the number of guesses, at most six;
- row `r` holds guess `r` coloured, and the rows after the last guess are blank;
- the message is the fold of the per-guess message step over the guesses;
- the box is disabled exactly when a guess matched, and a disabled box is empty.

The pure lemmas then say what those values mean.

The script counts no letters, so the colouring is not frequency-aware. A
letter of the secret is credited every time the guess holds it. Against
"ABBEY", the guess "BBBBB" gets all five B's coloured although the secret
has two of them (`FrequencyBoundFails`).

## Model

| member | source | states |
|---|---|---|
| Text.Upper | wordle/script.js:50 | upper-casing keeps the length, changes each character in place, and leaves no lower-case letter |
| Text.UpperIdempotent | wordle/script.js:8 | upper-casing the secret again when the game starts does not change the already upper-cased word from the link |
| Colouring.Colours | wordle/script.js:63-73 | a guess gets exactly one colour per position |
| Colouring.ColourMeaning | wordle/script.js:66-72 | `correct` iff the letters agree at that position; `present` iff they disagree and the secret holds the letter; `absent` iff the secret does not hold the letter |
| Colouring.CreditedIff | wordle/script.js:68-72 | a position is coloured (not `absent`) iff the secret holds its letter |
| Colouring.WinIffAllCorrect | wordle/script.js:66-75 | for a guess as long as the secret, `guess === secret` holds iff every position is `correct` |
| Colouring.CorrectsCountMatches | wordle/script.js:66-67 | any labelling that is `correct` exactly where the letters agree has as many `correct` entries as there are agreeing positions |
| Colouring.CorrectCount | wordle/script.js:63-73 | the number of `correct` colours is the number of positions where guess and secret agree |
| Colouring.CreditsOfLabelling | wordle/script.js:68-69 | a labelling that credits exactly the secret's letters credits letter x as often as the guess holds x if the secret holds x, and never otherwise |
| Colouring.CreditsOfColours | wordle/script.js:63-73 | the number of coloured positions for a letter is its count in the guess when the secret holds it, and 0 otherwise; its count in the secret plays no part |
| Colouring.FrequencyBoundFails | wordle/script.js:63-73 | secret "ABBEY", guess "BBBBB": colours Present, Correct, Correct, Present, Present; five B's credited though the secret has two |
| Link.CreateGame | wordle/script.js:15-23 | a word whose length is not 5 gets the "must be exactly 5 letters" outcome; otherwise a link of origin, path, "?word=" and five characters |
| Link.LinkCarriesWord | wordle/script.js:23 | a link made for a five-letter word is the page address, then "?word=", then the upper-cased word, which upper-casing leaves unchanged |
| Game.MessageAfterMeaning | wordle/script.js:75-80 | after at most six accepted guesses that stop at the first win: win message iff some guess matched; game-over message iff six guesses all missed; no message otherwise |
| Game.WonIffLastRowCorrect | wordle/script.js:63-80 | in such a run the win message shows iff the last row written is all `correct` |
| Game.Session.constructor | wordle/script.js:7-12 | a game starts from a five-letter word with the upper-cased word as secret, a blank 6×5 board, no attempts, no message and an empty, enabled guess box |
| Game.Session.SetInput | wordle/script.js:77 | typing into a disabled guess box leaves its text as it was |
| Game.Session.SubmitGuess | wordle/script.js:48-84 | rejected iff the upper-cased guess is not 5 long (checked first), ignored iff all 6 attempts are used; rejected or ignored: nothing changes. Accepted: only row `attempts` is written, with each letter and its colour; the counter goes up by one; a match sets the win message and disables the box; otherwise the sixth attempt sets the game-over message; the box is emptied. After a win every submission is rejected, and the counter never exceeds 6 |

## Left out

- Building the page: `createBoard`, showing and hiding boxes, `innerHTML`, `classList`, `textContent` and the alerts. The board is an `array2` of cells. The message is a datatype value, with the literal texts in comments. The alerts are the `Rejected` outcome of `SubmitGuess` and the `MustBeFiveLetters` outcome of `CreateGame`.
- Reading the `word` query parameter with `URLSearchParams`, together with `window.location`. The secret is the constructor's argument. The page's origin and path are plain string arguments of `CreateGame`. The model does not show what the page reads back from a link whose word holds `&`, `#`, `+` or `%`. The script puts the word into the link without URL-encoding it.
- Game.Session.constructor: requires a five-character word. The script also starts a game on a secret of any other non-empty length, where `secret[i]` can be `undefined`. It starts no game when the parameter is missing.
- Text.Upper: maps only ASCII `a`–`z`. JavaScript's `toUpperCase()` follows Unicode, where a character can upper-case to several (for example "ß" to "SS"). `.length` counts UTF-16 code units, while a Dafny string counts characters.
- Game.Session.SubmitGuess: the script does not read the disabled flag. What stops play after a win is that a disabled text box cannot be typed into (`SetInput`) and was emptied, so the next submission is too short. The model shows this through the box's text alone.
- How the browser calls `submitGuess` and `createGame` (button handlers) is not in the script. The model takes them as calls made one at a time.
