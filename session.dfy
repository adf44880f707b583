/** One game in the page: the secret, the board of six rows of five cells,
    the attempt counter, the message line and the guess text box. The page
    keeps these as globals and page elements; here they are the fields of a
    `Session`, and `submitGuess` is its method `SubmitGuess`. */
module Game {
  import opened Text
  import opened Colouring

  const MaxAttempts := 6
  /** The number of cells in a row of the board. */
  const WordLength := 5

  /** A cell of the board: empty, or holding a letter and its colour. */
  datatype Cell = Blank | Filled(letter: char, colour: Colour)

  /** The text of the message line. */
  datatype Message =
    | NoMessage
    | YouGuessedIt            // "🎉 You guessed it!"
    | GameOver(word: string)  // "❌ Game Over! Word was " followed by the word

  /** How `submitGuess` ends: refused with the "Guess must be 5 letters"
      alert, ignored because every attempt is used, or written to the board. */
  datatype Submitted = Rejected | Ignored | Accepted

  /** The cell written at column `c` of the row of an accepted guess. */
  function CellFor(secret: string, guess: string, c: nat): Cell
    requires c < |guess|
  {
    Filled(guess[c], ColourAt(secret, guess, c))
  }

  /** The message after accepting `guess` as attempt number `before`
      (counting from 0): a match wins, whatever the attempt; otherwise the
      last attempt loses; otherwise the message is left as it was. */
  function NextMessage(secret: string, before: nat, guess: string, m: Message): Message {
    if guess == secret then YouGuessedIt
    else if before == MaxAttempts - 1 then GameOver(secret)
    else m
  }

  /** The message after accepting `guesses` in turn, starting from none. */
  function MessageAfter(secret: string, guesses: seq<string>): Message
    decreases |guesses|
  {
    if guesses == [] then NoMessage
    else
      var n := |guesses| - 1;
      NextMessage(secret, n, guesses[n], MessageAfter(secret, guesses[..n]))
  }

  /** No guess but perhaps the last one matches the secret. */
  predicate NothingAfterWin(secret: string, guesses: seq<string>) {
    forall k :: 0 <= k < |guesses| - 1 ==> guesses[k] != secret
  }

  /** What the message means after a run of accepted guesses that stops at
      the first win and uses at most six attempts: the win message exactly
      when some guess matched, the game-over message exactly when all six
      attempts missed, and no message otherwise. */
  lemma {:induction false} MessageAfterMeaning(secret: string, guesses: seq<string>)
    requires |guesses| <= MaxAttempts
    requires NothingAfterWin(secret, guesses)
    ensures MessageAfter(secret, guesses) ==
      if secret in guesses then YouGuessedIt
      else if |guesses| == MaxAttempts then GameOver(secret)
      else NoMessage
  {
    if guesses != [] {
      var n := |guesses| - 1;
      var prior := guesses[..n];
      assert secret !in prior;
      assert guesses == prior + [guesses[n]];
      MessageAfterMeaning(secret, prior);
    }
  }

  /** In such a run the win message shows exactly when the last row written
      is coloured `correct` all the way along. */
  lemma WonIffLastRowCorrect(secret: string, guesses: seq<string>)
    requires |guesses| <= MaxAttempts
    requires NothingAfterWin(secret, guesses)
    requires forall k :: 0 <= k < |guesses| ==> |guesses[k]| == |secret|
    ensures MessageAfter(secret, guesses) == YouGuessedIt <==>
      guesses != [] && AllCorrect(Colours(secret, guesses[|guesses| - 1]))
  {
    MessageAfterMeaning(secret, guesses);
    if guesses != [] {
      WinIffAllCorrect(secret, guesses[|guesses| - 1]);
    }
  }

  class Session {
    const secret: string
    const board: array2<Cell>
    var attempts: nat
    var message: Message
    /** The text in the guess box, and whether the box is disabled. */
    var inputValue: string
    var inputDisabled: bool
    /** The guesses accepted so far, upper-cased, in order. */
    ghost var guesses: seq<string>

    ghost predicate Valid()
      reads this, board
    {
      |secret| == WordLength && IsUpperText(secret) &&
      board.Length0 == MaxAttempts && board.Length1 == WordLength &&
      attempts == |guesses| <= MaxAttempts &&
      (forall k :: 0 <= k < |guesses| ==> |guesses[k]| == WordLength) &&
      NothingAfterWin(secret, guesses) &&
      (forall r, c :: 0 <= r < MaxAttempts && 0 <= c < WordLength ==>
        board[r, c] == if r < |guesses| then CellFor(secret, guesses[r], c) else Blank) &&
      message == MessageAfter(secret, guesses) &&
      inputDisabled == (secret in guesses) &&
      (inputDisabled ==> inputValue == "")
    }

    /** A game started from a link whose `word` is `word`: the secret is
        the word upper-cased, and the board is six empty rows of five. */
    constructor (word: string)
      requires |word| == WordLength
      ensures Valid() && fresh(board)
      ensures secret == Upper(word)
      ensures attempts == 0 && guesses == [] && message == NoMessage
      ensures inputValue == "" && !inputDisabled
    {
      secret := Upper(word);
      board := new Cell[MaxAttempts, WordLength]((_, _) => Blank);
      attempts := 0;
      message := NoMessage;
      inputValue := "";
      inputDisabled := false;
      guesses := [];
    }

    /** The player types into the guess box; a disabled box keeps its text. */
    method SetInput(text: string)
      requires Valid()
      modifies this`inputValue
      ensures Valid()
      ensures inputValue == if inputDisabled then old(inputValue) else text
    {
      if !inputDisabled {
        inputValue := text;
      }
    }

    /** `submitGuess`: the box's text, upper-cased, is refused unless it has
        five letters, ignored once six attempts are used, and otherwise
        coloured into row `attempts`, checked for a win or the last miss, and
        counted. */
    method SubmitGuess() returns (outcome: Submitted)
      requires Valid()
      modifies this, board
      ensures Valid()
      ensures var guess := Upper(old(inputValue));
        outcome == if |guess| != WordLength then Rejected
                   else if old(attempts) >= MaxAttempts then Ignored
                   else Accepted
      ensures outcome != Accepted ==>
        attempts == old(attempts) && guesses == old(guesses) && message == old(message) &&
        inputValue == old(inputValue) && inputDisabled == old(inputDisabled) &&
        unchanged(board)
      ensures var guess := Upper(old(inputValue));
        outcome == Accepted ==>
          attempts == old(attempts) + 1 && guesses == old(guesses) + [guess] &&
          (forall r, c :: 0 <= r < MaxAttempts && 0 <= c < WordLength ==>
            board[r, c] == if r == old(attempts) then CellFor(secret, guess, c) else old(board[r, c])) &&
          message == NextMessage(secret, old(attempts), guess, old(message)) &&
          inputDisabled == (guess == secret) && inputValue == ""
      ensures old(inputDisabled) ==> outcome == Rejected
      ensures attempts <= MaxAttempts
    {
      var guess := Upper(inputValue);
      if |guess| != WordLength {
        return Rejected;
      }
      if attempts >= MaxAttempts {
        return Ignored;
      }
      var row := attempts;
      for i := 0 to WordLength
        modifies board
        invariant forall r, c :: 0 <= r < MaxAttempts && 0 <= c < WordLength ==>
          board[r, c] == if r == row && c < i then CellFor(secret, guess, c) else old(board[r, c])
      {
        var colour;
        if guess[i] == secret[i] {
          colour := Correct;
        } else if guess[i] in secret {
          colour := Present;
        } else {
          colour := Absent;
        }
        board[row, i] := Filled(guess[i], colour);
      }
      assert (guesses + [guess])[..|guesses|] == guesses;
      if guess == secret {
        message := YouGuessedIt;
        inputDisabled := true;
      } else if attempts == MaxAttempts - 1 {
        message := GameOver(secret);
      }
      attempts := attempts + 1;
      guesses := guesses + [guess];
      inputValue := "";
      outcome := Accepted;
    }
  }
}
