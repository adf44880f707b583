/** Making the link that starts a game (`createGame`): the typed word is
    upper-cased, refused unless it is five characters long, and otherwise
    appended to the page address as the `word` query parameter. The page's
    origin and path are given as plain text. */
module Link {
  import opened Text

  const WordLength := 5
  const WordQuery := "?word="

  datatype Created =
    | ShareLink(url: string)
    | MustBeFiveLetters  // the alert "Word must be exactly 5 letters"

  /** The outcome of `createGame` for the word typed into the secret-word box. */
  function CreateGame(origin: string, pathname: string, typed: string): (r: Created)
    ensures r.MustBeFiveLetters? <==> |typed| != WordLength
    ensures r.ShareLink? ==> |r.url| == |origin| + |pathname| + |WordQuery| + WordLength
  {
    var word := Upper(typed);
    if |word| != WordLength then MustBeFiveLetters
    else ShareLink(origin + pathname + WordQuery + word)
  }

  /** A link made for a word starts with the page address and the `word`
      query, and what follows is the upper-cased word, which the game takes
      as its secret and upper-cases once more without changing it. */
  lemma LinkCarriesWord(origin: string, pathname: string, typed: string)
    requires |typed| == WordLength
    ensures CreateGame(origin, pathname, typed).ShareLink?
    ensures var url := CreateGame(origin, pathname, typed).url;
      var prefix := origin + pathname + WordQuery;
      url[..|prefix|] == prefix &&
      url[|prefix|..] == Upper(typed) &&
      Upper(url[|prefix|..]) == url[|prefix|..]
  {
    UpperIdempotent(typed);
  }
}
