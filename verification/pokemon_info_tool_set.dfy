/** The `providePokemonInfo` tool: the names of the listed Pokémon whose
    first letter matches, comma-separated. */
module PokemonInfoToolSet {
  import opened Wrappers
  import opened Text
  import opened PokemonModels
  import opened PokemonService
  import Seqs

  /** The predicate the tool filters with:
      `name.firstOrNull()?.lowercaseChar() == c.lowercaseChar()`; a null first
      character (empty name) never equals a character. */
  function FirstCharMatches(c: char): PokemonEntry -> bool {
    (e: PokemonEntry) => |e.name| > 0 && Lower(e.name[0]) == Lower(c)
  }

  /** The names of the entries, in order (`joinToString { it.name }`). */
  function Names(entries: seq<PokemonEntry>): (names: seq<string>)
    ensures |names| == |entries|
    ensures forall i :: 0 <= i < |entries| ==> names[i] == entries[i].name
  {
    seq(|entries|, i requires 0 <= i < |entries| => entries[i].name)
  }

  const FailurePrefix: string := "Failed to fetch Pokémon list: "

  /** How a string template renders a nullable message. */
  function MessageText(message: Option<string>): string {
    match message
    case None => "null"
    case Some(m) => m
  }

  /** `providePokemonInfo`. A successful fetch always carries a page, so the
      "No Pokémon found" fallback of the source can never be produced. */
  function ProvidePokemonInfo(fetched: FetchResult, c: char): (r: string)
    ensures fetched.FetchFailed? ==> r == FailurePrefix + MessageText(fetched.message)
  {
    match fetched
    case Fetched(page) => Join(Names(Seqs.Filter(page.results, FirstCharMatches(c))), ", ")
    case FetchFailed(message) => FailurePrefix + MessageText(message)
  }

  /** On success the tool lists exactly the entries the service's
      `getPokemonNamesStartingWith` selects. The two tests differ in the
      source: the tool compares lower-case forms, the service uses
      `Char.equals(ignoreCase = true)`; over ASCII folding they agree
      (`AsciiFoldingsAgree`). */
  lemma ProvideMatchesService(fetched: FetchResult, c: char)
    requires fetched.Fetched?
    ensures ProvidePokemonInfo(fetched, c) == Join(Names(PokemonNamesStartingWith(fetched, c)), ", ")
  {
    var results := fetched.page.results;
    forall i | 0 <= i < |results|
      ensures FirstCharMatches(c)(results[i]) <==> NameStartsWith(c)(results[i])
    {
      if |results[i].name| > 0 {
        AsciiFoldingsAgree(results[i].name[0], c);
      }
    }
    Seqs.FilterCongruent(results, FirstCharMatches(c), NameStartsWith(c));
  }

  /** Matching ignores case: the initial and its lower-case form give the
      same text. */
  lemma ProvideCaseInsensitive(fetched: FetchResult, c: char)
    ensures fetched.Fetched? ==> ProvidePokemonInfo(fetched, c) == ProvidePokemonInfo(fetched, Lower(c))
  {
    if fetched.Fetched? {
      Seqs.FilterCongruent(fetched.page.results, FirstCharMatches(c), FirstCharMatches(Lower(c)));
    }
  }

  /** On success the text is empty exactly when no entry passes the tool's
      own first-character test: a kept name is never empty, so neither is
      the join. */
  lemma {:induction false} ProvideEmptyIff(fetched: FetchResult, c: char)
    requires fetched.Fetched?
    ensures ProvidePokemonInfo(fetched, c) == "" <==>
              forall i :: 0 <= i < |fetched.page.results| ==> !FirstCharMatches(c)(fetched.page.results[i])
  {
    var results := fetched.page.results;
    var kept := Seqs.Filter(results, FirstCharMatches(c));
    if |kept| > 0 {
      JoinLength(Names(kept), ", ");
      assert |Names(kept)[0]| > 0;
      var i :| 0 <= i < |results| && results[i] == kept[0];
    } else if i :| 0 <= i < |results| && FirstCharMatches(c)(results[i]) {
      Seqs.FilterComplete(results, FirstCharMatches(c), i);
    }
  }
}
