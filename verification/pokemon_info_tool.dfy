/** The `pokemon_info` agent tool: a header line, then one matching entry
    per line. */
module PokemonInfoTool {
  import opened Text
  import opened PokemonModels
  import opened PokemonService

  /** The data-class `toString` of an entry, which `joinToString` uses. */
  function EntryText(e: PokemonEntry): string {
    "PokemonEntry(name=" + e.name + ", url=" + e.url + ")"
  }

  function NotFoundMessage(c: char): string {
    "No Pokemon found starting with '" + [c] + "'"
  }

  function Header(c: char): string {
    "Pokemon starting with '" + [c] + "':\n"
  }

  function EntryTexts(entries: seq<PokemonEntry>): (texts: seq<string>)
    ensures |texts| == |entries|
    ensures forall i :: 0 <= i < |entries| ==> texts[i] == EntryText(entries[i])
  {
    seq(|entries|, i requires 0 <= i < |entries| => EntryText(entries[i]))
  }

  /** `doExecute`: the not-found message when nothing matches (a failed
      fetch included), otherwise the header and the matches, one per line. */
  function DoExecute(fetched: FetchResult, c: char): (r: string)
    ensures PokemonNamesStartingWith(fetched, c) == [] ==> r == NotFoundMessage(c)
    ensures fetched.FetchFailed? ==> r == NotFoundMessage(c)
    ensures PokemonNamesStartingWith(fetched, c) != [] ==> |Header(c)| <= |r| && r[..|Header(c)|] == Header(c)
  {
    var matches := PokemonNamesStartingWith(fetched, c);
    if |matches| == 0 then NotFoundMessage(c)
    else Header(c) + Join(EntryTexts(matches), "\n")
  }

  /** The reply is the not-found message exactly when nothing matches. */
  lemma NotFoundIff(fetched: FetchResult, c: char)
    ensures DoExecute(fetched, c) == NotFoundMessage(c) <==> PokemonNamesStartingWith(fetched, c) == []
  {
    var r := DoExecute(fetched, c);
    if PokemonNamesStartingWith(fetched, c) != [] {
      assert r[0] == 'P';
      assert NotFoundMessage(c)[0] == 'N';
    }
  }

  /** After the header come the matching entries in list order, separated
      by line breaks and with none at the end: cutting the rest at line
      breaks gives back the entries, provided no name or URL holds one. */
  lemma DoExecuteLines(fetched: FetchResult, c: char)
    requires PokemonNamesStartingWith(fetched, c) != []
    requires forall e :: e in PokemonNamesStartingWith(fetched, c) ==> '\n' !in e.name && '\n' !in e.url
    ensures var r := DoExecute(fetched, c);
            Split(r[|Header(c)|..], '\n') == EntryTexts(PokemonNamesStartingWith(fetched, c))
  {
    var matches := PokemonNamesStartingWith(fetched, c);
    LinesRoundTrip(matches);
    assert DoExecute(fetched, c)[|Header(c)|..] == Join(EntryTexts(matches), "\n");
  }

  /** Entry texts joined with line breaks split back into the same texts,
      provided no name or URL holds a line break. */
  lemma LinesRoundTrip(entries: seq<PokemonEntry>)
    requires |entries| > 0
    requires forall e :: e in entries ==> '\n' !in e.name && '\n' !in e.url
    ensures Split(Join(EntryTexts(entries), "\n"), '\n') == EntryTexts(entries)
  {
    var texts := EntryTexts(entries);
    forall i | 0 <= i < |texts|
      ensures '\n' !in texts[i]
    {
      assert entries[i] in entries;
    }
    SplitJoin(texts, '\n');
  }
}
