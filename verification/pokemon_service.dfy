/** The Pokémon API client. The HTTP requests themselves are inputs: a
    fetch is either the decoded page or the failure `runCatching` caught. */
module PokemonService {
  import opened Wrappers
  import opened Text
  import opened PokemonModels
  import Seqs

  /** A `Result<PokemonListResponse>`: the page, or the failure's message
      (a Kotlin exception message may be null). */
  datatype FetchResult = Fetched(page: PokemonListResponse) | FetchFailed(message: Option<string>)

  /** The predicate `getPokemonNamesStartingWith` hands to `filter`. */
  function NameStartsWith(c: char): PokemonEntry -> bool {
    (e: PokemonEntry) => StartsWithIgnoreCase(e.name, c)
  }

  /** `getPokemonNamesStartingWith`: the fetched entries whose name starts
      with `c` ignoring case, in list order; an empty list when the fetch
      failed. */
  function PokemonNamesStartingWith(fetched: FetchResult, c: char): (r: seq<PokemonEntry>)
    ensures fetched.FetchFailed? ==> r == []
    ensures forall i :: 0 <= i < |r| ==> |r[i].name| > 0 && StartsWithIgnoreCase(r[i].name, c)
    ensures fetched.Fetched? ==>
              forall i :: 0 <= i < |fetched.page.results| && StartsWithIgnoreCase(fetched.page.results[i].name, c)
                ==> fetched.page.results[i] in r
    ensures fetched.Fetched? ==> Seqs.IsSubseq(r, fetched.page.results)
  {
    match fetched
    case FetchFailed(_) => []
    case Fetched(page) =>
      var r := Seqs.Filter(page.results, NameStartsWith(c));
      Seqs.FilterIsSubseq(page.results, NameStartsWith(c));
      assert forall i :: 0 <= i < |page.results| && StartsWithIgnoreCase(page.results[i].name, c)
               ==> page.results[i] in r by {
        forall i | 0 <= i < |page.results| && StartsWithIgnoreCase(page.results[i].name, c)
          ensures page.results[i] in r
        {
          Seqs.FilterComplete(page.results, NameStartsWith(c), i);
        }
      }
      r
  }

  /** The selection keeps each matching entry as many times as the page
      lists it, and nothing else. */
  lemma NamesCounted(fetched: FetchResult, c: char)
    requires fetched.Fetched?
    ensures var r := PokemonNamesStartingWith(fetched, c);
            forall x :: multiset(r)[x] == if StartsWithIgnoreCase(x.name, c) then multiset(fetched.page.results)[x] else 0
  {
    Seqs.FilterCount(fetched.page.results, NameStartsWith(c));
    forall x
      ensures NameStartsWith(c)(x) == StartsWithIgnoreCase(x.name, c)
    {
    }
  }

  /** Lower-casing the initial first gives the same entries. */
  lemma NamesCaseInsensitive(fetched: FetchResult, c: char)
    ensures PokemonNamesStartingWith(fetched, c) == PokemonNamesStartingWith(fetched, Lower(c))
  {
    if fetched.Fetched? {
      Seqs.FilterCongruent(fetched.page.results, NameStartsWith(c), NameStartsWith(Lower(c)));
    }
  }

  /** What a page request did: the URLs it asked for and what came back;
      no result means the request was never issued. */
  datatype PageFetch = PageFetch(requested: seq<string>, result: Option<FetchResult>)

  /** Follows a link of the page when it is present (`link?.let { … }`). */
  function FollowLink(link: Option<string>, fetch: string -> FetchResult): (r: PageFetch)
    ensures link.None? <==> r.requested == []
    ensures link.None? ==> r.result.None?
    ensures link.Some? ==> r.requested == [link.value] && r.result == Some(fetch(link.value))
  {
    match link
    case None => PageFetch([], None)
    case Some(url) => PageFetch([url], Some(fetch(url)))
  }

  /** `getNextPage`: null, with no request, on the last page. */
  function GetNextPage(current: PokemonListResponse, fetch: string -> FetchResult): (r: PageFetch)
    ensures current.next.None? ==> r.requested == [] && r.result.None?
    ensures current.next.Some? ==> r.requested == [current.next.value] && r.result == Some(fetch(current.next.value))
  {
    FollowLink(current.next, fetch)
  }

  /** `getPreviousPage`: null, with no request, on the first page. */
  function GetPreviousPage(current: PokemonListResponse, fetch: string -> FetchResult): (r: PageFetch)
    ensures current.previous.None? ==> r.requested == [] && r.result.None?
    ensures current.previous.Some? ==>
              r.requested == [current.previous.value] && r.result == Some(fetch(current.previous.value))
  {
    FollowLink(current.previous, fetch)
  }
}
