/** The Pokémon list models and the id parser `PokemonEntry.extractId`. */
module PokemonModels {
  import opened Wrappers
  import opened Text

  /** One entry of a list page. */
  datatype PokemonEntry = PokemonEntry(name: string, url: string)

  /** One page of the list; `next` and `previous` are null at the ends. */
  datatype PokemonListResponse = PokemonListResponse(
    count: int,
    next: Option<string>,
    previous: Option<string>,
    results: seq<PokemonEntry>)

  /** The largest value of Kotlin's 32-bit `Int`. */
  const MaxInt: int := 0x7FFF_FFFF

  /** The characters java.util.regex treats as line terminators by default. */
  predicate IsLineTerminator(c: char) {
    c == '\n' || c == '\r' || c == '\U{85}' || c == '\U{2028}' || c == '\U{2029}'
  }

  /** Where `$` matches without the MULTILINE flag: at the end of the input,
      or just before a line terminator that ends the input (a `\r\n` pair
      counts as one terminator, and its `\n` alone does not). */
  predicate EndAnchorAt(s: string, i: int) {
    || i == |s|
    || (0 <= i && i + 1 == |s| && IsLineTerminator(s[i]) && !(s[i] == '\n' && i > 0 && s[i - 1] == '\r'))
    || (0 <= i && i + 2 == |s| && s[i] == '\r' && s[i + 1] == '\n')
  }

  /** The end of the run of ASCII digits (`\d`) starting at `i`. */
  function DigitRunEnd(s: string, i: nat): (j: nat)
    requires i <= |s|
    ensures i <= j <= |s|
    ensures forall k :: i <= k < j ==> IsDigit(s[k])
    ensures j == |s| || !IsDigit(s[j])
    decreases |s| - i
  {
    if i < |s| && IsDigit(s[i]) then DigitRunEnd(s, i + 1) else i
  }

  /** The pattern `/(\d+)/?$` tried at position `p`, giving the bounds of
      group 1 on success. `\d+` is greedy; giving back digits cannot help,
      because neither `/` nor `$` can match in front of a digit. */
  function MatchAt(s: string, p: nat): (g: Option<(nat, nat)>)
    requires p <= |s|
    ensures g.Some? ==> g.value.0 == p + 1 && p + 1 < g.value.1 <= |s|
    ensures g.Some? ==> AllDigits(s[g.value.0..g.value.1])
  {
    if p < |s| && s[p] == '/' then
      var q := DigitRunEnd(s, p + 1);
      if q == p + 1 then None
      else if q < |s| && s[q] == '/' && EndAnchorAt(s, q + 1) then Some((p + 1, q))
      else if EndAnchorAt(s, q) then Some((p + 1, q))
      else None
    else None
  }

  /** `Regex.find`: the match that starts leftmost, from position `p` on. */
  function FindFrom(s: string, p: nat): (g: Option<(nat, nat)>)
    requires p <= |s|
    ensures g.Some? ==> g.value.0 < g.value.1 <= |s| && AllDigits(s[g.value.0..g.value.1])
    decreases |s| - p
  {
    var m := MatchAt(s, p);
    if m.Some? then m
    else if p == |s| then None
    else FindFrom(s, p + 1)
  }

  /** Kotlin's `String.toIntOrNull` on a non-empty digit string: null when
      the value does not fit a 32-bit `Int`. */
  function ToIntOrNull(ds: string): (r: Option<int>)
    requires AllDigits(ds)
    ensures r.Some? <==> ValueOf(ds) <= MaxInt
    ensures r.Some? ==> r.value == ValueOf(ds)
    ensures r.Some? ==> 0 <= r.value <= MaxInt
  {
    var v := ValueOf(ds);
    if v <= MaxInt then Some(v) else None
  }

  /** `PokemonEntry.extractId`: the number at the end of the entry's URL. */
  function ExtractId(e: PokemonEntry): (r: Option<int>)
    ensures r.Some? ==> 0 <= r.value <= MaxInt
  {
    match FindFrom(e.url, 0)
    case None => None
    case Some((lo, hi)) => ToIntOrNull(e.url[lo..hi])
  }

  /** The shape the pattern accepts, stated directly: a `/` at `p`, digits
      from `p + 1` up to `q`, then an optional `/` and the end anchor. */
  predicate IdSuffix(s: string, p: int, q: int) {
    && 0 <= p && p + 1 < q <= |s|
    && s[p] == '/'
    && AllDigits(s[p + 1..q])
    && ((q < |s| && s[q] == '/' && EndAnchorAt(s, q + 1)) || EndAnchorAt(s, q))
  }

  /** Nothing after an end anchor is a digit or a slash. */
  lemma AfterAnchor(s: string, i: int, k: int)
    requires EndAnchorAt(s, i)
    requires 0 <= i <= k < |s|
    ensures !IsDigit(s[k]) && s[k] != '/'
  {
  }

  /** The run of digits of an accepted shape is maximal: it is the run
      `DigitRunEnd` finds. */
  lemma IdSuffixRunEnd(s: string, p: int, q: int)
    requires IdSuffix(s, p, q)
    ensures DigitRunEnd(s, p + 1) == q
  {
    var j := DigitRunEnd(s, p + 1);
    assert forall k :: p + 1 <= k < q ==> IsDigit(s[k]) by {
      forall k | p + 1 <= k < q
        ensures IsDigit(s[k])
      {
        assert s[p + 1..q][k - p - 1] == s[k];
      }
    }
    if q < |s| {
      if s[q] == '/' {
      } else {
        AfterAnchor(s, q, q);
      }
    }
  }

  /** The matcher at `p` succeeds exactly on the accepted shape. */
  lemma MatchAtIff(s: string, p: nat, q: int)
    requires p <= |s|
    ensures MatchAt(s, p) == Some((p + 1, q)) <==> IdSuffix(s, p, q)
  {
    if IdSuffix(s, p, q) {
      IdSuffixRunEnd(s, p, q);
    }
    if MatchAt(s, p) == Some((p + 1, q)) {
      assert DigitRunEnd(s, p + 1) == q;
    }
  }

  /** At most one position fits the accepted shape. */
  lemma IdSuffixUnique(s: string, p: int, q: int, p': int, q': int)
    requires IdSuffix(s, p, q) && IdSuffix(s, p', q')
    ensures p == p' && q == q'
  {
    IdSuffixRunEnd(s, p, q);
    IdSuffixRunEnd(s, p', q');
    if p < p' {
      NoSlashInside(s, p, q, p');
    } else if p' < p {
      NoSlashInside(s, p', q', p);
    }
  }

  /** No slash that starts a digit run sits inside or after an accepted shape. */
  lemma NoSlashInside(s: string, p: int, q: int, r: int)
    requires IdSuffix(s, p, q)
    requires p < r < |s| && s[r] == '/'
    ensures r + 1 >= |s| || !IsDigit(s[r + 1])
  {
    IdSuffixRunEnd(s, p, q);
    if r == q {
      if r + 1 < |s| {
        AfterAnchor(s, q + 1, r + 1);
      }
    } else if r > q {
      if q < |s| && s[q] == '/' && EndAnchorAt(s, q + 1) {
        AfterAnchor(s, q + 1, r);
      } else {
        AfterAnchor(s, q, r);
      }
    }
  }

  /** The leftmost search finds the accepted shape wherever it sits. */
  lemma {:induction false} FindFromFinds(s: string, from: nat, p: int, q: int)
    requires from <= p
    requires IdSuffix(s, p, q)
    ensures FindFrom(s, from) == Some((p + 1, q))
    decreases p - from
  {
    MatchAtIff(s, from, q);
    if from < p {
      var m := MatchAt(s, from);
      if m.Some? {
        var q' := m.value.1;
        MatchAtIff(s, from, q');
        IdSuffixUnique(s, p, q, from, q');
      }
      FindFromFinds(s, from + 1, p, q);
    }
  }

  /** The leftmost search fails when nothing fits the accepted shape. */
  lemma {:induction false} FindFromFails(s: string, from: nat)
    requires from <= |s|
    requires forall p, q :: !IdSuffix(s, p, q)
    ensures FindFrom(s, from) == None
    decreases |s| - from
  {
    var m := MatchAt(s, from);
    if m.Some? {
      MatchAtIff(s, from, m.value.1);
    }
    if from < |s| {
      FindFromFails(s, from + 1);
    }
  }

  /** What `extractId` computes, stated without the matcher: the value of
      the digit run of the accepted shape when it fits an `Int`, and null
      when the URL has no such shape or the value overflows. */
  lemma ExtractIdSpec(e: PokemonEntry)
    ensures forall p, q :: IdSuffix(e.url, p, q) ==> ExtractId(e) == ToIntOrNull(e.url[p + 1..q])
    ensures (forall p, q :: !IdSuffix(e.url, p, q)) ==> ExtractId(e) == None
  {
    forall p, q | IdSuffix(e.url, p, q)
      ensures ExtractId(e) == ToIntOrNull(e.url[p + 1..q])
    {
      FindFromFinds(e.url, 0, p, q);
    }
    if forall p, q :: !IdSuffix(e.url, p, q) {
      FindFromFails(e.url, 0);
    }
  }

  /** Round trip: a URL ending in `/`, the decimal form of `n` and an
      optional `/` yields `n` whenever `n` fits an `Int`, and null otherwise. */
  lemma ExtractIdRoundTrip(name: string, base: string, n: nat, trailingSlash: bool)
    ensures var url := base + "/" + DecimalOf(n) + (if trailingSlash then "/" else "");
            ExtractId(PokemonEntry(name, url)) == if n <= MaxInt then Some(n) else None
  {
    var digits := DecimalOf(n);
    var url := base + "/" + digits + (if trailingSlash then "/" else "");
    var p, q := |base|, |base| + 1 + |digits|;
    assert url[p + 1..q] == digits;
    assert url[p] == '/';
    if trailingSlash {
      assert url[q] == '/';
    }
    assert IdSuffix(url, p, q);
    ExtractIdSpec(PokemonEntry(name, url));
  }

  /** The last digit of an accepted shape is one of the last four characters
      of the URL, and the shape starts on a slash followed only by digits. */
  lemma IdSuffixShape(s: string, p: int, q: int)
    requires IdSuffix(s, p, q)
    ensures |s| - 4 <= q - 1 < |s| && IsDigit(s[q - 1])
    ensures s[p] == '/' && forall k :: p < k < q ==> IsDigit(s[k])
  {
    assert s[p + 1..q][q - p - 2] == s[q - 1];
    forall k | p < k < q
      ensures IsDigit(s[k])
    {
      assert s[p + 1..q][k - p - 1] == s[k];
    }
  }

  /** The usual list URL, with or without its trailing slash, yields 25. */
  lemma ExtractIdExamples()
    ensures ExtractId(PokemonEntry("pikachu", "https://pokeapi.co/api/v2/pokemon/25/")) == Some(25)
    ensures ExtractId(PokemonEntry("pikachu", "https://pokeapi.co/api/v2/pokemon/25")) == Some(25)
  {
    var base := "https://pokeapi.co/api/v2/pokemon";
    assert DecimalOf(25) == "25";
    ExtractIdRoundTrip("pikachu", base, 25, true);
    ExtractIdRoundTrip("pikachu", base, 25, false);
    assert base + "/" + "25" + "/" == "https://pokeapi.co/api/v2/pokemon/25/";
    assert base + "/" + "25" + "" == "https://pokeapi.co/api/v2/pokemon/25";
  }

  /** Leading zeros are ignored. */
  lemma ExtractIdLeadingZeros()
    ensures ExtractId(PokemonEntry("bond", "/007/")) == Some(7)
  {
    var s := "/007/";
    assert s[1..4] == "007";
    assert IdSuffix(s, 0, 4);
    assert "7"[..0] == "" && ValueOf("7") == 7;
    LeadingZero("7");
    assert "0" + "7" == "07";
    LeadingZero("07");
    assert "0" + "07" == "007";
    ExtractIdSpec(PokemonEntry("bond", s));
  }

  /** A URL that ends in a name rather than digits yields null. */
  lemma ExtractIdNoDigits()
    ensures ExtractId(PokemonEntry("pikachu", "https://pokeapi.co/api/v2/pokemon/pikachu/")) == None
  {
    var s := "https://pokeapi.co/api/v2/pokemon/pikachu/";
    forall p, q | IdSuffix(s, p, q)
      ensures false
    {
      IdSuffixShape(s, p, q);
    }
    ExtractIdSpec(PokemonEntry("pikachu", s));
  }

  /** Digits not directly preceded by a slash yield null. */
  lemma ExtractIdNeedsSlash()
    ensures ExtractId(PokemonEntry("x", "abc25/")) == None
  {
    var s := "abc25/";
    forall p, q | IdSuffix(s, p, q)
      ensures false
    {
      IdSuffixShape(s, p, q);
    }
    ExtractIdSpec(PokemonEntry("x", s));
  }

  /** Java's `$` also matches before a final line break. */
  lemma ExtractIdBeforeLineBreak()
    ensures ExtractId(PokemonEntry("x", "/25/\n")) == Some(25)
  {
    var s := "/25/\n";
    assert s[1..3] == "25";
    assert IdSuffix(s, 0, 3);
    assert "25"[..1] == "2" && ValueOf("25") == 25;
    ExtractIdSpec(PokemonEntry("x", s));
  }
}
