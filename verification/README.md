# KtorExplorer core, modelled in Dafny

KtorExplorer is a Ktor server with three pieces of real logic, and this
project models those pieces:

- **The in-memory todo registry** (`TodoService`). It is an
  insertion-ordered list of `Todo` records behind a coroutine mutex. Each
  `mutex.withLock { … }` body becomes one atomic transition of a pure state
  machine over `seq<Todo>`. Module `TodoService` holds the single calls.
  Module `TodoHistory` runs any sequence of calls, which is every order
  the mutex can admit concurrent calls in. It proves that ids stay unique,
  that no toggle is lost, that creates land in lock order, and that a
  delete stays idempotent whatever calls run between the two deletes.
- **The Pokémon list pieces**, taking the HTTP result as an input:
  - the `PokemonEntry`/`PokemonListResponse` records;
  - `PokemonEntry.extractId`, a model of the Java regex `/(\d+)/?$` followed
    by `toIntOrNull`;
  - `getPokemonNamesStartingWith` and the null short-circuit of
    `getNextPage`/`getPreviousPage`;
  - the two agent tools, `providePokemonInfo` (a `", "`-joined list of
    names) and `pokemon_info`'s `doExecute` (a header line, then one entry
    per line).
- **Registration error classification** (`UserServiceImpl.register`). This
  is the ordered ladder that turns a sign-up failure into an `AuthError`,
  plus the `login` stub and the default error messages.

Shared modules:
- `Wrappers`: `Option`, `Either`.
- `Seqs`: `filter` and the subsequence relation.
- `Text`: ASCII case folding, `contains(ignoreCase = true)`, join/split,
  decimal digit strings.

## Model

| member | source | states |
|---|---|---|
| TodoService.IndexOfFirst | src/main/kotlin/org/example/todo/TodoService.kt:46 | -1 exactly when no record has the id; otherwise the first position holding it |
| TodoService.GetAllTodos | src/main/kotlin/org/example/todo/TodoService.kt:23-26 | the snapshot is the whole list in insertion order, and the state is unchanged |
| TodoService.GetTodoById | src/main/kotlin/org/example/todo/TodoService.kt:29-32 | null exactly when the id is absent; otherwise the first record with the id; the state is unchanged |
| TodoService.AddTodo | src/main/kotlin/org/example/todo/TodoService.kt:35-40 | the new record has the given id, title and timestamp and is not completed; it is appended last and the earlier records are untouched |
| TodoService.ToggleTodo | src/main/kotlin/org/example/todo/TodoService.kt:43-53 | on a present id only the first matching record changes: its flag is negated, id/title/createdAt kept, and it is returned; on an absent id the result is null and the list is unchanged |
| TodoService.DeleteTodo | src/main/kotlin/org/example/todo/TodoService.kt:56-59 | true exactly when the id was present; every record with the id is gone, every other record stays, in its relative order; an absent id changes nothing |
| TodoService.DeleteCounts | src/main/kotlin/org/example/todo/TodoService.kt:58 | on any list, ids unique or not, every record without the id keeps all its copies and every record with the id loses all of them |
| TodoService.ToggleKeepsIdentity | src/main/kotlin/org/example/todo/TodoService.kt:48 | a toggle never changes any record's id, title or timestamp, nor the order |
| TodoService.AddKeepsUniqueIds | src/main/kotlin/org/example/todo/TodoService.kt:37-38 | adding under a fresh id keeps ids unique |
| TodoService.ToggleKeepsUniqueIds | src/main/kotlin/org/example/todo/TodoService.kt:45-50 | toggling keeps ids unique |
| TodoService.DeleteKeepsUniqueIds | src/main/kotlin/org/example/todo/TodoService.kt:58 | deleting keeps ids unique |
| TodoService.DeleteRemovesOne | src/main/kotlin/org/example/todo/TodoService.kt:58 | with unique ids, deleting a present id removes exactly that record and closes the gap |
| TodoService.DeleteTwice | src/main/kotlin/org/example/todo/TodoService.kt:58 | a second delete of the same id returns false and changes nothing |
| TodoService.ToggleTwice | src/main/kotlin/org/example/todo/TodoService.kt:48-49 | toggling the same id twice restores the list, and the second toggle returns the original flag |
| TodoService.ToggleParity | src/main/kotlin/org/example/todo/TodoService.kt:45-51 | n successive toggles of one id equal one toggle when n is odd and none when n is even |
| TodoService.ListingAgreesWithLookup | src/main/kotlin/org/example/todo/TodoService.kt:23-32 | with unique ids, every record of a listing is what a lookup of its id returns |
| TodoService.ReadAfterAdd | src/main/kotlin/org/example/todo/TodoService.kt:29-40 | a lookup of a freshly added id returns the added record |
| TodoService.EndToEndScenario | src/main/kotlin/org/example/todo/TodoService.kt:23-59 | two creates list in creation order; toggle completes the first; delete removes the second and reports true; the relisting holds only the toggled record; a second delete reports false |
| TodoHistory.RunKeepsUniqueIds | src/main/kotlin/org/example/todo/TodoService.kt:35-59 | along any sequence of calls whose creates use fresh, distinct ids, ids stay unique |
| TodoHistory.RunKeepsAbsent | src/main/kotlin/org/example/todo/TodoService.kt:35-59 | an absent id stays absent along any sequence of calls that never creates it |
| TodoHistory.DeleteIdempotent | src/main/kotlin/org/example/todo/TodoService.kt:56-59 | after a delete of an id, any calls that do not create it again leave a second delete of it returning false and changing nothing |
| TodoHistory.ApplyFirst | src/main/kotlin/org/example/todo/TodoService.kt:43-58 | a call other than a delete of the id keeps that id's first record, negating its flag only if the call toggles that id |
| TodoHistory.TogglesCompose | src/main/kotlin/org/example/todo/TodoService.kt:45-51 | interleaved with any calls except a delete of the id, the record ends up flipped exactly when an odd number of toggles of its id ran |
| TodoHistory.FreshRecordParity | src/main/kotlin/org/example/todo/TodoService.kt:35-53 | a freshly created record keeps its title, and after any history without its deletion it is completed exactly when it was toggled an odd number of times |
| TodoHistory.AddsInOrder | src/main/kotlin/org/example/todo/TodoService.kt:35-40 | a run of creates appends one record per create, in lock order, after the existing records, which are unchanged |
| TodoHistory.ConcurrentCreates | src/main/kotlin/org/example/todo/TodoService.kt:35-40 | concurrent creates with fresh ids lose no record and duplicate no id |
| Text.ContainsIgnoreCase | src/main/kotlin/org/example/auth/service/UserService.kt:46 | the scan answers true exactly when the keyword occurs somewhere, ignoring case |
| PokemonModels.DigitRunEnd | src/main/kotlin/org/example/pokemon/model/PokemonModels.kt:93 | the greedy `\d+` ends at the first non-digit or at the end of the input, with only digits before it |
| PokemonModels.MatchAt | src/main/kotlin/org/example/pokemon/model/PokemonModels.kt:93 | a match at p puts group 1 right after the slash, non-empty and all digits |
| PokemonModels.FindFrom | src/main/kotlin/org/example/pokemon/model/PokemonModels.kt:94 | a match found by the leftmost search is a non-empty digit group inside the URL |
| PokemonModels.ToIntOrNull | src/main/kotlin/org/example/pokemon/model/PokemonModels.kt:97 | a value is returned exactly when the digits denote at most 2^31-1, and it is the value the digits denote |
| PokemonModels.ExtractId | src/main/kotlin/org/example/pokemon/model/PokemonModels.kt:92-98 | a non-null id is never negative and fits a 32-bit Int |
| PokemonModels.IdSuffixRunEnd | src/main/kotlin/org/example/pokemon/model/PokemonModels.kt:93 | the digit run of an accepted suffix is maximal |
| PokemonModels.MatchAtIff | src/main/kotlin/org/example/pokemon/model/PokemonModels.kt:93 | the matcher at p succeeds with end q exactly when the URL has the shape slash, digits, optional slash, end anchor there |
| PokemonModels.IdSuffixUnique | src/main/kotlin/org/example/pokemon/model/PokemonModels.kt:93-94 | at most one position of a URL has the accepted shape |
| PokemonModels.FindFromFinds | src/main/kotlin/org/example/pokemon/model/PokemonModels.kt:94 | the search finds the accepted shape wherever it sits |
| PokemonModels.FindFromFails | src/main/kotlin/org/example/pokemon/model/PokemonModels.kt:94-95 | the search fails when no position has the accepted shape |
| PokemonModels.ExtractIdSpec | src/main/kotlin/org/example/pokemon/model/PokemonModels.kt:92-98 | the id is the value of the digits of the accepted suffix (null on overflow), and null when the URL has no such suffix |
| PokemonModels.ExtractIdRoundTrip | src/main/kotlin/org/example/pokemon/model/PokemonModels.kt:92-98 | any URL ending in a slash, the decimal form of n and an optional slash gives back n when n fits an Int, and null otherwise |
| PokemonModels.IdSuffixShape | src/main/kotlin/org/example/pokemon/model/PokemonModels.kt:93 | the accepted suffix starts with a slash, holds only digits, and its last digit is among the URL's last four characters |
| PokemonModels.ExtractIdExamples | src/main/kotlin/org/example/pokemon/model/PokemonModels.kt:93 | `…/pokemon/25/` and `…/pokemon/25` both give 25 |
| PokemonModels.ExtractIdLeadingZeros | src/main/kotlin/org/example/pokemon/model/PokemonModels.kt:97 | `/007/` gives 7 |
| PokemonModels.ExtractIdNoDigits | src/main/kotlin/org/example/pokemon/model/PokemonModels.kt:93-96 | `…/pokemon/pikachu/` gives null |
| PokemonModels.ExtractIdNeedsSlash | src/main/kotlin/org/example/pokemon/model/PokemonModels.kt:93 | `abc25/` gives null, because no slash directly precedes the digits |
| PokemonModels.ExtractIdBeforeLineBreak | src/main/kotlin/org/example/pokemon/model/PokemonModels.kt:93 | `$` also matches before a final line break, so `/25/` followed by `\n` gives 25 |
| PokemonService.PokemonNamesStartingWith | src/main/kotlin/org/example/pokemon/service/PokemonService.kt:79-82 | a failed fetch gives the empty list; otherwise every entry whose name starts with the character ignoring case and no other (never an empty name), as a subsequence of the results |
| PokemonService.NamesCounted | src/main/kotlin/org/example/pokemon/service/PokemonService.kt:80-81 | on success each matching entry is kept as many times as the page lists it, and no other entry is kept |
| PokemonService.NamesCaseInsensitive | src/main/kotlin/org/example/pokemon/service/PokemonService.kt:81 | a character and its lower-case form select the same entries |
| PokemonService.GetNextPage | src/main/kotlin/org/example/pokemon/service/PokemonService.kt:51-57 | without a next link: null and no request; otherwise exactly one request, for that link, and its result |
| PokemonService.GetPreviousPage | src/main/kotlin/org/example/pokemon/service/PokemonService.kt:63-69 | without a previous link: null and no request; otherwise exactly one request, for that link, and its result |
| PokemonInfoToolSet.ProvidePokemonInfo | src/main/kotlin/org/example/tools/PokemonInfoToolSet.kt:15-29 | a failed fetch gives exactly "Failed to fetch Pokémon list: " followed by the message ("null" when absent) |
| PokemonInfoToolSet.ProvideMatchesService | src/main/kotlin/org/example/tools/PokemonInfoToolSet.kt:20-24 | on success the text is the names of the entries the service selects, in list order, joined with ", " (over ASCII folding, where the tool's and the service's tests agree) |
| PokemonInfoToolSet.ProvideCaseInsensitive | src/main/kotlin/org/example/tools/PokemonInfoToolSet.kt:23 | a character and its lower-case form give the same text |
| PokemonInfoToolSet.ProvideEmptyIff | src/main/kotlin/org/example/tools/PokemonInfoToolSet.kt:20-25 | on success the text is empty exactly when no entry passes the tool's test, a non-empty name whose first character lower-cases to the lower-cased initial |
| PokemonInfoTool.DoExecute | src/main/kotlin/org/example/tools/PokemonInfoTool.kt:33-44 | no matches, a failed fetch included, give the not-found message; otherwise the text starts with the header line |
| PokemonInfoTool.NotFoundIff | src/main/kotlin/org/example/tools/PokemonInfoTool.kt:38-41 | the reply is the not-found message exactly when nothing matches |
| PokemonInfoTool.DoExecuteLines | src/main/kotlin/org/example/tools/PokemonInfoTool.kt:41 | cutting the reply after the header at line breaks gives back the matching entries' texts in order, with no trailing line break |
| UserService.ClassifyRestFailure | src/main/kotlin/org/example/auth/service/UserService.kt:45-54 | weak password exactly when the message names weak_password; known errors carry their default message; unknown exactly when no rule fires, with "Registration failed: " and the error code |
| UserService.InvalidEmailMentionsEmail | src/main/kotlin/org/example/auth/service/UserService.kt:48-52 | a message naming invalid_email also names email |
| UserService.Register | src/main/kotlin/org/example/auth/service/UserService.kt:34-59 | success exactly when sign-up succeeded, with "Registration successful"; other exceptions give the default network error; a REST failure never gives a network error; no outcome gives invalid credentials; a REST failure gives exactly the error the classification ladder picks |
| UserService.Login | src/main/kotlin/org/example/auth/service/UserService.kt:61-73 | every request gets "Login successful" |
| UserService.WeakPasswordFirst | src/main/kotlin/org/example/auth/service/UserService.kt:46-47 | weak_password wins whatever else the message says |
| UserService.InvalidEmailShadowed | src/main/kotlin/org/example/auth/service/UserService.kt:48-52 | a message with both invalid_email and already is classified as an existing email |
| UserService.InvalidEmailIff | src/main/kotlin/org/example/auth/service/UserService.kt:45-54 | invalid email exactly when the message names invalid_email, names neither weak_password nor already |
| UserService.NullMessageUnknown | src/main/kotlin/org/example/auth/service/UserService.kt:53 | a failure without a message is unknown, carrying "Registration failed: " and the error code |
| UserService.ClassifyIgnoresCase | src/main/kotlin/org/example/auth/service/UserService.kt:46-52 | a message and its lower-case form are classified alike |
| UserService.DefaultsDistinct | src/main/kotlin/org/example/auth/service/UserService.kt:17-22 | the six default messages are pairwise different |

## Left out

- Coroutines, `Mutex`, `Dispatchers` and `delay`: each locked block is one atomic step, and a run of steps stands for any order the mutex admits; the delays have no effect on state.
- `UUID.randomUUID` and `System.currentTimeMillis`: the id and timestamp are parameters of `AddTodo`; uniqueness lemmas require the id to be fresh.
- Timestamp ordering: the record is built before the lock is taken, so list order is lock order, and nothing is claimed about `createdAt` order.
- Title validation: `addTodo` accepts any title, blank included, and the route only rejects a missing `title` field (src/main/kotlin/org/example/Routing.kt:147).
- Unicode case folding: `lowercaseChar` and `uppercaseChar` are modelled over ASCII letters only; `Char.equals(ignoreCase = true)`, which `startsWith` and `contains` use, is modelled as Kotlin composes it from those two.
- PokemonInfoToolSet.ProvideMatchesService: holds only for ASCII folding. With Unicode folding the tool's lower-case test and the service's `startsWith(ignoreCase = true)` differ: a name starting with U+017F passes the service's test for `s` but not the tool's.
- HTTP requests (`getPokemonList`, `getPokemonDetails`, the page fetches) and `close`: the fetch result is an input (`FetchResult`, or a function from URL to result).
- PokemonInfoToolSet.ProvidePokemonInfo: the `"No Pokémon found starting with …"` fallback is not produced, because a successful `Result` always holds a response, so that branch cannot be reached.
- Supabase calls (`signUpWith`, `signOut`, `currentUserOrNull`), and with them `logout` and `getCurrentUser`, which only wrap those calls: the sign-up outcome is an input of `Register`.
- Ktor routing, status codes, JWT verification, the LLM agent, tool descriptors and serializers, configuration and startup: plumbing or foreign libraries.
