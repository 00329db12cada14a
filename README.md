# epitech-search-api in Dafny

A model of the search engine behind the Epitech student directory API, together with proofs about it.

**The search engine.**
- The engine builds an inverted index from user records. It maps each key to the logins listed under it. A user's keys are:
  - its login;
  - the part of its login before the first `_`, when it has one;
  - its first name, last name, year and location.
- It builds a completion set from that index. For every key it holds the key followed by `*` and every non-empty prefix of the key.
- It answers a free-text query in these steps:
  1. It lower-cases, trims and splits the query into words, and drops every word given more than once.
  2. It looks up each word's slice of the sorted completion set.
  3. It takes up to ten keys from each slice and unites the keys of all words.
  4. It picks the twenty logins listed under the most keys.
  5. It scores their records against the keys and the words, and sorts the records by score.

**The directory import.** The model also covers the helpers of the directory import:
- turning a server record into a user;
- merging user lists by login, keeping the earliest year;
- listing the (location, year, course) queries;
- the duplicate-login check.

**How the stores are represented.**
- The Redis hash `index` is a `map` from key to list of logins.
- The sorted set `compl` is a strictly sorted sequence. `ZRANK` is a position and `ZRANGE` is an inclusive slice, cut at the end of the set.
- The `user:<login>` records are a `map` from login to `User`.

**How the code's shape is followed.**
- Loops of the source are methods with loop invariants:
  - `createIndex`, `createAutocompleteIndex`, `removeDuplicatedWords`;
  - `getUserRankByKey`, `getUserRank`;
  - the counting in `getLoginsFromKeys`, the union and scoring in `getCompletions`;
  - `assertNoDuplicatedUsers`, `addUserToArray`, `mergeUserArrays`, the combinations loops.
- Each of these methods is proved equal to a specification function or characterized by its contract. The lemmas beside it state what that function promises.
- Callbacks that the source runs in completion order are run here one after the other, in input order.

Modules and files:

| file | module | models |
|---|---|---|
| base.dfy | Base | `Option`/`Result`, append-if-absent, first-occurrence lists |
| text.dfy | Text | `indexOf`, `toLowerCase`, `trim`, `split`/`join`, `Number.toString` |
| records.dfy | Records | the user record, `find` by login |
| inverted_index.dfy | InvertedIndex | `createIndex` |
| completion_index.dfy | CompletionIndex | `createAutocompleteIndex` |
| sorted_set.dfy | SortedSet | the sorted set `compl`: ZADD, ZRANK, ZRANGE |
| sorting.dfy | Sorting | `Array.prototype.sort` by descending score |
| words.dfy | Words | `removeDuplicatedWords`, the words of a query |
| lookup.dfy | Lookup | `getCompletionIndices`, key extraction, key union |
| logins.dfy | LoginRanking | `getLoginsFromKeys` |
| scoring.dfy | Scoring | `getUserRankByKey`, `getUserRank`, the score |
| completions.dfy | Completions | `getCompletions`, `getUsersFromKeys` |
| duplicates.dfy | Duplicates | `assertNoDuplicatedUsers` |
| intra.dfy | Intra | `convertServerUser`, `addUserToArray`, `mergeUserArrays`, `fetchAll`, combinations |
| examples.dfy | Examples | the `motet_a` test record worked through the model |

## Model

| member | source | states |
|---|---|---|
| Base.AppendAbsent | index.js:141-146 | `if (s.indexOf(x) === -1) s.push(x)`: `x` ends up in the list. Nothing else is added. A list without repeats keeps none. The list is unchanged if `x` was there, else grows by one at the end. |
| Base.Dedup | index.js:141-146 | The first-occurrence list holds exactly the elements of its input, each once. |
| Base.DedupAppendDistinct | index.js:325-330 | Deduplicating `s ++ t`, for a `t` without repeats, appends to `Dedup(s)` the elements of `t` not in `s`. |
| Text.ContainsIffOccurs | index.js:311 | `indexOf(needle) !== -1` holds exactly when the needle occurs at some position. |
| Text.Lower | index.js:291 | `toLowerCase` keeps the length and maps each character by itself through the case mapping. |
| Text.LowerIdempotent | index.js:291 | Lower-casing twice is lower-casing once. |
| Text.Trim | index.js:291 | `trim` leaves a string with no white space at either end, found inside the original after its leading white space. |
| Text.Split | index.js:293 | `split(' ')` yields at least one piece, none holding the separator. |
| Text.JoinSplit | index.js:206 | Joining the pieces of a split gives the string back. |
| Text.SplitJoin | index.js:198-208 | Splitting a join of one or more separator-free pieces gives the pieces back. |
| InvertedIndex.ReadLogins | index.js:198-208 | `getLoginsFromKey` reads nobody exactly when the stored string is empty, and otherwise pieces without a space. |
| InvertedIndex.ReadSavedLogins | index.js:198-208 | A saved list of space-free logins reads back unchanged, except the list of only the empty login, which reads back as empty. |
| Text.IntToString | index.js:126 | The year key is non-empty, starts with `-` exactly for a negative year, and is otherwise made of digits. |
| Text.ParseIntToString | index.js:126 | `year.toString()` is a decimal numeral that reads back as the year. |
| Text.IntToStringInjective | index.js:126 | Different years give different year keys. |
| Text.IndexOfChar | index.js:119-121 | `indexOf('_')` points at the first `_`, with none before it. |
| Records.IndexOfLogin | intra.epitech.eu.js:8 | `find` by login: the position of the first user with that login, or none when no user has it. |
| InvertedIndex.LoginPrefix | index.js:119-122 | The login prefix is the part of the login before its first `_`: a prefix of the login, holding no `_`, followed in the login by `_`. |
| InvertedIndex.Add | index.js:103-114 | After `add(key, login)` the key is present and lists the login. |
| InvertedIndex.AddIdempotent | index.js:103-114 | A repeated `add(key, login)` leaves the index unchanged. |
| InvertedIndex.IndexUserEffect | index.js:117-127 | One loop iteration adds the user's login to the list of each of its keys, in append-if-absent fashion. A new key starts as a singleton. Every other key is untouched. |
| InvertedIndex.CreateIndex | index.js:100-132 | The index keys are exactly the keys of the users. Under each key are the logins of the users having it, each once, in the order users first contributed them. |
| InvertedIndex.IndexOfSpec | index.js:116-127 | A key is present exactly when some user contributes it. Its list is the first-occurrence list of its contributors. |
| InvertedIndex.IndexListsDistinct | index.js:110-111 | No key lists a login twice. |
| InvertedIndex.IndexComplete | index.js:118-127 | Every user is listed under its login, its login prefix when the login has `_`, its first name, last name, year and location. |
| InvertedIndex.IndexSound | index.js:118-127 | A login listed under a key belongs to a user having that key. |
| CompletionIndex.CreateAutocompleteIndex | index.js:138-158 | The completion list has no repeats. An entry is in it exactly when it is some key followed by `*` or a non-empty prefix of some key. |
| CompletionIndex.KeyEntries | index.js:148-154 | Every key gives its starred form and each of its prefixes of length 1 to its length. |
| CompletionIndex.TerminalsAreKeys | index.js:148-154 | When no key holds `*`, the entries ending in `*` are exactly the starred keys. |
| CompletionIndex.CoveredBySameKeys | index.js:156 | The completion entries depend only on which keys there are, not on the order `Object.keys` lists them in. |
| SortedSet.InsertMember | index.js:91-92 | ZADD keeps the set strictly sorted and adds exactly the new member. |
| SortedSet.FromMembers | index.js:87-95 | The set filled from a list is strictly sorted and holds exactly the list's elements. |
| SortedSet.SortedUnique | index.js:87-95 | A strictly sorted set is determined by its members. |
| SortedSet.Rank | index.js:268 | ZRANK finds a member exactly when it is in the set, at its position. |
| SortedSet.Range | index.js:277 | ZRANGE start stop: the members from `start` to `stop` inclusive, cut at the end of the set, empty past it. |
| SortedSet.RangeFromRank | index.js:267-279 | The range from a member's rank starts with that member and holds at most `count + 1` members, in set order. |
| Sorting.SortDesc | index.js:340 | The sorted array has non-increasing scores and the same elements. |
| Sorting.SortDescOfSorted | index.js:340 | Sorting an array already in order changes nothing. |
| Sorting.PermutationKeepsDistinctItems | index.js:224 | Sorting keeps items distinct. |
| Sorting.TopOf | index.js:226 | The first `n` of a sorted array with distinct items are distinct. An item left out means `n` were kept, none scoring below it. |
| Words.RemoveDuplicatedWords | index.js:282-288 | Its result equals the specification function. It holds exactly the words that occur once in the input. |
| Words.CountWords | index.js:282-285 | After the loop, each word of the input is counted as often as it occurs, and nothing else is counted. |
| Words.SinglesDistinct | index.js:287 | Each kept word is kept once. |
| Words.SinglesEmbedding | index.js:287 | The kept words form an order-preserving subsequence of the input. |
| Words.QueryWords | index.js:291-293 | The words looked up are distinct. A word is looked up exactly when it occurs once in the lower-cased, trimmed, split query. |
| Words.NoWordsIff | index.js:293-295 | The query is answered with `[]` at once exactly when every word occurs twice or more. |
| Words.SinglesOfDistinct | index.js:287 | A query of distinct words keeps all of them, in order. |
| Lookup.CompletionIndices | index.js:267-279 | The slice is empty exactly when the word is not in the set. It holds at most `count + 1` entries, all members of the set. |
| Lookup.UnknownWordIndices | index.js:273-275 | A word not in the completion set gets no entries. |
| Lookup.KnownWordIndices | index.js:267-279 | A known word's slice starts at the word. It holds between one and `count + 1` entries, the members of the set from the word's rank onward, in order. |
| Lookup.KnownWordOrder | index.js:267-279 | In a sorted set, every other entry of a known word's slice is above the word. A member not below the word is left out only when the slice is full at `count + 1` entries. |
| Lookup.Terminals | index.js:352 | The filter keeps exactly the entries ending in `*`, at most as many as it is given, without repeats when the input has none. |
| Lookup.TerminalsAppend | index.js:352 | Filtering a concatenation filters each part and concatenates: the kept entries keep their input order. |
| Lookup.TerminalsSorted | index.js:352 | Filtering a strictly sorted slice leaves it strictly sorted. |
| Lookup.ExtractKeys | index.js:351-354 | At most ten keys come from one slice. Key `i` is the `i`-th starred entry without its `*`. |
| Lookup.WordKeysSpec | index.js:347-354 | An unknown word yields no key. A word's keys are the first `min(10, n)` of the `n` starred entries of its slice of up to 43 entries, without the `*`, in slice order, which is ascending set order. They are distinct. |
| Lookup.WordKeysAreIndexKeys | index.js:347-354 | With the completion set built from the index keys, every key a word yields is an index key. |
| Lookup.UnionKeys | index.js:325-330 | The union loop computes the union function. |
| Lookup.UnionAllIsDedup | index.js:325-330 | The union is the first-occurrence list of all the words' keys. |
| Lookup.UnionAllMembers | index.js:325-330 | A key is in the union exactly when some word yields it. |
| Lookup.UnionAllEmpty | index.js:325-330 | When no word yields a key, the union is empty. |
| LoginRanking.GetLoginsFromKeys | index.js:210-245 | The counting loops, the sort and the cut at twenty compute the specification function. |
| LoginRanking.CountListings | index.js:233-239 | One key's callback adds one to each listed login's count. A login counted for the first time goes to the end of the property order. |
| LoginRanking.CountsOfSpec | index.js:233-239 | After reading a list of listings, a login has a count exactly when it was read, and the count is how often it was read. |
| LoginRanking.Tally | index.js:217-221 | Every listed login appears once with its count, and no other login appears. |
| LoginRanking.LoginsFromKeysSpec | index.js:210-227 | No keys give no logins. Otherwise the result holds at most twenty distinct listed logins, with non-increasing counts. A listed login is left out only when twenty were kept, each with at least its count. |
| LoginRanking.PostingsMembers | index.js:229-239 | A login is counted exactly when some key lists it. |
| LoginRanking.HitsCountKeys | index.js:229-239 | When no list repeats a login, its count is the number of keys listing it. |
| LoginRanking.LoginsListed | index.js:210-227 | Every returned login is listed under one of the keys. |
| LoginRanking.ListedLoginsKept | index.js:210-227 | With fewer than twenty returned, every login listed under a key is returned. |
| Scoring.GetUserRankByKey | index.js:299-315 | The loop counts the matching fields. The rank lies between 0 and 5. |
| Scoring.MatchCountZero | index.js:309-313 | The rank is 0 exactly when no field contains the key or is contained in it. |
| Scoring.MatchCountFull | index.js:309-313 | The rank is full exactly when every field matches. |
| Scoring.EmptyKeyMatchesAll | index.js:311 | The empty key matches all five fields. |
| Scoring.LoginKeyMatches | index.js:300-312 | A user's lower-cased login as a key scores at least 1. |
| Scoring.GetUserRank | index.js:317-323 | The loop sums the ranks over the keys, at most 5 per key. |
| Scoring.RankOverAppend | index.js:317-323 | The sum over `a ++ b` is the sum over `a` plus the sum over `b`. |
| Scoring.RankOverPermutation | index.js:317-323 | The sum depends only on how often each key occurs, not on the keys' order. |
| Scoring.ScoreBound | index.js:336-337 | A score is at most 5 per key plus 50 per word. |
| Completions.GetCompletions | index.js:290-362 | The pipeline computes the specification function `Completions`. |
| Completions.Reduce | index.js:325-344 | The inner `reduce()` computes the answer for the words' keys. |
| Completions.KeysOfWords | index.js:346-358 | The callbacks give each word its keys, in word order. |
| Completions.Fetch | index.js:247-265 | Fetching succeeds exactly when every login has a record, giving the records in login order. On failure it names the first login without one. |
| Completions.FetchUsers | index.js:247-265 | The fetch loop computes `Fetch`. |
| Completions.FirstMissing | index.js:335-337 | The failing login is the first one without a record. |
| Completions.ScoreUsers | index.js:335-338 | Each user's rank is its key rank plus ten times its word rank. |
| Completions.ScoreUser | index.js:336-337 | One user's rank is the score function. |
| Completions.RankedSpec | index.js:340 | The sorted users are the same users, each with its score, by non-increasing score. |
| Completions.RepeatedWordsOnly | index.js:293-295 | A query whose every word is repeated is answered with `[]`. |
| Completions.UnknownWordsOnly | index.js:267-279 | A query with no word in the completion set is answered with `[]`. |
| Completions.CompletionsSpec | index.js:290-362 | An answer holds one user per login chosen from the query's keys, at most twenty, each once by login. Each is the record of a login chosen from the query's keys, scored against those keys and the words, highest score first. |
| Completions.RankedRecords | index.js:331-342 | The ranked records of distinct logins are distinct by login, one per login, in score order. |
| Completions.ConsistentStoreSucceeds | index.js:247-265 | When every indexed login has a record, a query never fails. |
| Completions.CompleteBelowCap | index.js:210-265 | With fewer than twenty users answered, every login listed under a query key is answered. |
| Completions.AnswerCompleteBelowCap | index.js:325-344 | The same for the answer of `reduce()`. |
| Completions.UsersTable | index.js:67-75 | The saved records: one per login of the users, stored under that login, each one of the users. |
| Completions.SavedStoresSucceed | index.js:247-265 | Queries against an index and records saved from the same users never fail. |
| Duplicates.WithLogin | index.js:428 | The filter keeps exactly the users with that login. |
| Duplicates.WithLoginCount | index.js:428 | The filter keeps as many users as the login occurs in the list of logins. |
| Duplicates.DistinctIffSingles | index.js:426-434 | Logins are distinct exactly when each user's login is found once. |
| Duplicates.AssertNoDuplicatedUsers | index.js:426-434 | The check fails exactly when two users share a login. It reports at least two users sharing the login of the first such user. |
| Intra.ConvertServerUser | intra.epitech.eu.js:29-37 | `login`, `prenom`, `nom` and `location` go to `login`, `firstName`, `lastName` and `location`. The given year is kept. |
| Intra.ConvertServerUserRoundTrip | intra.epitech.eu.js:29-37 | The server fields can be read back from the converted user. |
| Intra.ConvertServerUserOnto | intra.epitech.eu.js:29-37 | Every user is the conversion of its own server fields. |
| Intra.AddUser | intra.epitech.eu.js:7-14 | A known login only lowers that entry's year to the smaller one, leaving the length and every other field and entry unchanged. A new login is appended. |
| Intra.AddUserToArray | intra.epitech.eu.js:7-14 | The search loop and update compute `AddUser`. |
| Intra.MergeAllSpec | intra.epitech.eu.js:17-21 | Folding `addUserToArray` keeps the first occurrence of each login, with the smallest year seen for it. |
| Intra.MergeUserArrays | intra.epitech.eu.js:17-21 | The merged logins are distinct: the logins of `a ++ b` in order of first occurrence. Each user is the first occurrence with the minimum year over all its entries. |
| Intra.FetchAllMergedLogins | intra.epitech.eu.js:108-117 | The merged answers hold each login found in any answer once, and no other. |
| Intra.Combinations | intra.epitech.eu.js:119-126 | There are `|locations| * |years| * |courses|` queries, location-major, then by year, then by course. |
| Intra.CombinationsLayout | intra.epitech.eu.js:119-126 | The specification of the combinations has that length and layout. |
| Examples.MotetKeys | index.js:117-127 | The `motet_a` record has the keys `motet_a`, `motet`, `antoine`, `motet`, `2015` and `FR/LYN`. |
| Examples.MotetIndexed | index.js:100-132 | Indexing that record alone lists `motet_a` once under `motet`. |
| Examples.MotetMerged | intra.epitech.eu.js:7-21 | The same user seen with 2016 and then 2015 is kept once, with 2015. |
| Examples.RepeatedWord | index.js:282-288 | `motet motet` keeps no word. |
| Examples.SliceAtEnd | index.js:277 | A slice asked past the end of the set stops at the end. |
| Examples.SpacedLoginReadsAsTwo | index.js:198-208 | A saved login `"a b"` is read back by `getLoginsFromKey` as the two logins `"a"` and `"b"`. |

## Left out

- Express routing, middleware, error pages and the HTTP handlers: transport only.
- Redis I/O. The stores are values, and each callback is assumed to receive a reply with no error. The Redis error paths (`callback(err)`) are not modelled.
- `getLoginsFromKey`: reads a login list stored as a space-joined string. The pipeline model reads the list directly. `InvertedIndex.ReadSavedLogins` states that the round trip is exact for logins without a space, except for a key whose list is only the empty login: the source reads that back as no login, while the model lists the empty login. A login holding a space (`"a b"`) is read back by the source as several logins (`"a"`, `"b"`), whose records are then missing; the model keeps it as one login and finds its record.
- JSON parsing and printing of records: a record is read back as the same `User` value.
- Concurrency: the callbacks of `getCompletions` and `getLoginsFromKeys` run one after the other, in input order. In the source they may complete in any order, which changes the order of `Object.keys(wordObjects)` and of `loginCounts`. That in turn changes the union order and the order of tied logins and users.
- `Object.keys` order: integer-like keys come first in JavaScript. A query word like `2015`, or a login made of digits, is listed before the others. The model uses insertion order.
- `CreateAutocompleteIndex`: takes the index keys in any order. Which entries it holds is proved order-independent; the order of the pushed entries is not used, because the sorted set reorders them.
- Property names of `Object.prototype` (`constructor`, `toString`, …): the source's objects inherit them.
  - `key in index` is already true for `constructor`, so a user with that first name makes `createIndex` fail.
  - `removeDuplicatedWords` drops such a word even when it occurs once.
  - `getLoginsFromKeys` counts such a login wrongly: `NaN` after one listing, one too few after more (`NaN` is falsy, so the second listing restarts the count at 1). A login named `__proto__` is dropped, because its setter ignores the number.
  - The model treats these names like any other string.
- `Array.prototype.sort`: modelled as a stable sort. The older V8 engines this code ran on sorted arrays longer than ten elements unstably, so the order among equal scores is not the source's there.
- `year.toString()`: `Text.IntToString` writes plain decimal digits, as JavaScript does for integers below 10^21; larger numbers, which JavaScript writes in exponent form (`1e+21`), are not modelled.
- `toLowerCase`: covers ASCII and Latin-1 only. `trim` uses the JavaScript white-space set.
- Strings are sequences of code points, while JavaScript's `length` and `substring` count UTF-16 code units (index.js:148-154, 353). For a key with a character outside the Basic Multilingual Plane, `createAutocompleteIndex` pushes prefixes that split a surrogate pair. The model cannot represent such half characters: its prefixes are whole characters.
- A login missing from the record store:
  - `mget` returns `null`;
  - `JSON.parse(null)` is `null`;
  - the source then throws when it sets `rank` on it.
  - The model returns `Failure(MissingRecord(login))` for the first such login.
- Users are values. The aliasing in `addUserToArray`, which changes the year of a user object shared with the caller's array, is not modelled.
- `repopulateRedisDb` and `servePromise`: the orchestration of fetching, merging, indexing and saving, which depends on the current date. The saving of records appears only as `Completions.UsersTable`. `saveIndexToRedis` and `flushRedisDb` are not modelled.
- HTTP fetching, retries, `wait` and pagination of the directory (`fetchAFewUsers`, `fetchUsersRecursively`). The answers to each query are an input of `Intra.FetchAllMerged`.
- users.js (file I/O) and config.js (static data) are not part of this model.
- `getCompletionIndices(word, 42)` asks for `ZRANGE rank rank+42`, which is inclusive and so returns up to 43 entries. The model follows the code.
- InvertedIndex.Add: its own contract states only that the key is present and lists the login. Its full pointwise effect is stated by `InvertedIndex.IndexUserEffect` and proved for whole iterations. Stating it on `Add` made every use of `Add` too costly to verify.
