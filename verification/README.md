# Dividend catalogue: record store, admin routes and page helpers in Dafny

This project models the core of a small dividend-catalogue web application.
Visitors browse corporate dividend records (company, ticker, sector, and
per-year dividend amounts encoded as `"YEAR:AMOUNT"` strings). An
administrator creates, edits and deletes those records. The model covers
three parts:

- **`MemStorage`** (`storage.dfy`, class `Storage.MemStorage`). This is the
  in-memory store. It has a users table, a dividends table and one id counter
  per table. The tables are JavaScript `Map`s. They are modelled by
  `OrderedMaps.OrderedMap` (`ordered_map.dfy`), which is a map plus the key
  insertion order that `Map.prototype.values()` follows. The methods reassign
  the fields and bump the counters as the source does. Every method keeps the
  invariant `Valid()`:
  - both tables are well formed;
  - every stored id is one the counter has already handed out;
  - every row carries the id it is stored under.

  The ghost fields `issuedDividendIds` and `issuedUserIds` record every id
  handed out so far, so "an id is never handed out twice" is stated directly.
- **Record construction** (`records.dfy`). `createDividend` builds the record
  `{...input, id, lastUpdated}` and `updateDividend` builds
  `{...existing, ...partial, lastUpdated}`. `Records.Stamp` and
  `Records.Merge` are those two records. `RecordObject`, `InputObject` and
  `PatchObject` give the key-by-key object view. In that view, object spread
  is map union where the right-hand side wins, and the lemmas prove that both
  functions equal their spread formula.
- **The routes** (`routes.dfy`). These are the `requireAdmin` gate and the
  `GET`/`POST /api/dividends` and `PATCH`/`DELETE /api/dividends/:id`
  handlers, written as methods over the shared store. Each handler's
  `ensures` gives the response for every branch and the store's new state.
- **The page helpers** (`home_page.dfy`, built on `text.dfy`):
  - `getDividendForYear`;
  - `getHistoricalData` (filter to years before 2021, then a stable sort by
    descending year text);
  - the `filteredDividends` search/sector test;
  - the `sectors` list of distinct sectors.

  `text.dfy` models the JavaScript primitives these use: `startsWith`,
  `includes`, `split` on one character, `toLowerCase`, the string order used
  by `sort`, `${n}` for an integer, and `parseInt`.

Things outside the core are inputs to the model:
- the outcome of schema validation (`safeParse`): `Routes.Parsed`;
- the session's principal: `Routes.Principal`;
- the clock: a `now: Timestamp` parameter.

Behaviours of the code worth knowing:
- `requireAdmin` answers 403 "Admin access required" to unauthenticated callers
  as well as to authenticated non-admins. There is no 401.
- `createUser` always sets `isAdmin = true`. It does not reject a username that
  is already taken. `getUserByUsername` returns the earliest-registered user
  with that name.
- `PATCH /api/dividends/:id` has no not-found branch. For an unknown id, the
  store's "Dividend not found" error escapes the handler (`Routes.Reply.Thrown`).
  There is no 404.
- `server/routes.ts` has no route that adds a single year's amount to a record. Year data changes only through `PATCH`, which replaces `yearWiseData` as a whole.
- The insert schema in `shared/schema.ts` lists `exDate`/`paymentDate` and has
  no `sector`/`yearWiseData`. The stored records have the field list built in
  `server/storage.ts:43-123`. The model uses that field list and takes the
  parser's output as given.

## Model

| member | source | states |
|---|---|---|
| `OrderedMaps.Set` | server/storage.ts:191 | `Map.set` keeps the table well formed and stores the entry. Overwriting an existing key keeps its place in the iteration order. A new key goes last. |
| `OrderedMaps.Empty` | server/storage.ts:29-30 | `new Map()` is a well-formed table with no keys and no entries. |
| `OrderedMaps.Get` | server/storage.ts:137 | `map.get(k)` returns the entry stored under `k`, and nothing exactly when `k` is absent. |
| `OrderedMaps.GetAfterSet` | server/storage.ts:173 | After `set(k, v)`, reading `k` gives `v` and reading any other key gives what it gave before. |
| `OrderedMaps.GetAfterDelete` | server/storage.ts:196 | After `delete(k)`, reading `k` gives nothing and reading any other key gives what it gave before. |
| `OrderedMaps.Delete` | server/storage.ts:196 | `Map.delete` keeps the table well formed and removes exactly that key. The remaining key order is the old order without `k` (`Without`). Deleting a missing key returns the same map, so a second delete is a no-op. |
| `OrderedMaps.Values` | server/storage.ts:159 | `Array.from(map.values())` holds one value per stored key (as many as there are entries), in key insertion order. |
| `Records.Stamp` | server/storage.ts:168-172 | The created record carries the assigned id and `now`. Every supplied input field has its input value. |
| `Records.StampIsSpread` | server/storage.ts:168-172 | The created record's object view equals the spread `{...input, id, lastUpdated: now}`. |
| `Records.StampField` | server/storage.ts:168-172 | Property by property: `id` is the assigned id, `lastUpdated` is `now`, and every other property is the input's. The input supplies exactly the properties other than those two. |
| `Records.Merge` | server/storage.ts:186-190 | The merged record keeps the existing id and has `lastUpdated = now`. An empty partial changes nothing else. |
| `Records.MergeIsSpread` | server/storage.ts:186-190 | The merged record's object view equals the spread `{...existing, ...partial, lastUpdated: now}`. |
| `Records.MergeField` | server/storage.ts:186-190 | Field by field: `lastUpdated` is `now`, a field the partial supplies takes the new value, and every other field keeps the old value. |
| `Records.RecordObjectInjective` | server/storage.ts:186-190 | The object view loses nothing: two records with equal views are equal, so the spread lemmas determine the record. |
| `Storage.SeedDividends` | server/storage.ts:43-124 | The seed list has five records with five different tickers, each with thirteen yearly amounts. |
| `Storage.FirstWithUsername` | server/storage.ts:141-143 | `find` over the users in insertion order returns the first index whose username is exactly equal. It returns nothing only when no user has that name. |
| `Storage.FirstWithUsernameStable` | server/storage.ts:141-155 | Users added later, including duplicates of a taken name, never change which user a name lookup finds once it finds one. |
| `Storage.MemStorage.constructor` | server/storage.ts:28-39 | A new store has no users and user counter 1. It holds the five seed records under ids 1 to 5, in that order, each one the stamped seed input, and the dividend counter is 6. |
| `Storage.MemStorage.AddDummyData` | server/storage.ts:126-133 | Inserting the seed list into the empty table puts record i under id i+1, in order. The counter ends at length+1, the user table is unchanged and the invariant holds. |
| `Storage.MemStorage.GetUser` | server/storage.ts:136-138 | Returns the user stored under `id`, whose own id is `id`, or nothing exactly when no such user exists. |
| `Storage.MemStorage.GetUserByUsername` | server/storage.ts:140-144 | Returns nothing exactly when no user has that username. Otherwise it returns a stored user with that exact username, and no user registered before it has that name. |
| `Storage.MemStorage.CreateUser` | server/storage.ts:146-156 | Stores `{id: counter, username, password, isAdmin: true}` after all existing users and bumps the counter by one. The id was never handed out before. It never fails, so a duplicate username is accepted. The dividends are untouched. |
| `Storage.MemStorage.GetAllDividends` | server/storage.ts:158-160 | Returns every stored record exactly once, in creation order: the record at position i has the i-th inserted id. |
| `Storage.MemStorage.GetDividend` | server/storage.ts:162-164 | Returns the record stored under `id`, whose own id is `id`, or nothing exactly when no such record exists. |
| `Storage.MemStorage.CreateDividend` | server/storage.ts:166-175 | Stores `Stamp(input, counter, now)` after all existing records and returns it. The counter goes up by exactly one. The id was never handed out before, even if records were deleted since. Every other entry and the users are unchanged. |
| `Storage.MemStorage.UpdateDividend` | server/storage.ts:177-193 | For an unknown id: fails with "Dividend not found" and changes nothing. Otherwise: stores and returns `Merge(existing, partial, now)` under the same id and at the same position, and every other entry is unchanged. Counters and users are untouched. |
| `Storage.MemStorage.DeleteDividend` | server/storage.ts:195-197 | Removes the id if present and keeps the order of the rest. An absent id is a no-op. The counter is untouched, so the id is never reused. |
| `Routes.RequireAdmin` | server/routes.ts:11-16 | Lets a request through iff it is authenticated and the user is an admin. Everyone else, authenticated or not, gets 403 "Admin access required". |
| `Routes.ListDividends` | server/routes.ts:19-22 | With no gate, answers 200 with exactly `getAllDividends()`. |
| `Routes.PostDividend` | server/routes.ts:25-32 | A request the gate stops gets its 403 and the store is unchanged. An invalid body gets 400 with the validation error and the store is unchanged. Otherwise the parsed record is created under the next id and answered with 201. On every path the users, the user counter and the issued user ids are unchanged. |
| `Routes.PatchDividend` | server/routes.ts:34-42 | A request the gate stops gets its 403 and the store is unchanged. An invalid partial gets 400 and the store is unchanged. A valid partial for an unknown id lets the store's "Dividend not found" error escape, with no 404. Otherwise the merged record is stored in place and answered with 200. On every path the users, both counters and both sets of issued ids are unchanged. |
| `Routes.RemoveDividend` | server/routes.ts:44-48 | A request the gate stops gets its 403 and the store is unchanged. Otherwise the handler deletes the id and answers 204, whether or not a record had it. On every path the users, both counters and both sets of issued ids are unchanged. |
| `Text.StartsWith` | client/src/pages/home-page.tsx:49 | `s.startsWith(prefix)` holds iff `prefix` is no longer than `s` and they agree at every position of `prefix`. |
| `Text.ToLower` | client/src/pages/home-page.tsx:42-43 | `toLowerCase` keeps the length and leaves no ASCII capital. Each capital becomes its small letter, and every other character is kept. |
| `Text.ToLowerIdempotent` | client/src/pages/home-page.tsx:42-43 | Lower-casing twice is the same as lower-casing once. |
| `Text.Contains` | client/src/pages/home-page.tsx:42-43 | `includes` holds iff the search text occurs at some index. |
| `Text.Split` | client/src/pages/home-page.tsx:50 | `split(':')` gives at least one piece, no piece contains the separator, and joining the pieces gives the input back. The first piece is everything before the first separator. |
| `Text.SplitAfterHead` | client/src/pages/home-page.tsx:50 | Splitting `head + ":" + rest` with a colon-free head gives `head` followed by the pieces of `rest`. |
| `Text.LexLessIsCodePointOrder` | client/src/pages/home-page.tsx:57 | The order used for `localeCompare` puts `a` before `b` iff `a` is a proper prefix of `b`, or `a` has the smaller code point at the first position where they differ. |
| `Text.LexIrreflexive` | client/src/pages/home-page.tsx:57 | The string order used for sorting is irreflexive. |
| `Text.LexTransitive` | client/src/pages/home-page.tsx:57 | The string order used for sorting is transitive. |
| `Text.LexTotal` | client/src/pages/home-page.tsx:57 | Any two different strings are ordered one way or the other. |
| `Text.LexNotLessTransitive` | client/src/pages/home-page.tsx:57 | "Not after" is transitive, which is what the descending sort relies on. |
| `Text.NatToDecimal` | client/src/pages/home-page.tsx:49 | Decimal printing gives a non-empty string of digits with no leading zero, one digit exactly below 10. |
| `Text.IntToString` | client/src/pages/home-page.tsx:49 | `${i}` is a non-empty string. It starts with '-' exactly when `i` is negative, and every other character is a digit. |
| `Text.IntToStringInjective` | client/src/pages/home-page.tsx:49 | Different years print differently in `${year}`. |
| `Text.TrimStart` | client/src/pages/home-page.tsx:56 | `parseInt`'s white-space skip drops exactly the leading white space: the result is a suffix of the input, everything dropped is white space, and the result does not start with white space. |
| `Text.LeadingDigits` | client/src/pages/home-page.tsx:56 | `parseInt` reads the longest prefix of radix digits: every character in it is a digit, and the next character is not. |
| `Text.ParseMagnitude` | client/src/pages/home-page.tsx:56 | The unsigned part of `parseInt` is never negative. It is `NaN` exactly when no digit follows: no hexadecimal digit after a `0x`/`0X` prefix, otherwise no decimal digit at the start. Otherwise its value is that of the longest run of digits, read in base 16 after the prefix and in base 10 without it. |
| `Text.ParseInt` | client/src/pages/home-page.tsx:56 | `parseInt` of only white space is `NaN`. A negative result needs a minus sign after the white space. After the white space, a '+' is skipped and a '-' negates the magnitude read after it (`NaN` stays `NaN`). Without a sign, the result is the magnitude read from the trimmed text. |
| `Text.ParseIntOfIntToString` | client/src/pages/home-page.tsx:49-56 | `parseInt` reads back every integer that `${year}` prints. |
| `Text.ParsePlusWithTail` | client/src/pages/home-page.tsx:56 | `parseInt("+12a")` is 12: the plus sign is skipped and reading stops at the first non-digit. |
| `Text.ParseSpacedNegativeHex` | client/src/pages/home-page.tsx:56 | `parseInt(" -0x1A")` is -26: white space, then a sign, then a hexadecimal magnitude. |
| `Text.ParseWithoutDigits` | client/src/pages/home-page.tsx:56 | `parseInt("0x")` and `parseInt("-")` are `NaN`. |
| `HomePage.FindFirst` | client/src/pages/home-page.tsx:49 | `find(d => d.startsWith(key))` returns the first entry with that prefix. It returns nothing only when no entry has the prefix. |
| `HomePage.GetDividendForYear` | client/src/pages/home-page.tsx:48-51 | Returns "-" when no entry starts with `"<year>:"`. Otherwise it returns the text of the first such entry between its first and second colon (or to the end). |
| `HomePage.YearKeysExclusive` | client/src/pages/home-page.tsx:49 | The prefix match is exact: no entry starts with the `"<y>:"` prefixes of two different years. |
| `HomePage.Year202NotIn2023` | client/src/pages/home-page.tsx:49 | Year 202 finds nothing in `["2023:1.00"]`, so the answer is "-". |
| `HomePage.Filter` | client/src/pages/home-page.tsx:40-45 | `filter` keeps exactly the elements that pass. Each one that passes occurs as often as in the input, and each one that fails does not occur. Everything is kept when everything passes. |
| `HomePage.FilterConcat` | client/src/pages/home-page.tsx:40-45 | `filter` preserves order: it distributes over concatenation. |
| `HomePage.YearText` | client/src/pages/home-page.tsx:56-57 | `d.split(':')[0]` is the colon-free text that starts the entry and ends at its first colon or at the end. |
| `HomePage.IsHistorical` | client/src/pages/home-page.tsx:56 | An entry written `"<y>:..."` passes the `parseInt(...) < 2021` test exactly when `y < 2021`. |
| `HomePage.YearOfKeyedEntry` | client/src/pages/home-page.tsx:56 | The year text of an entry written `"<y>:..."` parses back to `y`. |
| `HomePage.InsertByYear` | client/src/pages/home-page.tsx:57 | Inserting into a list sorted by descending year text keeps it sorted and adds exactly that entry. |
| `HomePage.SortByYearDesc` | client/src/pages/home-page.tsx:57 | The sort returns a permutation of its input, sorted by descending year text. |
| `HomePage.InsertByYearStable` | client/src/pages/home-page.tsx:57 | An insertion puts the new entry ahead of the entries that share its year text. |
| `HomePage.SortByYearDescStable` | client/src/pages/home-page.tsx:57 | Sorting keeps, for every year text, the entries with that year text in their input order. |
| `HomePage.GetHistoricalData` | client/src/pages/home-page.tsx:54-58 | The result is sorted by descending year text and is a permutation of the entries whose year parses to a number below 2021. An entry occurs in it iff it occurs in the input and is historical. |
| `HomePage.HistoricalDataStable` | client/src/pages/home-page.tsx:57 | Entries with the same year text keep their input order, so the result is exactly what a stable sort gives. |
| `HomePage.Matches` | client/src/pages/home-page.tsx:41-44 | An empty search with sector "all" matches every record. A selected sector other than "all" rejects every record of another sector. |
| `HomePage.SearchIgnoresCase` | client/src/pages/home-page.tsx:42-43 | The search is case-insensitive: lower-casing the search text first never changes the outcome. |
| `HomePage.FilteredDividends` | client/src/pages/home-page.tsx:40-45 | The result is undefined while the records are not loaded. Otherwise a record is kept iff its company name or ticker contains the search text ignoring case, and the sector is "all" or its own. An empty search with "all" keeps every record, in order. |
| `HomePage.Distinct` | client/src/pages/home-page.tsx:38 | `Array.from(new Set(s))` holds every element of `s` exactly once, in order of first appearance. |
| `HomePage.SectorList` | client/src/pages/home-page.tsx:38 | `dividends.map(d => d.sector)` has one sector per record, in record order. A text occurs in it iff some record has that sector. |
| `HomePage.Sectors` | client/src/pages/home-page.tsx:38 | The result is empty while the records are not loaded. Otherwise every record's sector appears exactly once, in order of first appearance, and nothing else appears. |

## Left out

- Sessions and authentication (`sessionStore`/`memorystore`, `setupAuth`) are foreign libraries. The caller is the pair (authenticated, isAdmin) in `Routes.Principal`.
- Schema validation (zod/drizzle-zod) cannot be seen. Its outcome reaches the handlers as `Routes.Parsed`, so the schema's own rules (required fields, year bounds) are not modelled.
- `new Date()` is a clock read and is the `now` parameter. `AddDummyData` stamps all five seed records with the one `now` passed to the constructor. The source reads the clock once per record.
- `async`/`Promise` are dropped: every store call completes before the handler continues.
- How an escaped error is answered depends on the Express version. An unhandled rejection or a 500 is outside the model: `Reply.Thrown` only records that the error escaped.
- The route parameter `parseInt(req.params.id)` is left out, and the id is an `int` argument. A `NaN` id matches no record, so it behaves like an unknown id.
- Object identity and aliasing are left out. The source returns the stored objects themselves, while the model returns values. Nothing in the core mutates a returned object.
- `dividendAmount` and `yield` are `real` values that no code does arithmetic on. JavaScript number precision is not modelled.
- `toLowerCase` is modelled for ASCII letters only. Unicode case mapping (for example characters whose lower case is two characters) is not.
- `localeCompare` is modelled as code-point lexicographic order. This agrees with locale collation on the ASCII-digit year texts the data holds, but not on arbitrary text.
- `CreateDividend`, `CreateUser`: the id counters are unbounded integers. In the source they are JavaScript numbers, and past 2^53 `currentDividendId++` and `currentUserId++` stop changing the value, so a later create would overwrite an existing row. "An id is never handed out twice" therefore holds only while fewer than 2^53 rows have been created.
- `IntToString`: the model prints every integer as plain decimal digits. JavaScript prints a number whose magnitude is at least 10^21 in exponent form: `${1e21}` is "1e+21", and `parseInt` of that is 1. So three rows hold only for |y| < 10^21: `Text.IntToString` ("every other character is a digit"), `Text.ParseIntOfIntToString`, and `HomePage.IsHistorical` for an entry written `"<y>:..."`. The page itself asks only for the years 2023, 2022 and 2021 (client/src/pages/home-page.tsx:133-135).
- In `parseInt`, values beyond 2^53 would lose precision as floats. This is not modelled, and it cannot change the `< 2021` test.
- React state (`useState`, the collapsible open map), data fetching (`useQuery`) and all rendering in `client/src/pages/home-page.tsx` are left out.
- `client/src/pages/admin/dashboard.tsx` is UI only, and `client/src/lib/google-sheets.ts` is a network `fetch` wrapper. Neither is part of this model.
