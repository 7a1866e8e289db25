# Visitors bureau business registry, in Dafny

This project models the business registry of the visitors bureau web service
(`server.py`): the in-memory `businesses` dictionary that maps a generated
string id to a business record, and the operations that read or change it:

- the listing query `filter_and_sort_businesses`: keep the businesses whose
  lower-cased `name + description` contains the lower-cased query `q`, then sort
  them by `category`, largest first, with Python's stable `sorted(..., reverse=True)`;
- the lookup guard `error_if_business_not_found` (a 404 naming the missing id);
- the create path `post`: the parsed payload, with `category` forced to
  `CATEGORIES.index('shop')` (0), stored under a new id from `generate_id`;
- the update path `Business.patch`: the eight fields of the stored record overwritten in place;
- the helpers `nonempty_string` and `generate_id` (six characters over `a-z0-9`).

Modules:

- `Wrappers` (`wrappers.dfy`): `Option`, `Result`, `Outcome`.
- `Text` (`text.dfy`): ASCII lower-casing and Python's substring test `pat in text`.
- `Businesses` (`businesses.dfy`): the record, the category tuple, the errors
  (`NotFound` for the 404 abort, `ValueError`), the guard, the validator, and the
  records a create and a patch produce.
- `Ids` (`ids.dfy`): `generate_id`, with the random choices passed in as `draws`.
- `Query` (`query.dfy`): the filter, a stable descending insertion sort, and the
  query's correctness: matches only, every match as often as it occurs,
  ordered by descending category, stable on ties. It also proves that this
  order is the only possible one: any stable descending sort returns it.
- `Registry` (`registry.dfy`): the class `BusinessStore`. It holds the map and a
  sequence of its keys in insertion order, because a Python 3.7+ dict iterates
  in that order and the stable sort depends on it. Its methods `Post` and `Patch`
  reassign the map; `Get` reads it. Lemmas about the query on a whole registry sit
  beside it, and a worked example sits in `RegistryExample`.

A business record has `name`, `location`, `description` (strings), `category`
(an int), and `url`, `phone`, `hours`, `rating`. The last four are `Option`s,
because a record made by `post` holds only the three parsed fields and
`category`. `Patch` sets them to `Some(...)`.

Two behaviours of the source that the model keeps as written:

- `Business.patch` (server.py:91-98) assigns all eight fields from the update
  unconditionally, so a field missing from a request is not kept. `Patched` does
  the same, and `PatchedOverwritesAll` proves the result does not depend on the
  old record.
- `post` (server.py:118) does not check the generated id for a collision. `Post`
  has no freshness precondition: a colliding id replaces that record and keeps
  its place in the key order, as a Python dict assignment does.
  `PostFreshIdFrame` states the fresh-id case.

## Model

| member | source | states |
|---|---|---|
| `Text.LowerChar` | server.py:28-29 | lower-casing maps 'A'..'Z' to 'a'..'z' and leaves every other character alone; no result is upper case |
| `Text.Lower` | server.py:28-29 | a lower-cased string has the same length, no upper-case letter, and keeps every non-upper character, and each of 'A'..'Z' becomes its own lower-case letter (with `LowerAppend` and `LowerIdempotent` below) |
| `Text.LowerAppend` | server.py:28-29 | lower-casing `name + description` is the concatenation of the lower-cased parts |
| `Text.LowerIdempotent` | server.py:28-29 | lower-casing a lower-cased string changes nothing |
| `Text.OccursShift` | server.py:28-29 | an occurrence in the text without its first character is an occurrence one index further on in the text, and back |
| `Text.Contains` | server.py:28-29 | the `in` test holds exactly when the pattern occurs at some index of the text (both directions) |
| `Text.ContainsEmpty` | server.py:28-29 | the empty string occurs in every string |
| `Businesses.Index` | server.py:117 | `tuple.index` returns the first position holding the value, and fails with a ValueError exactly when the value is absent |
| `Businesses.ShopCategory` | server.py:117 | `CATEGORIES.index('shop')` is 0, and position 0 of the category tuple is 'shop' |
| `Businesses.CheckExists` | server.py:22-25 | the guard passes exactly when the id is a key; otherwise it fails with status 404 and the message "Business {id} doesn't exist" |
| `Businesses.NonemptyString` | server.py:46-50 | the validator fails with ValueError('string is empty') exactly on the empty string, and otherwise returns its input unchanged |
| `Businesses.Created` | server.py:116-117 | a created record keeps the parsed name, location and description, has category 0 ('shop'), and has no url, phone, hours or rating |
| `Businesses.Patched` | server.py:91-98 | a patched record holds the update's value in each of the eight fields |
| `Businesses.PatchedOverwritesAll` | server.py:91-98 | a patch keeps no field of the old record: the patched record is the same whatever record the patch was applied to |
| `Ids.CharRange` | server.py:19 | a character range has the requested length and holds consecutive character codes from the first |
| `Ids.AlphabetLiterals` | server.py:19 | the two alphabets are "abcdefghijklmnopqrstuvwxyz" and "0123456789" |
| `Ids.IdCharsCodes` | server.py:19 | the id alphabet has 36 symbols: the letters a-z in order, then the digits 0-9 in order |
| `Ids.IdCharsAlphabet` | server.py:19 | the 36 alphabet symbols are distinct, and they are exactly the lower-case letters and digits |
| `Ids.GenerateId` | server.py:19-20 | an id has one character per draw (six for the default size), each a lower-case letter or a digit; with `GenerateIdInjective` and `GenerateIdCovers`, the ids of a length are exactly the strings over [a-z0-9] |
| `Ids.GenerateIdInjective` | server.py:19-20 | different draws of the same length give different ids |
| `Ids.GenerateIdCovers` | server.py:19-20 | every string of lower-case letters and digits is the id some draws produce |
| `Query.Matches` | server.py:28-29 | a business matches exactly when the lower-cased query occurs at some index of the lower-cased name followed by the lower-cased description |
| `Query.Filter` | server.py:28-30 | the filter returns no more entries than its input, and every entry it returns matches the query |
| `Query.FilterCount` | server.py:28-30 | each entry occurs in the filter's result as often as in its input if it matches, and not at all otherwise |
| `Query.EmptyQueryMatches` | server.py:28-29 | the empty query (the default `q`) matches every business |
| `Query.MatchesIgnoresQueryCase` | server.py:28-29 | the match is case-insensitive in the query: lower-casing `q` first changes nothing |
| `Query.FilterEmptyQuery` | server.py:28-30 | with the empty query the filter returns its input unchanged |
| `Query.FilterKeepsOrderAt` | server.py:28-30 | the filter keeps input order: its entries of any one category are the matching entries of that category, in input order |
| `Query.FilterKeepsOrder` | server.py:28-30 | the same order property, for every category at once |
| `Query.InsertDesc` | server.py:31-32 | insertion into a list adds exactly the inserted entry (a multiset statement) |
| `Query.InsertDescSorted` | server.py:31-32 | insertion keeps a list ordered by descending category |
| `Query.InsertDescStable` | server.py:31-32 | the inserted entry lands before every entry with the same category |
| `Query.SortDesc` | server.py:31-32 | the sort returns a permutation of its input (ordering and stability in `SortDescCorrect`) |
| `Query.SortedMembersMatch` | server.py:31-32 | sorting a list of matching entries yields only matching entries |
| `Query.SortDescSorted` | server.py:31-32 | the sort's result is non-increasing by category |
| `Query.SortDescStable` | server.py:31-32 | the sort's entries of any one category are that category's input entries, in input order |
| `Query.SortDescCorrect` | server.py:31-32 | the sort returns a permutation of its input, non-increasing by category, with entries of equal category in input order |
| `Query.SortDescUnique` | server.py:31-32 | every list that is non-increasing by category and keeps ties in input order equals the sort's result, so any stable descending sort gives this result |
| `Query.FilterAndSort` | server.py:27-32 | the query returns only matching entries, each matching entry as often as in the input, ordered by descending category, and the entries of each category are the matching ones in input order |
| `Query.FilterAndSortDetermined` | server.py:27-32 | any list that is sorted by descending category and whose entries of each category are the matching ones in input order equals the query's result |
| `Query.EmptyQueryReturnsAll` | server.py:27-32 | with the empty query the result is the sorted list of all entries, a permutation of the input |
| `Registry.Items` | server.py:30 | `businesses.items()` has one entry per key of the key order, at that key's position, holding the key's record |
| `Registry.ItemsCount` | server.py:30 | `businesses.items()` yields one entry per key, holding that key's record, and nothing else |
| `Registry.OrderLength` | server.py:30 | a list of the map's keys without repeats is as long as the map |
| `Registry.QueryReturnsMatches` | server.py:27-32 | on a registry, the query returns each business whose record matches exactly once, with its stored record, and nothing else |
| `Registry.EmptyQueryListsAll` | server.py:27-32 | on a registry, the empty query returns as many entries as there are businesses, each business with its stored record |
| `Registry.BusinessStore.constructor` | server.py:13-14 | the store starts with the loaded map and its keys in load order |
| `Registry.BusinessStore.Entries` | server.py:30 | the store's items come one per key in key insertion order, each holding that key's record, so each stored business appears exactly once and nothing else appears |
| `Registry.BusinessStore.FilterAndSortBusinesses` | server.py:27-32 | the query on the store returns each business whose record matches exactly once, with its stored record, and nothing else, ordered by descending category, and the entries of each category are the matching ones in key insertion order |
| `Registry.BusinessStore.Get` | server.py:82-85 | a get succeeds exactly when the id is a key and returns the stored record; otherwise it fails with the 404 naming the id |
| `Registry.BusinessStore.Post` | server.py:115-121 | for a payload whose three fields pass `nonempty_string` (as the request parser at server.py:56-59 ensures), a create stores the created record under the id generated from the draws, appends that id to the key order unless it was already a key, changes nothing else, and returns the empty-query listing of the new map |
| `Registry.BusinessStore.Patch` | server.py:87-100 | a patch on a missing id fails with the 404 and changes nothing; on an existing id it replaces only that record with the patched one, keeps the key order, and returns the new record |
| `Registry.PostFreshIdFrame` | server.py:115-118 | a create under a fresh id adds exactly that key, its record has category 0 ('shop'), and every other record is unchanged |
| `Registry.PatchFrame` | server.py:87-98 | a patch keeps the key set and every other record, and the patched record carries the update's name, description and category |
| `RegistryExample.QueryExample` | server.py:27-32 | for a bar (category 2, "craft beer") loaded before a club (category 3), the empty query lists the club first, and the query "beer" returns only the bar |

## Left out

- HTTP plumbing is not modelled: the Flask app, route wiring, `make_response`, status codes other than the 404, and `app.run`.
- HTML rendering through `render_template` calls templates that are not part of this model. `Post` and `Patch` return the data that would be rendered.
- Loading `businesses.json` at start-up is I/O. The constructor takes the loaded map and its key order as arguments.
- The randomness of `generate_id` (`random.choice`) is a parameter: `draws` holds the index chosen for each character.
- The request parsers are not modelled: which fields a request must carry, the 400 responses, and the `choices=('category')` quirk. The sort key is always `category`. `Post` receives an already parsed payload and requires that each of its three fields passes `nonempty_string` (`ValidPayload`), which is what the parser's `type=nonempty_string` arguments (server.py:56-59) guarantee.
- `abort` is never imported in the source. The guard's 404 is modelled as the `NotFound` error value.
- `update_business_parser` declares only `category`, but `patch` reads eight keys. `Patch` receives a complete eight-field `Update`.
- `post` is defined at module level, not as a method of `BusinessList`. Its logic is modelled as `BusinessStore.Post`.
- Text.LowerChar: models ASCII lower-casing only. Python's `str.lower` also folds non-ASCII letters, and `LowerAppend` and `LowerIdempotent` hold for this ASCII folding only (Python's final-sigma rule makes `'ΑΣ'.lower()` end in 'ς', not 'σ').
- Businesses.NonemptyString: models string arguments only. `str(x)` is then the identity. For a non-string argument the source may fail inside `len`.
- `rating` is kept as opaque text, and `category` as an int. A mix of string and int categories is not modelled.
- Registry order: assumes Python 3.7+ dicts (json.load and assignment keep insertion order; a mix of int and str categories makes the sort raise TypeError). On older Pythons the tie order among equal categories is the dict's hash order.
- `Patch` replaces the stored record value in the map. The source mutates the stored dict in place, but holds no other reference to it, so this has the same effect.
- Concurrent requests racing on the shared dictionary are not modelled.
- The events collection is not part of this model: this `server.py` has no events.
