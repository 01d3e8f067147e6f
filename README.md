# Contact list over a singly linked list

A model of the core of a small contact-list web application (`app.py`). Contacts are stored
in a hand-written singly linked list (`node`, `LinkedList` with `append`, `to_list` and
`search`). The file also has a DJB2 string hash (`simple_hash`) and three request handlers:
`index` lists every contact or the ones matching a query, `add_contact` appends a contact if
both form fields are filled in, and `search` lists the matching contacts and nothing for an
empty query.

Modules, one per part of `app.py`:

- `Contacts` (`contacts.dfy`): the node payload `Data = Contact(name, email) | Other`, ASCII
  lower-casing, Python's substring test (`Contains`, proved equal to "occurs at some
  position"), the per-node match rule and `Filter`, which specifies the search. Lemmas: a
  result element is exactly a matching contact, the result keeps the list order, the empty
  query keeps every contact, and a query with an upper-case letter never matches.
- `LinkedStore` (`linked_list.dfy`): the `Node` and `LinkedList` classes. The list has ghost
  fields `nodes` (the cells in link order), `contents` (their payloads) and `Repr`. `Valid()`
  says that the chain from `head` runs through `nodes` and ends in null, and that the cells
  are distinct, so the chain is acyclic. `Append`, `ToList` and `Search` use the source's own
  cursor loops and are proved against `contents` and `Filter`.
- `Hashing` (`hashing.dfy`): `Djb2`, a recursive left fold over unbounded integers, specifies
  the loop of `SimpleHash`. Python's floor-modulo is written out as `PyMod`. A table size of 0
  gives the `ZeroDivisionError` outcome.
- `Routes` (`routes.dfy`): the handler decisions as pure functions over `seq<Data>`
  (`QueryOf`, `AfterAdd`, `IndexShown`, `SearchShown`). The handlers themselves are methods
  over a `LinkedList` passed in by the caller. `SeedContacts` builds the ten sample contacts.

The module-level global `contacts` list becomes a parameter of the handler methods. Request
values (`request.args.get`, `request.form.get`) become `Option<string>` parameters, where
`None` means the field is missing.

## Model

| member | source | states |
|---|---|---|
| `Contacts.LowerChar` | app.py:44 | lower-casing an ASCII letter adds 32 to its code; any other character is unchanged; the result is never an upper-case letter |
| `Contacts.Lower` | app.py:44 | `.lower()` keeps the length and lower-cases each character in place |
| `Contacts.LowerHasNoUpper` | app.py:44 | a lower-cased string holds no upper-case letter |
| `Contacts.ContainsIsSubstring` | app.py:44 | the executable scan is true exactly when the query occurs at some position of the string (Python's `in` on strings) |
| `Contacts.Filter` | app.py:38-47 | the search result is no longer than the list, and an element is in it iff it is in the list and is a contact whose lower-cased name or email contains the query |
| `Contacts.EmptyQueryMatchesContacts` | app.py:43-44 | the empty query matches every contact and no non-dictionary payload |
| `Contacts.EmptyQueryKeepsAllContacts` | app.py:38-47 | on a list of contacts only, searching for "" returns the whole list unchanged |
| `Contacts.FilterKeepsOrder` | app.py:40-47 | the result is a subsequence of the list: its elements come from strictly increasing positions, and every matching position is among them |
| `Contacts.UpperCaseQueryNeverMatches` | app.py:44 | a query holding an upper-case letter matches nothing, since only the payload is lower-cased |
| `LinkedStore.Node.constructor` | app.py:6-8 | a new cell holds its payload and has no successor |
| `LinkedStore.LinkedList.constructor` | app.py:15-16 | a new list is valid, has no head and is empty |
| `LinkedStore.LinkedList.Acyclic` | app.py:18-27 | in a valid list no cell links to itself or to an earlier cell |
| `LinkedStore.LinkedList.Append` | app.py:18-27 | the contents become the old contents followed by the new payload; the old cells stay in place with their data; an empty list's head becomes the new cell, and otherwise the head is kept |
| `LinkedStore.LinkedList.ToList` | app.py:29-36 | returns exactly the payloads reachable from the head, in link order, and changes nothing |
| `LinkedStore.LinkedList.Search` | app.py:38-47 | returns the matching contacts of the contents, in link order, and changes nothing |
| `Hashing.Djb2Snoc` | app.py:84-85 | one more character multiplies the accumulator by 33 and adds the character's code point |
| `Hashing.Djb2AtLeastSeed` | app.py:83-85 | the accumulator never drops below 5381 |
| `Hashing.PyMod` | app.py:86 | Python's `%`: the result lies in [0, n) for n > 0 and in (n, 0] for n < 0, and completes floor division |
| `Hashing.SimpleHash` | app.py:78-86 | returns the DJB2 fold of the whole string reduced once modulo the table size; the result lies in [0, table_size) when table_size > 0; table size 0 raises ZeroDivisionError |
| `Hashing.EmptyStringDefaultHash` | app.py:78-86 | the empty string hashes to 81 with the default table size 100 |
| `Routes.QueryOf` | app.py:96 | a missing `search` parameter reads as ""; otherwise the query is the parameter lower-cased character by character, so it keeps the length and holds no upper-case letter |
| `Routes.AfterAdd` | app.py:115-121 | the list grows by at most one element, and by one exactly when name and email are both present and non-empty; the old elements are kept as a prefix, so a rejected form leaves the list unchanged, and the new last element is `{name, email}` |
| `Routes.IndexShown` | app.py:96-101 | the main page shows the whole list for the empty query, and otherwise exactly the matching contacts |
| `Routes.SearchShown` | app.py:131-136 | the search page shows nothing for the empty query, and otherwise exactly the matching contacts |
| `Routes.PagesAgreeOnNonEmptyQuery` | app.py:96-136 | the two pages show the same contacts for a non-empty query; for the empty query the main page shows all and the search page none |
| `Routes.AddedContactFoundByEmail` | app.py:115-136 | a contact that was accepted is found by a search for its email written in any letter case |
| `Routes.Index` | app.py:96-101 | the `index` handler returns the lower-cased query, the full list, and the contacts chosen by `IndexShown` |
| `Routes.AddContact` | app.py:115-121 | the `add_contact` handler leaves the list holding `AfterAdd` of its old contents |
| `Routes.Search` | app.py:131-140 | the `search` handler returns the lower-cased query, the contacts chosen by `SearchShown`, and the full list |
| `Routes.SeedContacts` | app.py:61-75 | ten appends of the sample contacts give a valid list holding them in order |

## Left out

- Flask plumbing (the `app` object, `render_template`, `redirect`, `url_for`, reading `request.args` and `request.form`, `app.run`): this is web I/O. Request values enter the model as parameters.
- `get_postgres_connection` and `get_mssql_connection`: they are empty placeholders and are never called.
- `node.__repr__` and `LinkedList.__repr__`: they only format strings.
- `Contacts.Lower`: lower-cases ASCII letters only, not Python's full Unicode `str.lower()` (which also maps other scripts and can change a string's length).
- A dictionary payload without a `name` or `email` key, which would raise `KeyError` in `search`: the application only ever stores dictionaries that have both keys, so a dictionary payload is modelled as `Contact(name, email)`.
- Aliasing of payloads: Python's lists share the same dictionary objects with the linked list. The model treats payloads as immutable values.
- `Hashing.SimpleHash`: a non-integer `table_size` (Python would accept a float) is not modelled; the table size is an `int`.
- Concurrency: the handlers are modelled as running one after another on a list passed in. The development server started by `app.run` can serve requests on several threads, and two `add_contact` requests that walk to the same tail at once can lose one of the new cells; that race is not captured.
