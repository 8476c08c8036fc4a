# Flask learning journal: tag helpers, journal store and form rules

This project models the core of a small Flask learning-journal application in Dafny. The core has three parts.

- **`helpers.py`**:
  - `split_tags` turns a comma-separated tag string into a list of labels.
  - `join_tags` turns the list back into a string.
  - `slugify` derives a URL slug from an entry title. It lower-cases the title, cuts it at runs of the `_punct_re` character class, cuts each piece again at whitespace, and joins the surviving words with `-`.
- **`models.py`**: the four tables (users, entries, tags and entry–tag links) and their unique constraints.
  - Three operations insert rows: `create_user`, `create_tag_if_not_exists` and `create_tagentry_if_not_exists`.
  - Two queries join entries with tags: `get_entries_by_tag` and `get_tags`.
- **`forms.py`**: the WTForms validator chains for an entry's title and slug and for a new tag, including the `tag_exists` check against the tag table.

The modules follow the source files:

- `Wrappers` holds `Option`, `Result`, `Outcome` and the Python exceptions that the code raises.
- `Helpers` models `helpers.py`. It also models the Python string primitives that file uses: `str.strip`, `str.split` with and without a separator, `str.join` and `str.lower`. Whitespace is exactly the set of characters for which Python's `str.isspace()` is true.
- `slugify` is modelled twice, as the function `SlugOf` and as the method `Slugify`. The method keeps the source's `for`/`extend` loop, and its contract proves that the loop computes `SlugOf`.
- `unidecode` is a function parameter `translit`. The properties assume only `AsciiIdentity(translit)`, meaning it leaves ASCII text unchanged, and they are stated for ASCII titles.
- `Models` models `models.py`. The tables are sequences of rows in insertion order.
  - Each insert is specified as a pure function of the old table.
  - The class `Store` holds the four tables and their id counters as fields. Its methods modify the tables and keep every unique constraint (`Store.Valid`).
  - The join queries are functions over the tables.
  - Ids come from a counter that starts at 1 and advances on each successful insert.
- `Forms` models `forms.py`. A field's validators yield a list of errors, and an empty list means the value is accepted.
  - `DataRequired` fails on a value that is empty or only whitespace, and it stops the chain.
  - `Length` and `Regexp` each add their error, and the chain goes on.
- `Examples` works through one example, `slugify("Hello, World!") == "hello-world"`.

Four facts about the code that a reader might expect otherwise:

- **Slugs with `+`.** `slugify` output does not always match the slug rule `^[a-zA-Z0-9_-]+$`. `_punct_re` leaves out `+`, `:`, `;` and `~`, so `slugify("C++")` is `"c++"`, which the slug rule rejects (`Forms.PlusSignSlug`).
- **Tag labels.** `split_tags` neither trims nor lower-cases each piece. It strips only the whole string (`Helpers.SplitTagsKeepsInnerSpaces`), and tag lookup is an exact, case-sensitive match.
- **Referential integrity.** `create_tagentry_if_not_exists` does not check that the entry id and the tag id are stored, and SQLite does not enforce foreign keys by default. So a link may reference a missing row.
- **Lost races.** Each create-if-absent operation checks and then inserts, with no handling of a concurrent insert between the two steps.

## Model

| member | source | states |
|---|---|---|
| Helpers.Strip | helpers.py:12 | `str.strip()`: the result is the slice of the string between a whitespace-only prefix and a whitespace-only suffix, and it neither starts nor ends with whitespace; so it is empty exactly when every character is whitespace, and a string with no surrounding whitespace is returned unchanged |
| Helpers.JoinTags | helpers.py:15-19 | `join_tags`: the tags laid end to end with the delimiter between each two; its properties are carried by `Helpers.JoinSplit`, `Helpers.SplitTagsRoundTrip` and `Helpers.JoinTagsRoundTrip` |
| Helpers.SplitTags | helpers.py:8-12 | `split_tags` raises ValueError("empty separator") exactly when the delimiter is empty; otherwise it returns one more piece than there are delimiters in the stripped string (so never an empty list), and no piece contains the delimiter |
| Helpers.Occurrences | helpers.py:12 | `str.count(d)` for a non-empty `d`: the occurrences of `d` found from the left without overlap; `Helpers.SplitOnCount` and `Helpers.SplitTags` tie it to the number of pieces |
| Helpers.SplitOn | helpers.py:12 | `str.split(d)` for a non-empty `d`: the pieces between the occurrences of `d` found from the left without overlap, never an empty list; its properties are carried by `Helpers.SplitOnCount`, `Helpers.SplitAvoidsDelimiter`, `Helpers.JoinSplit` and `Helpers.SplitJoin` |
| Helpers.JoinWith | helpers.py:19 | `d.join(ps)`: the pieces laid end to end with `d` between each two, `""` for no pieces; its properties are carried by `Helpers.JoinSplit`, `Helpers.SplitJoin`, `Helpers.PunctSplitJoin`, `Helpers.JoinIsSlug` and `Helpers.WithoutDashJoin` |
| Helpers.SplitOnCount | helpers.py:12 | `str.split(d)` returns exactly `str.count(d) + 1` pieces |
| Helpers.SplitAvoidsDelimiter | helpers.py:12 | no piece returned by `str.split(d)` contains `d` |
| Helpers.JoinSplit | helpers.py:12-19 | joining the pieces of `s.split(d)` with `d` gives `s` back, for every non-empty `d` |
| Helpers.SplitTagsRoundTrip | helpers.py:8-19 | `join_tags(split_tags(s, d), d)` is `s.strip()` for every string and every non-empty delimiter |
| Helpers.JoinTagsRoundTrip | helpers.py:8-19 | `split_tags(join_tags(tags, c), c)` gives back a non-empty tag list whose tags do not contain the one-character delimiter `c`, when the joined string has no surrounding whitespace |
| Helpers.SplitJoin | helpers.py:12-19 | splitting the join of tags free of `c` at `c` gives exactly those tags |
| Helpers.SplitTagsKeepsInnerSpaces | helpers.py:12 | `split_tags(a + c + b, c)` is `[a, b]` even when `a` ends or `b` starts with whitespace: only the whole string is stripped, and pieces are neither trimmed nor lower-cased |
| Helpers.Lower | helpers.py:28 | `str.lower()`: each character lowered by `LowerChar`, so the length is kept; its properties are carried by `Helpers.LowerChar`, `Helpers.PiecesClean` and `Helpers.SlugKeepsWordCharacters` |
| Helpers.LowerChar | helpers.py:28 | `str.lower()` on one character: the result is not an upper-case ASCII letter, and lowering keeps the character ASCII, whitespace, punctuation-class or alphanumeric exactly when it was |
| Helpers.IsPunct | helpers.py:5 | the character class of `_punct_re`: tab, space, `!` to `*`, `,` to `/`, `<` to `@`, `[` to `` ` `` and `{` to `}`, which leaves out `+`, `:`, `;` and `~`; `Forms.PlusSignSlug` shows the consequence |
| Helpers.PunctSplit | helpers.py:5-28 | `_punct_re.split`: the pieces between maximal runs of the class, with an empty first or last piece when the string starts or ends with a run; never an empty list; its properties are carried by `Helpers.PunctSplitPieces`, `Helpers.PunctSplitAtGap`, `Helpers.PunctSplitJoin` and `Helpers.ConcatPunctSplit` |
| Helpers.PunctSplitPieces | helpers.py:5-28 | every piece of `_punct_re.split(s)` holds only characters of `s`, and none of the `_punct_re` class |
| Helpers.SplitWhitespace | helpers.py:29 | `str.split()` with no argument: the maximal runs of non-whitespace characters, in order; its properties are carried by `Helpers.SplitWhitespaceWords` and `Helpers.ConcatSplitWhitespace` |
| Helpers.SlugWords | helpers.py:27-29 | the `result` list the loop builds: for each piece of the punctuation split, in order, the words of `unidecode(piece).split()`; its properties are carried by `Helpers.Slugify` (the loop computes it), `Helpers.SlugWordsAreWords`, `Helpers.SlugWordsOfWords` and `Helpers.ConcatSlugWords` |
| Helpers.SplitWhitespaceWords | helpers.py:29 | every word of `str.split()` is non-empty and holds only characters of the string, none of them whitespace |
| Helpers.SlugOf | helpers.py:22-30 | `slugify`: lower-case, split at class runs, split each piece at whitespace after `unidecode`, join the words with the delimiter, and `unidecode` the result; its properties are carried by `Helpers.Slugify`, `Helpers.SlugShape`, `Helpers.SlugIdempotent`, `Helpers.SlugKeepsWordCharacters` and `Helpers.SlugEmptyIff` |
| Helpers.Slugify | helpers.py:22-30 | the loop that extends `result` with the whitespace words of each transliterated piece computes `SlugOf`, the list of words joined with the delimiter and transliterated |
| Helpers.PiecesClean | helpers.py:28 | for an ASCII title, each piece of `_punct_re.split(title.lower())` is ASCII, lower case and free of the punctuation class |
| Helpers.SlugWordsAreWords | helpers.py:27-29 | the loop collects only slug words: non-empty, ASCII, lower case, with no whitespace and no punctuation-class character |
| Helpers.JoinIsSlug | helpers.py:30 | slug words joined with `-` form a slug: no whitespace, no punctuation-class character except `-`, no `-` at either end, never two `-` in a row |
| Helpers.SlugShape | helpers.py:22-30 | for every ASCII title, `slugify` returns a lower-case ASCII string with no whitespace and no punctuation-class character except `-`, which never starts or ends it and is never doubled |
| Helpers.PunctSplitAtGap | helpers.py:5 | `_punct_re.split` cuts at a maximal run of the `_punct_re` class (tab, space, the ASCII punctuation of the pattern; not `+`, `:`, `;`, `~`) between punctuation-free parts, giving the part before and the split of what follows |
| Helpers.PunctSplitJoin | helpers.py:28 | `_punct_re.split` of slug words joined with `-` gives back exactly those words |
| Helpers.SlugWordsOfWords | helpers.py:28-29 | the loop leaves a list of slug words unchanged |
| Helpers.SlugOfSlugWords | helpers.py:22-30 | slugify maps a `-`-joined list of slug words to itself |
| Helpers.SlugOfWord | helpers.py:22-30 | a single slug word slugifies to itself |
| Helpers.SlugIdempotent | helpers.py:22-30 | for ASCII titles, `slugify(slugify(s)) == slugify(s)` |
| Helpers.ConcatPunctSplit | helpers.py:28 | the pieces of `_punct_re.split(s)` laid end to end are `s` with exactly the punctuation-class characters removed |
| Helpers.ConcatSplitWhitespace | helpers.py:29 | the words of `str.split()` laid end to end are the string with exactly its whitespace removed |
| Helpers.ConcatSlugWords | helpers.py:27-29 | the words the loop collects, laid end to end, are the pieces laid end to end with their whitespace removed |
| Helpers.WithoutDashJoin | helpers.py:30 | removing the `-`s from the joined slug words leaves the words laid end to end |
| Helpers.SlugKeepsWordCharacters | helpers.py:22-30 | for ASCII titles, removing the `-`s from the slug leaves exactly the characters of the lower-cased title that are neither whitespace nor in the punctuation class, in order |
| Helpers.SlugEmptyIff | helpers.py:27-30 | for ASCII titles, the slug is `""` exactly when every character of the title is whitespace or in the punctuation class; no guard stops that case |
| Examples.PunctSplitTwoWords | helpers.py:5 | two punctuation-free words, each followed by a run of the class, split into the two words and a trailing empty piece |
| Examples.HelloWorldPieces | helpers.py:28 | `_punct_re.split("hello, world!")` is `["hello", "world", ""]` |
| Examples.SlugHelloWorld | helpers.py:22-30 | `slugify("Hello, World!") == "hello-world"` |
| Models.ValidUsers | models.py:16-17 | the user table's constraints: ids are positive, below the counter and distinct, and usernames and emails are unique; `Models.AddUserConstraint` and `Models.AddUserValid` show how `create_user` keeps them |
| Models.ValidEntries | models.py:44 | the entry table's constraints: ids as for users, and slugs are unique; `Models.AddEntryValid` shows the entry insert keeps them |
| Models.ValidTags | models.py:76 | the tag table's constraints: ids as for users, and labels are unique; `Models.AddTagValid`, `Models.LabelCountUnique` and `Models.AddTagExactlyOne` rest on them |
| Models.UniqueLinks | models.py:101-103 | the unique index on (entry, tag): no pair is stored twice; `Models.AddLinkExactlyOne` shows `create_tagentry_if_not_exists` keeps it, and `Models.EntriesByTagOnce` uses it |
| Models.FindTag | models.py:86 | `Tag.get_or_none(Tag.tag == label)` finds a row exactly when some stored tag has that exact label, and the row it returns is stored and has that label |
| Models.AddUser | models.py:26-35 | `create_user` on the user table: ValueError("User already exists!") when the username or the email is stored, otherwise the table with the new row appended; its properties are carried by `Models.AddUserConstraint` and `Models.AddUserValid` |
| Models.AddUserConstraint | models.py:16-35 | on a valid user table, `create_user` fails exactly when the new row would break the unique constraint on username or on email (the IntegrityError case), and then raises ValueError("User already exists!") |
| Models.AddUserValid | models.py:16-17 | a successful `create_user` keeps usernames, emails and ids unique |
| Models.AddEntryValid | models.py:44 | inserting an entry fails exactly on a stored slug (`unique=True`); a successful insert appends the row and keeps slugs and ids unique |
| Models.LabelCountUnique | models.py:76 | under the unique label constraint, a label is on one row when stored and on none otherwise |
| Models.AddTagIfAbsent | models.py:82-89 | `create_tag_if_not_exists`: the table with a new row for the label when no row has it, otherwise the table unchanged; its properties are carried by `Models.AddTagValid`, `Models.AddTagExactlyOne`, `Models.AddTagPresent` and `Models.AddTagIdempotent` |
| Models.AddTagValid | models.py:82-89 | `create_tag_if_not_exists` keeps labels and ids unique; the id counter advances only when a row is added |
| Models.AddTagExactlyOne | models.py:82-89 | afterwards exactly one row has the label, every other label is on as many rows as before, and every old row is still there |
| Models.AddTagPresent | models.py:86 | a stored label leaves the tag table unchanged |
| Models.AddTagIdempotent | models.py:82-89 | a second call with the same label changes nothing |
| Models.AddLinkIfAbsent | models.py:106-115 | `create_tagentry_if_not_exists`: the link table with the pair appended when it is not stored, otherwise unchanged; its properties are carried by `Models.AddLinkExactlyOne` and `Models.AddLinkIdempotent` |
| Models.AddLinkExactlyOne | models.py:106-115 | afterwards the (tag, entry) pair is stored exactly once, every other pair as often as before, the unique index on (entry, tag) still holds, and the old rows are all still there |
| Models.AddLinkIdempotent | models.py:110-115 | a second call with the same pair changes nothing |
| Models.EntriesByTag | models.py:55-65 | `get_entries_by_tag`: the inner join of entries with the links to the tag, each entry once per matching link, in entry order; its properties are carried by `Models.EntriesByTagCount`, `Models.EntriesByTagMembers`, `Models.EntriesByTagOnce` and `Models.LinkThenQuery` |
| Models.EntriesByTagCount | models.py:55-65 | `get_entries_by_tag(tag)` returns each entry as many times as it is stored times the number of stored links from the tag to it |
| Models.EntriesByTagMembers | models.py:55-65 | an entry is returned exactly when it is stored and a link from the tag to it is stored |
| Models.EntriesByTagOnce | models.py:101-103 | under the unique constraints, the join returns no entry twice |
| Models.TagsOf | models.py:67-72 | `get_tags`: the inner join of tags with the links to the entry, each tag once per matching link, in tag order; its properties are carried by `Models.TagsOfCount`, `Models.TagsOfMembers` and `Models.LinkThenQuery` |
| Models.TagsOfCount | models.py:67-72 | `get_tags()` returns each tag as many times as it is stored times the number of stored links from it to the entry |
| Models.TagsOfMembers | models.py:67-72 | a tag is returned exactly when it is stored and a link from it to the entry is stored |
| Models.LinkThenQuery | models.py:55-115 | linking a stored tag to a stored entry makes each join query find the other |
| Models.Store.Valid | models.py:16-103 | every unique constraint of the four tables holds (`ValidUsers`, `ValidEntries`, `ValidTags`, `UniqueLinks`); the constructor establishes it, and every method of `Store` requires it and ensures it |
| Models.Store.constructor | models.py:120 | the freshly created tables are empty, every counter is 1, and every unique constraint holds |
| Models.Store.CreateUser | models.py:26-35 | fails with ValueError("Password must be non-empty.") on an empty password (the hashing at models.py:32 raises it before the insert, and the IntegrityError handler does not catch it); for a non-empty password, fails with ValueError("User already exists!") exactly when the username or email is taken; every failure leaves the users unchanged; otherwise appends the user with the next id, `hash(password)` and the clock value; other tables unchanged; constraints kept |
| Models.Store.CreateEntry | models.py:38-49 | fails with an IntegrityError exactly when the slug is taken; otherwise appends the entry with the next id and returns that id; other tables unchanged; constraints kept |
| Models.Store.CreateTagIfNotExists | models.py:81-89 | the tag table becomes the insert-if-absent of the label, exactly one row then has it, the counter advances only on insert, and the other tables are unchanged |
| Models.Store.CreateTagEntryIfNotExists | models.py:105-115 | the link table becomes the insert-if-absent of the pair, which is then stored exactly once; the other tables are unchanged; constraints kept |
| Models.Store.EntriesForTag | models.py:55-65 | over the stored tables: an entry is in the result exactly when it is stored and linked to the tag |
| Models.Store.TagsForEntry | models.py:67-72 | over the stored tables: a tag is in the result exactly when it is stored and linked to the entry |
| Forms.HasData | forms.py:35-67 | `DataRequired`: the value is not empty and not only whitespace, that is, its strip is non-empty; `Forms.BlankRejected`, `Forms.EmptyRejected` and `Forms.NewlineSlugHasData` carry its cases |
| Forms.SlugPatternAsWritten | forms.py:42-46 | `re.match(r'^[a-zA-Z0-9_-]+$', s)`: one or more slug characters, optionally followed by a single final `"\n"`, because Python's `$` also matches just before a final newline; `Forms.NewlineSlugPatterns`, `Forms.SlugAsWrittenAccepted` and `Forms.SlugTrailingNewline` carry its properties |
| Forms.TagExists | forms.py:17-19 | `tag_exists` raises ValidationError("Tag already exists.") exactly when a stored tag has the value as its label, case-sensitively |
| Forms.ValidateTitle | forms.py:34-36 | the title chain: DataRequired's error alone on a blank value, otherwise `Length(3, 100)`'s error when the length is outside the bounds; its properties are carried by `Forms.TitleAccepted`, `Forms.BlankRejected` and `Forms.LongTitleSlugTooLong` |
| Forms.ValidateSlugAsWritten | forms.py:37-47 | the slug chain as written: DataRequired's error alone on a blank value, otherwise `Length(3, 50)`'s error and then the pattern error of `re.match` with Python's `$`; its properties are carried by `Forms.SlugAsWrittenAccepted`, `Forms.SlugTrailingNewline`, `Forms.SlugRulesAgree` and `Forms.SlugOfRulesAgree` |
| Forms.ValidateSlug | forms.py:37-47 | the slug chain with the pattern anchored at the true end (the corrected rule); its properties are carried by `Forms.SlugAccepted`, `Forms.SlugRulesAgree` and `Forms.SlugOfAccepted` |
| Forms.ValidateTag | forms.py:63-70 | the tag chain: DataRequired's error alone on a blank value, otherwise `Length(3, 100)`'s error and then `tag_exists`'s error; its properties are carried by `Forms.TagAccepted`, `Forms.BlankRejected` and `Forms.AcceptedTagIsCreated` |
| Forms.TitleAccepted | forms.py:33-36 | a title is accepted exactly when it is not blank and has 3 to 100 characters |
| Forms.SlugAccepted | forms.py:37-47 | under the anchored (corrected) slug rule, a slug is accepted exactly when it has 3 to 50 characters, all from `[a-zA-Z0-9_-]`; so an accepted slug fits the `max_length=50` slug column |
| Forms.TagAccepted | forms.py:63-70 | a tag is accepted exactly when it is not blank, has 3 to 100 characters and is not a stored label |
| Forms.BlankRejected | forms.py:33-70 | an empty or whitespace-only value gets exactly DataRequired's error on the title and tag fields and on the slug field under both the rule as written and the anchored rule, even when the blank value ends in `"\n"` |
| Forms.EmptyRejected | forms.py:33-70 | the empty value gets exactly DataRequired's error on every field, under both slug rules |
| Forms.SlugErrorsAccumulate | forms.py:39-46 | `Length` and `Regexp` both report: `"a!"` gets the length error and then the pattern error, under the slug rule as written and the anchored rule |
| Forms.NewlineSlugHasData | forms.py:40 | a valid slug followed by `"\n"` passes DataRequired |
| Forms.NewlineSlugPatterns | forms.py:42-46 | Python's `$` lets the pattern as written match a valid slug followed by `"\n"`; the pattern anchored at the true end does not |
| Forms.AsWrittenAcceptsNewline | forms.py:37-47 | the slug rule as written accepts a valid slug followed by `"\n"` when the two fit the length rule |
| Forms.AnchoredRejectsNewline | forms.py:37-47 | the anchored slug rule rejects such a value with exactly the pattern error |
| Forms.SlugTrailingNewline | forms.py:42-46 | for every slug-character word whose length plus one is 3 to 50, the rule as written accepts the word followed by `"\n"`, and the anchored rule rejects it |
| Forms.SlugTrailingNewlineExample | forms.py:42-46 | `"abc\n"` is accepted by the slug rule as written and rejected by the anchored rule |
| Forms.SlugRulesAgree | forms.py:42-46 | the rule as written and the anchored rule agree on every value that does not end in `"\n"` |
| Forms.SlugAsWrittenAccepted | forms.py:37-47 | under the slug rule as written, a value is accepted exactly when it has 3 to 50 characters, all from `[a-zA-Z0-9_-]` except that the last may be `"\n"`; so an accepted slug still fits the `max_length=50` slug column |
| Forms.SlugOfRulesAgree | helpers.py:22-30 | `slugify` output never ends in `"\n"`, so the slug rule as written and the anchored rule give it the same errors |
| Forms.AcceptedTagIsCreated | forms.py:63-70 | a tag the tag form accepts is new, so `create_tag_if_not_exists` then appends exactly its row |
| Forms.SlugOfAccepted | forms.py:37-47 | for an ASCII title, the slug rule, as written and anchored, accepts `slugify(title)` exactly when it has 3 to 50 characters, each a letter, a digit or `-` |
| Forms.PlainTitleSlugChars | helpers.py:22-30 | for a title of letters, digits, whitespace and punctuation-class characters, the slug holds only letters, digits and `-` |
| Forms.PlainTitleSlugAccepted | forms.py:37-47 | for such a title, the slug rule, as written and anchored, accepts `slugify(title)` exactly when it has 3 to 50 characters |
| Forms.LongTitleSlugTooLong | forms.py:33-47 | a title of 51 to 100 lower-case letters passes the title rule, but its slug is the title itself and gets exactly the slug length error from the slug rule, as written and anchored |
| Forms.PlusSignSlug | helpers.py:5 | `slugify("C++")` is `"c++"`, because `+` is outside the punctuation class, and the slug rule, as written and anchored, rejects it with exactly the pattern error |

## Left out

- `app.py` is not part of this model: it holds the Flask routes, the login manager, the per-request connection handling and the start-up block.
- `generate_password_hash` (bcrypt) is the function parameter `hash` of `Store.CreateUser`, applied to non-empty passwords. Its one modelled failure is flask_bcrypt's ValueError("Password must be non-empty.") on an empty password. flask_bcrypt is not part of this model, so that check and its message are taken from the library's documented behaviour. The default `datetime.datetime.now` values are the parameter `now` and the `timestamp` argument; no clock is modelled.
- `str.lower()` is modelled on ASCII letters only. `unidecode` is the parameter `translit`, and it is assumed only to leave ASCII text unchanged. The slug properties are therefore stated for ASCII titles.
- `Meta.order_by` (newest first) is not modelled. The join queries return rows in table order, one row per matching link.
- Peewee's SQL generation, `initialize`/`create_tables` and a real transaction are not modelled. `DATABASE.transaction()` is modelled as "no partial insert": a failed `create_user` leaves the users unchanged.
- SQLite does not enforce the `max_length` of a `CharField` or foreign keys by default, so the model enforces neither. The link table's own id column and rowid reuse after deletes are not modelled.
- Concurrency is not modelled: the store is sequential, and the race between two create-if-absent calls on the same key is not represented.
- The `date`, `time_spent` and `subjects` validators are not modelled. They are written as the bare `DataRequired` class, not an instance. `LoginForm` and the `Email` validator are not modelled either.
- The text of WTForms' own `DataRequired` and `Length` messages is not modelled; those errors are the values `Required` and `BadLength(min, max)`.
- `get_entries_by_tag` is modelled on the tag's id, which is what the query compares `TagEntry.tag` with.
- Helpers.JoinTagsRoundTrip: stated for one-character delimiters only. With a longer delimiter, overlapping occurrences can make `split` cut differently than `join` joined. The inverse direction, `Helpers.SplitTagsRoundTrip`, holds for every non-empty delimiter.
- Models.Store.CreateEntry: the entry insert (`Entry.create`) is not a function of the core. It models the table's insert, so the `unique=True` slug constraint has an operation to check it.

## Findings

| source | as written | input that shows it | evidently intended | confidence | as-written member | corrected member |
|---|---|---|---|---|---|---|
| forms.py:42-46 | `Regexp(r'^[a-zA-Z0-9_-]+$')` is applied with `re.match`. There, `$` also matches just before a final newline, so a slug ending in `"\n"` passes. | `"abc\n"`: passes DataRequired, `Length(3, 50)` and the pattern as written | a slug of `[a-zA-Z0-9_-]` characters only, with the pattern anchored at the true end (`\Z`, or `re.fullmatch`) | medium; follows from Python's documented `$` semantics, not executed | Forms.SlugTrailingNewline | Forms.SlugAccepted |
