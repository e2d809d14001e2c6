# Since: date registry and translation resolver, modelled in Dafny

The modelled system is a chat bot that lets the members of a guild register named dates
and then ask how long it has been since (or how long is left until) one of them. It has
three pieces with real logic:

- **The per-guild date store** (`DatabaseTools`). Each guild gets its own table, `dates_<guild>`.
  The table is created on the first add and has the columns `label TEXT UNIQUE, date, creator`.
  The store offers add, get, list and remove. Reads and removals first check that the table exists.
  Labels are passed through `escapeLabel` on every path.
- **The translation resolver** (`Globalization`). A path is split on `/` and `\`, or given as an
  array of segments, and empty segments are dropped. The segments are looked up under the locale in
  a nested dictionary. A missing or empty entry falls back to the segments joined with `/`. The
  chosen template goes to the message formatter.
- **The command decisions**. `register` looks up before it adds. `since` chooses between the
  `since` and `for` variants. `remove` reports whether a row was deleted. `when` shows a stored
  date. `list` pads and truncates the rows.

Files:

- `wrappers.dfy`: `Option`.
- `escaping.dfy`: `escapeLabel`, exactly as written.
- `database.dfy`: rows and table naming. The store is specified by pure functions over a map from
  table name to rows: `Rows`, `Get`, `Insertable`, `Inserted`, `Removed`. The `DateStore` class
  holds that map, and its methods are proved against those functions.
- `globalization.dfy`: the dictionary (`Dict = Leaf | Node`), path splitting and joining, and the
  reference lookup `Resolve`. The `Translator` class holds `findTranslation` as a `for` loop and
  `translate` as a method.
- `commands.dfy`: the `run` methods as methods over a nullable `DateStore`, plus the pure rules
  of `createMessage` and of the list layout.

`label` is a Dafny keyword, so the label column and parameters are called `title` in the model.

The database is a map keyed by table name, as `sqlite_master` is. Isolation between guilds
therefore rests on `GuildTableName` being injective, with table names compared exactly (see "## Left out" on letter case). Rows are kept in insertion order, which is
what `SELECT *` is taken to return. A failed `INSERT` (the UNIQUE constraint) is the `false`
result of `AddDate`, and it leaves the database unchanged.

Two details of the code shape the model:

- The regular expression at `src/database.ts:27` has no character class. It matches only the
  six-character sequence `` \/"'`% `` and replaces it with the literal `\$0`, because JavaScript
  does not expand `$0`. A quote, backslash or percent sign on its own is therefore stored
  unchanged. Escaping is also not injective: two different labels can map to the same stored
  label (`EscapeNotInjective`, `EscapeCollision`).
- A dictionary entry that is the empty string falls back just like a missing one
  (`src/globalization.ts:28`). A walk that ends on a nested object yields the text
  `[object Object]`: JavaScript converts a plain object to that string, and the model does the same.

## Model

| member | source | states |
|---|---|---|
| `Escaping.EscapeLabel` | src/database.ts:26-28 | the escaped label is never longer than the label |
| `Escaping.EscapeIdentity` | src/database.ts:26-28 | a label that does not contain `` \/"'`% `` is returned unchanged |
| `Escaping.EscapeShortens` | src/database.ts:27 | a label containing the sequence anywhere becomes strictly shorter |
| `Escaping.EscapeIsIdentityIff` | src/database.ts:26-28 | escaping leaves a label unchanged if and only if the label does not contain the sequence |
| `Escaping.EscapeReplacesOccurrence` | src/database.ts:27 | the first occurrence after a pattern-free prefix becomes the literal `\$0`, and the rest is escaped on its own (global, left to right) |
| `Escaping.EscapedIsPatternFree` | src/database.ts:27 | no escaped label contains the sequence |
| `Escaping.EscapeIdempotent` | src/database.ts:27 | escaping an escaped label changes nothing |
| `Escaping.EscapeNotInjective` | src/database.ts:27 | `` \/"'`% `` and `\$0` are different labels with the same escape, `\$0` |
| `Database.GuildTableNameInjective` | src/database.ts:22-24 | two guilds have the same table name if and only if they are the same guild |
| `Database.GuildTableName` | src/database.ts:22-24 | the table name `dates_` followed by the guild id; `GuildTableNameInjective` shows distinct ids get distinct names, and `InsertIsolated`/`RemoveIsolated` build on it |
| `Database.UniqueTitles` | src/database.ts:35 | the `label TEXT UNIQUE` column: no two rows of a table carry the same label; kept by `InsertKeepsValid`, `RemoveKeepsValid` and `WithoutTitleUnique`, and used by `FindRowUnique` |
| `Database.Insertable` | src/database.ts:36 | the UNIQUE constraint accepts the `INSERT` iff no row carries the escaped label; `DuplicateRejected` and `FirstInsert` state when it fails and holds, and `AddDate` reports it |
| `Database.Rows` | src/database.ts:45-49 | the rows `SELECT *` returns, `[]` without a table; its properties are stated by `NoTableNoEffect`, `InsertIsolated` and `RemoveIsolated` |
| `Database.Get` | src/database.ts:39-43 | a row is found iff the guild's rows carry the escaped label; the row found is stored and carries the escaped label |
| `Database.Inserted` | src/database.ts:34-37 | the guild's table exists and its rows are the old rows with the new escaped row appended; every other table is unchanged |
| `Database.Removed` | src/database.ts:51-55 | no table is created or dropped; the guild's rows keep exactly the rows whose label differs from the escaped label, so that label is gone and nothing else is removed; every other table is unchanged |
| `Database.FindRow` | src/database.ts:41 | a lookup finds a row iff some row carries the label; the row found is stored and carries it |
| `Database.FindRowUnique` | src/database.ts:35-41 | under the UNIQUE rule, the row found is exactly the stored row with that label |
| `Database.WithoutTitle` | src/database.ts:53 | the DELETE keeps exactly the rows with other labels |
| `Database.WithoutTitleAppend` | src/database.ts:53 | the `DELETE` filter distributes over concatenation, so the remaining rows keep their order |
| `Database.WithoutTitleChanges` | src/database.ts:53 | the number of changed rows is non-zero iff a row carried the label |
| `Database.OtherGuildUntouched` | src/database.ts:22-24 | a write to one guild's table leaves another guild's table, its rows and its lookups as they were |
| `Database.InsertIsolated` | src/database.ts:34-37 | adding for one guild does not create, change or affect lookups in another guild's table |
| `Database.RemoveIsolated` | src/database.ts:51-55 | removing for one guild does not create, change or affect lookups in another guild's table |
| `Database.FirstInsert` | src/database.ts:34-37 | an add for a guild without a table succeeds, and the new table holds exactly the row with the escaped label, the date and the creator |
| `Database.NoTableNoEffect` | src/database.ts:39-55 | without the guild's table, the lookup gives nothing, the listing gives `[]`, and a removal changes nothing |
| `Database.InsertKeepsValid` | src/database.ts:35-36 | a successful add keeps the labels of every table unique |
| `Database.InsertThenGet` | src/database.ts:34-43 | after a successful add, the lookup of the same label returns the row with the escaped label, the date and the creator |
| `Database.DuplicateRejected` | src/database.ts:35-36 | a label that the lookup finds cannot be added again |
| `Database.RemoveReportsPresence` | src/database.ts:51-55 | the removal reports a change iff the lookup would have found the label |
| `Database.RemoveThenGet` | src/database.ts:51-55 | after a removal the label is not found, other labels are found as before, and the table is not dropped |
| `Database.RemoveKeepsValid` | src/database.ts:53 | a removal keeps the labels of every table unique |
| `Database.InsertThenRemove` | src/database.ts:34-55 | adding a label and then removing it leaves the guild's rows as they were, and the table stays |
| `Database.InsertAllAppends` | src/database.ts:34-49 | N adds of fresh, pairwise distinct escaped labels all succeed: the listing is the old rows followed by the N stored rows, so it grows by exactly N |
| `Database.InsertAll` | src/database.ts:34-37 | a sequence of adds for one guild, each skipped when the UNIQUE rule rejects it; described by `InsertAllRows` and `InsertAllAppends` |
| `Database.InsertAllRows` | src/database.ts:34-37 | a sequence of adds for one guild changes that guild's rows one add at a time, as `RowsAfterAdds` says |
| `Database.RowsAfterFreshAdds` | src/database.ts:35-36 | adds of fresh, distinct escaped labels are all stored, in order |
| `Database.StoredRows` | src/database.ts:36 | one stored row per add |
| `Database.StoredRowsAt` | src/database.ts:36 | the i-th stored row holds the i-th add's escaped label, date and creator |
| `Database.EscapeCollision` | src/database.ts:27-36 | once `` \/"'`% `` is stored, adding `\$0` violates the UNIQUE rule |
| `Database.DateStore.constructor` | src/database.ts:18-20 | the store starts with the database it is given |
| `Database.DateStore.Valid` | src/database.ts:35 | every table of the handle keeps `label TEXT UNIQUE`; required and ensured by `AddDate`, `GetDate` and `RemoveDate`, and used by `GetDate` for the uniqueness of the row found |
| `Database.DateStore.CheckGuildTable` | src/database.ts:30-32 | true iff the guild's table exists |
| `Database.DateStore.AddDate` | src/database.ts:34-37 | the table exists afterwards; the insert succeeds iff the escaped label is not yet stored; on success the row is appended, otherwise nothing changes; labels stay unique |
| `Database.DateStore.GetDate` | src/database.ts:39-43 | nothing if the table or the escaped label is absent; otherwise the stored row with the escaped label, which by the UNIQUE rule is the only such row |
| `Database.DateStore.GetDates` | src/database.ts:45-49 | `[]` when the table is absent, otherwise every row in storage order |
| `Database.DateStore.RemoveDate` | src/database.ts:51-55 | true iff the lookup would have found the label; that label's rows are deleted; no table is created or dropped |
| `Globalization.Split` | src/globalization.ts:33 | a string path splits into at least one piece, and no piece contains `/` or `\` |
| `Globalization.NonEmpty` | src/globalization.ts:33 | exactly the non-empty segments are kept, and none of the kept ones is empty |
| `Globalization.NonEmptyAppend` | src/globalization.ts:33 | filtering distributes over concatenation, so order and repeated segments are kept; with `NonEmptyKeeps` this fixes the result |
| `Globalization.NonEmptyKeeps` | src/globalization.ts:33 | segments that are all non-empty are kept unchanged |
| `Globalization.Segments` | src/globalization.ts:32-33 | no walked segment is empty; the segments of a string path contain no separator |
| `Globalization.JoinSplit` | src/globalization.ts:33-34 | splitting a string path and joining with `/` gives the string with every `\` turned into `/` |
| `Globalization.SplitJoin` | src/globalization.ts:33-34 | joining separator-free segments with `/` and splitting again gives the segments back |
| `Globalization.Join` | src/globalization.ts:34 | `.join('/')`; `JoinSplit` and `SplitJoin` show it undoes the split |
| `Globalization.Fallback` | src/globalization.ts:34 | the walked segments joined with `/`; `FallbackReparses` shows it walks the same segments again, `SameFallbackExamples` that equivalent paths share it |
| `Globalization.FallbackReparses` | src/globalization.ts:32-36 | the fallback, used again as a string path, walks the same segments |
| `Globalization.SameFallbackExamples` | src/globalization.ts:32-36 | `"a\\b"`, `"a//b"` and `["a","b"]` walk `["a","b"]` and share the fallback `"a/b"` |
| `Globalization.Child` | src/globalization.ts:25 | a step finds a value iff the current value is an object with that key, and the value is that key's entry |
| `Globalization.Truthy` | src/globalization.ts:22-28 | `!dict` is false exactly for a present, non-empty value; `Found` returns a template iff it holds, and `EmptyTemplateFallsBack` covers `""` |
| `Globalization.Resolve` | src/globalization.ts:21-28 | the reference lookup; `ResolvePrefix`, `ResolveStuck` and `FindTranslation` relate it to the loop |
| `Globalization.Template` | src/globalization.ts:36 | the found template, else the fallback (`?? fallback`); stated by `FoundTemplateWins`, `EmptyTemplateFallsBack` and `MissingStepFallsBack` |
| `Globalization.Found` | src/globalization.ts:28 | a walk's end gives a template iff it is truthy, and that template is never empty |
| `Globalization.ResolvePrefix` | src/globalization.ts:21-28 | a found value means every earlier step reached a value, so the walk never applies partially |
| `Globalization.ResolveStuck` | src/globalization.ts:21-28 | one missing step makes the whole lookup absent, whatever follows |
| `Globalization.MissingStepFallsBack` | src/globalization.ts:21-36 | a missing key at any step, the locale included, makes the template the fallback |
| `Globalization.FoundTemplateWins` | src/globalization.ts:36-39 | a found non-empty string is the template, not the fallback |
| `Globalization.EmptyTemplateFallsBack` | src/globalization.ts:28-36 | a found empty string counts as missing, and the fallback is used |
| `Globalization.VariantSelection` | src/globalization.ts:21-25 | the array path `[a, b]` reads `locale.a.b`: the variant is chosen by position |
| `Globalization.Render` | src/globalization.ts:41 | a string result is returned as is; a parts result is concatenated, in order by `ConcatAppend` |
| `Globalization.Concat` | src/globalization.ts:41 | `.join("")` of the parts; `ConcatAppend` states that it keeps their order |
| `Globalization.ConcatAppend` | src/globalization.ts:41 | the formatter's parts are concatenated in order |
| `Globalization.Translator.constructor` | src/globalization.ts:10-16 | the dictionary and the locale are the ones given |
| `Globalization.Translator.FindTranslation` | src/globalization.ts:18-29 | the loop's result is the reference lookup of `[locale, ...segments]`, and it is never the empty string |
| `Globalization.Translator.Translate` | src/globalization.ts:31-42 | the result is the formatter's output, rendered to one string, for the found template or else the fallback; no field changes |
| `Commands.CreatorName` | src/commands.ts:42-43 | a member's display name, or `<ismeretlen>` for a creator who is not a member |
| `Commands.RegisterDate` | src/commands.ts:33-67 | if the lookup finds the label, the reply is `register/err` with the creator and date, and the store is unchanged; otherwise exactly one add is performed with the author as creator, and the reply is `register/res` |
| `Commands.CreateMessage` | src/commands.ts:98-115 | the path is `["since", "for"]` iff the date is strictly after now, and `["since", "since"]` otherwise; the duration is the distance from now to the date |
| `Commands.DurationSymmetric` | src/commands.ts:100 | a date k ms in the past and one k ms in the future give the same duration, which is zero only when k is zero |
| `Commands.Since` | src/commands.ts:117-145 | a stored label gets the since/for message built from its stored label and parsed date; otherwise the reply is `since/err` |
| `Commands.Remove` | src/commands.ts:167-192 | the reply is `remove/res` iff a row was deleted, otherwise `remove/err`; the store changes as the removal says |
| `Commands.When` | src/commands.ts:256-276 | a stored label gets its date and its stored (escaped) label; otherwise the reply is `when/err` |
| `Commands.LongestTitle` | src/commands.ts:216 | absent for no rows (the reduce throws); otherwise the length of the longest label |
| `Commands.PaddingWidth` | src/commands.ts:216 | absent for no rows; otherwise at least `min(15, len)` for every label and equal to `min(15, len)` for some label, i.e. `min(15, longest label length)` |
| `Commands.Gap` | src/commands.ts:222 | at least 2 spaces; a label at least two shorter than the width is padded exactly to the width |
| `Commands.Spaces` | src/commands.ts:222 | a string of n spaces |
| `Commands.ListLines` | src/commands.ts:221-222 | `min(length, 15)` lines from the first rows in order, each with its label, its date and a padding of exactly `Gap(width, label)` space characters |
| `Commands.ListReply` | src/commands.ts:214-228 | the reply for the guild's rows; `ListNeverErr` and `ListLayout` state it |
| `Commands.ListNeverErr` | src/commands.ts:214-231 | `list/err` is never the reply; there is no reply exactly when the guild has no rows |
| `Commands.ListLayout` | src/commands.ts:216-222 | at most 15 lines, from the first rows in storage order, each with its label and date and a padding of at least 2 space characters; short labels end at the same column |
| `Commands.List` | src/commands.ts:208-234 | the reply is the list reply for the guild's stored rows |

## Left out

- SQL text and SQLite semantics are not modelled: quoting, the identifier/literal ambiguity of `"`, and injection through a `"` in a label or creator (`src/database.ts:31-53`). The tables are abstract, and storage order is taken to be insertion order. Table names are compared exactly, whereas SQLite matches them case-insensitively in `CREATE TABLE`, `INSERT`, `SELECT` and `DELETE`; only the `sqlite_master` query (`src/database.ts:31`) compares case-sensitively. So guild ids that differ only in letter case (`A`, `a`) share one table in the program, and `getDate` for `a` can report no table while `addDate` for `a` writes into `A`'s rows. `InsertIsolated` and `RemoveIsolated` are facts about exact names; Discord's digit-only ids are unaffected.
- The database handle, its opening, and storage failures (`StorageUnavailable`) are not modelled. Every call succeeds except an insert rejected by the UNIQUE constraint.
- `Database.DateStore.AddDate`: the thrown exception of a rejected insert is modelled as the result `false`.
- `date.toISOString()` and `new Date(string)` belong to the JavaScript `Date` library. A row's date is the stored text. `Commands.Since` takes the parsing as a parameter, and the clock (`new Date()`) is a parameter too.
- `Commands.CreateMessage`: the UTC calendar breakdown of the duration (`src/commands.ts:102-109`) and the `since/time` message are left out. The message carries the duration in milliseconds. Invalid (NaN) dates are excluded, because the argument type rejects them (`src/types.ts`).
- `IntlMessageFormat` (`src/globalization.ts:38-39`) is a parameter `format(template, locale, args)`. A parts result is taken to be already converted to strings.
- Reading the dictionary from a JSON file (`src/globalization.ts:11-13`) is not modelled. The constructor takes the dictionary itself.
- Dictionary leaves are strings or nested objects only; JSON arrays, numbers, booleans and null are not modelled (a walk ending on an array would render as its elements joined with `,`, not as `[object Object]`).
- Indexing into a string leaf (`"abc"["0"]`, `"abc"["length"]`) is modelled as missing. Inherited object keys such as `constructor` or `__proto__` are not modelled either.
- Label lengths count Dafny characters, not UTF-16 code units.
- Discord messages, embeds, colours, logging (`src/logger.ts`), startup and shutdown (`src/index.ts`) are not modelled. The global slot (`src/global.ts`) is replaced by passing the store explicitly. A missing database is a `null` store.
- `Commands.RegisterDate`: the calls run in sequence, so the race between `getDate` and `addDate` in concurrent use is not modelled. The UNIQUE constraint stays the only guard.
- The commands' argument prompts and descriptions (the constructors in `src/commands.ts`) are only translation calls with fixed keys.
