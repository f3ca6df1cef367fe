# Calendar event filter, modelled in Dafny

This project models the filtering part of a small calendar dashboard,
`streamlit_app.py`. The dashboard fetches upcoming events and shows only the important ones.
It has five pieces, run one after the other:

1. **The basic event pass** (`EventFilter`) walks the calendar's raw events.
   - It resolves each start from `dateTime`, or from `date` when there is no `dateTime`.
   - It drops events more than `days` whole days ahead.
   - When the "exclude events with no attendees" toggle is on, it drops events nobody attends.
   - It appends one row per kept event to `flagged`: a title-cased summary, the start, the attendee e-mails and the description.
   - The loop is the method `BuildFlagged`. It is proved equal to the function `Flagged`, and the properties are proved about `Flagged`.
2. **The hide-expression parser** (`Negation`) splits the text box on `,` and keeps the pieces whose trimmed form starts with `-`.
   - It removes every leading `-` (`lstrip('-')`), trims again and lower-cases.
   - `Serialise` is the "Load saved filters" button. It writes tokens back as `-tok,-tok,...`.
3. **The display filter** (`Display`) keeps, in order, the flagged rows whose lower-cased title and lower-cased description contain none of the tokens.
4. **The exclusion store** (`ExclusionStore`) is a class.
   - Its one field, `table`, maps a user id to the comma-joined token list.
   - `Save` is the upsert. `Load` splits on `,`, strips, and drops blank pieces. `HasSaved` reports whether a load would return anything.
5. **The token file name** (`TokenFile`) rewrites `@` to `_at_` and then `.` to `_dot_`, inside `token_….json`.

Two more modules hold shared definitions:
- `PyStr` models the Python string operations the script relies on.
  - `strip` removes Python's whitespace set from both ends. `lstrip(c)` removes the leading copies of the one character `c`.
  - `lower` and `title` are ASCII-only.
  - `split` takes a one-character separator. `join` is `sep.join`. `replace` replaces one character.
  - The substring test `in` is `Contains`.
- `Seqs` holds the order-preserving filter and map that the list comprehensions are built from.

`Pipeline` runs the stages together on concrete events.

Behaviour the proofs bring out:
- A hide piece such as `--x` loses all its leading dashes. A bare `-` gives the empty token, which hides every event (`Negation.BareDashIsEmptyToken`, `Display.EmptyTokenHidesAll`).
- The save/load/re-parse cycle returns the non-empty tokens it started from, unless a token itself begins with `-`. Such a token, typed as `- -x`, is saved as `-x`, loaded as `-x`, written back as `--x` and re-parsed as `x` (`ExclusionStore.DashTokenChangesOnReload`).
- The empty token that a bare `-` gives is lost on save: it is stored as a blank row, which loads as `[]` (`ExclusionStore.EmptyTokenLostOnSave`).
- The file-name rewrite is injective on addresses without `_`. It is not injective in general: `a@b` and `a_at_b` share `token_a_at_b.json` (`TokenFile.FilenameCollision`).
- The window test has no lower bound. An event that started long ago is kept (`EventFilter.PastEventsInWindow`).

How the code treats hide tokens:
- `lstrip('-')` removes every leading `-`, not just one.
- The tokens form a list, which keeps duplicates and order.

## Model

| member | source | states |
|---|---|---|
| TokenFile.SafeEmail | streamlit_app.py:22 | the rewritten address contains neither `@` nor `.` |
| TokenFile.TokenFilename | streamlit_app.py:21-23 | the name is `token_` + a middle free of `@` and `.` + `.json` |
| TokenFile.SafeEmailIsEscape | streamlit_app.py:22 | the two chained `replace` calls equal a one-pass rewrite of `@` and `.` |
| TokenFile.UnescapeEscape | streamlit_app.py:22 | on addresses without `_`, reading `_at_`/`_dot_` back undoes the rewrite |
| TokenFile.FilenameInjective | streamlit_app.py:21-23 | two addresses without `_` that get the same token file are equal |
| TokenFile.FilenameCollision | streamlit_app.py:21-23 | for any `x`, `y` without `@` or `.`, the different addresses `x@y` and `x_at_y` get the same token file |
| EventFilter.StartOf | streamlit_app.py:155-161 | `dateTime` is used whenever present, even when it does not parse; `date` only when `dateTime` is absent; the start resolves exactly when the chosen value parses; a failure reports `NoStartValue` when both are absent and `UnparseableStart` otherwise |
| EventFilter.ToRow | streamlit_app.py:168-178 | the row carries the start and attendee list; a missing summary or description becomes `""`; the title is `title()` of the lower-cased summary, so it lower-cases to the lower-cased summary |
| EventFilter.BuildFlagged | streamlit_app.py:151-179 | the loop with its two `continue` tests computes exactly `Flagged`, including stopping at the first unresolvable start |
| EventFilter.FailureStops | streamlit_app.py:154-161 | once an event's start fails to resolve, later events do not change the outcome |
| EventFilter.FlaggedStep | streamlit_app.py:163-179 | one more resolvable event appends its row exactly when it passes both tests |
| EventFilter.FlaggedSucceeds | streamlit_app.py:155-161 | the pass succeeds if and only if every event's start resolves |
| EventFilter.FlaggedFailsAtFirst | streamlit_app.py:154-161 | a failed pass names the first event whose start does not resolve, and why |
| EventFilter.FlaggedIsKeptRows | streamlit_app.py:151-179 | a successful `flagged` is the row of each kept event, in input order |
| EventFilter.KeptIsSubsequence | streamlit_app.py:154-179 | the kept events are an order-preserving subsequence of the input |
| EventFilter.KeptMembership | streamlit_app.py:164-170 | an event is kept if and only if its start resolves, it is within `days` days, and (toggle on) it has attendees |
| EventFilter.FlaggedRowsPass | streamlit_app.py:164-170 | every flagged row has day offset at most `days` and, with the toggle on, a non-empty attendee list |
| EventFilter.InWindowIff | streamlit_app.py:164 | the floored day test is equivalent to `start - now < (days + 1) * 86400` |
| EventFilter.PastEventsInWindow | streamlit_app.py:164 | an event at or before `now` is never dropped by the window when `days >= 0` |
| EventFilter.WindowBoundary | streamlit_app.py:164 | exactly `days + 1` days ahead is dropped; the last second of day `days` is kept |
| Negation.CleanTokenShape | streamlit_app.py:196-199 | a cleaned piece is stripped and lower-case, and a token when the piece has no comma |
| Negation.ParseNegativesShape | streamlit_app.py:195-202 | at most one token per comma piece; every token is stripped, lower-case and comma-free |
| Negation.TokensComeFromDashPieces | streamlit_app.py:195-202 | every token is the cleaned form of a comma piece whose trimmed form starts with `-` |
| Negation.NegativesAppend | streamlit_app.py:195-202 | pieces are parsed independently: the tokens of `a + b` are those of `a` followed by those of `b` |
| Negation.PlainPieceIgnored | streamlit_app.py:201 | a piece without a leading `-` contributes no token wherever it stands |
| Negation.ParseThree | streamlit_app.py:195-202 | three pieces with only the middle one lacking a `-` give exactly the outer two tokens |
| Negation.NegativesThree | streamlit_app.py:200-201 | of three split pieces with only the middle one lacking a `-`, exactly the outer two give tokens |
| Negation.ParseOnePiece | streamlit_app.py:195-202 | a single comma-free `-` piece gives exactly its cleaned form |
| Negation.DashedPiece | streamlit_app.py:215 | each `-e` written by the load button is a `-` piece that cleans back to `e` |
| Negation.ReparseSerialised | streamlit_app.py:195-202 | re-parsing the load button's `-e,-e,...` gives back the loaded list, for tokens not starting with `-` |
| Negation.CleanDashed | streamlit_app.py:195-202 | the parser applied to the dashed pieces of a loaded list gives back the list, for tokens not starting with `-` |
| Negation.ParseSingleToken | streamlit_app.py:195-202 | `-e` parses to `[e]` for a token not starting with `-` |
| Negation.BareDashIsEmptyToken | streamlit_app.py:197 | a bare `-` parses to the empty token |
| Negation.DoubleDashCleaned | streamlit_app.py:197 | `--e` cleans to `e`: every leading dash goes |
| Negation.SpacedDashCleaned | streamlit_app.py:196-199 | `- -e` cleans to `-e`: the space stops `lstrip('-')` |
| Negation.SpacedDashPiece | streamlit_app.py:196-201 | `- -e` is a stripped, comma-free `-` piece |
| Display.VisibleIsSubsequence | streamlit_app.py:223-229 | the displayed rows are an order-preserving subsequence of `flagged` |
| Display.VisibleMembership | streamlit_app.py:223-229 | a row is displayed if and only if it is flagged and no token occurs in its lower-cased title or description |
| Display.NoTokensShowAll | streamlit_app.py:223-229 | with no tokens every flagged row is displayed |
| Display.EmptyTokenHidesAll | streamlit_app.py:226 | an empty token hides every row |
| Display.VisibleIdempotent | streamlit_app.py:223-229 | filtering the displayed rows again with the same tokens changes nothing |
| Display.HiddenByRawFields | streamlit_app.py:173-178 | matching a row equals matching the event's lower-cased raw summary or description |
| ExclusionStore.Store.constructor | streamlit_app.py:49-54 | a new table holds no rows |
| ExclusionStore.Store.Save | streamlit_app.py:58-67 | the user's row becomes the comma-joined list; every other row is unchanged |
| ExclusionStore.Store.Load | streamlit_app.py:69-76 | returns the stored row parsed, or `[]` with no row; every piece is non-empty, stripped and comma-free |
| ExclusionStore.Store.HasSaved | streamlit_app.py:186 | true if and only if a load for the user returns a non-empty list |
| ExclusionStore.ParseStoredShape | streamlit_app.py:75 | each loaded piece is non-empty, stripped and comma-free |
| ExclusionStore.LoadOfSaved | streamlit_app.py:59-75 | splitting a joined list of stripped comma-free tokens gives the tokens less the empty ones |
| ExclusionStore.LoadAfterSave | streamlit_app.py:58-76 | after a save for a user, a load for that user returns the saved tokens less empty ones |
| ExclusionStore.SaveLeavesOthers | streamlit_app.py:62-66 | a save for one user does not change what another user loads |
| ExclusionStore.LastSaveWins | streamlit_app.py:62-66 | of two saves for a user, the second decides what is loaded |
| ExclusionStore.SaveLoadReparse | streamlit_app.py:195-215 | parse, save, load, write back and parse again gives the first parse's non-empty tokens when none starts with `-` |
| ExclusionStore.SingleTokenStored | streamlit_app.py:58-76 | a single non-empty stripped comma-free token is loaded back unchanged |
| ExclusionStore.DashedTokenStored | streamlit_app.py:58-76 | a token `-e` is saved and loaded unchanged |
| ExclusionStore.DashedTokenReloaded | streamlit_app.py:195-215 | the load button writes a loaded `-e` back as `--e`, which parses as `e` |
| ExclusionStore.DashTokenChangesOnReload | streamlit_app.py:195-215 | a token typed as `- -e` is saved and loaded as `-e`, and re-parses after the load button as `e` |
| ExclusionStore.SavedSyncDemo | streamlit_app.py:58-76 | saving `["sync", "demo"]` and loading it gives the same list |
| ExclusionStore.EmptyTokenLostOnSave | streamlit_app.py:58-75 | the empty token from a bare `-` is saved as a blank row and loads as `[]` |
| ExclusionStore.SaveLoadScenario | streamlit_app.py:58-76 | in a new store, saving `["sync", "demo"]` for a user and loading it gives that list; a user with no row loads `[]` and has no saved filters |
| Pipeline.AttendedThenUnattended | streamlit_app.py:163-179 | with the toggle on, an attended event inside the window followed by an unattended event give only the first one's row |
| Pipeline.NothingShown | streamlit_app.py:151-229 | a token occurring in the attended event's summary then leaves nothing to display |
| Pipeline.HiddenRowNotShown | streamlit_app.py:223-229 | a row that a token matches is not displayed |
| Pipeline.SyncParsed | streamlit_app.py:195-202 | the hide text `-sync` parses to `["sync"]` |
| Pipeline.SyncInWeeklySync | streamlit_app.py:226 | `sync` occurs in the lower-cased title `Weekly Sync` |
| Pipeline.SyncAndDemoScenario | streamlit_app.py:151-229 | "Weekly Sync" (attended) and "Demo Day" (unattended), a 7-day window, the toggle on and `-sync` display nothing |
| Pipeline.SyncPieceCleaned | streamlit_app.py:196-201 | the piece `-Sync` is a `-` piece and cleans to `sync` |
| Pipeline.DemoPieceCleaned | streamlit_app.py:196-201 | the piece ` -Demo ` is a `-` piece and cleans to `demo` |
| Pipeline.DemoPieceStripped | streamlit_app.py:196 | trimming ` -Demo ` gives `-Demo` |
| Pipeline.PlainPieceIsPlain | streamlit_app.py:201 | the piece ` notaflag` does not start with `-` once trimmed |
| Pipeline.ParseExample | streamlit_app.py:195-202 | the hide text `-Sync, notaflag, -Demo ` parses to `["sync", "demo"]` |
| Pipeline.ExampleSplit | streamlit_app.py:200 | `-Sync, notaflag, -Demo ` splits on `,` into `-Sync`, ` notaflag` and ` -Demo ` |
| Pipeline.ExampleNegatives | streamlit_app.py:195-202 | those three pieces give the tokens `sync` and `demo` |
| PyStr.Strip | streamlit_app.py:196-198 | `strip()` leaves no whitespace at either end and leaves a stripped string unchanged |
| PyStr.LStrip | streamlit_app.py:196 | `lstrip()` leaves no whitespace at the front and never lengthens the string |
| PyStr.RStrip | streamlit_app.py:196 | `rstrip()` leaves no whitespace at the end and keeps the first character when something is left |
| PyStr.StripLeadingSpace | streamlit_app.py:198 | trimming a space put before a non-empty stripped string gives that string |
| PyStr.LStripRemovesSpaceOnly | streamlit_app.py:196 | `lstrip()` removes a prefix made only of whitespace |
| PyStr.RStripRemovesSpaceOnly | streamlit_app.py:196 | `rstrip()` removes a suffix made only of whitespace |
| PyStr.StripKeepsChar | streamlit_app.py:75 | `strip()` adds no character |
| PyStr.LStripChar | streamlit_app.py:197 | `lstrip('-')` removes only copies of `-`, all of them at the front, and adds no character |
| PyStr.LStripCharSuffix | streamlit_app.py:197 | what `lstrip(c)` leaves is the suffix of the input after its leading run of `c` |
| PyStr.LowerIsLower | streamlit_app.py:199 | `lower()` is idempotent and leaves no upper-case letter |
| PyStr.LowerKeepsShape | streamlit_app.py:199 | `lower()` keeps a stripped string stripped and keeps each non-letter character in or out |
| PyStr.LowerToken | streamlit_app.py:199 | `lower()` of a stripped comma-free string is lower-case, stripped and comma-free |
| PyStr.TitleCase | streamlit_app.py:175 | `title()` upper-cases each letter not preceded by a letter, lower-cases the others, keeps non-letters |
| PyStr.LowerOfTitle | streamlit_app.py:173-175 | lower-casing a title-cased string gives the lower-cased original |
| PyStr.ContainsAt | streamlit_app.py:226 | the `in` test holds if and only if the token occurs at some index |
| PyStr.LowerOccurs | streamlit_app.py:226 | an occurrence survives lower-casing both strings |
| PyStr.Split | streamlit_app.py:200 | `split` gives at least one piece and no piece holds the separator |
| PyStr.JoinOfSplit | streamlit_app.py:75 | joining the pieces of a split with the separator gives back the string |
| PyStr.SplitOfPiece | streamlit_app.py:200 | a string without the separator splits into itself alone |
| PyStr.SplitAfterPiece | streamlit_app.py:200 | a separator-free prefix and a separator split off as the first piece |
| PyStr.SplitOfJoin | streamlit_app.py:59-75 | splitting a join of separator-free pieces gives back the pieces |
| PyStr.ReplaceChar | streamlit_app.py:22 | `replace` leaves no copy of the pattern when the replacement has none, and changes nothing when it is absent |
| PyStr.ReplaceCharKeeps | streamlit_app.py:22 | `replace` introduces no character found in neither the input nor the replacement |
| PyStr.ReplaceCharAppend | streamlit_app.py:22 | `replace` of one character works piece by piece over a concatenation |

## Left out

- Google sign-in, token files, `build(...)` and the calendar API calls (streamlit_app.py:4-6, 26-44, 78-94) are network and library I/O. `TokenFile` models only the name of the token file.
- The SQLite connection, `init_db` and cross-run persistence (streamlit_app.py:46-56) are left out. `ExclusionStore.Store` models only the key/value behaviour of the `exclusions` table.
- Parsing start strings with `fromisoformat`, with its `strptime` date fallback, and attaching UTC (streamlit_app.py:157-161) are library calls. Each start string is given as its outcome: `Instant(seconds)` or `Unparseable`. For an unparseable string the script raises, and the model reports it as a `FlagError`.
- A missing `start` object, a missing attendee `email` key, and non-string fields would also raise in the script. Only a missing start value is modelled, as `NoStartValue`.
- Sub-second precision is not modelled. Instants are whole seconds, so `timedelta.days` is exactly floor division by 86400. `now` is a parameter, not the clock.
- `days` may be any integer. The selector only offers 7, 30 and 90 (streamlit_app.py:137-138).
- The `Start` display text from `strftime` (streamlit_app.py:176) is not modelled. `Row.start` keeps the instant it is formatted from.
- The `Attendees` cell text `", ".join(attendees)` (streamlit_app.py:177) is not modelled. `Row.attendees` keeps the list.
- PyStr.Title: modelled for ASCII letters only, because Python's Unicode case tables are not part of this model.
- PyStr.Lower: modelled for ASCII letters only, because Python's Unicode case tables are not part of this model.
- All Streamlit UI is left out (streamlit_app.py:97-143, 184-192, 205-221, 231-234). That covers widgets, buttons, toasts, session state, the `hide` query parameter, `st.rerun` and the DataFrame. The buttons' effects are modelled as the calls they make: `Save`, `Load`, `HasSaved` and `Serialise`.
