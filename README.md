# Bunker dashboard: the moderator's roster, in Dafny

The Bunker dashboard is a one-page web dashboard for the party game "Bunker".
A viewer picks a role in the sidebar. The moderator ("Ведущий") must type the
shared password. A player ("Игрок") gets a read-only view of the table. The
moderator keeps a table of players in the session state. Each row holds a name
and seven characteristics: profession, sex / age, health, hobby, baggage,
phobia and fact. The moderator can add a player by name, edit the table in a
grid, delete ticked rows and clear the table.

This project models that logic and proves what each operation promises:

- `text.dfy` (module `Text`): Python's `str.strip()`, with the exact
  character set of `str.isspace()`. It is written the way CPython does it:
  the left end moves past leading whitespace, then the right end moves back.
- `roster.dfy` (module `Roster`): the record and its column order, and the
  meaning of each operation on values (`AddStep`, `EditStep`, `DeleteStep`).
  It also holds the loop that lists the ticked row indices
  (`CollectSelected`), the positional batch drop (`Drop`) and the lemmas
  about them.
- `role_gate.dfy` (module `RoleGate`): the role drop-down and the plain-text
  password check.
- `session.dfy` (module `Dashboard`): the class `Session`. Its fields are the
  session state (`access`, `roster`), and each moderator action is a method.
  Each method reassigns `roster`, and its postcondition ties the new table to
  the specification function in `Roster`.

What the page itself promises, and what is proved:

- An add is refused when the name is empty after trimming, or equals a name
  already in the table. Names are compared exactly, case included. A refused
  add leaves the table unchanged. An accepted add appends one row at the end
  with the trimmed name and seven empty cells. Earlier rows are not touched.
- Adding keeps names pairwise distinct. Deleting and clearing do too. The grid
  edit does not re-check names, so it can introduce duplicates. A lemma shows
  this happening.
- A delete lists the ticked indices from one snapshot of the table, then drops
  them all at once. The remaining rows keep their order. The table shrinks by
  the number of ticked indices, and that number is reported. With no row ticked
  the delete is refused and the table is unchanged. A lemma shows how this
  differs from deleting the same indices one at a time.
- Clearing leaves an empty table whatever it held before, so clearing twice
  is the same as clearing once.
- The moderator role is granted exactly when the password is `admin123`. Any
  other password, the empty one included, halts the page. The player role is
  always granted read-only, and no password is asked.

## Model

| member | source | states |
|---|---|---|
| `Text.Trim` | bunker_dashboard.py:51 | the stripped name is empty exactly when the typed text is all whitespace; otherwise it neither starts nor ends with whitespace |
| `Text.TrimMargins` | bunker_dashboard.py:51 | stripping only cuts whitespace margins off the two ends: the result is a contiguous slice of the input with all-whitespace text before and after it |
| `Text.TrimOfPadded` | bunker_dashboard.py:51 | stripping has one answer: any text without whitespace at its ends, padded with any whitespace on either side, strips back to itself |
| `Text.TrimIdempotent` | bunker_dashboard.py:51 | stripping an already stripped name changes nothing |
| `Roster.Cells` | bunker_dashboard.py:36-39 | a record has one cell per column, eight in all, and the first is the name |
| `Roster.FromCells` | bunker_dashboard.py:57 | a row of eight cells in column order builds the record whose cells are exactly those |
| `Roster.NewPlayer` | bunker_dashboard.py:57 | the row for a new player holds the name and an empty string in each of the seven other columns |
| `Roster.Names` | bunker_dashboard.py:54 | the name column has one entry per row, the row's name, in row order |
| `Roster.AddStep` | bunker_dashboard.py:50-58 | refused as empty exactly when the input is all whitespace; refused as duplicate exactly when the trimmed name is in the name column; a refusal leaves the table as it was; otherwise one row is appended, all earlier rows are unchanged and the new last row is the trimmed name with empty cells |
| `Roster.AddKeepsDistinct` | bunker_dashboard.py:54-58 | if no two names were equal before an add, none are after it |
| `Roster.AddStoresTrimmedName` | bunker_dashboard.py:51-58 | a new name typed with any surrounding whitespace is accepted and stored without it |
| `Roster.AddRefusesSpaces` | bunker_dashboard.py:51-53 | a name of three spaces is refused as empty and the table is unchanged |
| `Roster.AddRefusesPaddedDuplicate` | bunker_dashboard.py:51-55 | once a name is in the table, that name typed again with any surrounding whitespace is refused as a duplicate and the table is unchanged |
| `Roster.EditStep` | bunker_dashboard.py:72-73 | replacing the table only when the edited one differs always leaves the edited table in place |
| `Roster.EditCanDuplicateNames` | bunker_dashboard.py:67-73 | a table with distinct names can be edited into one where two rows share a name: uniqueness is not an invariant across edits |
| `Roster.CollectSelected` | bunker_dashboard.py:79-83 | the listed indices are strictly increasing and are exactly the ticked indices of existing rows, as many as there are of them |
| `Roster.Kept` | bunker_dashboard.py:87 | the surviving indices are increasing, in range, and exactly the unticked indices of the table |
| `Roster.DropAt` | bunker_dashboard.py:87 | after the batch drop and renumbering, the k-th row is the row that stood at the k-th unticked index |
| `Roster.DropLength` | bunker_dashboard.py:87-88 | the batch drop removes exactly as many rows as ticked indices of the table |
| `Roster.DropSameSelection` | bunker_dashboard.py:79-87 | the drop depends only on which existing rows are ticked, so dropping the listed indices is dropping the ticked rows |
| `Roster.IncreasingCard` | bunker_dashboard.py:79-88 | an increasing index list is as long as the set of indices it lists, so the count reported is the number of rows deleted |
| `Roster.DeleteStep` | bunker_dashboard.py:85-93 | refused exactly when no existing row is ticked, and then the table is unchanged; otherwise the table shrinks by the number of ticked rows |
| `Roster.DeleteKeepsOrder` | bunker_dashboard.py:79-87 | after a delete the remaining rows are the unticked rows in their old relative order |
| `Roster.DeleteKeepsDistinct` | bunker_dashboard.py:87 | deleting rows never makes two remaining names equal |
| `Roster.DropKeepsDistinct` | bunker_dashboard.py:87 | dropping any set of indices keeps distinct names distinct |
| `Roster.DeleteFirstAndLast` | bunker_dashboard.py:79-87 | ticking rows 0 and 2 of a three-row table leaves only the middle row |
| `Roster.BatchDeletesBySnapshot` | bunker_dashboard.py:79-87 | ticking rows 0 and 2 of four rows removes the first and the third row |
| `Roster.SequentialDeletesShift` | bunker_dashboard.py:79-87 | deleting index 0 and then index 2 removes the first and the fourth row, which is not what the batch delete does |
| `RoleGate.ResolveRole` | bunker_dashboard.py:8-17 | moderator access exactly when the moderator entry is chosen and the password is `admin123`; halted exactly when the moderator entry is chosen with any other password; read-only exactly when the moderator entry is not chosen |
| `RoleGate.PlayerNeedsNoPassword` | bunker_dashboard.py:8-17 | the player entry gives read-only access with any password; the moderator entry never does |
| `RoleGate.WrongPasswordHalts` | bunker_dashboard.py:10-13 | the moderator entry with a wrong or empty password halts the page |
| `Dashboard.Session.constructor` | bunker_dashboard.py:41-42 | a new session holds an empty table and the access the gate grants |
| `Dashboard.Session.SelectRole` | bunker_dashboard.py:8-17 | choosing a role again resolves the gate anew and keeps the table |
| `Dashboard.Session.AddPlayer` | bunker_dashboard.py:50-59 | the outcome and the new table are those of `AddStep` on the old table, and distinct names stay distinct |
| `Dashboard.Session.ApplyEdit` | bunker_dashboard.py:67-73 | the table is replaced exactly when the edited one differs, and afterwards the table is the edited one |
| `Dashboard.Session.DeleteSelected` | bunker_dashboard.py:79-93 | the outcome and the new table are those of `DeleteStep` on the old table; the count reported equals the number of ticked rows and the drop in length, and is positive on success; distinct names stay distinct |
| `Dashboard.Session.ClearAll` | bunker_dashboard.py:100-102 | the table is empty afterwards whatever it held, so clearing is idempotent |

## Left out

- Page configuration, the title, the dark-theme style sheet, expanders,
  forms, sub-headers and the display of tables: these are rendering only.
- The success, warning and info messages: each operation's outcome
  (`Ok`, `EmptyName`, `Duplicate`, `EmptySelection`, or the gate's `Halted`)
  stands for the message shown. The wording and the interpolated name are not
  modelled.
- The grid editor widget's internals: its output is an arbitrary table passed
  to `ApplyEdit`. The fixed row count the editor is configured with is not
  assumed, so the model covers any edited table.
- pandas' `equals` also compares column types, and a cell the editor empties
  may come back as a missing value rather than a string. Every cell is a
  string here, and "differs" means differs as a sequence of records.
- The checkbox widgets: their state is the set of ticked indices passed to
  `DeleteSelected`. Removing their session keys after a delete is left out,
  because that is widget bookkeeping and does not touch the table.
- `st.stop()`: a halted page renders nothing further. This is modelled as
  every moderator method requiring `HostAccess`.
- Persistence to files, the two scenario texts (catastrophe and bunker) and the
  periodic refresh of player views. The code has no file I/O, no scenario
  fields and no timer; the table lives only in the session state. This model
  follows the code.
- Several sessions at once and their concurrency. Each session has its own
  table.
- The password is compared only as an exact string. Nothing about the secrecy
  of a hard-coded plain-text password is claimed.
