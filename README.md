# Soullink Fusion Tracker — a Dafny model of its roster logic

In a Soullink run of Pokémon Infinite Fusion, two players keep linked
catches. The tracker records this as follows:

- A **pairing** holds the Pokémon both players caught on one route. Each
  player's **slot** has a species number, a name, the encounter and a
  `used` flag.
- A **fusion** combines two pairings. Player 1's half fuses player 1's two
  Pokémon. Player 2's half fuses the linked Pokémon of the same two
  pairings. Each component is a snapshot (pairing id, number, name).
- The **graveyard** lists pairings that died: their id and both species
  numbers.
- Two counters hand out identifiers: `P0001`, `P0002`, … for pairings and
  `F0001`, … for fusions.

This project models that session state and every operation the app
performs on it. It also models the species-table lookups those operations
rely on.

Modules:

- `Util` (util.dfy): `Option`, plus the list comprehensions and the
  first-match search (`next(...)`) that the code is built from.
- `PyStr` (pystr.dfy): the Python string built-ins in use, stated over
  `seq<char>`:
  - `strip()` with Python's whitespace set;
  - `lstrip("0")`;
  - `split(sep)`;
  - `int(text)`, including sign, `_` between digits and the whitespace it
    skips around the text. That set is smaller than `strip()`'s: `int()`
    does not skip the separators U+001C to U+001F;
  - the zero-padded format `f"{n:0Wd}"`, including its treatment of
    negative numbers.
- `Storage` (storage.dfy): the loaded species table as a sequence of rows,
  plus these operations:
  - `name_for` and `sprite_for`;
  - the picker labels of `search_options` and the number read back from a
    label;
  - `get_evolutions`, which splits the `|`-separated evolution cells. It is
    a method with the source's two loops, proved equal to a specification
    function.
- `Roster` (roster.dfy): the records as datatypes, the identifier format,
  the list of still-available Pokémon, and the rule `recompute_used_flags`
  implements. That rule is the function `Recomputed`, and the module proves
  lemmas about it.
- `App` (app.dfy): the session state as the class `Tracker`. Its fields
  are the three lists and the two counters, and it has one method per
  operation. An error message becomes `Err(e)` and a success becomes
  `Ok(v)`.

Every method states its whole new state in terms of the old one. The
ghost invariant `Valid()` says three things:

- Identifiers are distinct and were issued by their counter.
- Every `used` flag equals "the pairing is dead, or some fusion uses it on
  that side".
- Every graveyard entry of kind "pairing" holds an issued pairing id that
  no live pairing has. A pairing is either alive or buried, and its id is
  never handed out again.

Each operation that changes the lists preserves `Valid()`.

In two places the code behaves differently than a reader might expect, and the model follows the code:

- **Evolution names** are aligned by position among the numbers that
  parsed. Number `i` takes piece `i` of the names cell if that piece is
  non-empty. Otherwise it takes the species table's name. It does not take
  the `i`-th non-empty piece. A dropped (unparseable) number piece
  therefore shifts the names of the numbers after it.
- **The used-flag recompute** looks pairings up with a dict built from the
  list, so of two pairings sharing an id, only the last one is marked. All
  other operations find the first one. `Roster.DerivedUsed` states this
  exactly. Under `Valid()` the ids are distinct, and `Roster.RecomputedUsed`
  gives the plain rule.

## Model

| member | source | states |
|---|---|---|
| PyStr.Strip | storage.py:103 | `str.strip()` with no argument: leading and trailing Python whitespace removed. Its properties are stated by `StripShape` and `StripIdempotent` |
| PyStr.StripShape | storage.py:103 | `strip()` yields "" exactly when the text is all whitespace; otherwise the result starts and ends with a non-space |
| PyStr.StripIdempotent | storage.py:176 | stripping a stripped piece changes nothing |
| PyStr.Split | storage.py:103 | `str.split(sep)` for one separator character: the pieces between separators, empty ones included. Its properties are stated by `JoinSplit`, `SplitJoin` and `SplitFirst` |
| PyStr.JoinSplit | storage.py:176 | no piece of a cell split on the bar character contains a bar, and joining the pieces with bars gives back the cell |
| PyStr.SplitJoin | storage.py:176 | pieces without the separator are recovered exactly by splitting their join |
| PyStr.SplitFirst | storage.py:103 | the first piece of a split is the text before the first separator |
| PyStr.LStripZeros | storage.py:183 | `lstrip("0")` removes exactly the leading zeros, and what is left does not start with '0' |
| PyStr.ParseInt | storage.py:105 | `int(text)`: ignores the whitespace `int()` skips around the text, then reads an optional sign and a digit run with single underscores; anything else gives nothing, where Python raises. Its properties are stated by `ParseDigitRun`, `ParseNegativeDigitRun`, `ParseIntBadFirst` and `ParseIntSeparatorFirst` |
| PyStr.ParseIntBadFirst | storage.py:180-183 | `int()` rejects text whose first character is neither whitespace it skips, nor a sign, nor a digit |
| PyStr.ParseIntSeparatorFirst | storage.py:183 | text that starts with one of U+001C to U+001F strips as if that character were absent, yet `int()` rejects it |
| PyStr.FormatPaddedRoundTrip | app.py:34 | `int()` of `f"{n:04d}"` is `n` for every integer of at most 4300 digits, negative ones included (the model sets no digit limit, see "## Left out") |
| PyStr.ParseDigitRun | storage.py:105 | `int()` reads a run of digits (with single underscores between them) as its decimal value |
| PyStr.ParseNegativeDigitRun | storage.py:105 | `int()` reads a minus sign followed by a digit run as the negated value |
| PyStr.FormatPadded | app.py:34 | `f"{n:0Wd}"`: the decimal digits of `|n|` padded with zeros on the left to `W` characters, with a leading minus sign for negative `n` that counts towards the width. Its properties are stated by `FormatPaddedRoundTrip`, `FormatPaddedInjective` and `FormatPaddedWidth` |
| PyStr.FormatPaddedInjective | app.py:34 | distinct counter values format to distinct text |
| PyStr.FormatPaddedWidth | app.py:34 | a value below 10^width formats to exactly `width` decimal digits |
| Roster.TaggedRoundTrip | app.py:73 | the digits after the `P`/`F` tag of an identifier read back as the counter value |
| Roster.TaggedIdInjective | app.py:34 | two identifiers with the same tag are equal exactly when their counter values are |
| Roster.IdFresh | app.py:32-40 | the identifier made from the counter's current value was never handed out before, and counts as handed out after the increment |
| Roster.TaggedId | app.py:34 | the identifier format: the tag letter `P` or `F` followed by `f"{n:04d}"`. Its properties are stated by `TaggedRoundTrip`, `TaggedIdInjective` and `PairIdShape` |
| Roster.PairIdShape | app.py:34 | for counter values 0–9999 a pairing id is "P" followed by exactly four digits |
| Roster.GraveOf | app.py:128-134 | the graveyard entry for a pairing: kind "pairing", its id and both players' numbers. Its uses are stated by `BuryMembers` and `SendKeepsGraves` |
| Roster.AvailableMember | app.py:43-49 | a component is offered exactly when it is the slot on that side of a pairing that is not dead and whose slot is unused |
| Roster.Available | app.py:43-49 | the list `available_player_pokemon` builds: the component of each pairing that is not dead with its slot unused, in pairing order. Its properties are stated by `AvailableMember` and `AvailableAppend` |
| Roster.AvailableAppend | app.py:45-49 | the offered components keep the order of the pairings list |
| Roster.RecomputedOnlyFlags | app.py:95-105 | recomputing changes no field but the two `used` flags |
| Roster.DerivedUsed | app.py:95-105 | the flag `recompute_used_flags` gives one slot: set when the pairing is dead, or when it is the last pairing with its id and some fusion has a component on that side naming the id |
| Roster.Recomputed | app.py:93-105 | the pairings after `recompute_used_flags`: each keeps everything but its two flags, which become `DerivedUsed`. Its properties are stated by the `Recomputed...` lemmas |
| Roster.RecomputedUsed | app.py:95-105 | with distinct ids, a recomputed flag is set exactly when the pairing is dead or some fusion has a component on that side naming it |
| Roster.RecomputedConsistent | app.py:93-105 | with distinct ids, after recomputing every flag is derived |
| Roster.ConsistentRecomputed | app.py:93-105 | flags that are already derived are left unchanged |
| Roster.RecomputedIgnoresFlags | app.py:95-98 | two pairing lists that differ only in their `used` flags recompute to the same pairings: the result does not depend on the flags going in, because the first loop resets them all |
| Roster.RecomputedForgetsFlags | app.py:95-98 | recomputing a list an earlier recompute produced, with whatever fusions, gives the same pairings as recomputing the original list |
| Roster.RecomputedIdempotent | app.py:93-105 | recomputing twice gives the same pairings as recomputing once |
| Roster.RecomputedIgnoresAbsent | app.py:103-105 | a fusion whose components name no present pairing does not affect the flags |
| Roster.AvailableWhenConsistent | app.py:43-49 | while flags are derived, a slot is offered exactly when its pairing is alive and no fusion uses it on that side |
| App.RejectionIff | app.py:53-69 | with distinct ids, a fusion is accepted exactly when the two ids differ and both name pairings that are alive with both slots unused |
| App.NewFusion | app.py:72-83 | the fusion record: each side's half has component `a` from pairing A and `b` from pairing B, each naming its pairing id, number and name on that side. Its properties are stated by `NewFusionShape` |
| App.FusionRejection | app.py:52-69 | the error `create_fusion_from_player1` reports: the same id twice, then an id not found, then a dead pairing, then a used player-1 slot, then a used player-2 slot, or none. Its properties are stated by `RejectionIff` and `FusedRejected` |
| App.FusedRejected | app.py:63-68 | while the flags are derived, a pairing some fusion already uses on either side cannot go into a new fusion |
| App.FirstIsOnly | app.py:56-57 | with distinct ids, `next(...)` finds the one pairing with that id |
| App.NewFusionShape | app.py:72-83 | both halves of a new fusion name pairings A and B and no other; each component copies that side's number and name |
| App.CreatePreserves | app.py:71-89 | marking both pairings fused and appending the new fusion with the next fusion id keeps the invariant |
| App.AddPreserves | app.py:30-40 | appending a pairing with the next pairing id and unused slots keeps the invariant, and that id then finds the new pairing |
| App.FilteredIdsIssued | app.py:111 | filtering the pairings or the fusions keeps ids distinct and issued |
| App.RecomputeRestores | app.py:93-105 | recomputing restores `Consistent` (ids distinct and issued, every flag derived) once ids are distinct and issued |
| App.RemovePreserves | app.py:135 | filtering out an existing pairing's id removes exactly that pairing, keeps the rest in order and keeps the invariant |
| App.UnfuseReleases | app.py:108-115 | after unfusing, a slot stays used exactly when its pairing is dead or a remaining fusion uses it on that side |
| App.BuryMembers | app.py:155-167 | the buried entries are exactly those of present pairings with a listed id, and the kept pairings are exactly the others |
| App.GraveRemoval | app.py:193-202 | exactly the entries of kind "pairing" with that id are removed, and nothing is removed exactly when there is no such entry |
| App.AddKeepsGraves | app.py:32-39 | a new pairing with the counter id has no graveyard entry, and the entries stay issued as the counter moves on |
| App.SameIdsKeepGraves | app.py:85-105 | marking slots used or recomputing flags keeps ids, so pairings and graveyard stay apart |
| App.FewerKeepGraves | app.py:135 | removing pairings or graveyard entries keeps the two apart |
| App.SendKeepsGraves | app.py:128-135 | the entry recorded for a sent pairing holds its issued id, and no kept pairing has that id |
| App.BuryKeepsGraves | app.py:151-168 | the entries a burial records hold issued, listed ids, and no kept pairing has a listed id |
| App.LastIndex | app.py:99 | the id table maps an id to a position exactly when that position is the last pairing carrying the id |
| App.MarkedAt | app.py:104-105 | marking one component sets at most that side's flag of the pairing the table gives for its id |
| App.FusionStep | app.py:100-105 | marking one more fusion's four components turns the flags for the earlier fusions into the flags for all of them |
| App.LastById | app.py:99 | the dict comprehension maps each id to the position of the last pairing carrying it |
| App.AvailableMembers | app.py:43-49 | the membership rule of `available_player_pokemon`, for every component |
| App.Tracker.Load | app.py:17-25 | each missing key gets its default (empty lists, counters at 1); present keys are kept |
| App.Tracker.AddPairing | app.py:30-41 | one pairing is appended with id "P"+4 digits of the counter, both slots named from the species table, the same encounter, unused; the counter grows by 1; nothing else changes |
| App.Tracker.AppendPairing | app.py:33-40 | appends the pairing with the next id and increments the counter, keeping the invariant |
| App.Tracker.AvailablePlayerPokemon | app.py:43-49 | index 0 selects player 1 and any other index player 2; a component is returned exactly for each free slot on that side |
| App.Tracker.CreateFusionFromPlayer1 | app.py:51-91 | the first failing check, in source order, is reported with the state unchanged; otherwise all four slots of A and B become used, fusion "F"+4 digits is appended, only the fusion counter grows by 1, and the invariant is kept |
| App.Tracker.FuseAt | app.py:71-89 | for two pairings with different ids: all four of their slots become used, the fusion with the next fusion id is appended, the fusion counter grows by 1, nothing else changes, and the invariant is kept |
| App.Tracker.RecomputeUsedFlags | app.py:93-106 | the pairings become `Recomputed(old pairings, fusions)`, nothing else changes, and the invariant holds afterwards whenever, before the call, ids were distinct and issued and graveyard ids were issued and apart from the pairings |
| App.Tracker.ResetUsedFlags | app.py:95-98 | every flag is set to its pairing's `dead` |
| App.Tracker.MarkFusions | app.py:100-105 | after the mark loop the flags are those derived for all fusions |
| App.Tracker.MarkUsed | app.py:103-105 | only that side's flag of the pairing the table gives for the id is set, and only if the id is in the table |
| App.Tracker.UnfuseFusion | app.py:108-117 | every fusion with that id is removed and nothing else; with no such fusion, an error and nothing changed; otherwise flags recomputed |
| App.Tracker.SendPairingToGraveyard | app.py:119-137 | a missing pairing, or one with a used slot, is rejected with nothing changed; otherwise one graveyard entry is appended and exactly that id's pairings are removed |
| App.Tracker.BuryFusion | app.py:139-178 | missing fusion: error, nothing changed; otherwise graveyard entries for the present listed pairings in list order, those pairings and the fusion removed, flags recomputed, buried ids returned |
| App.Tracker.BuryPairings | app.py:155-167 | the loop appends one entry per listed pairing in order and keeps exactly the unlisted pairings |
| App.Tracker.DeletePairing | app.py:180-191 | a missing pairing, or one with a used slot, is rejected with nothing changed; otherwise exactly that id's pairings are removed, the rest in order |
| App.Tracker.DeleteGraveyardPairing | app.py:193-204 | exactly the "pairing" entries with that id are removed, the rest in order; with none, an error and nothing changed |
| Storage.FindRowFirst | storage.py:78-80 | the row lookup finds nothing exactly when no row has that number, and otherwise finds the first such row |
| Storage.NameFor | storage.py:84-92 | the name of the first row with that number, "" when there is none |
| Storage.SpriteFor | storage.py:73-82 | the stripped sprite of the first row with that number, "" when there is none |
| Storage.SearchOptions | storage.py:94-97 | one label per row |
| Storage.OptionLabel | storage.py:96 | the picker label: the number (0 when missing) as `f"{n:03d}"`, then " - " and the name. Its round trip is stated by `OptionLabelRoundTrip` |
| Storage.OptionLabelRoundTrip | storage.py:96-107 | parsing the label of a row with a non-negative (or missing, shown as 0) number gives that number back |
| Storage.SearchOptionsRoundTrip | storage.py:94-107 | every offered label of a row with a non-negative number parses back to that row's number |
| Storage.NegativeLabelUnparsed | storage.py:96-107 | a negative number's label starts with '-', so it parses to nothing |
| Storage.ParseNumberFromOption | storage.py:99-107 | nothing for the empty label, otherwise `int()` of the stripped text before the first '-', nothing when that fails. Its properties are stated by `OptionLabelRoundTrip`, `SearchOptionsRoundTrip` and `NegativeLabelUnparsed` |
| Storage.LabelFirstPiece | storage.py:103 | the stripped text before the first '-' of a label is its zero-padded number |
| Storage.GetEvolutions | storage.py:161-197 | the result is `Evolutions(dex, number)`: [] with no row for the number, otherwise the evolutions of its row |
| Storage.EvolutionsOfRow | storage.py:167-197 | [] without the numbers column or with a blank/missing cell; otherwise each parsed number paired with its name |
| Storage.CollectNumbers | storage.py:176-185 | the first loop yields exactly the parsed numbers, in piece order |
| Storage.NameEvolutions | storage.py:186-196 | one name per number: piece `i` of the names cell when non-empty, otherwise the table's name; always the table's name without the column |
| Storage.Pieces | storage.py:176 | the stripped pieces of a cell split on the bar character. Its properties are stated by `PiecesThree` |
| Storage.EvolutionName | storage.py:187-196 | the name of the `i`-th evolution: piece `i` of the names cell when there is one and it is non-empty, otherwise the table's name for the number. Its use is stated by `NameEvolutions` |
| Storage.RowEvolutions | storage.py:167-197 | the evolutions of one row, as `get_evolutions` computes them after finding the row. Its loop form is proved equal by `EvolutionsOfRow` |
| Storage.ParsedNumbersAppend | storage.py:177-185 | parsing is piecewise: a concatenation parses to the concatenated numbers |
| Storage.ParsePart | storage.py:178-185 | one piece of a numbers cell: `int(p)`, failing that `int(p.lstrip("0") or "0")`, failing that nothing. Its properties are stated by `ParsePartAllZeros` and `SeparatorAfterZeroDropped` |
| Storage.ParsedNumbersAllInts | storage.py:178-180 | when every piece is an integer literal nothing is dropped, and the numbers come out in piece order |
| Storage.ParsedNumbersMember | storage.py:177-185 | a number is produced exactly when some piece parses to it |
| Storage.ParsePartAllZeros | storage.py:182-183 | a piece of zeros, the empty piece included, reads as 0 |
| Storage.SeparatorAfterZeroDropped | storage.py:178-185 | a piece with one of U+001C to U+001F right after a leading zero (such as "0\x1c7") is dropped: neither `int()` attempt skips that character |
| Storage.PiecesThree | storage.py:176 | a cell made of `x`, two separators in a row, then `y` (neither holding a separator) splits into the stripped `x`, an empty piece and the stripped `y` |
| Storage.EmptyPieceIsZero | storage.py:176-185 | in a cell where two separators follow each other, the empty piece between them counts as 0 and is not dropped: with integer pieces x and y the numbers are x, 0, y (so "1", "", "2" gives 1, 0, 2) |

## Left out

- Streamlit page layout, tabs, buttons and the shown messages are not
  modelled. Messages are `Error` values or `Ok` results. The "Reset all
  state" button is left out too.
- `persist`, `load_state` and `save_state` (JSON file I/O) are not
  modelled. Persisting is a no-op, and `Tracker.Load` receives the loaded
  record as a value.
- `App.Tracker.Load`: a state already in the session is indistinguishable
  from a freshly loaded one. Only the `setdefault` defaults are modelled.
- Loading the species table with pandas (`load_pokedex`, the integer
  coercion, sprite path probing) is not modelled. `Storage.Pokedex` stands
  for any table with the columns the lookups read, each number an optional
  integer and each cell text. The table `load_pokedex` builds
  (storage.py:57-69) keeps only number, name and sprite, so on it both
  evolution flags are false and `get_evolutions` always returns [].
- `_slugify_name` and `pokemondb_url` are left out. They depend on Unicode
  normalisation and regular expressions.
- ui_components.py is not part of this model. It is rendering only.
- `created_at` timestamps on pairings, fusions and graveyard entries are
  left out. They come from the clock and nothing reads them.
- `Storage.NameFor`, `Storage.SpriteFor`: the numbers are integers by type,
  so the model omits the `int(number)` conversion and its failure path,
  which returns "".
- `App.Tracker.AddPairing`: numbers are integers by type, and `int()` is
  the identity on them.
- `PyStr.ParseInt`: only ASCII digits are accepted. Python's `int()` also
  accepts other Unicode decimal digits.
- `PyStr.ParseInt`: sets no limit on the number of digits. CPython's
  `int()` (3.11 on, and the 3.7.14 to 3.10.7 security releases) raises
  `ValueError` on a decimal text of more than 4300 digits. The model reads
  it as its value.
- `Storage.ParsePart`, `Storage.ParseNumberFromOption`: inherit that gap.
  The model keeps a piece of more than 4300 digits, while `get_evolutions`
  drops it and `parse_number_from_option` returns `None`.
- `PyStr.FormatPaddedRoundTrip`: states the round trip for every integer.
  Python's `f"{n:04d}"` raises beyond 4300 digits, as `int()` does.
- Records whose keys are missing, which would raise `KeyError` in the
  source, cannot be represented. A pairing without `dead` reads it as
  false. Graveyard entries are read with `.get`, so they may lack `kind` or
  `id`. An entry without `kind` is represented by any kind other than
  "pairing", which behaves the same. An entry of kind "pairing" without
  `id` cannot be represented.
- Table cells that pandas reads as floats and turns into text with `str()`
  (e.g. "2.0") are not modelled. Cells are text.
- Nothing ever sets a pairing's `dead` flag. The operations only read it,
  and so does the model.
- Evolution propagation into fusions and per-player team rosters do not
  occur in this code, so they are not modelled.
- `App.Tracker.Valid` is an invariant of the model, not something the
  source checks. A loaded state is known to satisfy it only when it has no
  pairings, no fusions and no graveyard entries.
