# Credential lookup page — a verified model of its filtering and formatting core

The page loads a list of credential records (system, category, equipment,
login, password, remark, effective date). It offers three cascading dropdowns:
system, category and equipment. Each has "All" as its first entry. "Show"
renders every record that matches the selection as a numbered card under a
header naming the category and equipment. All of this lives in `app.js`. This
project models its pure logic as Dafny functions over immutable datatypes and
proves what the page does with them.

Modules, in dependency order:

- `Wrappers` is the `Option` type.
- `Text` covers character classes and `String.prototype.trim`. Whitespace is
  the ECMAScript WhiteSpace and LineTerminator set, which is what both `\s`
  and `trim` use.
- `Seqs` provides a stable filter, a map, subsequences, and first-occurrence
  order.
- `Dataset` defines the record `Row` and the selection triple. `Query` is the
  three-stage filter of `render`.
- `Equip` is `cleanEquip`. The anchored pattern
  `^\s*[0-9]+[a-zA-Z]?(\.[0-9a-zA-Z]+)*\.?\s+` is stated declaratively
  (`CodePrefix`). It is implemented as a deterministic scanner (`Parse`), and
  the scanner is proved to find the longest match, which is the one the
  greedy `\s+` picks.
- `OptionLists` covers `uniq`, `populateCategory` and `populateEquipment`.
- `Format` covers `dateOnly`, `remarkFormat` and `kv`. The markup they build
  is abstracted to `Line` values.
- `ResultArea` is `render`. The DOM is abstracted to a `View`: either the
  "No matching entry." message, or a header plus numbered cards.
- `Controller` is the event wiring as a state machine. Events are picking a
  system, a category or an equipment value, "Show" and "Clear". The state
  holds the dropdown values, the option lists, the card's hidden flag and the
  result area.

A record field missing from the JSON document is the empty string. That is
also how `(r.category || '')` reads it.

Two behaviours of the code are kept as written:

- `cleanEquip` is not idempotent. `"1.3 2 Router"` becomes `"2 Router"`, and
  a second application gives `"Router"` (`CleanEquipNotIdempotent`).
- The category dropdown lists TRIMMED categories, but the category filter
  compares the UNTRIMMED field. On data whose categories carry surrounding
  whitespace, an offered category can select nothing
  (`UntrimmedCategoryDeadEnd`). On trimmed data, every offered value selects
  at least one record (`PickedSelects`, `ShowFindsPicked`), provided the
  values survive the option markup unchanged (see "Left out").

Two further facts about the page:

- A remark with a single fragment is still shown as a "Remark :" block, not
  as plain text.
- The equipment dropdown has no change listener. Picking an equipment value
  therefore neither hides nor refreshes the card.
- The system dropdown shows the loaded system list without removing
  repetitions. When the selected name is listed twice, or is empty beside
  "All", picking its other option is a change: the lower dropdowns are reset
  and the card is hidden (`SystemRepickResets`). With distinct, non-empty
  names, re-picking the selected system does nothing (`SystemRepickIgnored`).

## Model

| member | source | states |
|---|---|---|
| Text.Trim | app.js:36 | the result has no whitespace at either end, is empty exactly when the input is all whitespace, and is a slice of the input with only whitespace cut off on both sides |
| Text.TrimIdempotent | app.js:72 | trimming an already trimmed text changes nothing |
| Dataset.QueryIsFilter | app.js:89-92 | the three successive filters by system, category and equipment are one stable filter by "matches every non-empty selector" |
| Dataset.Query | app.js:89-92 | the shown records are an order-preserving subsequence of the dataset; a record is shown exactly when it is in the dataset and agrees with every non-empty selector by exact equality; each matching record is shown as often as it occurs and a non-matching one never; "All" everywhere shows the whole dataset |
| Dataset.QueryIdempotent | app.js:89-92 | filtering the shown records again by the same selection gives the same records |
| Equip.ParseSound | app.js:26 | whatever prefix the scanner reports splits into the pattern's six parts (spaces, digits, optional letter, dot segments, optional dot, spaces) |
| Equip.ParseComplete | app.js:26 | every way of matching the pattern against a prefix agrees with the scanner on the five structural cut points, and its closing whitespace run is no longer than the scanner's |
| Equip.CodePrefixIff | app.js:26 | a prefix matches the pattern exactly when it ends inside the closing whitespace run the scanner found |
| Equip.ParseLongest | app.js:26 | when the scanner reports a prefix it is the longest match of the pattern; when it reports none, no prefix matches |
| Equip.CleanEquip | app.js:22-27 | the cleaned name is a suffix of the name, so cleaning only ever removes a leading part |
| Equip.CleanEquipUnchanged | app.js:22-27 | the name is returned unchanged exactly when no prefix of it matches the code pattern |
| Equip.CleanEquipLongest | app.js:22-27 | when the name changes, what is removed is the longest prefix the pattern matches |
| Equip.CleanEquipStrips | app.js:26 | given any split of a prefix into the pattern's parts whose final whitespace run is maximal, cleaning removes exactly that prefix |
| Equip.CleanEquipNoDigit | app.js:23-26 | a name whose first non-whitespace character is not a digit, or that is whitespace only, is kept unchanged |
| Equip.CleanEquipKeeps | app.js:23 | the empty name and a name without a code ("NoPrefix") are returned unchanged |
| Equip.CleanEquipDottedCode | app.js:21-27 | "1.3 Router A" is shown as "Router A" |
| Equip.CleanEquipLetteredCode | app.js:21-27 | "4a.1.2 Switch" is shown as "Switch" |
| Equip.CleanEquipTrailingDot | app.js:21-27 | "2b. Firewall" is shown as "Firewall" |
| Equip.CleanEquipBareNumber | app.js:26 | a bare number followed by a space counts as a code: "2 Router" is shown as "Router" |
| Equip.CleanEquipTwoCodes | app.js:26 | only the first of two leading codes is removed: "1.3 2 Router" is shown as "2 Router" |
| Equip.CleanEquipNotIdempotent | app.js:26 | some name is cleaned differently a second time, so cleaning is not idempotent |
| OptionLists.Uniq | app.js:31 | the result holds exactly the non-empty input values, each once, in order of first occurrence |
| OptionLists.UniqUnique | app.js:31 | any list holding exactly the non-empty values of the input, in order of first occurrence, is the deduplicated list |
| OptionLists.CategoryValuesMember | app.js:35-36 | a trimmed category is among the values collected for a system exactly when some record of that system carries it |
| OptionLists.CategoryOptions | app.js:33-39 | the category dropdown offers, without repetition and in order of first occurrence, exactly the non-empty trimmed categories of the records of the selected system (of all records for "All") |
| OptionLists.EquipmentValuesMember | app.js:44-46 | a trimmed equipment value is among the values collected exactly when some record matches the system and the untrimmed category and carries it |
| OptionLists.Labelled | app.js:47-48 | each option keeps the raw value and is labelled with its cleaned name |
| OptionLists.EquipmentOptions | app.js:41-49 | the equipment dropdown offers, without repetition and in order of first occurrence, exactly the non-empty trimmed equipment values of the records that match the system and the untrimmed category; each option is labelled with its cleaned name |
| OptionLists.OfferedCategorySelects | app.js:89-91 | when the records' categories carry no surrounding whitespace, every offered category selects at least one record, taking option values to survive the markup unchanged |
| OptionLists.OfferedEquipmentSelects | app.js:89-92 | on trimmed data, every offered equipment value selects at least one record, taking option values to survive the markup unchanged |
| OptionLists.UntrimmedCategoryDeadEnd | app.js:36-45 | a category stored as " Net" is offered as "Net", but picking it gives no equipment options and no matching record |
| Format.DateCut | app.js:61 | reports the month and day widths of a leading `yyyy[/-]m[/-]d` exactly when the text has one; the month width is the only one possible and the day takes two digits whenever it can |
| Format.Pad2 | app.js:63 | a one- or two-digit field becomes two digits with the same numeric value |
| Format.IsoDateShape | app.js:64 | a four-digit year with a one- or two-digit month and day gives a `YYYY-MM-DD` text that keeps the year and the month and day values |
| Format.FallbackDate | app.js:61-67 | with a leading date, the result has the `YYYY-MM-DD` shape, keeps the year and the month and day values, and has no range check; otherwise, if the text has a space, it is the text before the first space; otherwise it is the text itself |
| Format.FallbackIdempotent | app.js:61-67 | applying the fallback to its own result changes nothing |
| Format.IsoDateFixed | app.js:61-64 | a text already in `YYYY-MM-DD` shape falls back to itself |
| Format.DateOnly | app.js:56-68 | an empty value gives ""; otherwise the trimmed value goes to the browser's date parser, whose output is used when it accepts it, and to the fallback when it does not |
| Format.NoHostFallback | app.js:58-61 | a trimmed, non-empty value that the date parser rejects is rendered by the fallback alone |
| Format.DateOnlyShortFields | app.js:61-64 | with a date parser that rejects it, "2023/5/1" becomes "2023-05-01" |
| Format.DateOnlyTrailingText | app.js:61-64 | with a date parser that rejects it, "2023-05-01 extra" becomes "2023-05-01" |
| Format.DateOnlyFreeText | app.js:66 | with a date parser that rejects it, "May 2023" becomes "May" |
| Format.SplitRuns | app.js:73 | splitting at delimiter runs gives at least one piece; no piece contains a delimiter; only the first and last pieces can be empty |
| Format.JoinSplit | app.js:73 | the pieces joined again by the delimiter runs give back the text, so splitting loses nothing |
| Format.SplitJoin | app.js:73 | splitting undoes joining delimiter-free pieces, whose inner members are non-empty, by non-empty delimiter runs |
| Format.FragmentsWellFormed | app.js:73 | every remark fragment is non-empty, trimmed and free of delimiters |
| Format.NoFragmentsIffBlank | app.js:73-74 | a remark has no fragments exactly when it holds nothing but delimiters and whitespace |
| Format.RemarkFormat | app.js:70-76 | an empty remark gives nothing; a blank remark gives its trimmed text; any other remark gives one block of its fragments, in order, each non-empty, trimmed and delimiter-free, even when there is only one |
| Format.RemarkRoundTrip | app.js:70-76 | trimmed, delimiter-free fragments joined by delimiter runs format back as exactly those fragments in one block |
| Format.RemarkThreeFragments | app.js:73-75 | "a;b/c" is shown as a block of "a", "b" and "c" |
| Format.RemarkSingleFragment | app.js:74-75 | "single" is still shown as a block, with one fragment |
| Format.Kv | app.js:78-82 | a value that is empty or all whitespace gives nothing; otherwise a caption other than "Remark" gives one line with the value as given, and the "Remark" caption never gives a plain field line |
| Format.KvRemark | app.js:80 | under the "Remark" caption, a non-blank value is shown as `remarkFormat` shows it |
| ResultArea.Header | app.js:109 | the header is exactly the category line, present when the category is not blank, followed by the equipment line, present when the equipment text is not blank |
| ResultArea.CardLines | app.js:121-126 | a card is exactly, in this order: the emphasised login line, the emphasised password line, the remark formatted as `remarkFormat` does, and the effective-date line, each present only when its value is not blank |
| ResultArea.CardFields | app.js:122-125 | the login, password and date lines show their captions and values verbatim; the remark's line is never a plain field line |
| ResultArea.CardLogin | app.js:122 | the emphasised login line is on the card exactly when the login is not blank, and then it comes first |
| ResultArea.CardPassword | app.js:123 | the emphasised password line is on the card exactly when the password is not blank |
| ResultArea.CardRemark | app.js:124 | the card has a remark line exactly when the remark is not blank, and that line is the remark formatting of the record's remark |
| ResultArea.CardDate | app.js:119-125 | the effective-date line is on the card exactly when the rendered date is not blank |
| ResultArea.Cards | app.js:112-117 | there is one card per shown record, numbered #1 to #n in order |
| ResultArea.Render | app.js:84-132 | the result area is always filled, and it says "No matching entry." exactly when no record matches the selection |
| ResultArea.RenderCards | app.js:112-129 | card i shows the i-th matching record, in dataset order, with its formatted fields and date, under the badge #i+1 |
| ResultArea.QueryHead | app.js:103 | the first record shown is the first record of the dataset that matches |
| ResultArea.RenderHeader | app.js:103-110 | the header is built from the selected category and equipment, or, where a selector is "All", from the first matching record of the dataset |
| ResultArea.HeaderOfFirst | app.js:104-105 | with category and equipment on "All", the header names the first record's category and cleaned equipment |
| ResultArea.FullHeader | app.js:109 | a category and an equipment text that are not blank, whether or not they carry surrounding whitespace, give both header lines, category first |
| ResultArea.RenderAllSelected | app.js:89-129 | with every dropdown on "All", a non-empty dataset shows one card per record, in dataset order |
| ResultArea.MatchResults | app.js:95-101 | a matching record rules out "No matching entry." |
| ResultArea.CredentialCards | app.js:119-126 | records with a non-blank login and password (surrounding whitespace allowed) and no remark or date get cards showing exactly those two lines, values verbatim, whatever the date parser does |
| ResultArea.RenderExample | app.js:84-132 | for system "A" over three records, the header reads "Net" and "Router A", and the two records of "A" get cards #1 and #2 with their login and password |
| Controller.Init | app.js:54 | after loading, every dropdown is on "All", the category list offers the non-empty trimmed categories of all records, the equipment list is empty and the result area is untouched |
| Controller.Step | app.js:51-139 | an event a dropdown cannot produce (a value it does not offer, or the value already selected when no other option of that select carries it) changes nothing; after any other event the card is visible exactly when it is "Show", or when it was already visible and an equipment value was picked; "Show" renders the current selection; no other event touches the result area; picking equipment only records the value |
| Controller.StepConsistent | app.js:33-139 | every event keeps each dropdown value among its select's options and each option list built for the values above it |
| Controller.ReachableConsistent | app.js:29-139 | every state the page reaches from loading has consistent dropdowns |
| Controller.PickedSelects | app.js:89-92 | on trimmed data, a category or equipment value picked from the dropdowns selects at least one record, taking option values to survive the markup unchanged |
| Controller.ShowFindsPicked | app.js:89-101 | on trimmed data, "Show" after picking a category or equipment value never reports "No matching entry.", taking option values to survive the markup unchanged |
| Controller.ShowRenders | app.js:134 | "Show" puts the rendering of the current selection in the result area |
| Controller.PickSystemResets | app.js:29-51 | picking another system option, even one repeating the current value, rebuilds the category list for that system, empties the equipment list, puts category and equipment back on "All", hides the card and leaves the result area alone |
| Controller.SystemRepickIgnored | app.js:29-51 | when the loaded system names are distinct and non-empty, picking the selected system again is no change event and leaves the page as it was |
| Controller.SystemRepickResets | app.js:29-51 | when the selected system is listed twice, picking its other option fires the change: category and equipment go back to "All", the equipment list empties, the category list is rebuilt and the card is hidden |
| Controller.PickCategoryResets | app.js:41-52 | picking a different category keeps the system and the category list, rebuilds the equipment list for the system and category, puts equipment back on "All", hides the card and leaves the result area alone |
| Controller.ClearResets | app.js:135-139 | "Clear" forgets the previous selection: every value goes back to "All", the equipment list offers every non-empty trimmed equipment value of the dataset, and the card is hidden |
| Controller.ShowIdempotent | app.js:134 | pressing "Show" twice gives the same state as pressing it once |
| Controller.HiddenUntilShow | app.js:131-138 | a hidden card stays hidden through any run of events that contains no "Show" |
| Controller.RunExample | app.js:29-134 | after loading, picking system "A" and pressing "Show" displays the example's header and two cards |

## Left out

- Loading `assets/data.json` with `fetch` and the alert on failure (app.js:12-19) are network I/O. The model takes the loaded records and system list as given.
- The browser's `new Date(t)` and `toISOString().slice(0, 10)` (app.js:59-60) depend on the host's date parser and time zone. They are the `host` parameter of `DateOnly`, and only the fallback branches are modelled.
- The markup is not modelled: `innerHTML` strings, CSS classes and element creation (app.js:29, 37-38, 48, 75, 81, 94-131). Lines, cards and views stand for it.
- The model assumes every value survives the markup unchanged. The page interpolates values into option markup without escaping (app.js:29, 37, 48), so a select's value is really the value as the HTML parser reads it back. A `"` ends the attribute early, a character reference such as `&amp;` is decoded, and a carriage return becomes a line feed. Values containing these reach the filter altered and can select nothing; the model does not cover them.
- OptionLists.OfferedCategorySelects, OptionLists.OfferedEquipmentSelects, Controller.PickedSelects and Controller.ShowFindsPicked hold only for values free of the characters the HTML parser changes, as the line above explains.
- Format.DateOnlyShortFields, Format.DateOnlyTrailingText and Format.DateOnlyFreeText fix a date parser that rejects every text. A browser's parser accepts "2023/5/1" and "May 2023", and the page then shows the parser's UTC date, for example "2023-04-30" east of UTC, rather than the fallback result.
- Format.Kv: the `emph` flag is kept only as a field of the line. Its CSS class is not modelled.
- Whether the result card starts hidden is decided by the page markup, which is not part of this model, so it is the `startHidden` parameter of `Init`.
- The system dropdown lists the loaded system list as given (app.js:29); its values are not checked against the records.
- The copy button (app.js:140-144) uses the clipboard, a timer and alerts. These are asynchronous host APIs.
- Event listeners are modelled as the `Step` transitions; `preventDefault` and the asynchronous wrapper are not.
- Text.Trim: no Unicode normalisation is modelled; whitespace is the fixed ECMAScript set of code points.
