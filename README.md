# Reconciler core: automatic matching of ARCA and contabilidad records

This project models the reconciliation core of `js/reconciler.js`. The
application reconciles two ledgers of tax withholdings: the ARCA export from
the tax authority and the contabilidad export from internal accounting.
The model covers five parts of that file.

- **The automatic matching pass** of `processReconciliation`. ARCA records
  are taken in array order. Each is bound to the first contabilidad record
  that is not yet matched and has the same CUIT and the same amount at two
  decimals. Both records are flagged `matched`, the id `auto_<n>` is taken
  from an incrementing counter, and two update entries with estado
  `Conciliada` are appended to the list that is later upserted.
  `AutoReconciliation.AutoMatch` defines the pass on values.
  `AutoReconciliation.ProcessReconciliation` is the loop itself, over arrays
  with per-record `matched` flags, and is proved to compute `AutoMatch`.
- **The general-results totals** of `displayGeneralResults`: the reconciled
  and pending lists, and the total, reconciled and pending amounts.
- **The provider CUIT list** built when a saved reconciliation is loaded:
  the union of both sides, de-duplicated, empties removed, sorted.
- **The import guard and record builder** of `importAndSaveFiles`: it
  rejects an empty name or a missing column, and tags every kept row
  `Pendiente` with its `__originalIndex`.
- **The default column choice** of `populateColumnSelectors`.

The `STATUS`, `SOURCE_TYPES` and `PROCESS_STATE` tables of `js/state.js` are
datatypes in module `AppState`. The global `appState` object is replaced by
explicit parameters.

Inputs that come from code outside this model are taken as given values:

- `normalizeRecord` (in utils.js, which is not part of this model) is taken
  as a given projection. A record reaches the matcher as
  `NormRecord(cuit, amount, dbId)`.
- The matcher compares amounts by their `toFixed(2)` text. The model keeps
  that text's content as a value, `Fixed2(negative, cents)`: whether a minus
  sign is printed, and the magnitude in hundredths. `FixedText` prints it,
  and `FixedTextInjective` proves that two texts are equal exactly when the
  values are. So `-0.00` (a small negative amount) and `0.00` do not match.
  How a double rounds to its `toFixed(2)` text is not modelled.
- The id of the new `conciliaciones` row is a parameter of the import.
- The update list is returned rather than upserted.

The code scans the contabilidad array linearly with `find`, and the model
follows it. `MatchesAreFirstFit` states how a partner is chosen: it is the
lowest-index unmatched record with the same key.
`UnmatchedHadNoFreePartner` states the other half: an ARCA record left
unmatched had no free record with its key when its turn came.

`displayGeneralResults` classifies records by their `Estado` attribute. That
attribute comes from the stored row's original data, not from the `estado`
column that `processReconciliation` writes. So the model lets `Estado` be any
text. `PendingTotalCountsUnclassifiedRows` shows the consequence: the pending
amount also includes the rows whose `Estado` is none of the three `STATUS`
texts, while the pending count beside it does not.
`PendingTotalWhenStatusesKnown` shows that the two agree when every row
carries a known status.

## Model

| member | source | states |
|---|---|---|
| AutoReconciliation.ProcessReconciliation | js/reconciler.js:137-155 | the loop, over arrays with `matched` flags, leaves exactly the flags, counter and update list of `AutoMatch` |
| AutoReconciliation.AutoMatch | js/reconciler.js:137-155 | the whole pass, the ARCA records taken in array order; its flag lists keep the lengths of both arrays (what the result means is stated by the lemmas below) |
| AutoReconciliation.MatchRecord | js/reconciler.js:141-153 | one turn of the loop body on the flag arrays, counter and update list leaves exactly the state `Step` gives |
| AutoReconciliation.FindUnmatched | js/reconciler.js:141-145 | the `find` over the contabilidad array returns the index `FirstFit` picks, or nothing when `FirstFit` finds nothing |
| AutoReconciliation.FirstFitIsLowestCandidate | js/reconciler.js:141-145 | the chosen record is unmatched and has the same CUIT and the same `toFixed(2)` amount, and no lower index is such a record; nothing is chosen exactly when no record qualifies |
| AutoReconciliation.FirstFitFromIsLowest | js/reconciler.js:141-145 | the same, for a search started at any index |
| AutoReconciliation.FirstFit | js/reconciler.js:141-145 | the record `find` returns is a candidate: unmatched, with the same CUIT and the same `toFixed(2)` amount |
| AutoReconciliation.FirstFitFrom | js/reconciler.js:141-145 | a record found from index `from` on lies at or after `from`, inside the array, and is a candidate |
| AutoReconciliation.FixedText | js/reconciler.js:144 | the `toFixed(2)` text has at least four characters: an optional sign, the integer digits, a point and two decimals |
| AutoReconciliation.FixedTextInjective | js/reconciler.js:144 | two `toFixed(2)` texts are equal exactly when sign and hundredths are equal, so `-0.00` and `0.00` differ |
| AutoReconciliation.SameKeyIsSameText | js/reconciler.js:142-144 | the matching key holds exactly when the CUITs are equal and the `toFixed(2)` texts of the amounts are equal |
| AutoReconciliation.PassUpTo | js/reconciler.js:140-155 | the state after the first n ARCA records; its flag lists keep the lengths of both arrays |
| AutoReconciliation.Step | js/reconciler.js:141-154 | one turn of the `forEach` body keeps the flag lists the lengths of both arrays |
| AutoReconciliation.StepConsistent | js/reconciler.js:141-154 | one turn of the `forEach` body keeps the invariant: pairs well formed, flags agree with pairs, keys equal, first fit, no matchable pair left among processed records, update list in step with the pairs |
| AutoReconciliation.PassConsistent | js/reconciler.js:137-155 | the whole pass ends with that invariant holding over every ARCA record |
| AutoReconciliation.MatchesAreOneToOne | js/reconciler.js:141-150 | ARCA records are paired in processing order and at most once; no contabilidad record is bound by two pairs |
| AutoReconciliation.MatchedFlagsAgree | js/reconciler.js:149-150 | a record ends flagged `matched` exactly when it belongs to a pair, on both sides |
| AutoReconciliation.MatchesShareKey | js/reconciler.js:141-145 | both records of every pair have the same CUIT and the same `toFixed(2)` amount text |
| AutoReconciliation.MatchesAreFirstFit | js/reconciler.js:141 | every lower contabilidad record with the same key as a pair's ARCA record was bound by an earlier pair |
| AutoReconciliation.MatchingIsMaximal | js/reconciler.js:140-155 | when the loop ends, no unmatched ARCA record shares its key with an unmatched contabilidad record |
| AutoReconciliation.UnmatchedHadNoFreePartner | js/reconciler.js:140-145 | an ARCA record left unmatched had no free partner at its turn: every contabilidad record with its key was bound to an earlier ARCA record |
| AutoReconciliation.UpdateListShape | js/reconciler.js:147-153 | the counter ends at the number of pairs k; the list has 2k entries; entry 2p is pair p's ARCA record and 2p+1 its contabilidad record; all are `Conciliada` with id auto_(p+1) |
| AutoReconciliation.MatchIdsAreUnique | js/reconciler.js:148-153 | an id appears on exactly two entries: an ARCA entry at an even position and the contabilidad entry right after it |
| AutoReconciliation.MatchIdInjective | js/reconciler.js:148 | different counter values give different `auto_<n>` ids |
| AutoReconciliation.MatchId | js/reconciler.js:148 | the id is `auto_` followed by decimal digits only |
| AutoReconciliation.RerunOnLeftoversMatchesNothing | js/reconciler.js:140-155 | running the pass again on the records it left unmatched binds nothing |
| AutoReconciliation.Unmatched | js/reconciler.js:142 | the unmatched records of a side are records of that side, and every unflagged record is among them |
| AutoReconciliation.UnmatchedOnlyUnflagged | js/reconciler.js:142 | every record in the unmatched list is an unflagged record of the side |
| AutoReconciliation.NoKeysNoMatches | js/reconciler.js:141-147 | when no ARCA record shares a key with any contabilidad record, the pass binds nothing and leaves every ARCA and contabilidad flag unset |
| Strings.NatToDecimalInjective | js/reconciler.js:148 | different numbers have different decimal texts |
| GeneralResults.SummaryClassifies | js/reconciler.js:181-186 | `reconciled` holds exactly the rows whose Estado is `Conciliada` or `Conciliado con Diferencias`; `pending` holds exactly the `Pendiente` rows; the pending amount is the total minus the reconciled amount, which is the sum over the rows not reconciled |
| GeneralResults.Summarize | js/reconciler.js:181-186 | the reconciled and pending lists are no longer than the rows and hold only input rows with a reconciled or `Pendiente` Estado respectively |
| GeneralResults.Select | js/reconciler.js:181-182 | `filter` returns no more rows than it is given, each an input row that passes the test |
| GeneralResults.Sum | js/reconciler.js:184-185 | the sum over rows with non-negative amounts is non-negative |
| GeneralResults.PendingTotalCountsUnclassifiedRows | js/reconciler.js:182-186 | the pending amount is the sum over the `Pendiente` rows plus the sum over rows with an unknown Estado |
| GeneralResults.PendingTotalWhenStatusesKnown | js/reconciler.js:181-186 | when every row has one of the STATUS texts, the pending amount is the sum over the pending rows, and the two lists together have as many rows as the input |
| GeneralResults.SelectKeepsExactlyPassing | js/reconciler.js:181-182 | a filtered list holds exactly the rows that pass, each as often as in the input |
| GeneralResults.SelectSplits | js/reconciler.js:184-186 | filtering by a test and by its negation splits both the rows and the summed amount |
| GeneralResults.SelectOfSelect | js/reconciler.js:181-182 | filtering twice is filtering once by a test that holds exactly when both do |
| GeneralResults.SelectAgrees | js/reconciler.js:181-182 | two tests that agree on every row give the same filtered list |
| ProviderCuits.ProviderListSpec | js/reconciler.js:364-366 | the provider list is strictly ascending, has no duplicates and no empty string, and holds exactly the non-empty CUITs of either side |
| ProviderCuits.ProviderList | js/reconciler.js:366 | the provider list is no longer than the two CUIT lists together |
| ProviderCuits.AscendingListIsUnique | js/reconciler.js:366 | a strictly ascending list is fixed by the values it holds, so the provider list is the only such list for those CUITs |
| ProviderCuits.DedupSpec | js/reconciler.js:366 | `[...new Set(s)]` has no duplicates and holds exactly the values of s |
| ProviderCuits.Dedup | js/reconciler.js:366 | `[...new Set(s)]` is no longer than s and holds only values of s |
| ProviderCuits.RemoveEmptySpec | js/reconciler.js:366 | `.filter(c => c)` keeps exactly the non-empty values and keeps a list without duplicates that way |
| ProviderCuits.RemoveEmpty | js/reconciler.js:366 | `.filter(c => c)` is no longer than its input and holds no empty string |
| ProviderCuits.SortPermutes | js/reconciler.js:366 | sorting yields a permutation of its input |
| ProviderCuits.SortAscending | js/reconciler.js:366 | sorting a list without duplicates yields a strictly ascending list |
| ProviderCuits.Sort | js/reconciler.js:366 | sorting keeps the length |
| ProviderCuits.InsertPermutes | js/reconciler.js:366 | one insertion step adds exactly the inserted value |
| ProviderCuits.InsertAscending | js/reconciler.js:366 | inserting a new value into a strictly ascending list keeps it strictly ascending |
| ProviderCuits.Insert | js/reconciler.js:366 | one insertion step makes the list one longer and puts the value in it |
| ProviderCuits.StrictlyAscendingIsDistinct | js/reconciler.js:366 | a strictly ascending list has no duplicates |
| Strings.LexLessIrreflexive | js/reconciler.js:366 | no text sorts before itself |
| Strings.LexLessTransitive | js/reconciler.js:366 | the sort order is transitive |
| Strings.LexLessTotal | js/reconciler.js:366 | of two different texts, one sorts before the other |
| ImportFiles.ImportGuard | js/reconciler.js:61-73 | an all-white-space name aborts with MissingName; a named import with an empty column name aborts with MissingColumns; only a named import with all four columns builds anything |
| ImportFiles.ImportAndSave | js/reconciler.js:59-94 | the import succeeds only with a non-empty trimmed name and all four columns chosen, and builds at most one record per sheet row |
| ImportFiles.ImportBuildsRecords | js/reconciler.js:77-94 | a successful import stores the trimmed name as `Borrador` / `Archivos Importados` with an empty `configuracion_columnas`; ARCA records come before contabilidad records; every record is `Pendiente`; the object row at sheet position i gets `__originalIndex` equal to the number of object rows before it on its side, its other cells unchanged |
| ImportFiles.KeptRowPosition | js/reconciler.js:92-93 | an object row is kept at the position equal to the number of object rows before it |
| ImportFiles.KeptRowsAreObjectRows | js/reconciler.js:92-93 | the kept rows are exactly the object rows |
| ImportFiles.KeptRowsAppend | js/reconciler.js:92-93 | filtering a concatenation is concatenating the filtered parts |
| ImportFiles.KeptRows | js/reconciler.js:92-93 | the object filter keeps no more rows than it is given |
| ImportFiles.Tagged | js/reconciler.js:92-93 | one record per kept row, each `Pendiente` and carrying `__originalIndex` |
| Strings.TrimEmptyIffAllWhitespace | js/reconciler.js:61-62 | a name trims to the empty string exactly when all its characters are ECMAScript white space |
| Strings.Trim | js/reconciler.js:61 | `trim` removes white space from both ends and nothing else: the input is white space, then the result, then white space, and a non-empty result neither starts nor ends with white space |
| Strings.TrimStart | js/reconciler.js:61 | the leading white space is dropped: the result is a suffix of the input, the dropped prefix is all white space, and a non-empty result does not start with white space |
| Strings.TrimEnd | js/reconciler.js:61 | the trailing white space is dropped: the result is a prefix of the input, the dropped suffix is all white space, and a non-empty result does not end with white space |
| ColumnSelectors.DefaultColumnsAreFirstMatches | js/reconciler.js:20-26 | the CUIT default is the first header containing `cuit` in any case; the amount default is the first containing `monto retenido` (ARCA) or `crédito` or `monto` (contabilidad); each is empty exactly when no header qualifies |
| ColumnSelectors.DefaultColumns | js/reconciler.js:20-26 | each default is empty or one of the headers, and a non-empty CUIT default contains `cuit` in some case |
| ColumnSelectors.HeaderOrEmptyIsFirstMatch | js/reconciler.js:21-25 | `find(...)`, or the empty string when it finds nothing, is the first passing header, and is empty exactly when none passes, provided no passing header is empty |
| ColumnSelectors.FindHeaderIsFirst | js/reconciler.js:21-25 | `find` returns the first header that passes the test, or nothing exactly when none does |
| ColumnSelectors.FindHeader | js/reconciler.js:21-25 | a header `find` returns is one of the headers and passes the test |
| ColumnSelectors.HeaderOrEmpty | js/reconciler.js:21-25 | the `find` result, or the empty string when it finds nothing, is empty or a header that passes the test |
| ColumnSelectors.WantedHeadersAreNonEmpty | js/reconciler.js:21-25 | a header containing one of the wanted words is never empty |
| Strings.IncludesIsNoLonger | js/reconciler.js:21-25 | a text contains only parts no longer than itself |
| Strings.ToLower | js/reconciler.js:21-25 | `toLowerCase` keeps the length of the text |
| Strings.LowerChar | js/reconciler.js:21-25 | a lowered character is never an upper-case Basic Latin letter, and lower-case letters are unchanged |
| Strings.NatToDecimal | js/reconciler.js:148 | the decimal text of a number is non-empty, made of digits only, and one digit long exactly for numbers below 10 |

## Left out

- Every Supabase call is left out: the inserts, selects, upserts, deletes and updates, and the `estado_proceso` update to `Conciliación Finalizada`. They are network I/O. The matching pass returns the update list instead of upserting it.
- `saveReconciliation` is left out. Its delete-then-insert path is persistence ordering, not logic.
- `loadSavedReconciliations`, `renameSelectedReconciliation` and `deleteSelectedReconciliation` are left out. They are persistence, DOM, `prompt` and `confirm`.
- The rest of `loadSelectedReconciliation` is left out. Only the provider list it builds is modelled.
- `handleFileSelect` is left out: it reads the file and parses it with XLSX. `downloadGeneralReport` is left out: it writes a workbook. Both call a foreign library.
- HTML rendering, `renderTable`, `showMessage` and the loader overlay are left out.
- `toLocaleString` currency formatting is left out.
- IEEE doubles are not modelled: neither the rounding that turns an amount into its `toFixed(2)` text nor the floating-point sums of `reduce`. The summary amounts are exact integer cents.
- `normalizeRecord` is not part of this model, so its string and number parsing is not modelled. Its output is taken as given.
- Manual reconciliation, de-reconciliation and per-provider discrepancy aggregation are not part of this model. They live in providerAnalysis.js and discrepancyAnalysis.js.
- js/main.js is left out. It is event wiring, navigation, theming and drag-and-drop.
- The DOM lookups and UI state of js/state.js are left out.
- Strings.LowerChar: `toLowerCase` is modelled only for the Basic Latin and Latin-1 upper-case letters. Other Unicode case mappings are not modelled.
- Strings.LexLess: JavaScript's default `sort` compares UTF-16 code units. The model compares Unicode scalar values. The two orders differ only between characters above U+FFFF and those in U+E000-U+FFFF.
- ImportFiles.ImportAndSave: a `dataArca` or `dataContabilidad` that is still `null` is not modelled. Both are sequences here, because the import button is only enabled once both files are loaded.
- ImportFiles.Cell: numeric cells are exact reals, not doubles. Date cells are not distinguished, because the import only copies cells.
