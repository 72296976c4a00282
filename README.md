# Tiered product search and report month window

A Dafny model of the two pieces of self-contained logic in an e-commerce REST
backend (Express, Sequelize, MySQL):

- **`Product.searchProducts`** (`src/models/Products.ts`): a product search
  that escalates through up to three tiers. Tier 1 is a full-text match; if it
  returns more than five rows they are the answer. Otherwise tier 2 matches
  every space-separated token of the query as a substring of the name or the
  description, excluding the tier-1 ids; if tiers 1 and 2 together still
  return at most five rows, tier 3 does the same with every token cut in half
  at its midpoint. The rows come back tier by tier. A storage error anywhere
  makes the whole call return `null`.
- **The SELECT-list builder of `Product.findByCategoryAndChildren`**: the
  requested attributes that are real columns, each prefixed `p.`, or `p.*`.
- **`createDatesObject`** (`src/utils/Dates.ts`): from a start and an end date
  it renders the first of the start month, the end date, and the first and last
  day of the month before the start month, as `YYYY-MM-DD` strings.

## Layout

| file | module | what it holds |
|---|---|---|
| `wrappers.dfy` | `Wrappers` | `Option`, standing for the source's `null` results |
| `text.dfy` | `Text` | the JavaScript string built-ins used: `String(n)`, `split`, `join`, `padStart`, and reading digits back |
| `products.dfy` | `Products` | the product row, the declared columns, the SELECT-list builder |
| `search_clauses.dfy` | `SearchClauses` | the pure builders inside `searchProducts`: LIKE disjunction, placeholder bindings, midpoint fragments, exclusion list |
| `product_search.dfy` | `ProductSearch` | the database as an oracle, the tier control flow, the imperative `SearchProducts` |
| `dates.dfy` | `Dates` | Gregorian calendar, the `Date` constructor's roll-over, the formatting and `CreateDatesObject` |

The database is a total function `Storage = Query -> Option<seq<Product>>`.
A `Query` is what the code hands to `sequelize.query`: the full-text pattern,
or the LIKE condition text with its placeholder bindings and the excluded ids,
always with the store and category scope. `None` is a query that threw. The
SQL around these pieces is fixed text and is not modelled. `Escalate` is the
tier control flow over any full-text query and any two LIKE clauses. `Search`
applies it to the clauses built from the query string. `SearchProducts` is
the imperative version. It runs the awaited queries in sequence with their
early returns, pushes `0` into the id list when tier 1 found nothing, and
fills the bindings with a loop (`BuildReplacements`). It is proved equal to
`Search`, and it returns the issued queries as a ghost log.

Behaviour kept as the code has it:

- **Tier 3 can repeat tier-2 rows.** Tier 3 excludes the same id list as
  tier 2, which holds only the tier-1 ids (or `0`). A product found in tier 2
  is therefore not excluded from tier 3. The intended contract says no
  product appears in two tiers; the code does not enforce that. The model
  follows the code. `TiersRun` states that the two lists are equal.
  `FragmentTierMayRepeatRows` gives a storage that respects every exclusion
  list and still makes the search return the same product twice.
- **Short tokens match everything.** An empty token, from a doubled,
  leading or trailing space, is already bound to `%%` in tier 2. `%%` matches
  every row, so a query such as `phone ` makes tier 2 match every product in
  scope (`TrailingSpaceMatchesAll`). In tier 3, a token of one character also
  gives an empty fragment bound to `%%` (`ShortTokenMatchesAll`).
- **Two-digit years.** `new Date(y, m, d)` reads a year 0..99 as
  1900..1999. So a start date in the year 50 gets its previous month in 1950,
  while `startDate` keeps the year `50` (`TwoDigitYearQuirk`).
- **The year is not padded.** Only month and day go through `padStart`, so
  the year 999 renders as `999`.

## Model

| member | source | states |
|---|---|---|
| `Text.NatToString` | src/models/Products.ts:404 | the decimal rendering of `String(k)` is a non-empty run of digits with no leading zero except for 0 itself, one digit exactly below 10, two digits from 10 to 99 |
| `Text.ParseNatToString` | src/utils/Dates.ts:7-8 | a rendered number reads back as the number |
| `Text.NatToStringParse` | src/utils/Dates.ts:7-8 | every digit string without a leading zero is the rendering of the number it reads as, so the rendering is the canonical one `String(n)` gives |
| `Text.NatToStringInjective` | src/models/Products.ts:427-429 | distinct numbers render differently |
| `Text.PadStart` | src/utils/Dates.ts:7-8 | `padStart` gives the larger of the width and the length; the original is its suffix and the rest is fill |
| `Text.Split` | src/models/Products.ts:401 | `split(' ')` never gives an empty list, and no piece contains the separator |
| `Text.JoinSplit` | src/models/Products.ts:401 | joining the split pieces with the separator gives back the query string |
| `Text.SplitTrailingSeparator` | src/models/Products.ts:401 | a trailing space adds exactly one empty piece at the end of the split |
| `Text.SplitJoin` | src/models/Products.ts:193 | splitting a join of separator-free pieces gives back the pieces |
| `Products.Ids` | src/models/Products.ts:400 | the id list has one entry per row, the row's id, in row order |
| `Products.KnownAttributes` | src/models/Products.ts:190-191 | an attribute is kept exactly when it was requested and is a declared column of src/models/Products.ts:491-536 |
| `Products.KnownAttributesAppend` | src/models/Products.ts:191 | filtering distributes over concatenation, so the kept attributes stay in request order |
| `Products.Qualified` | src/models/Products.ts:193 | every kept attribute becomes `p.` followed by the attribute, position by position |
| `Products.SelectClauseLists` | src/models/Products.ts:188-195 | when some requested attribute is a column, the clause splits at `,` into exactly `p.` plus each known attribute, in request order, and nothing unknown |
| `Products.SelectClauseDefault` | src/models/Products.ts:188-195 | the clause is `p.*` if and only if no requested attribute is a column |
| `SearchClauses.PlaceholderInjective` | src/models/Products.ts:427-429 | distinct indices give distinct placeholder names `search{k}` |
| `SearchClauses.OrTerminatedJoin` | src/models/Products.ts:402-407 | suffixing all but the last piece with ` OR` and joining with a space equals joining with ` OR ` |
| `SearchClauses.WhereClauseIsDisjunction` | src/models/Products.ts:401-421 | the WHERE condition is the disjuncts for indices 0..n-1 in order, separated by ` OR `, with no trailing `OR` |
| `SearchClauses.ReplacementsKeys` | src/models/Products.ts:426-429 | the bindings have exactly the keys `search0`..`search{n-1}` |
| `SearchClauses.ReplacementsBind` | src/models/Products.ts:471-474 | `search{k}` is bound to `%` + term k + `%` |
| `SearchClauses.Halves` | src/models/Products.ts:441-444 | the two halves concatenate to the token, and the first has length floor(len/2) |
| `SearchClauses.Fragments` | src/models/Products.ts:446 | the flattened fragment list has twice as many entries as there are tokens |
| `SearchClauses.FragmentsAt` | src/models/Products.ts:440-446 | fragments 2k and 2k+1 are the first and second half of token k |
| `SearchClauses.ShortTokenMatchesAll` | src/models/Products.ts:440-474 | a token of at most one character binds a tier-3 placeholder to `%%` |
| `SearchClauses.Exclusion` | src/models/Products.ts:400-408 | the exclusion list is never empty: it is the tier-1 ids in order, or `[0]` when tier 1 found nothing |
| `ProductSearch.TrailingSpaceMatchesAll` | src/models/Products.ts:401-429 | a query ending in a space has one token more, and that token's tier-2 placeholder `search{n}` is bound to `%%` |
| `ProductSearch.BuildReplacements` | src/models/Products.ts:426-429 | the binding loop produces exactly the binding map of the terms |
| `ProductSearch.SearchProducts` | src/models/Products.ts:369-488 | the sequential method returns the result, and issues the queries, that the tier specification `Search` determines |
| `ProductSearch.ResultIsAnswersInOrder` | src/models/Products.ts:398-487 | one to three queries are issued, full-text first, none after a failure; the result is their answers concatenated in tier order, or `null` when any failed |
| `ProductSearch.RelevanceSuffices` | src/models/Products.ts:398 | more than five tier-1 rows: those rows are the result and no other query is issued |
| `ProductSearch.TiersRun` | src/models/Products.ts:398-469 | tier 2 runs if and only if tier 1 succeeded with at most five rows; tier 3 runs if and only if, in addition, tier 2 succeeded and the two counts total at most five; tier 3 excludes the same ids as tier 2 |
| `ProductSearch.QueriesScoped` | src/models/Products.ts:422-423 | every issued query carries the requested store and category |
| `ProductSearch.LaterTiersAvoidTier1` | src/models/Products.ts:424 | with a storage that respects exclusion lists, the result starts with the tier-1 rows and no later row has a tier-1 id |
| `ProductSearch.FragmentTierMayRepeatRows` | src/models/Products.ts:469 | some storage that respects exclusion lists makes the search return one product twice, once from tier 2 and once from tier 3 |
| `Dates.DaysInMonth` | src/utils/Dates.ts:11 | months have 28 to 31 days; 29 exactly for February of a leap year, 28 for February otherwise, 30 for April, June, September and November |
| `Dates.NextDayPreviousDay` | src/utils/Dates.ts:10-11 | stepping a day forward and a day back are inverse |
| `Dates.MakeDate` | src/utils/Dates.ts:10-11 | the constructor always yields a real calendar date, however far month and day are out of range |
| `Dates.PastMonthWindow` | src/utils/Dates.ts:10-11 | the two constructor calls give day 1 and the last day of the month before the start month; the last day is the day just before the first of the start month |
| `Dates.Pad2Reads` | src/utils/Dates.ts:7-14 | a number below 100 pads to exactly two digits that read back as the number |
| `Dates.FormatDateSplits` | src/utils/Dates.ts:8 | a rendered date with a non-negative year splits at `-` into year, padded month and padded day |
| `Dates.FormatDateRoundTrip` | src/utils/Dates.ts:8 | a rendered date with a non-negative year reads back as the same date |
| `Dates.FirstOfMonthFormat` | src/utils/Dates.ts:13 | the `-01` template is the rendering of day 1 of the date's month |
| `Dates.StartDateIsFirstOfMonth` | src/utils/Dates.ts:7 | `startDate` is the rendering of day 1 of the start month |
| `Dates.EndDateReadsBack` | src/utils/Dates.ts:8 | `endDate` reads back as the end's year, month and day |
| `Dates.PastMonthDates` | src/utils/Dates.ts:10-14 | `pastMonthStartDate` and `pastMonthEndDate` render the first and the last day of the month before the start month |
| `Dates.PastMonthOfLaterYears` | src/utils/Dates.ts:10-14 | outside the years 0..99 the two past-month strings render the first and last day of the calendar month before the start month; a January start renders December of the year before |
| `Dates.TwoDigitYearQuirk` | src/utils/Dates.ts:7-13 | a March start in the year 50 gives `50-03-01` but `1950-02-01` |

## Left out

- MySQL's `MATCH … AGAINST` ranking, `LIKE` matching, the joins, `GROUP BY` and
  the row order. They run in the database, so every query is an oracle answer.
- The price columns (`discountPrice`, `originalPrice`). The database computes
  them from `FLOAT` discount data, so the product row has no prices.
- The SQL text around the built pieces (the SELECT list of the search queries,
  `ORDER BY`, the rendering of the `NOT IN (…)` list). A query carries the
  excluded ids as a sequence.
- `console.log` and `console.error`.
- Input validation of store id, category id and query. `searchProducts` checks
  nothing itself, and no validating caller of it is part of this model.
- The query of `findByCategoryAndChildren` and its error path. Only its
  SELECT-list builder is pure code. An absent attribute list is modelled as
  an empty one, which gives the same `p.*`.
- JavaScript's parsing of date strings, invalid dates (`NaN`), and time
  zones. The dates are parsed UTC components. Under UTC, `getFullYear` and
  the local-time constructor agree with the UTC getters.
- Dates.FormatDateRoundTrip: stated only for non-negative years, because a
  negative year renders with a leading `-` that the field split cannot tell
  from a separator.
- Dates.EndDateReadsBack: stated only for a non-negative end year, for the
  same reason.
- JavaScript's `Date` range limit of ±100,000,000 days. Dafny integers are
  unbounded.
- UTF-16 code units. Strings are sequences of Dafny characters, which are
  Unicode scalar values, so a character outside the Basic Multilingual Plane
  counts 1 in a token's length where JavaScript's `length` counts 2. For
  tokens holding such characters the tier-3 midpoint and fragments differ from
  the source's, and the source's cut through a surrogate pair is not modelled.
  For every other token they agree.
- All other methods of `src/models/Products.ts`, the controllers, routes,
  validation schemas, model definitions and file handling. They are framework
  wiring or SQL run by the database, not logic of the core.
