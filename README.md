# Vehicle registration form: validator and record store

A Dafny model of the deterministic core of a browser vehicle-registration
form (`src/components/formVeiculos.tsx`). The form collects a vehicle's type
(`tipo`), brand token and label (`marca_id`, `marca`), model (`modelo`),
year (`ano`), licence plate (`placa`), colour (`cor`) and status (`status`).
It validates them on submit and keeps the records in a list that is written
to the browser's local storage after every change.

The model has four modules, one file each:

- `wrappers.dfy` (`Wrappers`): `Option`, which stands for `null`/`undefined` and for `NaN`.
- `parse_int.dfy` (`ParseInt`): ECMAScript's `parseInt(s, 10)` as the year rule uses it. It skips leading white space (every StrWhiteSpaceChar, the Unicode spaces included), reads one optional sign, then reads the longest run of decimal digits. With no digit the result is NaN (`None`).
- `validation.dfy` (`Validation`): the zod `formSchema`, as pure functions over strings. The current calendar year is a parameter.
  - The required-field rules.
  - The year rule.
  - The plate rule: length 1 to 7, ASCII upper-casing, then the anchored pattern `^[A-Z]{3}(\d[A-Z0-9]\d{2}|\d{4})$`.
- `store.dfy` (`Store`): the handlers.
  - Records are `Vehicle(id, values)`.
  - The list computations the handlers use (`some`, the two `find`s, `map`, `filter`) are recursive functions. Together with their lemmas, the results are pinned down: both `find`s return the first match, `map` is stated record by record, and `filter`'s contract gives membership while `RemoveByIdAppend` gives order and multiplicity.
  - The component state is the class `VehicleStore`, with three fields: `vehicles`, `editingId`, and `persisted` (the "vehicles" local-storage slot).
  - `onSubmit` is modelled as `SubmitValues`, and `Submit` is the validator followed by `onSubmit`. `handleEdit` is modelled as `Edit` and `handleDelete` as `Delete`.
  - The two methods `CreateSession` and `EditDeleteSession` are callers that use only these contracts.

The three things the code reads from its environment are parameters:

- the clock (`Date.now()`) is `now`;
- the answer of `confirm()` is `confirmed`;
- the brand list held by the brand query (`brands.data?.data`) is `brands`, with `None` when no list is loaded.

`new Date().getFullYear()` is `currentYear`.

Four behaviours of the code that a reader might not expect:

- Type and status are not restricted to enumerations. The schema only requires them to be non-empty; the select widgets offer fixed options.
- Ids are not guaranteed unique. The id is the clock value: `ClockCollisionDuplicatesId` shows a duplicate, and `AppendKeepsIdsUnique` gives freshness under a clock that has moved past every stored id.
- Update replaces *every* record with the edited id, not one.
- Plate uniqueness is an invariant of create only. `UpdateCanDuplicatePlate` shows that update can break it.

Not a bug claim, but a consequence the lemmas expose: `Delete` does not clear
`editingId`. After a record that is being edited is deleted, the next submit
takes the update path with an id that no record has. `UpdateAbsentIdIsIdentity`
shows that this submit changes no record. The list is written back, and the
submitted values are discarded.

## Model

| member | source | states |
|---|---|---|
| ParseInt.TrimStart | src/components/formVeiculos.tsx:58 | the part of the input `parseInt` reads after leading white space: a suffix that does not start with white space, and everything dropped is white space |
| ParseInt.LeadingDigits | src/components/formVeiculos.tsx:58 | the longest all-digit prefix: a prefix, all digits, followed by a non-digit or the end |
| ParseInt.NumeralValue | src/components/formVeiculos.tsx:58 | the value of a numeral of k digits is below 10^k |
| ParseInt.ParseInt10 | src/components/formVeiculos.tsx:58 | a string without any digit parses to NaN; an all-digit string parses to a number exactly when it is non-empty |
| ParseInt.ParseDecimal | src/components/formVeiculos.tsx:58 | parsing the decimal numeral of n gives n (round trip) |
| ParseInt.ParseIgnoresTrailing | src/components/formVeiculos.tsx:58 | text after the leading digits is ignored |
| ParseInt.ParseSkipsWhiteSpace | src/components/formVeiculos.tsx:58 | leading white space does not change the result |
| ParseInt.ParseNegative | src/components/formVeiculos.tsx:58 | a leading minus sign negates the numeral's value |
| ParseInt.ParseAt | src/components/formVeiculos.tsx:58 | a string laid out as white space, an optional '+', and digits followed by a non-digit or the end parses to the value of those digits |
| ParseInt.SplitOfPositiveParse | src/components/formVeiculos.tsx:58 | the converse: every positive result comes from exactly such a layout, and the result is the value of its digits |
| Validation.ToUpper | src/components/formVeiculos.tsx:67 | upper-casing keeps the length, leaves no lower-case ASCII letter, maps each lower-case letter to its capital and keeps every other character |
| Validation.ToUpperIdempotent | src/components/formVeiculos.tsx:67 | upper-casing twice equals upper-casing once |
| Validation.PlatePattern | src/components/formVeiculos.tsx:70 | the regex anchored at both ends: three capitals, then the Mercosul suffix (a digit, a capital or a digit, two digits) or four digits; a match is exactly seven capitals and digits, the first three capitals |
| Validation.LegacySuffixIsMercosul | src/components/formVeiculos.tsx:70 | the alternative `\d{4}` is subsumed by `\d[A-Z0-9]\d{2}` |
| Validation.ValidatePlate | src/components/formVeiculos.tsx:63-77 | a plate is accepted iff it is seven characters: three letters of either case, a digit, a letter or digit, two digits; the accepted value is the upper-cased input and matches the pattern |
| Validation.ValidatePlateIdempotent | src/components/formVeiculos.tsx:63-77 | re-validating an accepted plate returns it unchanged |
| Validation.MercosulPlateExample | src/components/formVeiculos.tsx:70-75 | "abc1d23" is accepted as "ABC1D23" |
| Validation.LegacyPlateExamples | src/components/formVeiculos.tsx:70-75 | "ABC1234" and "aBc1234" are accepted as "ABC1234" |
| Validation.RejectedPlateExamples | src/components/formVeiculos.tsx:63-77 | four letters, a digit among the leading three, a letter in the last place, eight or six characters, and the empty plate are all refused |
| Validation.ValidateYear | src/components/formVeiculos.tsx:53-62 | an accepted year implies 1900 <= currentYear; a string with no digit (NaN) is refused |
| Validation.YearOfDecimal | src/components/formVeiculos.tsx:56-60 | on the decimal numeral of y the year rule holds iff 1900 <= y <= currentYear (both directions) |
| Validation.YearAcceptedIff | src/components/formVeiculos.tsx:53-62 | on any raw text, the year rule holds iff the text is white space, an optional '+', a numeral between 1900 and currentYear, then a non-digit or the end (both directions) |
| Validation.SplitOfAcceptedYear | src/components/formVeiculos.tsx:53-62 | an accepted year yields the positions where its white space, sign and numeral end |
| Validation.AcceptedYearHasFourDigits | src/components/formVeiculos.tsx:53-62 | an accepted year string has at least four characters |
| Validation.YearStaysValid | src/components/formVeiculos.tsx:59 | a year accepted in one calendar year stays accepted in every later one |
| Validation.YearRangeExamples | src/components/formVeiculos.tsx:59 | "1899" and "2999" are refused and "1900" is accepted, for every current year from 1900 to 2998 |
| Validation.CurrentYearAccepted | src/components/formVeiculos.tsx:59 | the current year, written in decimal, is accepted (the upper bound is inclusive) |
| Validation.NextYearRefused | src/components/formVeiculos.tsx:59 | the year after the current one, written in decimal, is refused |
| Validation.YearWithTrailingText | src/components/formVeiculos.tsx:58-59 | "2020abc" is accepted because only the leading digits are parsed |
| Validation.YearIgnoresLeadingWhiteSpace | src/components/formVeiculos.tsx:58-59 | white space in front of a year never changes the verdict, because `parseInt` skips it |
| Validation.NegativeYear | src/components/formVeiculos.tsx:58-59 | "-2020" is refused |
| Validation.FailingFields | src/components/formVeiculos.tsx:48-80 | each required field is reported iff it is empty; the plate iff the raw text does not have the seven-character plate shape; the year iff the raw text is not white space, an optional '+' and a numeral from 1900 to currentYear followed by a non-digit or the end |
| Validation.Validate | src/components/formVeiculos.tsx:48-80 | the form is accepted iff tipo, marca_id, modelo, cor and status are non-empty, the year rule holds and the plate has the accepted shape; accepted values are the input with the plate upper-cased; a rejection names exactly the failing fields, at least one |
| Validation.ValidateIdempotent | src/components/formVeiculos.tsx:48-80 | validating accepted values again accepts them unchanged |
| Validation.MarcaUnconstrained | src/components/formVeiculos.tsx:51 | the value of `marca` never changes the verdict |
| Validation.ExampleYear | src/components/formVeiculos.tsx:56-60 | "2020" passes the year rule in 2025 |
| Validation.ExampleFormAccepted | src/components/formVeiculos.tsx:48-80 | a sample submission (a car, brand token "21", year "2020", plate "abc1d23") is accepted with plate "ABC1D23" and every other field unchanged |
| Store.PlateTaken | src/components/formVeiculos.tsx:124-126 | true iff some stored record has exactly that plate |
| Store.FindBrand | src/components/formVeiculos.tsx:111-113 | no result iff no entry has the token; a result is the first entry with the token |
| Store.ResolveBrand | src/components/formVeiculos.tsx:111-116 | only `marca` can change; it becomes the label of the first loaded brand whose token equals `marca_id`; with no match or no list the values are unchanged |
| Store.UpdateById | src/components/formVeiculos.tsx:117-119 | same length and ids in the same order; every record with the id takes the submitted values; all other records are unchanged |
| Store.RemoveById | src/components/formVeiculos.tsx:158 | a record is kept iff its id differs; the list does not grow |
| Store.FindById | src/components/formVeiculos.tsx:146 | no result iff no record has the id; otherwise the FIRST record with that id, which decides what `Edit` loads when ids collide |
| Store.AppendKeepsPlatesUnique | src/components/formVeiculos.tsx:124-140 | appending a record whose plate is not taken keeps the plates unique |
| Store.AppendKeepsIdsUnique | src/components/formVeiculos.tsx:137 | with a clock past every stored id, the new id keeps the ids unique |
| Store.ClockCollisionDuplicatesId | src/components/formVeiculos.tsx:137 | a create at a clock value equal to a stored id duplicates that id |
| Store.UpdateCanDuplicatePlate | src/components/formVeiculos.tsx:110-122 | update does not check plates: from two records with distinct plates it can produce two with the same plate |
| Store.UpdateAbsentIdIsIdentity | src/components/formVeiculos.tsx:117-119 | update with an id that no record has leaves the list unchanged |
| Store.UpdateIdempotent | src/components/formVeiculos.tsx:117-119 | updating twice with the same values equals updating once |
| Store.RemoveByIdAppend | src/components/formVeiculos.tsx:158 | filtering distributes over concatenation, so the kept records keep their relative order |
| Store.RemoveAbsentIdIsIdentity | src/components/formVeiculos.tsx:158 | deleting an id that no record has leaves the list unchanged |
| Store.RemoveByIdIdempotent | src/components/formVeiculos.tsx:158 | after a delete no record has the id, and a second delete changes nothing |
| Store.RemoveKeepsPlatesUnique | src/components/formVeiculos.tsx:158 | deleting keeps the plates unique |
| Store.ResolveBrandKeepsValid | src/components/formVeiculos.tsx:111-116 | brand resolution keeps accepted values accepted and unchanged by the validator |
| Store.UpdateKeepsValid | src/components/formVeiculos.tsx:117-119 | updating with accepted values keeps every record valid |
| Store.AppendKeepsValid | src/components/formVeiculos.tsx:137-138 | appending an accepted record keeps every record valid |
| Store.RemoveKeepsValid | src/components/formVeiculos.tsx:158 | deleting keeps every record valid |
| Store.VehicleStore.Load | src/components/formVeiculos.tsx:102-107 | on mount the list is the stored one, or empty when the slot is empty; nothing is being edited; the slot mirrors the list |
| Store.VehicleStore.SubmitValues | src/components/formVeiculos.tsx:109-141 | when editing id k: every record with id k takes the brand-resolved values and keeps its id, the rest are unchanged, editing ends, and the slot holds the new list; when creating with a taken plate: list, slot and editing state unchanged; when creating otherwise: exactly one record with the clock value as id is appended after the unchanged earlier ones, and the slot holds the new list; create keeps plates unique |
| Store.VehicleStore.Submit | src/components/formVeiculos.tsx:48-141 | a rejected form changes nothing and reports the failing fields; an accepted form goes through the submit handler with the plate upper-cased; all records stay valid for the current year |
| Store.VehicleStore.Edit | src/components/formVeiculos.tsx:145-151 | with a record of that id, the form gets its values and `editingId` becomes the id; with none, nothing changes; list and slot are never touched |
| Store.VehicleStore.Delete | src/components/formVeiculos.tsx:153-162 | confirmed: exactly the records with the id are removed, the rest stay in order, the slot holds the new list, and plate uniqueness and validity are kept; declined: nothing changes |

## Left out

- `useEffect` load (src/components/formVeiculos.tsx:102-107): `JSON.parse` and `JSON.stringify` of the slot are not modelled. The slot holds the list itself, `None` when empty, and `Load` is the state after the load effect. A slot whose text does not parse as a list of records is not modelled.
- Writing to local storage is modelled as always succeeding. A `setItem` that throws (storage full or disabled) is not modelled.
- `toUpperCase` is modelled on ASCII only. Non-ASCII letters that upper-case to ASCII (U+0131 gives "I", U+017F gives "S") would pass the pattern in JavaScript but are refused by `Validation.ValidatePlate`. Characters whose capital has another length are not modelled either.
- `Validation.ValidatePlate`: lengths are counted in Unicode scalar values, not UTF-16 code units. The two differ only for characters above U+FFFF, which the pattern refuses anyway.
- `Validation.Validate` reports the set of failing fields. zod's individual issues and messages, and their order, are not modelled.
- The type/brand cascade effects (src/components/formVeiculos.tsx:181-197), the brand and model queries, their loading and error states, and the `disabled`/placeholder logic are not modelled. They depend on React effect scheduling and on network calls. Which brand list is loaded at submit time is the `brands` parameter.
- `form.reset()` after a successful submit, the form's field values while editing (beyond the values `Edit` returns), the rendered table, and `toast` notifications are UI only.
- React's asynchronous state updates are not modelled. Each handler reads the list as it stands and replaces it before the next event.
- `src/app/fipe.ts`, `src/app/api/brands/route.ts`, `src/app/api/models/route.ts` and `src/app/page.tsx` are not part of this model. They are network relays, fetch wrappers and page layout.
- `Date.now()`, `new Date().getFullYear()` and `confirm()` are parameters (`now`, `currentYear`, `confirmed`).
- `ParseInt.ParseInt10` returns an unbounded integer. JavaScript rounds long numerals to a double, but rounding is monotone, so comparisons with 1900 and any current year below 2^53 come out the same. `-0` is modelled as `0`; both fail the range check.
