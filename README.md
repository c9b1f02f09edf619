# Specialist-doctor lookup and first-aid advice formatting, in Dafny

This project models the two pieces of computation in the CureCoders health
frontend:

- the **location services** (`frontend/src/services/geolocation.ts`): the
  `Location`, `Hospital` and `Doctor` records, the compiled-in roster of ten
  Aligarh doctors, the Haversine `calculateDistance` with `toRad`, the
  specialist lookup `getSpecialistDoctors` (filter by specialization up to
  case, filter by an inclusive 5 km radius, copy each survivor), and the
  constant hospital listing `getNearbyHospitals`;
- the **advice formatter** `formatAdvice` of the first-aid page
  (`frontend/src/app/first-aid/FirstAidTips.tsx`). It renders nothing for a
  null or empty text. Otherwise it cuts the text at `"Disclaimer:"`, shows the
  part before the first marker line by line, and shows the part between the
  first and second marker as a disclaimer when that part is not empty.

Modules:

| file | module | contents |
|---|---|---|
| `wrappers.dfy` | `Wrappers` | `Option`, standing for `null` and `undefined` |
| `js_array.dfy` | `JsArray` | `Array.prototype.filter` and `map`, with subsequence, counting, fusion and congruence lemmas |
| `js_string.dfy` | `JsString` | `toLowerCase` (ASCII letters), `indexOf`, `split` with a non-empty separator, `join`, and their lemmas |
| `geolocation.dfy` | `Geolocation` | records, roster, Haversine, lookup, hospital listing |
| `first_aid_tips.dfy` | `FirstAidTips` | `formatAdvice` and its reference definition |

Design decisions:

- Coordinates and distances are `real`.
- The lookup takes the distance as a parameter `dist: (Location, Location) -> real`.
  Every property of the lookup is proved for any distance.
- `CalculateDistance` keeps the structure of the Haversine formula. The
  transcendental functions and pi come in as a `MathLib` value. So
  "equal points are 0 km apart" is proved from stated library identities
  (`sin 0 = 0`, `sqrt 0 = 0`, `sqrt` non-negative, `atan2(0, y) = 0` for
  `y >= 0`). Symmetry is proved from "sine is odd".
- `a` is written as `sin²(dLat/2) + cos(lat1)·cos(lat2)·sin²(dLng/2)`, with
  each squared sine grouped. Over the reals this equals the source's
  left-to-right product.
- The pipeline is `FindSpecialists(roster, …)`, a function of the roster.
  `GetSpecialistDoctors` applies it to the fixed ten-doctor `AllDoctors`,
  as the source does.
- `formatAdvice` returns a value here, `Advice(lines, disclaimer)`, not JSX
  paragraphs. `lines` is one entry per rendered line paragraph.
  `disclaimer` is the text shown after the bold `Disclaimer:` label.

## Model

| member | source | states |
|---|---|---|
| `JsArray.Filter` | frontend/src/services/geolocation.ts:185-190 | every kept element is in the input and satisfies the callback, and every input element that satisfies it is kept; the result is no longer than the input |
| `JsArray.Map` | frontend/src/services/geolocation.ts:193-198 | the result has the input's length and holds the callback's value of each element at the same position |
| `JsArray.FilterMembership` | frontend/src/services/geolocation.ts:185-190 | x is in the filtered sequence iff x is in the input and satisfies the callback |
| `JsArray.FilterFilter` | frontend/src/services/geolocation.ts:185-190 | two chained filters equal one filter on the conjunction of their callbacks |
| `JsArray.FilterCongruent` | frontend/src/services/geolocation.ts:186 | callbacks that agree on every element keep the same elements |
| `JsArray.FilterCount` | frontend/src/services/geolocation.ts:185-190 | each element occurs in the result as often as in the input if it satisfies the callback, and not at all otherwise |
| `JsArray.FilterEmbedding` | frontend/src/services/geolocation.ts:185-190 | the kept elements sit at strictly increasing positions of the input (the order is preserved) |
| `JsArray.FilterIsSubsequence` | frontend/src/services/geolocation.ts:185-190 | the result is an order-preserving subsequence of the input |
| `JsArray.FilterNoDuplicates` | frontend/src/services/geolocation.ts:185-190 | filtering an input without duplicates gives a result without duplicates |
| `JsString.Lower` | frontend/src/services/geolocation.ts:186 | lower-casing keeps the length, leaves no upper-case letter, keeps every other character and moves each of A-Z to its lower-case letter |
| `JsString.LowerFixpoint` | frontend/src/services/geolocation.ts:186 | a string is its own lower-case form iff it contains no upper-case letter |
| `JsString.LowerIdempotent` | frontend/src/services/geolocation.ts:186 | lower-casing twice is lower-casing once |
| `JsString.IndexOf` | frontend/src/app/first-aid/FirstAidTips.tsx:43 | a found position is an occurrence of the separator with none before it; no position means no occurrence anywhere |
| `JsString.IndexOfFirst` | frontend/src/app/first-aid/FirstAidTips.tsx:43 | an occurrence with none before it is the position IndexOf finds |
| `JsString.IndexOfPrefix` | frontend/src/app/first-aid/FirstAidTips.tsx:43 | the first occurrence is determined by the text up to its end: another text with that prefix has it first too |
| `JsString.Split` | frontend/src/app/first-aid/FirstAidTips.tsx:43-44 | split always returns at least one piece |
| `JsString.SplitJoin` | frontend/src/app/first-aid/FirstAidTips.tsx:43-44 | joining the pieces with the separator gives back the text |
| `JsString.SplitPiecesFree` | frontend/src/app/first-aid/FirstAidTips.tsx:44 | no piece contains the separator |
| `JsString.PiecesHaveNoChar` | frontend/src/app/first-aid/FirstAidTips.tsx:44 | splitting on a character leaves that character in no piece |
| `JsString.SplitCharCount` | frontend/src/app/first-aid/FirstAidTips.tsx:44 | splitting on a character gives one piece more than the character's number of occurrences |
| `Geolocation.ToRad` | frontend/src/services/geolocation.ts:201-203 | no contract of its own (degrees times pi over 180); its property is stated by `Geolocation.ToRadZero` |
| `Geolocation.CalculateDistance` | frontend/src/services/geolocation.ts:101-108 | no contract of its own (the Haversine formula over the given math library); its properties are stated by `Geolocation.HaversineSamePoint` and `Geolocation.HaversineSymmetric` |
| `Geolocation.HasSpecialization` | frontend/src/services/geolocation.ts:186 | no contract of its own (the first filter callback); its meaning is stated by `Geolocation.FindSpecialists`, `Geolocation.SingleFilter` and `Geolocation.CaseInsensitive` |
| `Geolocation.WithinRadius` | frontend/src/services/geolocation.ts:187-190 | no contract of its own (the second filter callback); its meaning is stated by `Geolocation.FindSpecialists`, `Geolocation.SingleFilter` and `Geolocation.RadiusIsInclusive` |
| `Geolocation.CopyDoctor` | frontend/src/services/geolocation.ts:193-198 | no contract of its own (the map callback); its meaning is stated by `Geolocation.ProjectionIsIdentity` |
| `Geolocation.ToRadZero` | frontend/src/services/geolocation.ts:201-203 | zero degrees is zero radians, whatever pi is |
| `Geolocation.HaversineSamePoint` | frontend/src/services/geolocation.ts:101-108 | given the library identities at zero, the distance from every point to itself is 0 |
| `Geolocation.HaversineSymmetric` | frontend/src/services/geolocation.ts:101-108 | given an odd sine, the distance from A to B equals the distance from B to A |
| `Geolocation.ProjectionIsIdentity` | frontend/src/services/geolocation.ts:193-198 | the field-for-field copy returns records with the same name, location, specialization and contact, in the same order |
| `Geolocation.FindSpecialists` | frontend/src/services/geolocation.ts:185-198 | for any roster, a doctor is in the result iff it is on the roster, its lower-cased specialization equals the lower-cased request, and its distance is at most 5 |
| `Geolocation.GetSpecialistDoctors` | frontend/src/services/geolocation.ts:116-199 | a doctor is returned iff it is in the ten-doctor roster, matches the specialization up to case, and is at most 5 km away |
| `Geolocation.SingleFilter` | frontend/src/services/geolocation.ts:185-198 | the filter-filter-map pipeline equals one filter on the conjunction of both tests |
| `Geolocation.InRosterOrder` | frontend/src/services/geolocation.ts:185-198 | for every roster, repeated entries included, the result is an order-preserving subsequence of the roster that holds each matching entry as often as the roster does and nothing else |
| `Geolocation.DistinctRosterDistinctResult` | frontend/src/services/geolocation.ts:185-198 | a roster without duplicates gives a result without duplicates |
| `Geolocation.CaseInsensitive` | frontend/src/services/geolocation.ts:186 | specializations with equal lower-case forms give identical results |
| `Geolocation.RosterDistinct` | frontend/src/services/geolocation.ts:121-182 | no entry of the ten-doctor literal `AllDoctors` occurs twice |
| `Geolocation.SpecialistDoctorsInRosterOrder` | frontend/src/services/geolocation.ts:121-198 | the lookup's result is an order-preserving subsequence of the roster, without duplicates, equal to one filter on the conjunction (no sorting by distance) |
| `Geolocation.RadiusIsInclusive` | frontend/src/services/geolocation.ts:189 | a roster doctor of the requested specialization at exactly 5 km is returned, and one farther than 5 km is not |
| `Geolocation.LowerCardiologist` | frontend/src/services/geolocation.ts:186 | "Cardiologist" and "cardiologist" both lower-case to "cardiologist" |
| `Geolocation.CardiologistAnyCase` | frontend/src/services/geolocation.ts:186 | querying "Cardiologist" and "cardiologist" gives identical results at every location with every distance |
| `Geolocation.AbsentSpecializationEmpty` | frontend/src/services/geolocation.ts:185-186 | a specialization no roster entry has gives the empty result |
| `Geolocation.OncologistEmpty` | frontend/src/services/geolocation.ts:121-186 | "Oncologist" gives the empty result at every location with every distance |
| `Geolocation.NothingNearbyEmpty` | frontend/src/services/geolocation.ts:187-190 | a location farther than 5 km from every roster entry gives the empty result for every specialization |
| `Geolocation.CardiologyQueryFindsVikramSingh` | frontend/src/services/geolocation.ts:153-157 | if equal points are at distance 0, a "cardiologist" query at (27.9045, 78.0852) returns Dr. Vikram Singh |
| `Geolocation.CardiologyQueryNoDermatologist` | frontend/src/services/geolocation.ts:128-133 | a "cardiologist" query never returns a Dermatologist, Dr. Rajesh Khanna in particular, at any location with any distance |
| `Geolocation.CardiologyQueryHaversine` | frontend/src/services/geolocation.ts:101-107 | with the Haversine distance and the library identities at zero, the (27.9045, 78.0852) "cardiologist" query returns Dr. Vikram Singh and not Dr. Rajesh Khanna |
| `Geolocation.GetNearbyHospitals` | frontend/src/services/geolocation.ts:39-69 | the listing has five hospitals, those of the literal `NearbyHospitals` |
| `Geolocation.NearbyHospitalsIgnoreLocation` | frontend/src/services/geolocation.ts:39-69 | every location gets the same list in the same order, starting with the JN Medical College and ending with the M S Eye Hospital |
| `FirstAidTips.FormatAdvice` | frontend/src/app/first-aid/FirstAidTips.tsx:39-59 | the result is null iff the text is null or empty |
| `FirstAidTips.FormatAdviceMeaning` | frontend/src/app/first-aid/FirstAidTips.tsx:43-51 | the lines are the text before the first marker split at newlines; the disclaimer is present iff the segment between the first and the second marker (or the end) is non-empty, and equals that segment |
| `FirstAidTips.EmptyAdviceRendersNothing` | frontend/src/app/first-aid/FirstAidTips.tsx:40 | a null and an empty text both render nothing |
| `FirstAidTips.NoMarkerNoDisclaimer` | frontend/src/app/first-aid/FirstAidTips.tsx:43-47 | a text without the marker has no disclaimer, and its lines are the whole text split at newlines |
| `FirstAidTips.LinesRoundTrip` | frontend/src/app/first-aid/FirstAidTips.tsx:43-44 | joining the lines with newlines gives back exactly the text before the first marker |
| `FirstAidTips.LineCount` | frontend/src/app/first-aid/FirstAidTips.tsx:44 | there is one line more than there are newlines before the first marker |
| `FirstAidTips.LinesHaveNoNewline` | frontend/src/app/first-aid/FirstAidTips.tsx:44 | no line contains a newline |
| `FirstAidTips.LeadingMarkerOneEmptyLine` | frontend/src/app/first-aid/FirstAidTips.tsx:43-44 | a text that starts with the marker has exactly one, empty, line |
| `FirstAidTips.TrailingMarkerNoDisclaimer` | frontend/src/app/first-aid/FirstAidTips.tsx:47-51 | a text whose first marker ends the text has no disclaimer |
| `FirstAidTips.SamePartsSameAdvice` | frontend/src/app/first-aid/FirstAidTips.tsx:43-51 | two texts with the same main part and the same disclaimer segment render the same |
| `FirstAidTips.TextAfterSecondMarkerIgnored` | frontend/src/app/first-aid/FirstAidTips.tsx:43-49 | two texts that agree up to the end of the second marker render the same, whatever follows it |

## Left out

- The floating-point Haversine arithmetic (geolocation.ts:101-108, 201-203) is not evaluated. `sin`, `cos`, `atan2`, `sqrt` and pi are parameters, and reals stand for IEEE doubles. The lookup's own properties are proved for every distance function.
- The scenario distances are left out for the same reason: Dr. Anika Verma at about 0.15 km from (27.9045, 78.0852), and an empty result at (0, 0). A lemma covers the second case for any distance: a location farther than 5 km from every entry gets nothing (`NothingNearbyEmpty`).
- The triangle inequality of the great-circle distance is not proved. It needs the trigonometry that is left abstract.
- The `Promise` wrapping of `getSpecialistDoctors` and `getNearbyHospitals` is dropped: both are synchronous functions here.
- Browser I/O is left out: geolocation, its timeout options, and the `tel:` navigation of the page components.
- React state, hooks, toasts, JSX markup, CSS classes, element keys, the bold `Disclaimer:` label and `toFixed` formatting are left out. This is presentation only.
- The `handleSubmit` handlers of the specialist-doctor and first-aid pages are left out. They are asynchronous UI state around calls to other modules.
- The AI flows (`first-aid-flow.ts`, `symptom-diagnosis.ts`) are not part of this model. They wrap an external text-generation service and schema validation.
- JsString.Lower: models `toLowerCase` only for the ASCII letters A-Z, while JavaScript also lowers non-ASCII letters. The requested specialization is free text typed by the user. For the ten roster specializations this still changes no result of `GetSpecialistDoctors`. Those specializations are ASCII, and so are their lower-case forms. A non-ASCII character lowers to a non-ASCII text under both definitions, with one exception: U+212A KELVIN SIGN lowers to the ASCII letter `k`. No roster specialization contains a `k`. The shortcut can change the result of `FindSpecialists` over an arbitrary roster, e.g. one whose specialization contains a `k` or a non-ASCII letter.
- JsString.Split: requires a non-empty separator. JavaScript splits into single characters for an empty separator, but the source only splits on the literals `'Disclaimer:'` and `'\n'`.
- Geolocation.HaversineSymmetric: proved under the hypothesis that sine is odd. Geolocation.HaversineSamePoint: proved under the stated library identities at zero. Neither is proved from the floating-point library itself.
