# Certificate dashboard — a verified model of its logic

The dashboard tracks the professional certificates of a team: who holds
which certificate, when each one expires, which skills it covers and how
the team's skills add up. Its pages and cards are React components, but
each holds a small piece of logic:

- how many days a certificate has left and what status it shows;
- the expiry-alert pipeline and the critical/upcoming split of the alerts;
- the search and filter of the certificate, team and skill lists;
- each member's distinct skills and certification progress;
- the team totals, the skills coverage and the top-three ranking;
- the add-certificate form: its rules, the certificate it builds, and the
  skill toggle;
- the validation of an imported file and the name of an exported one;
- sign-out over the browser's storage.

This project restates that logic in Dafny and proves what each piece
promises. There is one module per source file:

- `Types` holds the records.
- `Expiry` holds the expiry helpers that `Certificates.tsx` and
  `CertificatesList.tsx` both define.
- `CertificatesPage`, `CertificatesList`, `Data`, `ExpiryAlertsView`,
  `Team`, `SkillsMatrix`, `TeamOverview`, `AddCertificate`,
  `CertificateUtils` and `Auth` hold the rest.

Four modules are shared:

- `Optional` holds the option type.
- `Seqs` holds JavaScript's `filter`, `map`, `find`, `Array.from(new Set(…))`
  and its stable `sort`.
- `Text` holds ASCII `toLowerCase`, `includes`, `split(c)[0]` and integer
  rendering.
- `JsMath` holds `Math.ceil` and `Math.round` of a quotient.

Most of the source is expressions over arrays, so most of the model is
functions and lemmas. Three pieces change state step by step, and the
model keeps them imperative:

- `Team.UserSkills` is a loop that adds to a `Set`.
- `AddCertificate.Dialog` is a class whose handlers update its fields.
- `Auth.BrowserStorage` is a class holding two maps, and
  `Auth.SignOutUser` removes keys from it one at a time.

The clock is a parameter everywhere. `nowMs` stands for `new Date()` and
`Date.now()`. `toMs` turns a date string into milliseconds, and `toIso`
turns an instant into its ISO string.

The copies of `getLevelColor`, `getDaysRemaining` and `getExpiryStatus` in
`src/components/dashboard/CertificatesList.tsx:12-39` match those in
`src/pages/Certificates.tsx:33-60` character for character. Each is
modelled once: the rows below cite the page, and the same statements hold
for the list's copies.

## Model

| member | source | states |
|---|---|---|
| Types.ParseLevel | src/lib/types.ts:9 | a string names a level exactly when it is one of the four tier words, and the tier's word maps back to that tier |
| Expiry.DaysUntil | src/pages/Certificates.tsx:46-51 | the day count is the least integer `d` with `expiry - now <= d * 86400000`, so it is the ceiling of the quotient and may be negative |
| Expiry.DaysRemaining | src/pages/Certificates.tsx:43-52 | null exactly for a missing or empty expiry date; otherwise the ceiling day count of the parsed date |
| Expiry.NegativeIffADayPast | src/pages/Certificates.tsx:49 | the count is negative exactly when the expiry is at least a full day past; an expiry earlier than now but within a day counts 0 |
| Expiry.DaysUntilMonotone | src/pages/Certificates.tsx:46-51 | a later expiry never gives fewer days |
| Expiry.ExpiryStatus | src/pages/Certificates.tsx:54-60 | muted "Never expires" iff null; destructive iff the count is at most 30 (negatives included); amber iff 31..90; emerald iff above 90; "Expired" iff negative; otherwise "Expires in N days" |
| Expiry.ExpiresTextInjective | src/pages/Certificates.tsx:57-59 | different day counts give different status texts |
| CertificatesPage.LevelColorsDistinct | src/pages/Certificates.tsx:33-41 | the four tiers get four distinct badge classes, none gray, and every other string gets gray |
| CertificatesPage.LevelColor | src/pages/Certificates.tsx:33-41 | the gray class exactly for a string that names no tier |
| CertificatesPage.Providers | src/pages/Certificates.tsx:76 | the provider list has no duplicates and holds exactly the providers of the certificates |
| CertificatesPage.ProvidersInFirstOccurrenceOrder | src/pages/Certificates.tsx:76 | providers are listed in the order of their first appearance |
| CertificatesPage.MatchesSearchIgnoresTermCase | src/pages/Certificates.tsx:80-82 | whether a certificate matches does not depend on the case of the search term |
| CertificatesPage.EmptyTermMatches | src/pages/Certificates.tsx:80-82 | the empty term matches every certificate |
| CertificatesPage.FilteredCertificates | src/pages/Certificates.tsx:79-87 | the result is an order-preserving subsequence; a certificate is in it iff it matches the term and has the selected provider and level (unless 'all'); kept certificates keep their multiplicity |
| CertificatesPage.NoFilterKeepsAll | src/pages/Certificates.tsx:79-87 | an empty term with both filters on 'all' keeps every certificate in the original order |
| CertificatesList.FilteredCertificates | src/components/dashboard/CertificatesList.tsx:45-49 | an order-preserving subsequence holding exactly the certificates that match the term case-insensitively |
| CertificatesList.ListIsPageWithoutDropDowns | src/components/dashboard/CertificatesList.tsx:45-49 | the list's filter equals the page's filter with both drop-downs on 'all'; an empty term keeps every certificate |
| CertificatesList.WarningIconIffUrgentColour | src/components/dashboard/CertificatesList.tsx:134 | the warning icon shows iff the count is non-null and at most 90, which is exactly when the status colour is destructive or amber (expired included) |
| Data.FindUser | src/lib/data.ts:193 | the FIRST user with that id, and nothing exactly when no user has it |
| Data.FindUserFirst | src/lib/data.ts:193 | whenever users[i] is the first user with the id, that user is the one found |
| Data.UserCertificates | src/lib/data.ts:133 | a member's list is the order-preserving subsequence of the certificates with that user id, each with its full multiplicity |
| Data.OwnerName | src/lib/data.ts:193-202 | never empty; "Unknown User" when no user has the id; any other name is the name of a user with the id |
| Data.OwnerNameOfFirstMatch | src/lib/data.ts:193-202 | the name of the first user with the id, or "Unknown User" when that name is empty |
| Data.ToAlert | src/lib/data.ts:192-207 | the alert id is "alert-" and the certificate id; name, member and expiry date are copied; the user name is the owner's; the day count is the one the certificate pages compute |
| Data.AlertsFor | src/lib/data.ts:190-207 | one alert per certificate with an expiry date, in certificate order: the i-th alert is built from the i-th such certificate |
| Data.AlertsForMembers | src/lib/data.ts:190-207 | an alert is present iff it is the alert of some certificate that has an expiry date |
| Data.ExpiryAlerts | src/lib/data.ts:190-209 | at most one alert per certificate, none with more than 180 days (contents and order: the two lemmas below) |
| Data.ExpiryAlertsProvenance | src/lib/data.ts:190-209 | an alert is listed iff it is the alert of a certificate with an expiry date and has at most 180 days; already expired certificates stay in |
| Data.ExpiryAlertsOrder | src/lib/data.ts:208-209 | the alerts are in non-decreasing order of days, and alerts with equal day counts keep the certificates' order |
| Data.AlertIdNamesCertificate | src/lib/data.ts:199-200 | two alerts with the same "alert-" id belong to the same certificate id |
| Data.AlertDaysMatchPage | src/lib/data.ts:196 | an alert's day count equals the count the certificate pages show for the same certificate |
| ExpiryAlertsView.CriticalAlerts | src/components/dashboard/ExpiryAlerts.tsx:17 | an order-preserving subsequence holding exactly the alerts with at most 30 days |
| ExpiryAlertsView.UpcomingAlerts | src/components/dashboard/ExpiryAlerts.tsx:18 | an order-preserving subsequence holding exactly the alerts with more than 30 days |
| ExpiryAlertsView.AlertsPartitioned | src/components/dashboard/ExpiryAlerts.tsx:17-18 | the two groups are disjoint and together hold every alert exactly as often as the input |
| ExpiryAlertsView.SortedAlertsSplitAtThirty | src/components/dashboard/ExpiryAlerts.tsx:17-18 | on sorted alerts, critical followed by upcoming is the input itself |
| ExpiryAlertsView.AlertSeverity | src/components/dashboard/ExpiryAlerts.tsx:20-25 | destructive iff at most 30 days (0 and negatives included), amber iff 31..90, muted iff above 90 |
| ExpiryAlertsView.SeverityAgreesWithStatusUpToNinety | src/components/dashboard/ExpiryAlerts.tsx:20-25 | up to 90 days the alert colour equals the certificate status colour; beyond, the alert is muted while the status is emerald |
| ExpiryAlertsView.CriticalLabel | src/components/dashboard/ExpiryAlerts.tsx:83-85 | "Expired" iff the count is at most 0, otherwise "Expires in N days" |
| ExpiryAlertsView.CriticalLabelDiffersOnlyOnDayZero | src/components/dashboard/ExpiryAlerts.tsx:83-85 | the alert label and the status text differ exactly on day 0 |
| ExpiryAlertsView.UserAvatar | src/components/dashboard/ExpiryAlerts.tsx:32-35 | a non-empty result is the avatar of a user with that id; "" when no user has it |
| ExpiryAlertsView.UserAvatarOfFirstMatch | src/components/dashboard/ExpiryAlerts.tsx:32-35 | the avatar is the first matching user's, or "" when that user has none |
| Team.Departments | src/pages/Team.tsx:44-46 | no duplicates; holds exactly the members' department labels; "Uncategorized" appears iff some member has no department, an empty one, or one literally named so |
| Team.MatchesDepartment | src/pages/Team.tsx:55-58 | 'all' accepts everyone; any filter other than 'all' and "Uncategorized" accepts only members with exactly that department |
| Team.DepartmentFilterSelectsLabel | src/pages/Team.tsx:55-58 | any non-empty filter other than 'all' (every drop-down label is one) accepts a member iff the member's department label is that filter, so "Uncategorized" picks members without a department |
| Team.FilteredUsers | src/pages/Team.tsx:49-61 | an order-preserving subsequence holding exactly the members who match the search and the department filter, each kept member with its full multiplicity |
| Team.NoFilterKeepsTeam | src/pages/Team.tsx:49-61 | an empty search with filter 'all' keeps the whole team in order |
| Team.InAllSkills | src/pages/Team.tsx:68-70 | a skill is among the member's certificate skills iff some certificate lists it |
| Team.CertificatesOf | src/pages/Team.tsx:64 | no certificates for an unknown id; a non-empty list is the list of a member with the id |
| Team.AddAll | src/pages/Team.tsx:69 | adding a certificate's skills to the Set gives the insertion-ordered set of everything added so far |
| Team.UserSkills | src/pages/Team.tsx:64-73 | the result is the distinct skills in first-seen order; no duplicates; a skill is in it iff one of the member's certificates lists it; an unknown member has none |
| Team.MaxCertCount | src/pages/Team.tsx:78 | None iff the team is empty; otherwise a bound on every member's count that some member reaches |
| Team.ProgressPercentage | src/pages/Team.tsx:76-83 | at most 100; 0 when the team maximum is 0 or the team is empty; 0 for an unknown member; otherwise 100·count/max rounded half up |
| Team.TopMemberAtHundred | src/pages/Team.tsx:80-81 | a member with the team's largest positive count gets exactly 100 |
| SkillsMatrix.Categories | src/components/dashboard/SkillsMatrix.tsx:35 | no duplicates; holds exactly the skills' categories |
| SkillsMatrix.CategoriesInFirstOccurrenceOrder | src/components/dashboard/SkillsMatrix.tsx:35 | categories appear in the order of their first appearance |
| SkillsMatrix.FilteredSkills | src/components/dashboard/SkillsMatrix.tsx:38-42 | an order-preserving subsequence holding exactly the rows whose name contains the term case-insensitively and whose category is selected (unless 'all'), with their multiplicity |
| SkillsMatrix.ClearedFiltersKeepAll | src/components/dashboard/SkillsMatrix.tsx:165-168 | "Clear filters" shows the whole matrix in order |
| SkillsMatrix.SortedSkills | src/components/dashboard/SkillsMatrix.tsx:45 | the sorted rows are a permutation of the filtered rows with non-increasing levels |
| SkillsMatrix.SortedSkillsStable | src/components/dashboard/SkillsMatrix.tsx:45 | rows of equal level keep their filtered order |
| SkillsMatrix.SkillColor | src/components/dashboard/SkillsMatrix.tsx:48-51 | never empty; "#666" when no skill has the name; any other colour is that of a skill with the name |
| SkillsMatrix.SkillColorOfFirstMatch | src/components/dashboard/SkillsMatrix.tsx:48-51 | when the first same-named skill has a non-empty colour, the colour is that one |
| SkillsMatrix.ToggleCategory | src/components/dashboard/SkillsMatrix.tsx:188 | clicking the selected category gives 'all', any other selects it |
| SkillsMatrix.ToggleCategoryTwice | src/components/dashboard/SkillsMatrix.tsx:188 | two clicks restore a filter that was that category or 'all', and give 'all' otherwise |
| TeamOverview.TotalCertificates | src/components/dashboard/TeamOverview.tsx:11-13 | the total is 0 iff no member holds a certificate |
| TeamOverview.TotalCertificatesAppend | src/components/dashboard/TeamOverview.tsx:11-13 | the total over two groups is the sum of their totals |
| TeamOverview.MemberWithinTotal | src/components/dashboard/TeamOverview.tsx:11-13 | every member's certificates are counted in the total |
| TeamOverview.SkillNames | src/components/dashboard/TeamOverview.tsx:17 | no duplicates; holds exactly the skill names of the matrix |
| TeamOverview.CoveredSkills | src/components/dashboard/TeamOverview.tsx:17 | the count equals the size of the set of skill names and is at most the number of rows |
| TeamOverview.CoveragePercentage | src/components/dashboard/TeamOverview.tsx:16-18 | None (NaN or Infinity in JavaScript) iff there are no skills; otherwise round-half-up of 100·covered/total |
| TeamOverview.CoverageBounds | src/components/dashboard/TeamOverview.tsx:18 | at most 100 while covered does not exceed total; exactly 100 when they are equal |
| TeamOverview.SkillsCoverage | src/components/dashboard/TeamOverview.tsx:16-18 | None exactly for an empty skill list |
| TeamOverview.SkillsCoverageBounded | src/components/dashboard/TeamOverview.tsx:16-18 | when every matrix skill is a listed skill, coverage lies in 0..100 and is undefined only for an empty skill list |
| TeamOverview.SkillRanking | src/components/dashboard/TeamOverview.tsx:21-23 | the ranking has min(3, team size) members |
| TeamOverview.SkillRankingFromTeam | src/components/dashboard/TeamOverview.tsx:21-23 | every ranked member is in the team, at most as often as there |
| TeamOverview.SkillRankingDescending | src/components/dashboard/TeamOverview.tsx:22 | certificate counts never increase down the ranking |
| TeamOverview.SkillRankingNoneLeftAbove | src/components/dashboard/TeamOverview.tsx:21-23 | no member left out holds more certificates than the last ranked member |
| TeamOverview.SkillRankingTies | src/components/dashboard/TeamOverview.tsx:21-23 | among equal counts the ranked members are the first such members of the team, in team order |
| AddCertificate.Errors | src/components/certificates/AddCertificateDialog.tsx:38-56 | a rule is reported iff the values break it; errors come in schema order |
| AddCertificate.ValidMeans | src/components/certificates/AddCertificateDialog.tsx:38-56 | the values pass the schema (name and provider of at least 2 characters, an issue date, a tier level, a member, at least one skill) iff they break none of the listed rules |
| AddCertificate.DefaultValuesInvalid | src/components/certificates/AddCertificateDialog.tsx:70-75 | the default form breaks every rule except the level rule, so it cannot be submitted |
| AddCertificate.IsoDay | src/components/certificates/AddCertificateDialog.tsx:84 | the date part is the prefix of the ISO string before its first 'T' |
| AddCertificate.BuildCertificate | src/components/certificates/AddCertificateDialog.tsx:80-89 | the id is "cert-" and the timestamp; name, provider, skills, level and member are copied; expiry is null iff none was chosen; dates are ISO days |
| AddCertificate.BuiltIdsDistinct | src/components/certificates/AddCertificateDialog.tsx:81 | certificates built at different milliseconds get different ids |
| AddCertificate.ToggleSkill | src/components/certificates/AddCertificateDialog.tsx:105-114 | the clicked skill is selected afterwards iff it was not before; every other skill stays as it was |
| AddCertificate.ToggleAbsentAppends | src/components/certificates/AddCertificateDialog.tsx:109-112 | toggling an unselected skill appends it at the end |
| AddCertificate.ToggleSelectedRemoves | src/components/certificates/AddCertificateDialog.tsx:107-108 | toggling a selected skill removes every occurrence, keeps the others in order with their multiplicities, and shortens the selection |
| AddCertificate.ToggleAbsentTwice | src/components/certificates/AddCertificateDialog.tsx:105-114 | selecting and then deselecting a skill restores the selection |
| AddCertificate.SkillClick | src/components/certificates/AddCertificateDialog.tsx:105-115 | the selection toggles; the form value follows it on the add branch only |
| AddCertificate.StaleFormSkills | src/components/certificates/AddCertificateDialog.tsx:108 | selecting and deselecting one skill leaves nothing highlighted while the form still holds the skill |
| AddCertificate.DeselectDesynchronises | src/components/certificates/AddCertificateDialog.tsx:107-108 | a deselection from an agreeing state always leaves selection and form value different |
| AddCertificate.SyncedSkillClick | src/components/certificates/AddCertificateDialog.tsx:105-115 | corrected click: the selection toggles and the form value equals it afterwards |
| AddCertificate.SyncedClicksAgree | src/components/certificates/AddCertificateDialog.tsx:105-115 | any run of corrected clicks keeps the form value equal to the selection |
| AddCertificate.Dialog.constructor | src/components/certificates/AddCertificateDialog.tsx:65-76 | closed, nothing selected, default values, selection and form agree |
| AddCertificate.Dialog.SetOpen | src/components/certificates/AddCertificateDialog.tsx:118 | sets whether the dialog is open; selection, form and added certificates stay |
| AddCertificate.Dialog.EditDetails | src/components/certificates/AddCertificateDialog.tsx:134-278 | the form takes the typed details and keeps its skills; the rest stays; an agreeing selection still agrees |
| AddCertificate.Dialog.HandleSkillSelect | src/components/certificates/AddCertificateDialog.tsx:105-115 | the new selection and form value are those of the as-written click; nothing else changes |
| AddCertificate.Dialog.HandleSkillSelectSynced | src/components/certificates/AddCertificateDialog.tsx:105-115 | the corrected click; afterwards selection and form value agree |
| AddCertificate.Dialog.Submit | src/components/certificates/AddCertificateDialog.tsx:78-101 | submits iff the form is valid; then appends the built certificate, closes, resets the form and empties the selection; otherwise changes nothing |
| CertificateUtils.ImportCertificates | src/utils/certificateUtils.ts:59-82 | accepted iff the parsed value is an array whose every entry has a truthy id, name, provider and userId; the array is passed on unchanged with "Imported N certificates"; any failure gives the one failure message |
| CertificateUtils.OneBadEntryRejectsAll | src/utils/certificateUtils.ts:70-74 | one bad entry rejects the whole file whatever the others are |
| CertificateUtils.ImportConcat | src/utils/certificateUtils.ts:65-77 | two arrays import iff their concatenation does |
| CertificateUtils.EmptyImport | src/utils/certificateUtils.ts:65-78 | the empty array is accepted and reports 0 certificates |
| CertificateUtils.ImportedMessageCount | src/utils/certificateUtils.ts:78 | the number in the success message is the entry count |
| CertificateUtils.ExportFileName | src/utils/certificateUtils.ts:22 | "certificates-export-", then a 'T'-free prefix of the ISO string, then ".json" |
| CertificateUtils.ExportFileNameOfTimestamp | src/utils/certificateUtils.ts:22 | for "date T time" the file is named after the date |
| Auth.BrowserStorage.GetItem | src/utils/authUtils.ts:8 | the stored value, or null exactly when the key is absent |
| Auth.BrowserStorage.RemoveItem | src/utils/authUtils.ts:14-19 | removes the key and nothing else |
| Auth.BrowserStorage.ClearSession | src/utils/authUtils.ts:22 | empties session storage and leaves local storage alone |
| Auth.IsUserAuthenticated | src/utils/authUtils.ts:7-9 | true iff local storage holds "auth_token" |
| Auth.SignedOut | src/utils/authUtils.ts:14-19 | holds exactly the keys other than the four auth keys, each with its old value |
| Auth.SignedOutIdempotent | src/utils/authUtils.ts:12-23 | signing out twice equals signing out once, and no token remains |
| Auth.SignOutUser | src/utils/authUtils.ts:12-23 | local storage becomes its signed-out form, session storage becomes empty, and the token is gone |
| Auth.SignOutThenCheck | src/utils/authUtils.ts:7-23 | after sign-out no user is authenticated |

Sorting in `SkillsMatrix.tsx:45` and `TeamOverview.tsx:21` works on a
spread copy. In the model every list is a value, so the input lists stay
unchanged by construction.

## Left out

- Rendering, styling, charts, tooltips, load-delay timers, toasts and
  console logging. They carry no stateable behaviour beyond the values
  modelled here.
- Dates.
  - Parsing (`new Date(string)`), `toISOString`, `toLocaleDateString` and
    date-fns `format` are the parameters `toMs` and `toIso`.
  - An unparsable date (NaN) is not modelled.
  - Each `new Date()` in `src/lib/data.ts` is taken as one shared `nowMs`.
- Expiry.DaysUntil computes the ceiling exactly on integers, while
  JavaScript divides in floating point. The two agree for every day count
  below about 10^8 (some 285,000 years).
- TeamOverview.CoveragePercentage: None stands for both results of an
  empty skill list. JavaScript gives NaN when nothing is covered either,
  and Infinity when the matrix names some skill; the card then shows
  "NaN%" or "Infinity%". The model does not tell these two apart.
- TeamOverview.CoveragePercentage and Team.ProgressPercentage round the
  exact rational half up. The floating-point product `(a / b) * 100` can
  land just below a .5 tie. For example, 29/200 gives 14.499999999999998
  and rounds to 14 where the model gives 15.
- `toLowerCase` is modelled on ASCII letters only; full Unicode case
  mapping is not.
- AddCertificate.Errors: the two-character minimum of name and provider
  counts Unicode characters, while `zod` counts UTF-16 code units. A name
  made of one character outside the Basic Multilingual Plane (an emoji)
  passes in the browser but is reported as too short here.
- `JSON.parse` and `JSON.stringify`, `Blob`, object URLs, `FileReader` and
  DOM clicks are not modelled. The import takes the parsed value (None
  when parsing fails). No export/import round trip is claimed.
- `zod` and `react-hook-form` internals. Only the stated rules are
  modelled: min lengths, required fields, the level enum and at least one
  skill. Their error message strings are not modelled.
- `src/components/layout/Header.tsx`, `src/pages/Login.tsx`,
  `src/pages/Index.tsx`, `src/pages/Dashboard.tsx`,
  `src/components/layout/Footer.tsx` and
  `src/components/team/AddTeamMemberDialog.tsx` are not part of this
  model. They are layout, routing and form wiring. Sign-in is not
  modelled because `src/utils/authUtils.ts` does not define it.
- The hard-coded records of `src/lib/data.ts` are inputs, not constants.
  The skill matrix is independent input: it need not agree with the
  certificates.
- Where the written description of the dashboard and the code disagree,
  the model follows the code.
  - Import is all-or-nothing; no valid subset is kept and no
    skipped-entry count is reported.
  - Exporting an empty list is not blocked.
  - A certificate whose expiry passed less than a full day ago still
    counts 0 days and reads "Expires in 0 days", not "Expired".

## Findings

| source | as written | input that shows it | evidently intended | confidence | as-written member | corrected member |
|---|---|---|---|---|---|---|
| src/components/certificates/AddCertificateDialog.tsx:105-115 | `handleSkillSelect` writes the form's "skills" value only when a skill is added; deselecting changes only the highlighted selection | from an empty form, click "AWS" twice: nothing is highlighted, but the form still holds ["AWS"], passes the "at least one skill" rule and submits that skill | the form value follows the selection on both branches | not executed | AddCertificate.StaleFormSkills | AddCertificate.SyncedClicksAgree |
