# Blood donor registry — a Dafny model

This project models the core of a blood-donor registry and matching tool (`main.py`). The model has four parts:

- **Blood-group tree.** Donors are filed under root → major letter → full group string. A search walks the whole tree depth-first and collects every node whose group equals the query (`BloodGroupTree`).
- **Eligibility engine.** Registration writes the defaults. Recording a donation enforces the lifetime cap of 5 and the 90-day cooldown. The reactivation scan turns eligible inactive donors active again (`Eligibility`). Donor records, donations and history rows are in `Donors`.
- **Ranking.** Matches are sorted by distance from the requester with a stable sort (`Ranking`). The model sorts by insertion. `StableSortUnique` shows that every sorted, stable rearrangement is the same list, so the result is the one Python's sort produces.
- **Pagination.** Matches are shown 10 at a time on the first page and 50 at a time after that, driven by the user's answers (`Pagination`).

`Search` composes all four into the search a user runs.

The database is an in-memory `Registry`: a sequence of donor rows plus append-only donation and history logs. Donor ids are auto-increment values: the donor at position i has id i + 1. Dates are integer day numbers. The wall clock of the reactivation scan is the parameter `today`. Because the clock's time of day is a fraction in [0, 1) added to a midnight date, `.days` of the difference equals the difference of day numbers. The great-circle distance is a function parameter `distanceTo` from a donor's coordinates to a distance in kilometres. User answers are a sequence of strings.

Behaviour kept exactly as the code has it:

- **AB- is filed under A.** `"AB-"` starts with `A` and is not `"AB+"`, so it lands under the `A` node. The lookup still finds it because it searches the whole tree.
- **Which groups are indexed.** A group is dropped from the index only when its first character is not `O`, `A` or `B` (main.py:35-50). Other strings that start with one of those letters, such as `"O"` or `"Apple"`, are indexed and found by an exact query.
- **After a donation the donor is inactive.** This happens whatever the new total (`0 if total >= 5 else 0`), so the history row written then always says "inactive". Recording a donation never looks at the activity flag.
- **Pagination skips positions 10–49.** The prompt offers "'more' to see 50 more" (main.py:224), but the page size becomes 50 before the cursor advances (main.py:226-227). The first "more" therefore moves from position 0 to 50: it shows matches 51–100, and positions 10..49 are never shown. The model keeps this behaviour.

## Model

| member | source | states |
|---|---|---|
| BloodGroupTree.MajorOf | main.py:33-50 | a group is filed iff its first character is O, A or B; it is filed under a prefix of itself among O, A, B, AB; only "AB+" reaches the AB node |
| BloodGroupTree.AddLeafDonor | main.py:21-27 | filing a donor under key g leaves the set of sibling keys equal to the old keys plus g (add_child reuses an existing child) |
| BloodGroupTree.AddLeafDonorCollects | main.py:21-27 | adding a donor to the group node keeps leaves childless with distinct keys and appends the donor to exactly the lookup of its own group |
| BloodGroupTree.AddMajorDonorShape | main.py:35-50 | filing under the major node keeps the tree shape (distinct keys, donor-less majors, well-formed leaves); the major keys become the old keys plus the donor's major |
| BloodGroupTree.AddMajorDonorCollects | main.py:35-50 | filing under the major node appends the donor to exactly the lookup of its own group |
| BloodGroupTree.FileDonorCollects | main.py:33-50 | one build step keeps the tree well shaped and adds the donor to lookup q iff its group is q and indexed; an unindexed group is dropped |
| BloodGroupTree.BuildFromCollects | main.py:30-51 | building over a donor list appends, for every query, exactly the matching donors in input order |
| BloodGroupTree.Build | main.py:30-51 | the built tree is well shaped (distinct keys per level, donors only at the third level, each group under the major the build's if/elif chain picks) and, for every query, its lookup equals the order-preserving filter of the input by that (indexed) group |
| BloodGroupTree.Lookup | main.py:197-202 | on a well-shaped tree the whole-tree walk returns just the donors of the node keyed by the query under the query's own major node; an unindexed query finds nothing |
| BloodGroupTree.LeafLookup | main.py:197-201 | the walk over a group level collects only the node keyed by the query |
| BloodGroupTree.MajorLookup | main.py:197-201 | the walk over the major level collects only under the major node the query is filed under |
| BloodGroupTree.LookupIsFilter | main.py:196-202 | the depth-first walk over the built tree returns exactly the donors whose group equals the query (when indexed), in input order |
| BloodGroupTree.AbNegativeUnderA | main.py:39-42 | "AB-" is filed under the A node; a lone "AB-" donor sits there, and the lookup of "AB-" still returns it |
| BloodGroupTree.LeavesWithoutQuery | main.py:197-201 | the walk over group nodes none of which carries the query collects nothing |
| BloodGroupTree.MajorsWithoutQuery | main.py:197-201 | the walk over major nodes other than the query's own major collects nothing |
| Eligibility.FindDonor | main.py:97-108 | the lookup by any integer id, negative ones included, finds a row carrying that id (the first one) or reports that none exists |
| Eligibility.FindWellNumbered | main.py:104-106 | with auto-increment ids, exactly the ids 1..n resolve, to position id - 1 |
| Eligibility.NonPositiveIdNotFound | main.py:97-108 | with auto-increment ids, an id of zero or below (which the integer read accepts) is refused as not found |
| Eligibility.Register | main.py:82-85 | registration appends one donor with total 0, no last donation, active; its id is fresh; other rows and both logs are unchanged |
| Eligibility.RecordDonation | main.py:97-130 | for any integer id, an unknown id gives NotFound; total >= 5 gives LifetimeLimit; a donation dated fewer than 90 days after the last one, or before it, gives Cooldown; success iff cap and cooldown allow; on success total + 1, last = date, inactive, one donation and one "inactive" history row appended, nothing else changed |
| Eligibility.Reactivate | main.py:145-157 | exactly the inactive donors below the cap whose last donation is at least 90 days before today become active; all others are untouched; one "active" row dated today per reactivated donor is appended in table order; the count is the number of reactivated positions |
| Eligibility.ActivationsCount | main.py:148-157 | the number of history rows appended equals the number of reactivated positions |
| Eligibility.ActivationsNameReactivated | main.py:149-157 | every history row the scan appends is an "active" row dated today naming, by id and name, a donor the scan reactivates |
| Eligibility.ActivationsAppend | main.py:149-157 | the rows the scan appends for two consecutive stretches of the table are those of the first followed by those of the second |
| Eligibility.ApplyKeepsCap | main.py:111-125 | no single operation takes a donor past 5 donations or leaves a donor at 5 active |
| Eligibility.RunKeepsCap | main.py:111-145 | any sequence of registrations, donations and reactivations keeps every donor within the cap and inactive at the cap |
| Eligibility.CapInvariant | main.py:84-145 | starting from an empty registry, no sequence of operations makes any donor's total exceed 5 |
| Eligibility.RunKeepsNumbering | main.py:82-85 | operations keep ids equal to position + 1 (auto-increment, no deletion) |
| Eligibility.RetiredDonorUnchanged | main.py:111-145 | a donor at the cap is never changed again by any operation; in particular it is never reactivated |
| Eligibility.SecondDonationWithinCooldown | main.py:114-119 | after a successful donation, a second donation by the same donor dated fewer than 90 days later is rejected |
| Eligibility.DonateThenReactivate | main.py:122-157 | after a donation leaving the total below 5, the scan run 90 or more days later reactivates that donor |
| Ranking.AtDistanceMembers | main.py:214 | the matches at a given distance are exactly the members of the list at that distance |
| Ranking.InsertByDistance | main.py:214 | one insertion step adds exactly the new match to the list (as a multiset) |
| Ranking.InsertKeepsSorted | main.py:214 | inserting into a list sorted by distance keeps it sorted |
| Ranking.InsertAtDistance | main.py:214 | the inserted match comes first among those at its distance; other distances are untouched |
| Ranking.RankByDistance | main.py:214 | the ranked list is sorted by nondecreasing distance, is a permutation of the matches, and keeps matches at equal distance in their original order |
| Ranking.StableSortUnique | main.py:214 | any two sorted, stable rearrangements of the same matches are equal, so the ranking is determined by these properties |
| Pagination.Classify | main.py:224-235 | after stripping: "more" in any letter case gives More; otherwise digits give the donor id they spell; otherwise "exit" in any letter case gives Exit; anything else is invalid |
| Pagination.ClassifyMore | main.py:224-227 | "more" in any letter case with any blank padding asks for the next page |
| Pagination.MoreBeforeUnitSeparator | main.py:224-227 | "more" followed by the unit separator 0x1F, which the strip removes, asks for the next page |
| Pagination.ClassifyExit | main.py:224-233 | "exit" in any letter case with any blank padding leaves the listing |
| Pagination.TrimLeftPadded | main.py:224 | stripping removes exactly the leading blanks before a word |
| Pagination.TrimRightPadded | main.py:224 | stripping removes exactly the trailing blanks after a word |
| Pagination.StripPadded | main.py:224 | an answer surrounded by blanks strips to the bare word |
| Pagination.DecimalRoundTrip | main.py:228-229 | reading the decimal spelling of a number gives the number back |
| Pagination.ClassifyId | main.py:224-230 | an answer consisting of a donor id, with any surrounding blanks, selects that donor |
| Pagination.LeadingMores | main.py:219-227 | the count of leading "more" answers: all answers before it are "more" and the next one is not |
| Pagination.Paginate | main.py:217-236 | with n matches: page 0 shows [0, min(10, n)), page j >= 1 shows [50j, min(50j + 50, n)); every page is nonempty and within n; no page shows positions 10..49; pages shown = min(leading "more" answers + 1, page count); the loop ends by exhaustion iff the "more" answers outrun the pages; otherwise the first other answer decides (details, exit, invalid), or input ran out |
| Search.ActiveDonors | main.py:167-173 | the search starts from exactly the active donors |
| Search.DistancesRoundTrip | main.py:210-211 | attaching distances keeps the donors and their order (projecting the donors back out gives the input), and each match's distance is the one to its own donor's coordinates |
| Search.MatchingComplete | main.py:196-202 | every donor of the requested (indexed) group is among the matches |
| Search.SearchDonors | main.py:190-214 | "no donors" iff no active donor has the requested indexed group; otherwise the ranked list holds only active donors of that group with their distances, is sorted, is a permutation of the candidates, and is stable |
| Search.LeadingMoreAnswers | main.py:219-227 | the paging loop goes on for exactly the answers at the front that read "more" once stripped and lower-cased; the next answer does not |
| Search.ShowPages | main.py:217-236 | the pages printed are the slices of the ranked list at the page windows (10 first, then 50 from position 50 on), as many as the leading "more" answers allow; the ending is exhaustion iff those answers outrun the pages, otherwise the first other answer decides |
| Search.SearchSession | main.py:182-236 | "nothing found" iff no active donor has the requested indexed group; otherwise the ranked list is sorted and stable, the pages shown are its windows sized by the leading "more" answers, and the session ends as the first non-"more" answer (or exhaustion, or end of input) decides |

## Left out

- MySQL access (connections, cursors, SQL text, commit and close) is replaced by the in-memory `Registry`. Storage errors are not modelled. This includes the `except Error` paths and the failure of the `finally` clause when no connection was opened.
- The interactive menu, all printing and `input()` are left out. The answers to the paging prompt are a parameter.
- The haversine formula is floating-point trigonometry and is left out. Distance is the parameter `distanceTo`, and distances are exact reals. A math-domain error from rounding is not modelled.
- Parsing of dates with `strptime` and of numbers in `register_donor` is left out, and so are their `ValueError`s. Dates are day numbers, and the registration fields arrive already typed.
- `show_donor_details` is left out: it only reads and prints a row. A digit answer ends the paging loop with `DetailsRequested(id)`.
- Running out of answers while a page is open ends the loop as `InputEnded`. Python would raise `EOFError` there instead.
- Pagination.Classify: lower-casing and `isdigit` are modelled for ASCII letters and digits only, and white space for ASCII only (see StripPadded). Non-ASCII case mappings, digits and white space are not, for example fullwidth digits or U+00A0. A digit answer longer than 4300 digits, on which `int()` at main.py:229 raises `ValueError` and ends the program, is read as an id.
- StripPadded: "blank" is every ASCII character `str.isspace` accepts (space, tab through carriage return, and 0x1C..0x1F). Non-ASCII white space such as U+0085 or U+00A0 is not modelled.
- TrimLeftPadded: blanks are the ASCII white space only, as for StripPadded.
- TrimRightPadded: blanks are the ASCII white space only, as for StripPadded.
- ClassifyId: padding is ASCII white space only, as for StripPadded. A digit answer longer than 4300 digits makes `int()` at main.py:229 raise `ValueError` (Python's default limit on integer string conversion); the model reads it as an id.
- Pagination.DecimalRoundTrip: holds for spellings of any length, while `int()` at main.py:229 raises `ValueError` beyond 4300 digits; the model has no such limit.
- ClassifyMore: padding is ASCII white space only, as for StripPadded.
- ClassifyExit: padding is ASCII white space only, as for StripPadded.
- Eligibility.Reactivate: the rows the scan selects are processed in table order. The query has no ORDER BY, so that order is an assumption.
- Search.ActiveDonors: states membership and length only. The table order of the rows it keeps is stated only through its definition. The SELECT at main.py:171 has no ORDER BY, so table order is an assumption; it decides how the stable sort breaks ties between equal distances.
