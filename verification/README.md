# steamgifts-bot harvest loop, modelled in Dafny

This project models the decision core of the SteamGifts entry bot (`SteamGifts` in
`src/main.py`). One *cycle* does the following:

- It refreshes the session's token and point balance from the home page.
- It walks the chosen category's giveaway listing page by page, from page 1, until the first
  page that has no non-pinned giveaways.
- On each page it applies the budget policy to every row, in order. A faded row is skipped.
  A balance of zero or below the configured minimum pauses the cycle (cooldown). Otherwise
  the cost label is parsed. A row the balance cannot pay for is skipped. Anything else is
  submitted, and its cost is charged only when the site answers `"success"`.

Modules:

- `Wrappers` (`wrappers.dfy`): `Option`, `Result`.
- `Decimal` (`decimal.dfy`): what `"%d" % n` writes (`Render`) and what `int()` reads from a
  run of ASCII digits (`ParseNat`). The two are proved inverse.
- `Listing` (`listing.dfy`): categories and their query templates, page URLs, giveaway rows
  (`Entry`), listing pages (`Page`), the processing order of a page's rows (`EntryList`), and
  cost-label parsing (`StripLabel`, `ParseCost`).
- `Harvest` (`harvest.dfy`): the per-row policy (`Decide`), one row with its submission
  (`Step`), a page's rows (`RunEntries`), the page walk (`Walk`), the session refresh
  (`UpdateInfo`) and one cycle (`StartCycle`). The budget is a `Ledger`: the balance plus every
  submission made so far. Submission k is answered by `replies[k]`, the `type` field of the
  site's k-th JSON reply.
- `HarvestLoop` (`harvest_loop.dfy`): the walk written as the program runs it, a `while` over
  page numbers around a loop over the rows. It is proved equal to `Walk`.
- `HarvestProofs` (`harvest_proofs.dfy`): properties that relate several runs.

The program never returns from a cycle: it sleeps and calls `start()` again. Here a cycle
returns how it stopped instead:

- `Cooldown`: the balance was under the threshold when a row was reached.
- `Exhausted`: a page had no non-pinned rows.
- `Failed`: the program would have raised. This covers a cost label `int()` rejects and a
  submission whose POST never got through (`replies` ran out). A row without a cost label
  raises in the program, but only `DecideAsWritten` gives that fault (`MissingCostLabel`); the
  cycle functions use `Decide`, which skips such a row (see Findings).

A listing is a finite sequence of pages. The model assumes that any page number past its end
is served as a page without rows. The program itself only relies on finding an empty
non-pinned list there, next to a pinned block (src/main.py:72).

Notes on the program's behaviour:

- A missing balance indicator raises `AttributeError` (`None.text`, src/main.py:48), which the
  `except TypeError` does not catch. Only a missing token gives the "cookie is not valid" exit.
  Both end the run, and `UpdateInfo` keeps them apart (`InvalidCookie`, `BalanceMissing`).
- The page that ends the walk is itself fetched: with rows on pages 1 and 2 and none on
  page 3, pages 1, 2 and 3 are fetched (`ThirdPageEndsListing`).
- A row without a cost label is meant to be skipped, but `find_all(...)[-1]` raises first.
  See Findings.

## Model

| member | source | states |
|---|---|---|
| Decimal.ParseNat | src/main.py:102 | `int()` of a string (a stripped cost label here, the balance text at line 48) succeeds exactly on a non-empty run of digits; the result is 0 exactly when every digit is '0' |
| Decimal.ParseRender | src/main.py:61 | reading back the `%d` rendering of any page number gives that number |
| Decimal.LeadingZero | src/main.py:102 | `int()` ignores a leading zero: prefixing a run of digits with '0' does not change what it reads as, so "07" reads as 7; with `RenderOfValue` this fixes the value of every run of digits |
| Decimal.RenderOfValue | src/main.py:61 | rendering the value of a numeral without leading zeros gives the numeral back, so `%d` and `int()` are a bijection on canonical numerals |
| Listing.InterpolateAt | src/main.py:61 | `%` on a template replaces its `%d` placeholder by the page number and keeps the text around it |
| Listing.PageUrlShape | src/main.py:61-62 | every page URL is the base, `/giveaways/search?page=`, the page number in decimal, then the category's fixed query |
| Listing.PageUrlInjective | src/main.py:27-35 | two page URLs are equal only for the same category and the same page number |
| Listing.EntryList | src/main.py:68-80 | a page's rows are the pinned rows first when the flag is set, then the non-pinned rows, both in document order; with the flag off only the non-pinned rows |
| Listing.StripLabel | src/main.py:96 | the stripped label has no `(`, `)` or `P` left, is shorter by exactly the number of those characters, and a label without them is unchanged |
| Listing.StripLabelDeletes | src/main.py:96 | stripping deletes the parentheses and `P`s instead of replacing them: every other character occurs as often as before, and the removed ones are exactly the label's parentheses and `P`s |
| Listing.StripLabelAppend | src/main.py:96 | stripping removes characters one by one and keeps the order of the rest |
| Listing.ParseCost | src/main.py:96-102 | a label parses exactly when what is left after stripping is a non-empty run of digits |
| Listing.ParseCostOfLabel | src/main.py:96 | the label `(nP)` parses to n for every n |
| Listing.PaddedLabel | src/main.py:96-102 | a zero-padded label `(0nP)` costs n for every n, as `int()` reads "05" as 5 |
| Listing.FifteenPoints | src/main.py:96 | the label "(15P)" costs 15 |
| Harvest.Decide | src/main.py:82-107 | checks in the program's order: a faded row is skipped; a pause happens exactly for a non-faded row met with a balance of zero or under the threshold, whatever its label; a submission happens exactly for a non-faded row, balance non-zero and at least the threshold, whose label parses to a cost the balance covers; such a row whose label `int()` rejects aborts with that label |
| Harvest.DecideAsWritten | src/main.py:93-98 | the program raises on exactly the non-faded rows without a cost label that are reached above the threshold |
| Harvest.Step | src/main.py:82-114 | one row: an eligible row is submitted with the next reply, at its parsed cost, and that cost is charged exactly when the reply is "success"; with no reply left the cycle fails on that row; a label `int()` rejects fails the cycle; a skipped row changes nothing; the balance never rises and never goes below zero; start balance less accepted costs is conserved |
| Harvest.RecordAttempt | src/main.py:109-111 | recording a submission charges its cost only if the reply was "success", and keeps every earlier submission funded and answered |
| Harvest.RunEntries | src/main.py:82-114 | a page's rows: an eligible first row is submitted with the next reply at its parsed cost; earlier submissions are kept; balance equals start less accepted costs and stays non-negative; every submission was funded and carries its reply; a cooldown happens only with a balance of zero or under the threshold |
| Harvest.Walk | src/main.py:54-116 | the page walk keeps the same ledger invariants as a page and appends the pages it fetched after the earlier ones |
| Harvest.WalkVisits | src/main.py:54-78 | the walk fetches pages n, n+1, ... in order; every fetched page but the last has non-pinned rows; the walk is `Exhausted` exactly when the last one has none |
| Harvest.UpdateInfo | src/main.py:43-52 | the refresh succeeds exactly when the token field and a numeric balance are present; a missing token is the invalid-cookie exit |
| Harvest.StartCycle | src/main.py:132-142 | a cycle halts at the refresh exactly when it fails. Otherwise it walks from page 1 and ends with balance = refreshed balance less accepted costs, never negative, every submission funded and answered in order |
| HarvestProofs.RefreshReadsBalance | src/main.py:46-48 | a home page carrying a token and the decimal balance n refreshes to that token and n |
| HarvestLoop.ProcessEntries | src/main.py:82-114 | the loop over a page's rows, with one mutable balance, computes exactly `RunEntries` |
| HarvestLoop.HarvestPages | src/main.py:54-116 | the `while` over page numbers computes exactly `Walk` from page 1 |
| HarvestProofs.RunEntriesAppend | src/main.py:80-82 | rows are processed in list order: a later part of the list runs only if the earlier part did not stop the page, starting from its ledger |
| HarvestProofs.EligibleEntrySubmitted | src/main.py:102-111 | an eligible row reached while the page is still running is the next submission, at its parsed cost, answered by the next reply, and it stays recorded whatever rows follow |
| HarvestProofs.FadedEntryIsInert | src/main.py:83-84 | inserting a faded row anywhere in a page changes nothing: no submission, no charge, no cooldown |
| HarvestProofs.ThresholdStopsPage | src/main.py:86-91 | when the first non-faded row is met with a balance of zero or under the threshold, the page stops with a cooldown, before any label is parsed and whatever rows follow |
| HarvestProofs.ThresholdExample | src/main.py:86-91 | with 3 points and a threshold of 6, the cycle cools down before an affordable 1-point row |
| HarvestProofs.WalkIgnoresPagesAfterEmpty | src/main.py:72-78 | neither the pinned rows of the first page without non-pinned rows nor any later page has any effect on the walk |
| HarvestProofs.ThirdPageEndsListing | src/main.py:72-78 | rows on pages 1 and 2 and none on page 3: pages 1, 2 and 3 are fetched and page 4 is never looked at |
| HarvestProofs.WalkSeesEntryLists | src/main.py:66-80 | a page contributes exactly its row list, and only when it has non-pinned rows |
| HarvestProofs.PinnedIgnoredWhenOff | src/main.py:69-71 | with the pinned flag off, the pinned rows of every page have no effect on the walk |
| HarvestProofs.AnsweredAt | src/main.py:109-111 | the k-th submission was accepted exactly when the k-th reply says "success" |
| HarvestProofs.SubmittedFromList | src/main.py:108-109 | every submission made while processing a list of rows is for one of those rows |
| HarvestProofs.SubmissionsMeetPolicy | src/main.py:82-111 | in a cycle, submission k was for a non-faded row whose label parsed to the charged cost, made while the balance was at least 1, at least the threshold and at least that cost, and accepted exactly when reply k says "success" |
| HarvestProofs.AsWrittenDiffersOnMissingLabel | src/main.py:93-98 | the program and the intended policy differ exactly on a non-faded row without a cost label met above the threshold: the program raises, the intended policy skips |
| HarvestProofs.MissingLabelRaisesAsWritten | src/main.py:93-98 | a concrete row without a cost label, 10 points, no threshold: the program raises, the intended policy skips |
| HarvestProofs.MissingLabelSkipped | src/main.py:95-98 | with the intended policy, a row without a cost label met above the threshold is skipped and the page goes on unchanged |

## Left out

- HTTP: the aiohttp session, the GET of each page, the POST of each entry and JSON decoding
  (src/main.py:38-41, 124-127, 133-134) are network I/O. Pages and replies are inputs.
- HTML: BeautifulSoup queries (src/main.py:47-48, 66-75, 93, 100, 108) are a foreign library.
  Rows arrive already extracted. A row's id is an opaque string. The giveaway name is used
  only for logging and is not modelled.
- Retries: tenacity's five attempts with a one-second wait (src/main.py:37, 123) are not
  modelled. A `replies` sequence that runs out stands for a POST that failed every retry. A
  GET that fails every retry is not modelled; every page is served.
- Time and randomness: the cooldowns, the 3-7 second jitter after an accepted entry and the
  un-awaited sleep before exit (src/main.py:51, 89, 114, 120) have no effect on the state.
- The endless restart: a cycle ends with a signal instead of calling `start()` again
  (src/main.py:90, 121, 142). The `break` after `await self.start()` (line 91) is never reached
  in the program, because `start()` does not return, so it is not modelled.
- A listing that never ends: the walk is over a finite page sequence. Against a site that
  kept serving rows, the program would walk forever.
- Logging, the cookie dictionary and configuration plumbing (src/main.py:12, 16-25, 58-59,
  139-140).
- The exceptions of markup the program does not expect are not modelled. These are a page
  without the pinned block (`pinned.find_next_siblings()` on `None`, line 72), a row without a
  name link (line 100), a reply without a `type` field (line 129) and an unknown category key
  (line 61). A category is an enumeration.
- Decimal.ParseNat: reads only ASCII digits. Python's `int()` also accepts surrounding
  whitespace, a sign, underscores between digits and non-ASCII digits. A label such as
  `"(-5P)"`, which the program would read as -5, here is a parse failure.

## Findings

| source | as written | input that shows it | evidently intended | confidence | as-written member | corrected member |
|---|---|---|---|---|---|---|
| src/main.py:93-98 | `item.find_all('span', ...)[-1]` raises `IndexError` when the row has no cost span, so the `else: continue` branch is never reached | a non-faded row without a `giveaway__heading__thin` span, met with 10 points and threshold 0 (`HarvestProofs.MissingLabelRaisesAsWritten`) | skip the row and go on with the page | medium, not executed | Harvest.DecideAsWritten | Harvest.Decide |

`HarvestProofs.AsWrittenDiffersOnMissingLabel` shows that the two policies differ on exactly
these rows. `HarvestProofs.MissingLabelSkipped` proves the intended behaviour of `Harvest.Decide`,
which the rest of the model uses.
