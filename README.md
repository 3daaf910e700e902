# Bitaxe Discord bot: alert logic, history and dashboard

This project models the decision logic of a Discord bot that watches a
Bitaxe Bitcoin miner over its HTTP status endpoint, and proves what that
logic promises. All of the logic lives in one Python file,
`bitaxediscordbot.py`. The model has four parts.

- **The alert loops of `monitor_changes`.** The bot polls the miner every
  60 seconds. The loop that runs (the `while True` at line 766) announces
  only a new best difficulty. The flag-based loop after it (lines 797-826)
  is never reached. It would also announce a switch to the fallback pool, an
  unreachable device, a hashrate below 350 MH/s, and a hashrate back at
  400 MH/s or more.
  - Module `Alerts` models one poll as a function (`Tick`) over a small state:
    the last best-difficulty text and three "already announced" flags. `Tick`
    takes its best-difficulty rule from the running loop and its flag rules
    from the unreachable loop.
  - `Run` folds `Tick` over a finite sequence of polls.
  - The two loops of the source are methods proved against that fold.
    `MonitorChanges` is the loop that runs, and sends only new-best alerts.
    `MonitorAll` is the unreachable flag-based loop, with the running loop's
    best-difficulty rule in place of its own (see below).
  - The lemmas show that each alert fires once per episode. There is one
    unreachable alert per outage, one fallback alert per switch to the
    fallback pool, and one new-best alert per change of the text. The first
    reading is silent. The hashrate alerts have a dead band between 350 and
    400 MH/s.
- **`parse_value` of the `best` command.** Module `Difficulty` models it. It
  strips the text, takes a trailing `M` (times 10^6) or `K` (times 10^3), and
  parses the rest as Python's `float` would. It works over exact reals with a
  decimal grammar (module `Text` gives whitespace stripping). The parse is
  proved to succeed exactly on the stated grammar, and to give None, never 0,
  everywhere else. Writing a count with a suffix and parsing it back gives the
  scaled count.
- **The history of the `best` command.** Module `History` covers the
  conditional append and the ranking.
  - A reading is appended only when it parses and differs from the last
    stored value. Reading it again adds nothing.
  - The ranking is an insertion sort. It is proved to be a permutation,
    non-increasing, and stable for equal keys, as Python's
    `sorted(..., reverse=True)` is.
  - Class `HistoryStore` holds the records that the command loads and
    extends.
- **The `dashboard` command.** Module `Dashboard` covers:
  - the highlight tracker, which marks a refresh whose parsed best difficulty
    rises above the last one that parsed;
  - `parse_best`, both as written and as intended;
  - the hashrate and stratum icons, with the hashrate tiers tied to the alert
    thresholds.

An HTTP poll is a `Device.Snapshot`. A failed request, a non-200 reply, an
empty body and an empty JSON object all become `Unreachable`. Otherwise the
snapshot is `Present` with the fields the logic reads.

Three choices of the code worth knowing. The model follows the first two;
for the third it assumes every send succeeds:
- New-best detection compares raw strings: "568M" and "568.0M" are different.
  The history compares parsed values, so it stores that pair once.
- A failed poll leaves the fallback flag alone.
- A send that fails is not caught inside the monitor loop.

There is one more disagreement, inside the code itself. The dead flag-based
loop alerts on the very first reading (line 802 compares against `None`) and
skips a missing `bestDiff`, while the loop that runs stays silent on the
first reading (lines 771-772) and compares the text "N/A" like any other. The
model keeps the running loop's rule for best difficulty and the dead loop's
rules for the three flags.

## Model

| member | source | states |
|---|---|---|
| Text.Strip | bitaxediscordbot.py:587 | `str.strip()` over ASCII whitespace: `StripUnique` pins it down as the slice between the first and last non-space characters, and the rows below give its laws |
| Text.StripIdempotent | bitaxediscordbot.py:587 | stripping twice is stripping once |
| Text.StripPadded | bitaxediscordbot.py:587 | whitespace added around a text does not change its stripped form |
| Text.StripTight | bitaxediscordbot.py:587 | a text without outer whitespace is its own stripped form |
| Text.StripAllSpace | bitaxediscordbot.py:587 | an all-whitespace text strips to the empty text |
| Text.StripUnique | bitaxediscordbot.py:587 | the stripped form is the slice between the first and last non-space characters |
| Text.TrimLeftSlice | bitaxediscordbot.py:587 | left stripping removes a whitespace-only prefix and leaves a suffix of the input |
| Text.TrimRightSlice | bitaxediscordbot.py:587 | right stripping removes a whitespace-only suffix and leaves a prefix of the input |
| Text.NumberStripUnique | bitaxediscordbot.py:595 | the trim `float` applies is the slice between the first and last characters outside tab .. carriage return and space |
| Text.NumberStripTight | bitaxediscordbot.py:595 | a text without such outer whitespace is left as it is |
| Text.NumberStripOfStrip | bitaxediscordbot.py:587-595 | after `str.strip()` the trim of `float` removes nothing more |
| Text.LowerEffect | bitaxediscordbot.py:118 | after lower-casing no upper-case ASCII letter is left; every other character is kept; each upper-case letter becomes its lower-case partner |
| Text.LowerIdempotent | bitaxediscordbot.py:118 | lower-casing twice is lower-casing once |
| Difficulty.ParseFloat | bitaxediscordbot.py:595 | Python's `float` over decimal literals, after skipping the whitespace `float` itself skips: `ParseFloatDefined` says exactly when it succeeds, `ParseFloatValue` what it returns |
| Difficulty.ParseValue | bitaxediscordbot.py:581-597 | `parse_value`: `ParseValueDefined` says it succeeds exactly on the `IsMagnitude` grammar; the literal, round-trip and example lemmas below give its values |
| Difficulty.ParseUnsignedDefined | bitaxediscordbot.py:595 | the unsigned decimal parse succeeds exactly on digits with at most one point and at least one digit |
| Difficulty.ParseFloatDefined | bitaxediscordbot.py:595 | `float` succeeds exactly when the text, with tab .. carriage return and space trimmed, is an optionally signed unsigned literal |
| Difficulty.ParseFloatValue | bitaxediscordbot.py:595 | the value of such a literal is its whole part plus its fraction, negated under a minus sign |
| Difficulty.ParseFloatNegativeExample | bitaxediscordbot.py:595 | "-5" is -5 |
| Difficulty.ParseFloatPointExample | bitaxediscordbot.py:595 | " +.5" is 0.5 |
| Difficulty.ParseRejectsSeparatorBeforeSuffix | bitaxediscordbot.py:587-595 | a separator character 0x1c .. 0x1f before the suffix is kept by `strip` and refused by `float`, so "5\x1cM" yields None while "5M" is 5000000 |
| Difficulty.ParseValueDefined | bitaxediscordbot.py:581-597 | `parse_value` returns a value exactly on a float literal, bare or followed by `M` or `K`, and None otherwise |
| Difficulty.ParseWholeLiteral | bitaxediscordbot.py:587-595 | a whole number, bare or with `K` or `M`, parses to its value times 1, 10^3 or 10^6 |
| Difficulty.ParseFractionLiteral | bitaxediscordbot.py:587-595 | a number with a decimal point, bare or with `K` or `M`, parses to whole part plus fraction, scaled by the suffix |
| Difficulty.FormatParseRoundTrip | bitaxediscordbot.py:587-595 | writing a count in decimal with a suffix and parsing it back gives the count scaled by the suffix |
| Difficulty.ParseValuePadded | bitaxediscordbot.py:587 | whitespace around the text does not change the parse |
| Difficulty.ParseExampleMillions | bitaxediscordbot.py:588-590 | "568M" is 568000000 |
| Difficulty.ParseExampleMillionsPoint | bitaxediscordbot.py:587-595 | "568.0M" is 568000000 too |
| Difficulty.ParseExampleThousands | bitaxediscordbot.py:591-593 | "12.3K" is 12300 |
| Difficulty.ParseExampleBare | bitaxediscordbot.py:595 | "950" is 950 |
| Difficulty.ParseRejectsLetters | bitaxediscordbot.py:587-597 | a text that strips to nothing, or whose stripped form starts with a character other than a digit, a sign or a point, yields None |
| Difficulty.ParseExamplesRejected | bitaxediscordbot.py:595-597 | "N/A" and "not-a-number" yield None, not 0 |
| Difficulty.WholeValueDigits | bitaxediscordbot.py:595 | the decimal digits of a count read back as that count |
| History.AppendBest | bitaxediscordbot.py:602-609 | at most one record is added and the stored ones are kept; one is added exactly when the text is not "N/A", parses, and differs from the last stored value; the new record holds the time and the parsed value |
| History.AppendKeepsNoRepeats | bitaxediscordbot.py:601-603 | if no two neighbouring records hold the same value, appending keeps it so |
| History.AppendIdempotent | bitaxediscordbot.py:603 | a second reading whose text parses to the same value as the first adds nothing, however it is spelled |
| History.AppendRepeated | bitaxediscordbot.py:602-609 | any number of readings that all parse to one value change the history as the first reading does |
| History.RespellingStoredOnce | bitaxediscordbot.py:602-609 | "568M" and then "568.0M" store a single record |
| History.Insert | bitaxediscordbot.py:626 | inserting adds exactly the one record to the multiset of records |
| History.RankDescending | bitaxediscordbot.py:626 | the ranked history is a permutation of the history |
| History.InsertDescending | bitaxediscordbot.py:626 | inserting into a non-increasing sequence keeps it non-increasing |
| History.RankIsDescending | bitaxediscordbot.py:626 | the ranking is non-increasing in the value, a record without a value counting as 0 |
| History.InsertWithKey | bitaxediscordbot.py:626 | inserting places a record ahead of every record with an equal key |
| History.RankIsStable | bitaxediscordbot.py:626 | records with equal keys keep their stored order in the ranking |
| History.HistoryStore.constructor | bitaxediscordbot.py:240-244 | the store starts with the records already saved |
| History.HistoryStore.Best | bitaxediscordbot.py:570-626 | an unreachable device leaves the history alone and yields nothing; otherwise the history is extended by the append rule and the ranked history is returned |
| Alerts.BestStep | bitaxediscordbot.py:771-776 | the first reading is remembered silently; later, a text different from the last one is announced and remembered |
| Alerts.FallbackStep | bitaxediscordbot.py:805-809 | the flag becomes the fallback status, and the alert goes out exactly when the flag rises |
| Alerts.ReachabilityStep | bitaxediscordbot.py:810-824 | the flag records that the poll failed, and the alert goes out exactly when the flag rises |
| Alerts.HashrateStep | bitaxediscordbot.py:816-823 | below 350 the flag is set, from 400 up it is cleared, in between it stays; the low alert goes out on the rise, the recovery on the fall |
| Alerts.Tick | bitaxediscordbot.py:797-826 | one poll, with the best-difficulty rule of lines 771-776: `TickState`, `TickKindsDistinct`, the edge lemmas and `TickCounts` below state its effect |
| Alerts.TickState | bitaxediscordbot.py:797-826 | the unreachable flag ends up set exactly on a failed poll; a failed poll keeps the best text and the fallback flag, clears the hashrate flag and sends only the unreachable alert, and only when it was not announced yet; a successful poll remembers its best-difficulty text |
| Alerts.TickKindsDistinct | bitaxediscordbot.py:797-826 | one poll sends at most one alert of each kind |
| Alerts.FirstReadingSilent | bitaxediscordbot.py:771-772 | the first successful poll only remembers the best-difficulty text |
| Alerts.NewBestOnChange | bitaxediscordbot.py:773-776 | later, a new-best alert for the text is sent exactly when it differs from the last one |
| Alerts.NewBestOnRespelling | bitaxediscordbot.py:773-776 | "568.0M" after "568M" is announced as a new best, though the history stores the pair once |
| Alerts.FallbackEdge | bitaxediscordbot.py:805-809 | the fallback alert goes out exactly on a successful poll on the fallback pool with the flag clear; the flag follows the pool status and survives failed polls |
| Alerts.UnreachableEdge | bitaxediscordbot.py:810-824 | the unreachable alert goes out exactly on a failed poll with the flag clear; a successful poll clears the flag |
| Alerts.HashrateHysteresis | bitaxediscordbot.py:816-823 | a low reading with the flag clear alerts and sets it; a reading of 400 or more with the flag set recovers and clears it; readings in between neither alert nor change the flag |
| Alerts.OutageClearsHashrateFlag | bitaxediscordbot.py:810-814 | a failed poll clears the hashrate flag without a notification |
| Alerts.TickCounts | bitaxediscordbot.py:797-826 | how many alerts of each kind one poll sends, in terms of the poll and the flags |
| Alerts.TickCountUnreachable | bitaxediscordbot.py:810-814 | a failed poll sends nothing but an unreachable alert, and that only with the flag clear |
| Alerts.TickCountPresent | bitaxediscordbot.py:799-824 | a successful poll sends no unreachable alert, and new-best, fallback, low and recovery alerts only under their conditions |
| Alerts.Run | bitaxediscordbot.py:797-826 | the loop over a finite sequence of polls: `RunConcat` splits it, and `OneAlertPerOutage`, `OneAlertPerFallback` and `OneAlertPerBestChange` equate its alerts with separately counted episodes |
| Alerts.RunConcat | bitaxediscordbot.py:797-826 | running the loop over two stretches of polls in turn equals running it over both |
| Alerts.OneAlertPerOutage | bitaxediscordbot.py:810-813 | the number of unreachable alerts equals the number of outages |
| Alerts.OneAlertPerFallback | bitaxediscordbot.py:805-809 | the number of fallback alerts equals the number of switches to the fallback pool |
| Alerts.OneAlertPerBestChange | bitaxediscordbot.py:771-776 | the number of new-best alerts equals the number of changes of the text after the first reading |
| Alerts.FallbackOncePerStretch | bitaxediscordbot.py:805-809 | over polls that all report the fallback pool the alert goes out once, or never if already announced |
| Alerts.OutageOncePerStretch | bitaxediscordbot.py:810-813 | over polls that all fail the unreachable alert goes out once, or never if already announced |
| Alerts.OutagesOfStretch | bitaxediscordbot.py:810-813 | a stretch of failed polls at the front is one outage |
| Alerts.TwoOutages | bitaxediscordbot.py:810-824 | two outages separated by a successful poll are announced twice |
| Alerts.LowOncePerStretch | bitaxediscordbot.py:818-820 | over readings below 350 the low alert goes out once, or never if already announced, and no recovery is sent |
| Alerts.DeadBandSilent | bitaxediscordbot.py:818-823 | readings from 350 up to 400 send neither hashrate alert and keep the flag |
| Alerts.RecoveriesFollowLows | bitaxediscordbot.py:814-823 | every recovery alert answers an earlier low alert, or a flag already set at the start |
| Alerts.HysteresisExample | bitaxediscordbot.py:816-823 | readings 500, 300, 300, 420 send one low alert at 300 and one recovery at 420 |
| Alerts.NewBestOnly | bitaxediscordbot.py:775 | the new-best alerts of a run are as many as the run has |
| Alerts.NewBestOnlyKinds | bitaxediscordbot.py:775 | an alert is kept exactly when it is a new-best alert of the run |
| Alerts.TickNewBest | bitaxediscordbot.py:771-776 | the new-best alerts of one poll: one for a changed text after the first reading, none otherwise |
| Alerts.MonitorChangesStep | bitaxediscordbot.py:767-776 | one iteration of the running loop in terms of the alert machine |
| Alerts.MonitorChanges | bitaxediscordbot.py:765-782 | the running loop sends exactly the new-best alerts of the alert machine, one per change of the text |
| Alerts.OutageSilentAsRunning | bitaxediscordbot.py:766-826 | a failed poll is announced by the flag-based loop and not by the running one |
| Alerts.Poll | bitaxediscordbot.py:798-824 | one pass of the flag-based loop body computes the new state and the alerts of one tick |
| Alerts.MonitorAll | bitaxediscordbot.py:792-826 | the flag-based loop ends in the state, and sends the alerts, of the alert machine run over the polls |
| Dashboard.NumberChars | bitaxediscordbot.py:55-56 | the intended character filter is never longer than its input; `NumberCharsOnly` and `NumberCharsConcat` say what it keeps |
| Dashboard.ParseBest | bitaxediscordbot.py:52-57 | the intended `parse_best`: `ParseBestDefined` says it succeeds exactly on the unsigned literals that survive the filter, never negative, and `ParseBestOfCount` that "568M" reads as 568 |
| Dashboard.NumberCharsOfChar | bitaxediscordbot.py:54-55 | on one character the filter keeps a digit or a point, turns a comma into a point and drops anything else; with `NumberCharsConcat` this fixes it on every text |
| Dashboard.NumberCharsOnly | bitaxediscordbot.py:54-55 | the kept characters are digits and points only |
| Dashboard.NumberCharsConcat | bitaxediscordbot.py:54-55 | the filter works character by character |
| Dashboard.ParseBestDefined | bitaxediscordbot.py:54-56 | the intended parse succeeds exactly when the kept characters form an unsigned decimal, and is never negative |
| Dashboard.ParseBestOfCount | bitaxediscordbot.py:54-56 | a count followed by a unit reads as the bare count: the unit is dropped, not applied |
| Dashboard.Refresh | bitaxediscordbot.py:191-198 | highlight exactly when both values parsed and the new one is larger; the new value replaces the old only when it parsed |
| Dashboard.Highlights | bitaxediscordbot.py:185-198 | one highlight flag per refresh |
| Dashboard.LatestParsedCons | bitaxediscordbot.py:197-198 | the remembered value after a first refresh and then more is the one the later refreshes leave |
| Dashboard.LatestParsedSkips | bitaxediscordbot.py:197-198 | unparsable readings leave the remembered value alone |
| Dashboard.HighlightsIff | bitaxediscordbot.py:185-198 | a refresh is highlighted exactly when its value parsed and exceeds the last value that parsed before it |
| Dashboard.RunDashboard | bitaxediscordbot.py:182-198 | the refresh loop yields the highlight flags of the tracker, started from the first reading's parse |
| Dashboard.NeverHighlightsAsWritten | bitaxediscordbot.py:52-59 | with `parse_best` as written no refresh is ever highlighted |
| Dashboard.ParseBestExamples | bitaxediscordbot.py:52-57 | the intended `parse_best` reads "500M" as 500 and "568M" as 568 |
| Dashboard.HighlightCounterexample | bitaxediscordbot.py:188-194 | after "500M", reading "568M" is highlighted by the intended parse and not by the written one |
| Dashboard.TierOf | bitaxediscordbot.py:83-94 | a reading `float` rejects skips the thresholds and is shown raw |
| Dashboard.IconOfReading | bitaxediscordbot.py:83-94 | the 💪 icon marks a reading of 400 and up and also a reading `float` rejects; ⚡ marks exactly 350 up to 400 and 🔥 exactly below 350 |
| Dashboard.TierAgreesWithAlerts | bitaxediscordbot.py:87-92 | the weak tier is below 350 and the strong one from 400 on, the alert thresholds; a weak reading leaves the low-hashrate flag set, a strong one clears it, a normal one keeps it |
| Dashboard.StratumOf | bitaxediscordbot.py:114-119 | an empty URL or "N/A" shows no stratum |
| Dashboard.PoolInAnyCase | bitaxediscordbot.py:118 | a URL containing "pool" in any letter case shows the pool icon |
| Dashboard.StratumIgnoresCase | bitaxediscordbot.py:114-118 | URLs equal up to letter case get the same icon, unless one is "N/A" |

## Left out

- The Discord side is not modelled. That covers sending, editing and pinning
  messages, embeds, commands, the help text and `on_ready`. An alert is an
  `Alerts.Event` value in the order it would be sent.
- The HTTP request in `fetch_bitaxe_data` is not modelled. A poll arrives as
  a `Device.Snapshot`. Fields of unexpected JSON types are not modelled: a
  non-numeric `hashRate` would raise in the comparisons at 818 and 821.
- The history file (`load_history`, `save_history`) is not modelled: the
  history is the sequence held by `History.HistoryStore`.
- Scheduling is not modelled: `asyncio` tasks, the sleep between polls and
  the background console logger. The loops run over a finite sequence of
  polls instead of forever.
- Presentation is not modelled. That covers the f-string texts, `format_number`,
  the temperature, uptime, voltage and current formatters, the console
  colours, time zones and timestamps (a timestamp is an opaque string).
- The commands that only display fields (`status`, `hashrate`, `temp` and the
  rest) are not modelled. They hold no logic beyond reading the JSON.
- The stub `fetch_bitaxe_data` at line 40 and the first `on_ready` at line
  211 are not modelled, because later definitions replace both.
- Difficulty.ParseFloat: covers decimal literals only. Python's `float` also
  accepts exponents, `inf`, `nan`, underscores between digits, non-ASCII
  digits and non-ASCII whitespace. The model's whitespace is the ASCII set
  `float` skips (tab .. carriage return and space), narrower than the set
  `str.strip` removes.
- Dashboard.NumberChars: keeps ASCII digits only, where the pattern `\d` at
  line 55 also keeps other Unicode decimal digits.
- Numbers are exact reals, not binary doubles, so rounding in `float` and in
  the multiplication by 1e6 or 1e3 is not modelled.
- A stored record whose "best" is present but null breaks `sorted` (it
  compares None with numbers). This is not modelled. `best: None` in a
  `History.Record` stands for a missing key, which ranks as 0.
- A failed fetch during the dashboard loop is not modelled. There
  `data.get` on None raises and ends the command, so
  `Dashboard.RunDashboard` takes the best-difficulty texts of successful
  fetches only.
- Dashboard.TierOf: takes the hashrate after Python's `float` conversion (None
  when it fails) rather than the raw JSON value.
- Text.Strip: removes ASCII whitespace only, where `str.strip()` at line 587
  also removes U+0085, U+00A0, U+2000 .. U+200A, U+3000 and other Unicode
  spaces. So `ParseValue("5M\u{a0}")` is None, while the bot reads 5000000.
- Text.Lower: lower-cases ASCII letters only, where Python's `str.lower`
  covers all of Unicode.
- A send that raises inside the monitor loop would end the loop. This is not
  modelled: every send succeeds.

## Findings

| source | as written | input that shows it | evidently intended | confidence | as-written member | corrected member |
|---|---|---|---|---|---|---|
| bitaxediscordbot.py:52-59 | `parse_best` calls `re.sub`, but `re` is never imported. The NameError is caught by `except Exception`, so every call returns None and the dashboard never highlights a new best difficulty | "500M" and then "568M": no highlight | keep digits, points and commas (commas as points) and parse the rest, so "568M" reads as 568 and the rise is highlighted | not executed | Dashboard.NeverHighlightsAsWritten | Dashboard.ParseBestDefined |
| bitaxediscordbot.py:766-826 | the `while True` loop at 766 never ends, so the flag-based loop at 797-826 never runs. The fallback, unreachable and hashrate alerts are never sent | one failed poll: no alert | one alert per outage, per switch to the fallback pool and per low-hashrate episode | not executed | Alerts.OutageSilentAsRunning | Alerts.MonitorAll |
