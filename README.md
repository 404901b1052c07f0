# Passport, PNR and photo tools — a verified model

This project models, in Dafny, the deterministic core of a set of Streamlit
tools used by a travel agency:

- **Passport Auto PNR** (`Passport_Auto_PNR.py`). Passport MRZ dictionaries
  become Amadeus reservation lines. Each two-digit MRZ date is resolved with
  a century pivot on the current year and rendered as `DDMMMYY`. The age is
  computed as years, months and days with a fixed 30-day borrow. Each
  passenger gets a holder title (`INF`, `MSTR`, `MISS`, `MR`, `MRS`). The
  passengers are bucketed into adults, children and infants; infants are
  paired with adults in the `NM1` name lines, and one `SRDOCS` document line
  is written per passenger.
- **The single-passport page** (`pages/Passport_Auto_PNR.py`). It uses
  `strptime('%y%m%d')`, whose regular expression is modelled alternative by
  alternative, including its backtracking. It uses the fixed 69/68 century
  split, `get_title` with the infant gender codes `MI`/`FI`, and
  default-filled fields for one `NM1` and one `SRDOCS` entry.
- **Hajj form extraction** (`Hajj_Form_Extractor.py`). `find_value` (leftmost
  label, skip whitespace including newlines, rest of that line, stripped) and
  the leftmost fixed-width searches for the national ID `\d{5}-\d{7}-\d` and
  the passport number `[A-Z]{2}\d{7}`, with the empty-string fallback.
- **JPEG size searches.** The codec is a function from quality to bytes.
  - `ehajj_passport_size.py`: a bisection over quality 20..95;
  - `ehajj_photo_size.py`: a descent from 95 that gives up at the first
    undershoot;
  - `Passport_Photo_Maker.py`: a descent from 95 with a quality-40 fallback,
    and the fixed 120 x 150 resize checked against the validation ranges;
  - `pages/Passport_Photo_Maker.py`: the size clamp, and a descent that
    reuses one rewound but untruncated `io.BytesIO` buffer, modelled as a
    class;
  - `Passport_Size_Maker.py`: a two-phase search, first down with
    `optimize=True` and then up one quality at a time.

Modules: `Wrappers` (Option), `PyText` (the Python string operations used),
`Calendar` (Gregorian dates, `DDMMMYY`, whole-year age), `Codec` (bytes, the
encoder, the KB band), and one module per source file: `PnrBuilder`,
`PnrPage`, `HajjForm`, `EhajjPassport`, `EhajjPhoto`, `HajiPhoto`,
`PhotoPage`, `SizeMaker`.

Conventions used throughout:
- What the program reads from the wall clock (`datetime.now()`,
  `datetime.today()`) is a `today: Date` or `nowYear` parameter.
- An exception that ends the Streamlit run is `None`.
- `image.save(..., quality=q)` is `Save(enc, q)` for an encoder `enc`
  supplied by the caller.
- The float test `min_kb <= len / 1024 <= max_kb` is the exact integer test
  `min_kb * 1024 <= len <= max_kb * 1024` (`Codec.InBand`).

Behaviour of the code worth noting:
- A date string shorter than six characters can still resolve: `"99011"`
  gives 1 January 1999, because `d[4:6]` is `"1"`.
- An unresolved birth date has no fallback age. `calculate_age_full` raises
  at `birth.year`, which ends the whole batch.
- Names are cleaned only by the two `replace` calls. Nothing filters tokens,
  drops duplicate documents or retries a search at a larger size.
- The Haji photo's fallback is a fresh quality-40 encoding, not the lowest
  quality tried. The passport-size maker raises when phase 1 finds nothing.

## Model

| member | source | states |
|---|---|---|
| PyText.ParseInt | Passport_Auto_PNR.py:29-31 | `int()` of a slice gives a value exactly when the slice is non-empty and all ASCII digits; one and two digits give their decimal value, below 100 for two digits |
| PyText.ParseDecimal | Passport_Auto_PNR.py:202 | the decimal rendering of the passenger index parses back to the index |
| PyText.Pad2 | Passport_Auto_PNR.py:45 | `%d` and `%y` give exactly two digits that parse back to the number |
| PyText.Slice | Passport_Auto_PNR.py:29-31 | Python slicing clips at the end of the string: the usual slice when in range, a shorter or empty one past the end |
| PyText.Upper | Hajj_Form_Extractor.py:57 | `upper()` keeps the length and maps each lower-case letter to its capital, leaving every other character |
| PyText.Strip | Hajj_Form_Extractor.py:27 | a stripped non-empty string neither starts nor ends with whitespace |
| PyText.TrailingStart | Hajj_Form_Extractor.py:27 | the right half of `strip()` stops after the last non-whitespace character, never crossing the left end |
| PyText.TrailingStartSkips | Hajj_Form_Extractor.py:27 | everything the right half of `strip()` drops is whitespace |
| PyText.StripSkipsLeading | Hajj_Form_Extractor.py:27 | leading whitespace makes no difference to `strip()` |
| PyText.StripBounds | Hajj_Form_Extractor.py:27 | `strip()` removes exactly the leading and trailing whitespace run: the result is the slice between them |
| PyText.ReplaceChar | Passport_Auto_PNR.py:112 | `replace(a, b)` on one character keeps the length and changes exactly the positions holding `a` |
| PyText.RemoveChar | Passport_Auto_PNR.py:111 | `replace(a, "")` leaves no `a`, keeps every other character as often as it occurred (multiset), and shortens the string by the number of `a`s |
| PyText.RemoveConcat | Passport_Auto_PNR.py:111 | removal distributes over concatenation, so the kept characters stay in their original order |
| PyText.RemoveAbsent | Passport_Auto_PNR.py:111 | removing a character that does not occur changes nothing |
| PyText.SplitJoin | Passport_Auto_PNR.py:198-203 | splitting on `-` undoes `-`-joining when no field contains `-` |
| PyText.SplitJoinPrefix | Passport_Auto_PNR.py:198-203 | hyphen-free leading fields are recovered by the split whatever the later fields contain |
| PyText.SplitJoinLast | Passport_Auto_PNR.py:202 | a hyphen-free last field is the last piece of the split |
| Calendar.DaysInMonth | Passport_Auto_PNR.py:38 | `datetime` month lengths are 28..31, and February has 29 days exactly in Gregorian leap years |
| Calendar.LeapAcrossCentury | Passport_Auto_PNR.py:33-38 | 19YY and 20YY have the same leap status for YY in 01..99 |
| Calendar.MonthUpper | Passport_Auto_PNR.py:45 | upper-casing the `%b` abbreviation gives the three capital letters of the month |
| Calendar.RenderDate | Passport_Auto_PNR.py:45 | `strftime("%d%b%y").upper()` is the padded day, the capital month name and the padded two-digit year |
| Calendar.RenderShape | Passport_Auto_PNR.py:45 | a rendered date has seven characters: digits at 0, 1, 5 and 6, capitals at 2..4, and no `-` |
| Calendar.RenderRoundTrip | Passport_Auto_PNR.py:45 | the rendered date can be read back: day, month and year modulo 100 |
| Calendar.WholeYearAgeIsAnniversaries | pages/Passport_Auto_PNR.py:25 | the whole-year age is the number of birthdays reached: that anniversary is not after today and the next one is |
| PnrBuilder.MrzDateFix | Passport_Auto_PNR.py:26-40 | a resolved MRZ date is a valid Gregorian date in 1900..2099 |
| PnrBuilder.CenturyPivot | Passport_Auto_PNR.py:29-38 | for six digits the year is 19YY when YY exceeds the current year modulo 100, else 20YY; the result is that date when valid, else None |
| PnrBuilder.OnlySixCharactersRead | Passport_Auto_PNR.py:29-31 | characters after the sixth never matter |
| PnrBuilder.FiveCharacterInput | Passport_Auto_PNR.py:29-38 | `"99011"` still resolves, to 1 January 1999 |
| PnrBuilder.SafeDate | Passport_Auto_PNR.py:43-45 | the empty string exactly when the date does not resolve, otherwise the seven-character rendering of the resolved date; never contains `-` |
| PnrBuilder.SafeDateIgnoresClock | Passport_Auto_PNR.py:33-45 | the rendered date does not depend on the current year, although the resolved date does |
| PnrBuilder.CalculateAgeFull | Passport_Auto_PNR.py:49-66 | defined exactly when the birth date resolves; months in 0..11, days in 0..30, years*12+months is the month difference less one when today's day is earlier, and years is the whole-year age |
| PnrBuilder.PassengerTitle | Passport_Auto_PNR.py:70-82 | total: `INF` iff age < 2, a child title iff 2 <= age < 12, a male title iff age >= 2 and sex is `"M"`; any other sex takes the female branch |
| PnrBuilder.TwelfthBirthdayBoundary | Passport_Auto_PNR.py:54-82 | on the twelfth birthday the title is adult; in the year of the twelfth birthday it is adult exactly from the anniversary on and a child title exactly before it, and a child title throughout the year before, so the day before the birthday is a child title for every birth date |
| PnrBuilder.MakePassenger | Passport_Auto_PNR.py:109-139 | a record is built exactly when every required key is present and the birth date resolves |
| PnrBuilder.PassengerFields | Passport_Auto_PNR.py:111-139 | the surname is the MRZ surname with every `<` removed, with the other characters kept (multiset) in order; the names have `<` turned into spaces, the other fields are copied, and the dates, age and title are those of the resolved birth date and today |
| PnrBuilder.Recognized | Passport_Auto_PNR.py:103-107 | skipping unreadable scans keeps at most one dictionary per scan |
| PnrBuilder.RecognizedMembers | Passport_Auto_PNR.py:103-109 | the dictionaries kept are exactly those of the scans that were read |
| PnrBuilder.RecognizedAppend | Passport_Auto_PNR.py:96-109 | the scans kept from two batches are those of each batch in order |
| PnrBuilder.BuildAllSpec | Passport_Auto_PNR.py:96-139 | building succeeds exactly when every record builds; then there is one passenger per record, in order |
| PnrBuilder.BuildAllAbort | Passport_Auto_PNR.py:118-120 | once one record raises, no later upload can rescue the run |
| PnrBuilder.CollectPassengers | Passport_Auto_PNR.py:96-141 | the upload loop returns exactly the passengers built from the scans that were read, or None when one raises |
| PnrBuilder.CollectedPassengers | Passport_Auto_PNR.py:96-139 | the upload loop succeeds exactly when every read scan builds a record; the k-th passenger is the record built from the k-th read scan |
| PnrBuilder.InBucketAppend | Passport_Auto_PNR.py:151-163 | bucketing preserves upload order across concatenation |
| PnrBuilder.BucketsPartition | Passport_Auto_PNR.py:149-163 | adults, children and infants together are exactly the passengers (as a multiset) |
| PnrBuilder.BucketSizes | Passport_Auto_PNR.py:149-163 | the three bucket sizes add up to the number of passengers |
| PnrBuilder.SplitBuckets | Passport_Auto_PNR.py:149-163 | the bucketing loop fills each list with the passengers of that title class, in upload order |
| PnrBuilder.ChildLine | Passport_Auto_PNR.py:182-185 | a child line starts with `NM1` and ends with ` (CHD/<dob>)` |
| PnrBuilder.Nm1Lines | Passport_Auto_PNR.py:168-185 | one line per adult, then one per child; the i-th adult carries the i-th infant when there is one, and surplus infants appear nowhere |
| PnrBuilder.Nm1Count | Passport_Auto_PNR.py:168-185 | the NM1 lines number the passengers minus the infants |
| PnrBuilder.DocsLines | Passport_Auto_PNR.py:193-205 | exactly one SRDOCS line per passenger, in upload order, the k-th with index `H/P<k>` |
| PnrBuilder.DocsLineFields | Passport_Auto_PNR.py:198-203 | splitting a document line on `-` gives back carrier, type, country, passport, country, dob, sex and expiry, and ends with `H/P<k>` |
| PnrBuilder.BuiltDocsLineFields | Passport_Auto_PNR.py:111-123 | for a built record, the split line recovers the MRZ country, number and sex and the rendered dates |
| PnrBuilder.BuildEntries | Passport_Auto_PNR.py:96-205 | the run aborts exactly when a record raises, prints nothing exactly when no scan was read, and otherwise prints the NM1 listing of the buckets and one document line per passenger |
| PnrPage.MonthAlternatives | pages/Passport_Auto_PNR.py:17 | every way `%m` can match is a month 1..12 ending inside the input |
| PnrPage.DayAlternatives | pages/Passport_Auto_PNR.py:17 | every way `%d` can match is a day 1..31 ending inside the input |
| PnrPage.StrptimeYear | pages/Passport_Auto_PNR.py:17 | `%y` maps 69..99 to 19YY and 00..68 to 20YY |
| PnrPage.Strptime | pages/Passport_Auto_PNR.py:17 | a parsed date is a valid Gregorian date |
| PnrPage.SixDigitStrptime | pages/Passport_Auto_PNR.py:17 | on six digits the only split is YY, MM, DD: the date when valid, else a failure |
| PnrPage.MatchEndsShort | pages/Passport_Auto_PNR.py:17 | on six digits with an out-of-range month or day, the regex can only match a prefix, so the whole string is never consumed |
| PnrPage.ShortInputBacktracks | pages/Passport_Auto_PNR.py:17 | `"9911"` parses, as 1 January 1999, by one-digit month and day |
| PnrPage.FormatDate | pages/Passport_Auto_PNR.py:15-20 | the input back unchanged exactly when parsing fails, otherwise the `DDMMMYY` rendering of the parsed date |
| PnrPage.AgreesWithSafeDate | pages/Passport_Auto_PNR.py:15-20 | on six digits the page and the builder render the same, and differ only in the failure value |
| PnrPage.FormatDateNoDash | pages/Passport_Auto_PNR.py:15-20 | formatting never introduces a `-` |
| PnrPage.GetTitle | pages/Passport_Auto_PNR.py:22-29 | defined exactly when the birth date parses; the title follows the age table, and the gender code is `MI`/`FI` for infants and the sex otherwise |
| PnrPage.Entries | pages/Passport_Auto_PNR.py:46-60 | entries are produced exactly when the birth date parses |
| PnrPage.EntriesNm1 | pages/Passport_Auto_PNR.py:46-59 | the NM1 entry is `NM1`, the upper-cased surname, `/`, the upper-cased names, a space and the title for the whole-year age and the upper-cased sex (`"M"` when missing) |
| PnrPage.MissingSexIsMale | pages/Passport_Auto_PNR.py:46-59 | without a sex the NM1 entry is the upper-cased name with the male title for the age |
| PnrPage.EntriesDocs | pages/Passport_Auto_PNR.py:52-60 | the SRDOCS entry is the `-`-join of the upper-cased default-filled fields with a gender code of `MI`, `FI` or the upper-cased sex |
| PnrPage.PageDocsFieldsNoDash | pages/Passport_Auto_PNR.py:46-60 | hyphen-free MRZ fields give hyphen-free SRDOCS fields |
| PnrPage.PageDocsRoundTrip | pages/Passport_Auto_PNR.py:60 | the entry splits into exactly 11 fields that give back the upper-cased nationality (twice), number, formatted dates, gender code, surname and names, ending with `H/P1` |
| HajjForm.AllDigitsIn | Hajj_Form_Extractor.py:69 | digits at every position of a window satisfy `\d{n}` for that window |
| HajjForm.FirstMatch | Hajj_Form_Extractor.py:24 | the first matching position at or after the start, with no match before it; None when there is none |
| HajjForm.FirstMatchIsLeftmost | Hajj_Form_Extractor.py:24 | a match with none before it is the one `re.search` finds |
| PyText.LeadingEnd | Hajj_Form_Extractor.py:23 | `\s*` (and the left half of `strip()`) stops at the first non-whitespace character or the end |
| PyText.LeadingEndSkips | Hajj_Form_Extractor.py:23 | everything `\s*` passes over is whitespace |
| HajjForm.SkipSpaceIsFirst | Hajj_Form_Extractor.py:23 | `\s*` after the label ends exactly at the first non-whitespace character |
| HajjForm.LineEndIsFirst | Hajj_Form_Extractor.py:23 | `(.*)` ends exactly at the first newline at or after its start, or at the end |
| HajjForm.LineEnd | Hajj_Form_Extractor.py:23 | `(.*)` stops at a newline or the end |
| HajjForm.LineEndIsLineEnd | Hajj_Form_Extractor.py:23 | `(.*)` crosses no newline |
| HajjForm.Group | Hajj_Form_Extractor.py:23-27 | the captured group holds no newline |
| HajjForm.GroupSelects | Hajj_Form_Extractor.py:23-27 | after the leftmost label, the group is the text from the first non-whitespace character to the next newline |
| HajjForm.FindValue | Hajj_Form_Extractor.py:21-29 | the value holds no newline and has no surrounding whitespace |
| HajjForm.FindValueAbsent | Hajj_Form_Extractor.py:26-29 | a label that does not occur gives `""` |
| HajjForm.FindValueSelects | Hajj_Form_Extractor.py:23-27 | the value is the stripped rest of the line reached after the leftmost label and the whitespace after it |
| HajjForm.LabelAtLineEndTakesNextLine | Hajj_Form_Extractor.py:23-27 | a leftmost label followed only by whitespace to the end of its line yields the next line holding a non-whitespace character, stripped, crossing any blank lines in between |
| HajjForm.FirstNonBlank | Hajj_Form_Extractor.py:23 | `\s*` from a whitespace run stops at the first non-whitespace character of the next non-blank line |
| HajjForm.StripFromInside | Hajj_Form_Extractor.py:27 | stripping a line from inside its leading whitespace is stripping the whole line |
| HajjForm.LabelAtLineEnd | Hajj_Form_Extractor.py:23-27 | an example: `"FATHER\n\n  ALI KHAN \nX"` gives `"ALI KHAN"` |
| HajjForm.LabelInsideLongerLabel | Hajj_Form_Extractor.py:68 | `FATHER` also matches inside `FATHER/HUSBAND`, taking the rest of the phrase |
| HajjForm.Search | Hajj_Form_Extractor.py:69-70 | a non-empty search result has the pattern's width and matches it |
| HajjForm.SearchLeftmost | Hajj_Form_Extractor.py:69-70 | the result is the leftmost matching window of the text |
| HajjForm.SearchEmptyIff | Hajj_Form_Extractor.py:76-84 | the result is `""` exactly when no window matches |
| HajjForm.NationalIdInsideDigitRun | Hajj_Form_Extractor.py:69 | the unanchored national-ID pattern matches inside a longer digit run |
| HajjForm.GroupOrEmpty | Hajj_Form_Extractor.py:76-84 | the replaced entry is always a string |
| HajjForm.SearchCellGroup | Hajj_Form_Extractor.py:76-84 | replacing a match object by its group, or None by `""`, gives the leftmost matching window |
| HajjForm.ExtractForm | Hajj_Form_Extractor.py:57-84 | on the upper-cased OCR text, each labelled entry is its `find_value`, and the national-ID and passport entries end as their leftmost windows or `""` |
| EhajjPassport.ProbesUnfold | ehajj_passport_size.py:16-33 | each step probes the midpoint and then stops on a hit, searches above after an undershoot, or searches below after an overshoot |
| EhajjPassport.ProbesInRange | ehajj_passport_size.py:11-33 | every probed quality lies in the current range, so in 20..95, and a non-empty range is probed at least once |
| EhajjPassport.OnlyLastInBand | ehajj_passport_size.py:27-28 | the search returns at the first in-band probe, so only the last probe can be in band |
| EhajjPassport.StepDirection | ehajj_passport_size.py:17-33 | after an undershoot every later probe is higher; after an overshoot every later probe is lower |
| EhajjPassport.ProbeCount | ehajj_passport_size.py:16-33 | a range of fewer than 2^k qualities takes at most k probes, so the loop terminates |
| EhajjPassport.AtMostSevenProbes | ehajj_passport_size.py:11-33 | from 20..95 the loop makes between one and seven probes |
| EhajjPassport.MonotoneFindsBand | ehajj_passport_size.py:16-33 | if sizes grow with quality and some quality in range is in band, the last probe is in band |
| EhajjPassport.LastProbeStep | ehajj_passport_size.py:16-33 | the last probe is the midpoint after a hit or an emptied half-range, else the half-range's last probe |
| EhajjPassport.CompressImageToRange | ehajj_passport_size.py:9-35 | the result is never the initial None: it is the encoding at the last probe and its size |
| EhajjPhoto.DescentOrder | ehajj_photo_size.py:34-52 | the i-th probe is quality 95 - 5i, never below 10 |
| EhajjPhoto.AtMostEighteenProbes | ehajj_photo_size.py:34-52 | from 95 there are one to eighteen probes, starting at 95 |
| EhajjPhoto.OnlyOvershootsContinue | ehajj_photo_size.py:48-54 | every probe but the last overshoots: a hit returns and an undershoot breaks |
| EhajjPhoto.AllOvershoot | ehajj_photo_size.py:38-56 | when every quality overshoots, the search ends on quality 10, which is over the maximum |
| EhajjPhoto.LastProbeStep | ehajj_photo_size.py:38-54 | the descent continues only after an overshoot above quality 10 |
| EhajjPhoto.CompressToSmallRange | ehajj_photo_size.py:32-56 | the result is never None: it is the encoding at the last probe and its size |
| HajiPhoto.ResizeToHajiStandard | Passport_Photo_Maker.py:44-52 | the resized photo is within the allowed width and height |
| HajiPhoto.DimensionErrors | Passport_Photo_Maker.py:105-109 | the width error is shown exactly when the width is outside 70..165, the height error exactly when the height is outside 65..185 |
| HajiPhoto.ResizedPhotoPassesChecks | Passport_Photo_Maker.py:47-50 | the 120 x 150 photo never raises a dimension error |
| HajiPhoto.FirstHitIsFirst | Passport_Photo_Maker.py:64-76 | the quality returned is probed and in band with no higher probe in band; with no hit, no probe is in band |
| HajiPhoto.SeventeenProbes | Passport_Photo_Maker.py:64-76 | the probed qualities are exactly the multiples of 5 from 95 down to 15 |
| HajiPhoto.FallbackOutOfBand | Passport_Photo_Maker.py:79-81 | the quality-40 fallback was already probed, so it is never in band |
| HajiPhoto.ResultInBandIff | Passport_Photo_Maker.py:61-81 | the returned size is in band exactly when some probe hit |
| HajiPhoto.CompressToSize | Passport_Photo_Maker.py:59-81 | the loop returns the first in-band encoding, or the quality-40 one, with its length |
| PhotoPage.Clamp | pages/Passport_Photo_Maker.py:34-35 | `max(lo, min(hi, v))` is in range, keeps in-range values and sends the rest to the nearer end |
| PhotoPage.ClampSize | pages/Passport_Photo_Maker.py:13-14 | a clamped size lies in 70..165 x 65..185 |
| PhotoPage.ClampIdempotent | pages/Passport_Photo_Maker.py:34-35 | clamping twice is clamping once, and an allowed size is unchanged |
| PhotoPage.Overwrite | pages/Passport_Photo_Maker.py:70 | a write replaces the bytes at the position, keeps the bytes after it and grows the buffer only when it runs past the end |
| PhotoPage.OverwriteFromStart | pages/Passport_Photo_Maker.py:69-70 | after a rewind the buffer holds the new encoding followed by the old bytes beyond its length |
| PhotoPage.BytesBuffer.constructor | pages/Passport_Photo_Maker.py:66 | a new buffer is empty at position 0 |
| PhotoPage.BytesBuffer.Seek | pages/Passport_Photo_Maker.py:69 | seeking moves the position and keeps the bytes |
| PhotoPage.BytesBuffer.Write | pages/Passport_Photo_Maker.py:70 | writing overwrites from the position and advances it |
| PhotoPage.BytesBuffer.Truncate | pages/Passport_Photo_Maker.py:66-71 | truncation drops the bytes from the position on |
| PhotoPage.MeasuredIsRunningMax | pages/Passport_Photo_Maker.py:69-71 | the measured length is the larger of the old contents and the new encoding, and the prefix is the new encoding |
| PhotoPage.SharedFinalGrows | pages/Passport_Photo_Maker.py:68-76 | the buffer never shrinks |
| PhotoPage.OversizedBufferNeverPasses | pages/Passport_Photo_Maker.py:68-76 | once the buffer exceeds 12 KB no later test passes and the result is out of band |
| PhotoPage.SharedFinalLength | pages/Passport_Photo_Maker.py:68-76 | while over the limit, the buffer keeps the length of the longest encoding written |
| PhotoPage.CompressToSize | pages/Passport_Photo_Maker.py:64-78 | the loop as written returns the one shared buffer, holding what the untruncated overwrites leave |
| PhotoPage.StaleTailCounterexample | pages/Passport_Photo_Maker.py:68-74 | an encoder with 13 KB at 95 and 6 KB below: quality 90 is in band, yet the shared buffer ends at 13 KB, while the truncating loop returns the quality-90 encoding |
| PhotoPage.FreshFinalIsFirstHit | pages/Passport_Photo_Maker.py:64-78 | with truncation the result is the first in-band probe, or the quality-15 encoding |
| PhotoPage.FreshFinalInBandIff | pages/Passport_Photo_Maker.py:64-78 | with truncation the result is in band exactly when some probe from 95 to 15 is |
| PhotoPage.CompressToSizeTruncating | pages/Passport_Photo_Maker.py:64-78 | the loop with a truncate after each save holds exactly the last encoding written |
| SizeMaker.Phase1IsFirst | Passport_Size_Maker.py:35-48 | phase 1 stops at the first of 95, 90, ..., 60 whose optimised encoding is at most 450 KB; without one, all are larger |
| SizeMaker.Phase2Bounds | Passport_Size_Maker.py:50-56 | phase 2 ends at a quality between the start and 100 and runs only below the target; every intermediate encoding was below the target; the bytes are the plain encoding at the final quality after a step, else the starting bytes |
| SizeMaker.NoResultWithoutPhase1 | Passport_Size_Maker.py:36-60 | there is no result exactly when every optimised phase-1 encoding exceeds the target |
| SizeMaker.ResultShape | Passport_Size_Maker.py:44-56 | the result reaches the target or is the quality-100 encoding; an exact hit keeps the optimised bytes; otherwise it is a plain encoding above the phase-1 quality |
| SizeMaker.SavePassportSize | Passport_Size_Maker.py:33-56 | the two loops as written produce the two-phase result and its final quality |

## Left out

- The Streamlit UI: widgets, headers, images, download buttons and
  messages. That includes all of `app.py` and the age display at
  Passport_Auto_PNR.py:153-156. The `"\n".join` of a code block is not
  modelled; `BuildEntries` returns the lines.
- Temporary files, `read_mrz` and `pytesseract` are input/output. The MRZ
  reader's result is an `Option<map<string, string>>` per scan, and the OCR
  output is a string (`HajjForm.ExtractForm` takes it). MRZ keys other than
  the required seven are ignored.
- PIL and OpenCV. JPEG encoding is the `Codec.Encoder` parameter, and
  monotonicity is only a lemma hypothesis (`Codec.Monotone`). Resize,
  enhancement, filters and text drawing are not modelled, and neither is
  the fixed resize at Passport_Size_Maker.py:30.
- `pages/passport_photo_maker.py` and `pages/Passport_Size_Maker.py`: each
  is a resize or filters and one save, with no search logic.
- Floating point: the `scale` and `int(w * scale)` computation at
  pages/Passport_Photo_Maker.py:30-32 (the clamp takes integer sizes), the
  `round(..., 2)` KB display and the KB check at Passport_Photo_Maker.py:91
  and 111-112, the font sizing at pages/Passport_Photo_Maker.py:44, and the
  display at Passport_Size_Maker.py:60.
- EhajjPassport.CompressImageToRange: reports the size in bytes, not
  `size_kb` in kilobytes as a float (the same length divided by 1024).
- EhajjPhoto.CompressToSmallRange: reports the size in bytes, not `size_kb`
  as a float.
- SizeMaker.SavePassportSize: when phase 1 finds nothing it returns `None`.
  The source then raises at `final_bytes.tell()` (line 60).
- Parser leniency: `int()` accepting signs, whitespace and non-ASCII digits,
  Unicode `\d`, non-ASCII `upper()`, and locale-dependent `%b`. The model
  uses ASCII digits, ASCII case and English month abbreviations. `\s` and
  `strip()` use Python's full whitespace set.
- HajjForm.FindValue: a label is matched as a literal string. The labels in
  use are letters and spaces, so there the regex and the literal agree.
- HajjForm.ExtractForm: the `data` dictionary is a record with the eight
  fixed keys, and the display loop (lines 92-93) is not modelled.
- PhotoPage.Overwrite: padding with zeros when the position is past the end
  is modelled, but the loop never uses it, since it always seeks to 0.
- PnrBuilder.CollectPassengers: one exception ends the whole run, so the
  whole batch gives `None`. Passengers appended before the exception are
  never shown, and the model does not keep them.

## Findings

| source | as written | input that shows it | evidently intended | confidence | as-written member | corrected member |
|---|---|---|---|---|---|---|
| pages/Passport_Photo_Maker.py:68-71 | every trial rewinds the shared buffer with `seek(0)` but never truncates it, so `len(getvalue())` measures the longest encoding written so far, not the newest one | an image encoding to 13 KB at quality 95 and 6 KB at every lower quality: quality 90 is within 5..12 KB, yet every test fails and the returned buffer holds 13 KB (6 KB of quality 15 followed by 7 KB of the stale quality-95 bytes) | each trial replaces the buffer's contents (a `truncate()` after the save, or a fresh buffer as in Passport_Photo_Maker.py:68), so the first in-band quality is returned | not executed | PhotoPage.StaleTailCounterexample | PhotoPage.CompressToSizeTruncating |
