# nse-bhavcopy in Dafny

A model of the `BhavCopy` client in `index.js`. The client downloads the daily equity
"bhavcopy" archives of the National Stock Exchange of India for one month, or for one
day. The model covers everything the client does before it talks to the network:
- it validates the requested month, year and optional day, in that order;
- it builds the day codes and zero-pads a requested day;
- it chooses the destination directory (the constructor's `dir` option or the default
  `NSE/<year>/<month>`) and creates it segment by segment;
- it enumerates the archive URLs, one or 31 of them;
- for each URL it derives the name the archive is saved under, or the
  "File Not Found on …" message a non-200 response yields.

Modules, one file each:

- `Wrappers` (`wrappers.dfy`): `Option` and `Result`.
- `JsText` (`jstext.dfy`): the JavaScript built-ins the client relies on:
  - the text `+` writes for a number;
  - JavaScript values of the kinds the day codes take (string, number, NaN) and their
    truthiness;
  - `split("/")`, `pop()` and `join("/")`;
  - `replace(pat, "")` with a string pattern, which removes the first occurrence only.
- `Codes` (`codes.dfy`): `__monthsCode`, `__yearsCode`, `__daysCode` (a method with its
  loop) and `__appendZeroToDay`.
- `Validator` (`validator.dfy`): the checks at the head of `download`, as a function
  returning the criteria or the rejection message.
- `Targets` (`targets.dfy`):
  - `__generateFileNames`, a method with its loop;
  - the saved-name and missing-file message derivation of `__getBhavCopyFromNSE`;
  - proofs of where the three first-occurrence removals land on a generated URL.
- `Fetcher` (`fetcher.dfy`):
  - the file system as a `Disk` object holding the set of existing paths;
  - the `BhavCopy` class with its `customDir` and `baseDir` fields, its constructor,
    `__createDir` (a method with the source's `while` loop), the response handling of
    `__getBhavCopyFromNSE`, and `download` up to the hand-off of the URLs.

Modelling choices:

- `parseInt` is not re-implemented. A field is represented by what `parseInt` reads from
  it: an integer or NaN (`Parsed`).
- The year is kept as the caller gave it: the text that `+` writes for it, plus what
  `parseInt` reads from it (`YearArg`). Apart from the empty string, which is rejected
  outright, only the parsed value is checked, and the URL and the default directory use
  the text, as `index.js` does (a year "2017abc" passes as 2017 and is written as
  "2017abc").
- The day codes are what the source builds: the strings "01".."09", then the numbers
  10..31 (`JsValue`). Lookups are strict, so a padded day below ten is found only as a
  string, and one from ten on only as a number. NaN is never found.
- A request field that is `undefined` or `null` is `None`. For the day, `""` is `None`
  as well, since `download` treats the three alike. A month or year given as `""` is a
  present value that fails its check: `""` is not a month name, and a year whose text is
  `""` is rejected whatever it parses to.
- The missing-file message is computed from the whole URL, as the code does. The three
  removals leave `<base URL><year>/<MONTH>/<day><MONTH><year>`, not just the date part
  of the file name.

## Model

| member | source | states |
|---|---|---|
| Codes.MonthsCode | index.js:20-36 | twelve month names, each three upper-case letters, pairwise distinct |
| Codes.YearsCode | index.js:43-46 | a year is listed exactly when it is 2016, 2017 or 2018 |
| Codes.DayCodeText | index.js:55-61 | the code pushed for day k writes as two digits denoting k |
| Codes.AllDayCodes | index.js:53-65 | 31 codes: strings for days 1-9, the numbers 10..31 after them; as text the i-th is the two-digit numeral of day i+1, so in ascending order and without duplicates |
| Codes.DaysCode | index.js:53-65 | the loop returns exactly the list AllDayCodes describes |
| Codes.AppendZeroToDayAccepted | index.js:72-80 | a parsed day, once padded, is found among the day codes exactly when it is an integer in 1..31, and then it is that day's code; 0 ("00"), negatives, 32 and above, and NaN are not found |
| Validator.CheckDay | index.js:232-248 | an absent day gives the empty string; a present one is accepted exactly when it parses to 1..31, and then becomes that day's code; otherwise "Invalid day specified" |
| Validator.Validate | index.js:211-248 | "Invalid month name" exactly when the month is missing or not one of the twelve names; "Invalid year name" exactly when the month passed and the year is missing, is the empty string or does not parse to 2016..2018; "Invalid day specified" exactly when both passed and a given day does not parse to 1..31; on success the criteria carry the month, the year as given (never empty) and the day code |
| Validator.LowerCaseMonthRejected | index.js:211-220 | the month comparison is case-sensitive: a name starting with a lower-case letter is rejected as an invalid month |
| JsText.NatText | index.js:58-60 | the decimal text of a number: digits only, no leading zero, one digit exactly below ten |
| JsText.DecimalValueOfNatText | index.js:58-60 | the decimal text denotes the number it was made from |
| JsText.NatTextInjective | index.js:58-60 | different numbers have different decimal texts |
| JsText.JoinSplit | index.js:90 | joining the segments of `dir.split("/")` gives back `dir` |
| JsText.SplitJoin | index.js:90 | splitting a join of slash-free segments gives back the segments |
| JsText.SplitAppend | index.js:90 | splitting at a slash splits the two sides independently |
| JsText.LastSegmentAfterSlash | index.js:149-150 | `pop()` after `split("/")` yields the text after the last slash |
| JsText.RemoveFirstDropsFirstOccurrence | index.js:162-165 | `replace(pat, "")` leaves a text without `pat` unchanged, and otherwise cuts out exactly its first occurrence |
| Targets.GenerateFileNames | index.js:115-139 | a falsy day gives 31 URLs, the i-th for day i+1 in day order; any other day gives the single URL for that day |
| Targets.UrlDeterminesDay | index.js:129-130 | two day texts of equal length give the same URL or file name only when they are equal |
| Targets.MonthUrlsDistinct | index.js:119-132 | the 31 URLs of a month, and their file names, are pairwise distinct |
| Targets.SavedNameOfUrl | index.js:149-156 | the name a generated URL is saved under is its archive file name `cm<day><MONTH><year>bhav.csv.zip` |
| Targets.RemovalsOnUrl | index.js:162-165 | on any slash-terminated base free of the three patterns, the removals take out exactly the file name's ".csv.zip", "cm" and "bhav" |
| Targets.NotFoundMessageOfUrl | index.js:162-167 | the message for a generated URL is "File Not Found on " and the URL up to the month directory, followed by `<day><MONTH><year>` |
| Targets.ClassifyGeneratedUrl | index.js:147-170 | a 200 response to a generated URL saves to `<baseDir>/<file name>`; any other status yields the missing-file message above |
| Fetcher.CustomDir | index.js:12 | the custom directory is empty exactly when `dir` is absent, empty or the text "undefined", and is `dir` otherwise |
| Fetcher.BhavCopy.constructor | index.js:8-13 | a new client holds the normalised `dir` option and no base directory yet |
| Fetcher.BaseDirFor | index.js:249-252 | the destination is the custom directory when one is set, else `NSE/<year>/<month>` |
| Fetcher.DirPrefixesExactly | index.js:88-105 | the paths `__createDir` makes exist are exactly the leading parts of `dir` that end at a slash or at the end of `dir`, are non-empty and do not end in a slash |
| Fetcher.DefaultDirPrefixes | index.js:249-253 | the default destination creates exactly `NSE`, `NSE/<year>` and `NSE/<year>/<month>` |
| Fetcher.WalkStep | index.js:94-103 | each turn of the walk extends the built path by one segment and a slash |
| Fetcher.Disk.MkdirSync | index.js:97-99 | a missing path is created and nothing else changes |
| Fetcher.BhavCopy.CreateDir | index.js:88-105 | records `dir` as the base directory, returns `dir + "/"`, and adds exactly the paths DirPrefixesExactly describes; when they all exist already, the file system is unchanged |
| Fetcher.BhavCopy.GetBhavCopyFromNSE | index.js:147-170 | the outcome is Classify on the current base directory (`undefined` before any `__createDir`) |
| Fetcher.BhavCopy.Download | index.js:208-267 | a rejected request changes neither the file system nor the base directory and starts no download; an accepted one creates the destination's directories, records the destination and starts the URLs GenerateFileNames yields, with the acknowledgement message |
| Fetcher.DayRequestTargets | index.js:232-258 | a request naming day d, without a custom directory, goes to `NSE/<year as given>/<month>`, and its day code writes as two digits denoting d; for a year written in digits, a 200 response to its one URL saves `NSE/<year>/<month>/cm<dd><MONTH><year>bhav.csv.zip`, any other status yields the missing-file message |

## Left out

- The `request` library and `__callNSEforFile`: the HTTP call, the response event and
  piping the body to a file. The response status is an input to `Classify` and
  `GetBhavCopyFromNSE`.
- `fs.createWriteStream` and the files the downloads write. The file system holds only
  the paths `mkdirSync` creates.
- OS path semantics. There is no parent-directory requirement for `mkdirSync`, and no
  distinction between files and directories for `existsSync`.
- `Promise.all`, the asynchronous resolution and the propagation of a transport failure
  as the rejection of `download`. `Download` returns the acknowledgement that `download`
  resolves with once the URLs are handed off.
- Response handlers read `baseDir` when they run. A later `download` on the same client
  can therefore redirect the files of an earlier one. Interleaving is not modelled.
- The values the response handler returns, which nothing receives. They are modelled
  as `Classify`'s outcome.
- `parseInt` itself: prefix parsing, whitespace and radix prefixes. A field is given by
  what `parseInt` reads from it.
- Request values of other types: a month that is not a string is only rejected, and
  `dir` options that are not strings are not represented.
- Targets.NotFoundMessageOfUrl and Targets.ClassifyGeneratedUrl: stated for year and day
  texts made of digits. A year written with letters after the digits ("2017bhav")
  passes validation but can move the removals, so the message is not stated for it.
- Targets.SavedNameOfUrl: stated for a month, year and day without a slash. A year
  written with a slash after the digits adds path segments.
- Fetcher.DefaultDirPrefixes: stated for a year and month without a slash. A year such
  as "2017/x" passes validation and makes `__createDir` create one more directory level;
  DirPrefixesExactly still describes that case.
- Fetcher.DayRequestTargets: the saved path and message are stated for a year written in
  digits only, for the reason given for Targets.ClassifyGeneratedUrl.
