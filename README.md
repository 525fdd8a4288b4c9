# mini-mwan LuCI views — a verified model

mini-mwan is a multi-WAN failover and load-balancing tool for OpenWrt. Its
LuCI front-end has two views, and this project models their logic:

- **The status page.** It reads the snapshot that the daemon writes to
  `/var/run/mini-mwan.status`:
  - global `key=value` lines come first;
  - then each `[device]` header opens the record of one WAN interface, and the `key=value` lines after it fill that record.

  The page parses this file (`parseStatus`) and picks a status badge and a row emphasis for each interface. It formats the "since", "last check" and traffic cells. When there is no data, it shows a notice instead of the table.
- **The configuration form.** It validates the interface sections: no two
  sections may use the same device, and no two may ping the same target.

Modules, one per file:

- `JsText` (`js_text.dfy`): the JavaScript string primitives the parser
  relies on:
  - `trim`, with ECMAScript white space and line terminators;
  - `split` on one character, and `join`;
  - string truthiness;
  - the member names every plain object inherits.
- `JsNumber` (`js_number.dfy`): `parseInt` and `parseFloat` as JavaScript defines them:
  - leading white space, a sign, the `0x` prefix for `parseInt`, `Infinity` and an exponent for `parseFloat`;
  - the longest numeric prefix wins, and no prefix gives NaN;
  - a decimal printer, with the round trip through `parseInt`.
- `StatusParse` (`status_parse.dfy`): the snapshot and interface records and the line classifier.
  - `Fold`, the parser as a fold over classified lines, is the specification.
  - `ParseStatus` is the loop of the source, with its reference to the current record, and is proved to compute it.
  - Lemmas give the order, count, skipping, freezing and last-value-wins properties of the parser.
- `StatusView` (`status_view.dfy`): the badge, the row style, `formatDuration` (the clock is the parameter `now`), `formatBytes`, `formatTimestamp` and the render decision.
- `ConfigValidate` (`config_validate.dfy`): the duplicate-device and the
  duplicate-ping-target checks.
  - Each is a method with a loop, proved against a quantified specification.
  - The configuration store is replaced by the sequences it would answer with.

The records are values. The parser's current interface is
always the last element of `interfaces`, so updating "the current interface"
replaces that element.

Where the code and the format description disagree, the model follows the
code:

- A header is whatever matches `^\[(.+)\]$`, so a device name may contain `]`.
- A line with two `=` is skipped, because `split('=')` gives three pieces.
- A `name=` line inside a section renames the record.
- Duplicate headers give two records.
- `formatTimestamp` also shows "Never" for the number 0 and for NaN, because both are falsy.

## Model

| member | source | states |
|---|---|---|
| `JsText.Trim` | luci-app-mini-mwan/htdocs/luci-static/resources/view/mini-mwan/status.js:29 | the trimmed line is a contiguous slice of the input; only white space is cut on either side; it neither starts nor ends with white space |
| `JsText.TrimIdempotent` | luci-app-mini-mwan/htdocs/luci-static/resources/view/mini-mwan/status.js:26-29 | trimming an already trimmed line changes nothing |
| `JsText.Split` | luci-app-mini-mwan/htdocs/luci-static/resources/view/mini-mwan/status.js:54 | `split` gives one piece more than there are separators, and no piece contains the separator |
| `JsText.JoinSplit` | luci-app-mini-mwan/htdocs/luci-static/resources/view/mini-mwan/status.js:26 | joining the pieces of a split with the separator gives back the text, so splitting loses nothing |
| `JsText.SplitJoin` | luci-app-mini-mwan/htdocs/luci-static/resources/view/mini-mwan/status.js:26 | splitting separator-free pieces joined by the separator gives back the pieces |
| `JsText.SplitInTwo` | luci-app-mini-mwan/htdocs/luci-static/resources/view/mini-mwan/status.js:54-55 | `split('=')` has exactly two pieces if and only if the line holds exactly one `=`; the pieces are then the text before it and the text after it |
| `JsNumber.ParseIntOfDecimal` | luci-app-mini-mwan/htdocs/luci-static/resources/view/mini-mwan/status.js:65 | `parseInt` of an integer's decimal text, followed by anything that cannot extend the number, gives that integer |
| `JsNumber.ParseIntRoundTrip` | luci-app-mini-mwan/htdocs/luci-static/resources/view/mini-mwan/status.js:65 | `parseInt` reads back the decimal text of every integer |
| `JsNumber.ParseFloatOfDecimal` | luci-app-mini-mwan/htdocs/luci-static/resources/view/mini-mwan/status.js:67 | `parseFloat` of an integer's decimal text gives that number |
| `JsNumber.DigitFirstIsDecimal` | luci-app-mini-mwan/htdocs/luci-static/resources/view/mini-mwan/status.js:67 | a text starting with a digit is never taken for `Infinity`: it is read as a decimal literal |
| `JsNumber.ParseDecimalOfDigits` | luci-app-mini-mwan/htdocs/luci-static/resources/view/mini-mwan/status.js:67 | a run of decimal digits alone reads as its value |
| `JsNumber.ParseIntNoDigits` | luci-app-mini-mwan/htdocs/luci-static/resources/view/mini-mwan/status.js:92 | a text that, after its leading blanks and one optional sign, is empty or does not go on with a decimal digit parses to NaN |
| `JsNumber.ParseIntHexExample` | luci-app-mini-mwan/htdocs/luci-static/resources/view/mini-mwan/status.js:69 | `parseInt("0x1A")` reads the hexadecimal prefix and gives 26 |
| `JsNumber.ParseFloatLatencyExample` | luci-app-mini-mwan/htdocs/luci-static/resources/view/mini-mwan/status.js:67 | a latency of `15.3` parses to exactly 15.3 |
| `JsNumber.ParseFloatPointExample` | luci-app-mini-mwan/htdocs/luci-static/resources/view/mini-mwan/status.js:67 | a lone `.` has no digits and parses to NaN |
| `StatusParse.IfaceKeyOfInjective` | luci-app-mini-mwan/htdocs/luci-static/resources/view/mini-mwan/status.js:62-71 | different key texts inside a section address different fields |
| `StatusParse.IfaceKeyRoundTrip` | luci-app-mini-mwan/htdocs/luci-static/resources/view/mini-mwan/status.js:62-71 | the key a section line names is written with exactly the line's key text, so no two texts collapse into one key |
| `StatusParse.SetField` | luci-app-mini-mwan/htdocs/luci-static/resources/view/mini-mwan/status.js:60-72 | after `key=value` in a section, the key reads as the value coerced by key name (`does_exist`/`is_up` true exactly for `1`; `degraded`, `rx_bytes`, `tx_bytes` by `parseInt`; `latency` by `parseFloat`; anything else verbatim); every other key of the record is unchanged |
| `StatusParse.GlobalKeyOfInjective` | luci-app-mini-mwan/htdocs/luci-static/resources/view/mini-mwan/status.js:75-80 | different global key texts address different global fields |
| `StatusParse.GlobalKeyRoundTrip` | luci-app-mini-mwan/htdocs/luci-static/resources/view/mini-mwan/status.js:75-80 | the global key a line names is written with exactly the line's key text |
| `StatusParse.SetGlobal` | luci-app-mini-mwan/htdocs/luci-static/resources/view/mini-mwan/status.js:73-81 | a global assignment leaves the interface list as it is |
| `StatusParse.SetGlobalReads` | luci-app-mini-mwan/htdocs/luci-static/resources/view/mini-mwan/status.js:75-80 | after a global `key=value` the key reads as the value (`timestamp`, `check_interval` by `parseInt`, anything else verbatim), and no other global key changes |
| `StatusParse.ClassifyHeader` | luci-app-mini-mwan/htdocs/luci-static/resources/view/mini-mwan/status.js:33-36 | a line is a header named `name` if and only if, trimmed, it is `[` + `name` + `]` with `name` non-empty and free of line terminators |
| `StatusParse.HeaderIsFramedName` | luci-app-mini-mwan/htdocs/luci-static/resources/view/mini-mwan/status.js:33-36 | a line taken for a header is, trimmed, its name between `[` and `]`, the name non-empty and free of line terminators |
| `StatusParse.FramedNameIsHeader` | luci-app-mini-mwan/htdocs/luci-static/resources/view/mini-mwan/status.js:33-36 | conversely, such a bracketed name is taken for a header of that name |
| `StatusParse.ClassifyAssignment` | luci-app-mini-mwan/htdocs/luci-static/resources/view/mini-mwan/status.js:54-58 | a non-blank, non-header line is an assignment exactly when it holds one `=`, and malformed otherwise (none, or two or more); an assignment's key and value are the trimmed text before and after the `=` |
| `StatusParse.Parse` | luci-app-mini-mwan/htdocs/luci-static/resources/view/mini-mwan/status.js:16 | there is no snapshot exactly when the content is absent or empty |
| `StatusParse.BlankStep` | luci-app-mini-mwan/htdocs/luci-static/resources/view/mini-mwan/status.js:29-30 | a line that trims to nothing changes nothing |
| `StatusParse.HeaderStep` | luci-app-mini-mwan/htdocs/luci-static/resources/view/mini-mwan/status.js:33-50 | a header line appends a fresh record, at its defaults, named by the text between the brackets |
| `StatusParse.MalformedStep` | luci-app-mini-mwan/htdocs/luci-static/resources/view/mini-mwan/status.js:54-55 | a non-blank, non-header line that does not split on `=` into exactly two pieces changes nothing |
| `StatusParse.AssignmentStep` | luci-app-mini-mwan/htdocs/luci-static/resources/view/mini-mwan/status.js:54-58 | otherwise the line assigns its trimmed value to its trimmed key |
| `StatusParse.Assign` | luci-app-mini-mwan/htdocs/luci-static/resources/view/mini-mwan/status.js:60-82 | an assignment updates the current record when there is one and the globals otherwise, and never changes the number of records |
| `StatusParse.ParseLine` | luci-app-mini-mwan/htdocs/luci-static/resources/view/mini-mwan/status.js:29-82 | one iteration of the loop on a raw line is one step of the fold on its classification, and a current record is set exactly when a record exists |
| `StatusParse.ParseStatus` | luci-app-mini-mwan/htdocs/luci-static/resources/view/mini-mwan/status.js:15-86 | the loop remembering the current record computes the fold specification `Parse` on every input |
| `StatusParse.InterfacesFollowHeaders` | luci-app-mini-mwan/htdocs/luci-static/resources/view/mini-mwan/status.js:33-50 | there are exactly as many records as header lines; record `k` is named by header `k`, in file order, unless some line assigns `name` |
| `StatusParse.ApplyCountsHeaders` | luci-app-mini-mwan/htdocs/luci-static/resources/view/mini-mwan/status.js:29-82 | one iteration adds exactly one record for a header line and none for any other line |
| `StatusParse.ApplyKeepsNames` | luci-app-mini-mwan/htdocs/luci-static/resources/view/mini-mwan/status.js:35-49 | no line other than `name=` renames a record, and a header names the record it opens |
| `StatusParse.ParsedRecordCount` | luci-app-mini-mwan/htdocs/luci-static/resources/view/mini-mwan/status.js:15-86 | a parsed snapshot has one record per header line of the content |
| `StatusParse.CurrentSetIffHeaderSeen` | luci-app-mini-mwan/htdocs/luci-static/resources/view/mini-mwan/status.js:25-35 | the parser has a current record exactly when a header has been read |
| `StatusParse.SkippedLineIsNoOp` | luci-app-mini-mwan/htdocs/luci-static/resources/view/mini-mwan/status.js:29-55 | a blank or malformed line, wherever it stands, leaves the result unchanged |
| `StatusParse.SectionsFreezeEarlierState` | luci-app-mini-mwan/htdocs/luci-static/resources/view/mini-mwan/status.js:60-82 | once a header has been read, no later line changes a global field or any record before the current one; records are only appended |
| `StatusParse.LastSectionValueWins` | luci-app-mini-mwan/htdocs/luci-static/resources/view/mini-mwan/status.js:62-71 | inside a section a repeated key keeps its last value: after `key=value`, lines that neither open a section nor assign the key leave it reading as that value |
| `StatusParse.SectionStepKeeps` | luci-app-mini-mwan/htdocs/luci-static/resources/view/mini-mwan/status.js:60-72 | inside a section, a line that neither opens a section nor assigns `key` leaves `key` of the current record as it was |
| `StatusParse.LastGlobalValueWins` | luci-app-mini-mwan/htdocs/luci-static/resources/view/mini-mwan/status.js:75-80 | before the first header, the last assignment to a global key is the one that stays |
| `StatusParse.GlobalStepKeeps` | luci-app-mini-mwan/htdocs/luci-static/resources/view/mini-mwan/status.js:73-81 | before the first header, a line that neither opens a section nor assigns `key` leaves the global `key` as it was |
| `StatusParse.NoHeaderNoInterfaces` | luci-app-mini-mwan/htdocs/luci-static/resources/view/mini-mwan/status.js:18-23 | non-empty content without a header line gives a snapshot with no interfaces |
| `StatusParse.AsWrittenAgreesWithoutInterfacesKey` | luci-app-mini-mwan/htdocs/luci-static/resources/view/mini-mwan/status.js:79-80 | when no `interfaces=` line stands before the first header (one inside a section is allowed), the source's interface list holds one entry per header, named in file order |
| `StatusParse.InterfacesKeyBreaksHeaders` | luci-app-mini-mwan/htdocs/luci-static/resources/view/mini-mwan/status.js:49 | a global `interfaces=x` line followed by a header makes the source fail, while the corrected parser keeps `x` as a global and opens the record |
| `StatusView.ReasonText` | luci-app-mini-mwan/htdocs/luci-static/resources/view/mini-mwan/status.js:122-127 | the reason text is never empty; an empty reason reads `unknown`, `no_gateway` reads "No Gateway", `ipv6_detected` reads "IPv6 Detected", and any other reason is shown verbatim |
| `StatusView.ReasonTextAsWrittenAgrees` | luci-app-mini-mwan/htdocs/luci-static/resources/view/mini-mwan/status.js:123-127 | away from inherited member names, the object lookup as written shows the same text as `ReasonText` |
| `StatusView.InheritedReasonMisread` | luci-app-mini-mwan/htdocs/luci-static/resources/view/mini-mwan/status.js:127 | the reason `toString` finds the inherited member as written, where the verbatim text `toString` is meant |
| `StatusView.StatusBadge` | luci-app-mini-mwan/htdocs/luci-static/resources/view/mini-mwan/status.js:121-128 | a degraded badge carries the mapped reason text of the record |
| `StatusView.BadgeIsFirstMatch` | luci-app-mini-mwan/htdocs/luci-static/resources/view/mini-mwan/status.js:119-145 | exactly one badge is chosen, and it is the first that holds of: degraded is 1, device missing, device down, latency positive, always |
| `StatusView.RowStyleIsFirstMatch` | luci-app-mini-mwan/htdocs/luci-static/resources/view/mini-mwan/status.js:147-159 | the row style is the first that holds of: device missing, degraded is 1, always |
| `StatusView.BadgeAndRowAgree` | luci-app-mini-mwan/htdocs/luci-static/resources/view/mini-mwan/status.js:119-159 | a red row is exactly a missing device, whatever `degraded` is; a yellow row always carries the degraded badge; a plain row carries down, up or no-connectivity |
| `StatusView.FreshRecordShowsNotFound` | luci-app-mini-mwan/htdocs/luci-static/resources/view/mini-mwan/status.js:35-48 | a record left at its defaults shows "Interface Not Found" on a red row |
| `StatusView.UpBadgeMeansReachable` | luci-app-mini-mwan/htdocs/luci-static/resources/view/mini-mwan/status.js:139-141 | the UP badge shows exactly for a present, up, non-degraded interface with a positive latency |
| `StatusView.FormatDuration` | luci-app-mini-mwan/htdocs/luci-static/resources/view/mini-mwan/status.js:88-98 | "Unknown" exactly for an empty timestamp; NaN days exactly for one that does not parse; a minutes count is from 1 to 59, an hours count from 1 to 23, a days count at least 1 |
| `StatusView.DurationIsWholeUnits` | luci-app-mini-mwan/htdocs/luci-static/resources/view/mini-mwan/status.js:93-98 | below 60 s the elapsed seconds are shown as they are; otherwise the count `n` satisfies `n*unit <= elapsed < (n+1)*unit` for the largest unit that fits |
| `StatusView.DurationEdges` | luci-app-mini-mwan/htdocs/luci-static/resources/view/mini-mwan/status.js:95-98 | 59 s, 60 s, 3599 s, 3600 s, 86399 s and 86400 s land in seconds, 1 minute, 59 minutes, 1 hour, 23 hours and 1 day |
| `StatusView.DurationTextReadsBack` | luci-app-mini-mwan/htdocs/luci-static/resources/view/mini-mwan/status.js:95-98 | `parseInt` of the text shown gives back the count |
| `StatusView.FloorLogBounds` | luci-app-mini-mwan/htdocs/luci-static/resources/view/mini-mwan/status.js:106 | the unit index of a positive byte count `n` is the `k` with `1024^k <= n < 1024^(k+1)` |
| `StatusView.ScaleIndex` | luci-app-mini-mwan/htdocs/luci-static/resources/view/mini-mwan/status.js:104-108 | the unit of a positive count is the largest power of 1024 not above it, capped at TB |
| `StatusView.FormatBytes` | luci-app-mini-mwan/htdocs/luci-static/resources/view/mini-mwan/status.js:101-111 | "None" exactly for 0; NaN for a negative count; otherwise the unit is capped at TB, amount times unit size equals the count, the amount is at least 1 and, below TB, less than 1024 |
| `StatusView.TrafficArg` | luci-app-mini-mwan/htdocs/luci-static/resources/view/mini-mwan/status.js:217-218 | re-reading a counter with `parseInt` gives its own value back, and NaN falls back to 0 |
| `StatusView.FormatTimestamp` | luci-app-mini-mwan/htdocs/luci-static/resources/view/mini-mwan/status.js:113-117 | "Never" exactly for a falsy argument (empty text, 0, NaN); otherwise exactly the instant `parseInt` gives when it parses and lies in the range of a `Date`, and an invalid date when it does not parse or is out of range |
| `StatusView.TimestampTextMatchesNumber` | luci-app-mini-mwan/htdocs/luci-static/resources/view/mini-mwan/status.js:114-115 | a non-zero number and its decimal text show the same instant |
| `StatusView.SameReadingSameShown` | luci-app-mini-mwan/htdocs/luci-static/resources/view/mini-mwan/status.js:113-117 | what a time cell shows depends only on whether the argument is truthy and on what `parseInt` reads from it |
| `StatusView.TimestampZero` | luci-app-mini-mwan/htdocs/luci-static/resources/view/mini-mwan/status.js:114 | the number 0 shows "Never", but the text `0` shows the epoch |
| `StatusView.OrDash` | luci-app-mini-mwan/htdocs/luci-static/resources/view/mini-mwan/status.js:229-230 | the ping-target and gateway cells are never empty, and show a non-empty value as it is |
| `StatusView.RowOf` | luci-app-mini-mwan/htdocs/luci-static/resources/view/mini-mwan/status.js:214-232 | the row names the record's device, and its latency cell is empty exactly when the latency is NaN or zero |
| `StatusView.PageOf` | luci-app-mini-mwan/htdocs/luci-static/resources/view/mini-mwan/status.js:172-178 | the no-status notice shows exactly when there is no snapshot or it has no interfaces; otherwise row k is the row of interface k, one row per interface |
| `StatusView.Render` | luci-app-mini-mwan/htdocs/luci-static/resources/view/mini-mwan/status.js:161-178 | on raw content, the notice shows exactly when the content is absent, empty or has no header line; otherwise there is one row per header line |
| `StatusView.RowsFollowHeaders` | luci-app-mini-mwan/htdocs/luci-static/resources/view/mini-mwan/status.js:214-224 | without a `name=` line, row `k` names the device of header `k`, in file order |
| `ConfigValidate.CheckDevices` | luci-app-mini-mwan/htdocs/luci-static/resources/view/mini-mwan/overview.js:58-71 | accepts if and only if no non-empty device occurs twice; a rejection names the device of the first section, in order, whose device appeared earlier |
| `ConfigValidate.AbsentDevicesIgnored` | luci-app-mini-mwan/htdocs/luci-static/resources/view/mini-mwan/overview.js:65-68 | an unset or empty device never changes the verdict |
| `ConfigValidate.InheritedDeviceNameRejected` | luci-app-mini-mwan/htdocs/luci-static/resources/view/mini-mwan/overview.js:63-65 | as written, a single section with device `toString` is rejected although nothing repeats |
| `ConfigValidate.AsWrittenRejectsDuplicates` | luci-app-mini-mwan/htdocs/luci-static/resources/view/mini-mwan/overview.js:63-69 | the check as written still rejects every real duplicate, and every device already remembered |
| `ConfigValidate.CheckPingTarget` | luci-app-mini-mwan/htdocs/luci-static/resources/view/mini-mwan/overview.js:102-114 | an unset or empty value is accepted; otherwise the value is rejected if and only if a section with a different name stores the same target |
| `ConfigValidate.OwnTargetIgnored` | luci-app-mini-mwan/htdocs/luci-static/resources/view/mini-mwan/overview.js:108-109 | the section's own stored target never counts against it, wherever it stands in the list |
| `ConfigValidate.SharedTargetRejectedForBoth` | luci-app-mini-mwan/htdocs/luci-static/resources/view/mini-mwan/overview.js:106-112 | when two differently named sections store the same target, the check rejects it for each of them |

## Left out

- Reading the status file, polling, the footer hook and all DOM building. The HTML markup and colours of badges and rows are named by datatypes instead.
- The clock: `formatDuration` takes `now`, in whole seconds since the epoch, as a parameter.
- Locale and number formatting:
  - `toLocaleString` is left out; `formatTimestamp` yields the instant in seconds.
  - `toFixed(2)` is left out; byte amounts and latencies are exact values.
  - The `%s` formatting of the validators' messages is left out.
- Translation: `_()` is taken as the identity on its string.
- StatusView.FormatBytes: the unit index is the exact integer floor of the base-1024 logarithm. The source computes it with `Math.log` in floating point, which can land one unit lower at or next to exact powers of 1024.
- JsNumber.ParseFloat: results are exact rationals. IEEE double rounding, overflow to Infinity for huge exponents and precision loss beyond 2^53 are not modelled, and neither is that loss for `parseInt`.
- StatusView.TrafficArg: the source re-reads a counter through its decimal text. For counts of 10^21 and more, JavaScript prints the text in exponent form, and `parseInt` then reads only its leading digits. The model assumes the plain decimal text.
- StatusView.SecondsOf: a numeric timestamp is re-read through its plain decimal text, as above.
- StatusParse.SetField: a key named `__proto__` is stored like any other pass-through key; in JavaScript, assigning a string to it is ignored.
- StatusParse.SetGlobal: likewise, a global `__proto__=` line is stored among the pass-through globals, whereas JavaScript ignores the assignment.
- StatusParse.FoldAsWritten: it tracks only what the source's `status.interfaces` holds. What the page would draw for an interface list replaced by a string is not modelled.
- The form declarations of the configuration view are not modelled: options, datatypes (`ipaddr`, `range`), defaults and modal flags. The configuration store is replaced by the sequences the two checks read.
- ConfigValidate.CheckPingTarget: the value is one string; a multi-valued option is not modelled.

## Findings

| source | as written | input that shows it | evidently intended | confidence | as-written member | corrected member |
|---|---|---|---|---|---|---|
| luci-app-mini-mwan/htdocs/luci-static/resources/view/mini-mwan/status.js:79-80 | every global key other than `timestamp` and `check_interval` is stored as `status[key]`, so a global `interfaces=` line replaces the interface list by a string, and the next header's `push` throws | `interfaces=x` followed by `[wg0]` | `interfaces` is an ordinary pass-through global key; headers keep appending records | medium, not executed | `StatusParse.InterfacesKeyBreaksHeaders` | `StatusParse.InterfacesFollowHeaders` |
| luci-app-mini-mwan/htdocs/luci-static/resources/view/mini-mwan/status.js:123-127 | the reason labels are looked up in a plain object, so a reason naming an inherited member yields that member, which is truthy | `degraded=1`, `degraded_reason=toString` | an unknown reason is shown verbatim | low, not executed | `StatusView.InheritedReasonMisread` | `StatusView.ReasonText` |
| luci-app-mini-mwan/htdocs/luci-static/resources/view/mini-mwan/overview.js:63-65 | remembered devices are the keys of a plain object, so a device named after an inherited member is reported as a duplicate on its first occurrence | one interface section with device `toString` | accept a device that occurs once | low, not executed | `ConfigValidate.InheritedDeviceNameRejected` | `ConfigValidate.CheckDevices` |
