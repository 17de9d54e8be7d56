# Gold Coast Seaway wind: a Dafny model of the forecast pipeline and its charts

This project models the core of a small wind-forecast site for the Gold
Coast Seaway, and proves properties of that model.

It covers two AWS Lambda handlers and four React/d3 chart components.

- **The analysis builder** takes yesterday's forecast for the Brisbane day and keeps the entries of that day. It converts km/h to knots, sorts the entries by time and densifies them onto a 10-minute grid. It then pairs each observation of the day with the forecast speed at the nearest forecast time, if that time is within five minutes.
- **The 12-hour forecast endpoint** keeps today's entries from the next whole hour up to twelve hours later. It densifies them the same way, and each row carries the wind direction of the entry that begins its stretch.
- **The wind chart** lays the "HH:MM" rows on a timeline that runs on past midnight. It draws the last 72 points as arrows, coloured by speed and clamped above the axis. A tooltip shows the nearest point.
- **The error chart** plots observed and forecast speed. Its width follows the span of the data, and a tooltip shows the rounded error.
- **The bar chart** draws one bar per day, at an exact bar width and gap. Each bar's height is the day's MAE and its colour is the sign of the day's bias.
- **The scatter chart** plots forecast against observed speed on equal axes. It keeps only finite samples and colours each dot by the sign of the bias.

All four charts share the same tooltip logic:

- a hide timer held in a ref;
- `getNearestData`, a `d3.bisector` lookup;
- a rule for which pointer-down events dismiss the tooltip.

Modules follow the program:

| module | what it models |
|---|---|
| `Clock` | Brisbane wall-clock seconds, and the `%H:%M` label |
| `Bisect` | `bisect_left` and d3's `bisector().left` |
| `StableSort` | `list.sort(key=…)` and `Array.prototype.sort`, specified by a reference stable insertion sort and implemented in place on an array |
| `Densify` | the 10-minute loop that both handlers share |
| `AnalysisBuilder` | `backend/analysis_builder/index.py` |
| `ForecastWind` | `backend/forecast_wind/index.py` |
| `ChartCommon` | nearest-point lookup, `Math.round`, tooltip placement, auto-scroll, pointer-down targets |
| `Tooltip` | the tooltip state and hide timer, as a class `TooltipController` |
| `WindChart`, `ErrorChart`, `BarChart`, `ScatterChart` | one module per component |

**Time.** Backend timestamps are integer seconds on the Brisbane wall clock. Brisbane keeps no daylight saving, so this clock is UTC plus ten hours. Chart times are integer milliseconds.

**The hide timer.** The browser's side of the timer is explicit in the model:

- `armed` maps each pending timeout handle to its delay;
- `Fire(h)` is the browser running the timeout with handle `h`.

**Behaviours of the code that are easy to miss, modelled as written:**

- **Nearest-point ties.** Both `find_nearest_forecast` (`bdiff <= adiff`, backend/analysis_builder/index.py:86) and `getNearestData` (a strict `>`, web/src/components/WindChart/WindChart.tsx:282) pick the earlier one.
- **The y-axis SVG.** A pointer-down in the y-axis SVG of the wind, error and bar charts never hides the tooltip. The card's capturing listener treats that SVG as part of the chart, and only the plotting SVG has a listener of its own.
- **The scatter chart's card.** The scatter chart has no card listener. A pointer-down inside the card but outside its SVG (header, date pickers, legend) leaves the tooltip visible.

## Model

| member | source | states |
|---|---|---|
| Clock.ToBrisbane | backend/analysis_builder/index.py:40-44 | a naive stamp is taken as Brisbane wall time; a stamp with an offset keeps its instant (wall − offset equals Brisbane wall − 10 h) |
| Clock.BrisbaneKeepsOrder | backend/analysis_builder/index.py:40-44 | Brisbane wall seconds order stamps as their instants, whatever their offsets, and differ by the difference of the instants |
| Clock.FromEpoch | backend/analysis_builder/index.py:91 | the Brisbane wall time of a Unix timestamp is that timestamp shifted by exactly +10 h |
| Clock.DayStart | backend/analysis_builder/index.py:33 | the result is a midnight, at most `w` and less than a day before it |
| Clock.Label | backend/analysis_builder/index.py:93 | the `%H:%M` label names the minute of the day that the timestamp falls in |
| Clock.LabelDeterminedByMinuteOfDay | backend/forecast_wind/index.py:46 | two timestamps get the same label exactly when they fall in the same minute of the day |
| Bisect.BisectLeft | backend/analysis_builder/index.py:78 | the insertion point lies in `[lo, hi]` (it is `lo` when `lo > hi`); on sorted input, everything before it is below `x` and everything from it on is at least `x` |
| StableSort.SortInPlace | backend/analysis_builder/index.py:50 | the array afterwards holds exactly the reference stable sort of its old contents |
| StableSort.InsertAt | backend/analysis_builder/index.py:50 | one pass leaves the prefix up to `i` equal to the reference insertion of `a[i]` into the prefix before it, and the rest of the array unchanged |
| StableSort.SortedIsOrdered | backend/analysis_builder/index.py:50 | for a total preorder, the sorted result is ordered |
| StableSort.SortedIsPermutation | backend/analysis_builder/index.py:50 | the sorted result holds each input element exactly as often as the input |
| StableSort.SortedIsStable | backend/analysis_builder/index.py:50 | the elements of any one key keep their input order |
| Densify.SortByTime | backend/forecast_wind/index.py:40 | sorting the collected points by `ts` gives the stable sort by time |
| Densify.SortByTimeOrders | backend/forecast_wind/index.py:40 | the sorted points are a permutation of the input, in non-decreasing time, with equal times in input order |
| Densify.DensifyTenMinutes | backend/analysis_builder/index.py:52-70 | the pair loop and the 10-minute loop produce exactly the reference densified series |
| Densify.FillSteps | backend/analysis_builder/index.py:57-65 | the 10-minute loop appends exactly the reference interpolated rows of one pair |
| Densify.FillLength | backend/analysis_builder/index.py:58-59 | a pair gets one interpolated row per 10-minute step that lies strictly before the pair's second time |
| Densify.InterpolateBetween | backend/analysis_builder/index.py:60-64 | strictly between two times, `frac` lies in (0, 1), and the speed lies between the two neighbours' speeds; other fields come from the first neighbour |
| Densify.DensifiedEnds | backend/analysis_builder/index.py:66-70 | the output is empty iff the input is, and begins and ends with the input's first and last rows |
| Densify.OriginalsKept | backend/analysis_builder/index.py:53-56 | every input row appears at its own position in the output, in input order |
| Densify.BetweenOriginals | backend/analysis_builder/index.py:57-65 | between two consecutive input rows there are only interpolated rows, at multiples of 10 min after the first and strictly before the second |
| Densify.DensifiedChain | backend/analysis_builder/index.py:52-70 | on sorted input, consecutive output rows never go back in time and are at most 10 min apart; on strictly increasing input they strictly increase |
| Densify.DensifiedWithin | backend/analysis_builder/index.py:45-70 | densifying a sorted series whose times lie in a half-open window keeps every time in that window |
| Densify.OriginalsOnce | backend/analysis_builder/index.py:52-70 | on strictly increasing input, an input row's time occurs only at that row's own position |
| Densify.HourlyLength | backend/forecast_wind/index.py:52-61 | hourly input of n rows densifies to 6(n − 1) + 1 rows |
| AnalysisBuilder.WindowStart | backend/analysis_builder/index.py:14-33 | the window starts at the midnight that begins the day containing "now − 1 day" |
| AnalysisBuilder.CollectEntries | backend/analysis_builder/index.py:37-49 | the nested loop over days and entries appends exactly the reference collection |
| AnalysisBuilder.CollectedDayIff | backend/analysis_builder/index.py:39-49 | a day contributes a point iff one of its entries, converted, lies in `[start, start + 1 day)` |
| AnalysisBuilder.CollectedIff | backend/analysis_builder/index.py:37-49 | a point is collected iff some entry of some day lies in the window; the point carries the Brisbane time and speed × 0.539957 |
| AnalysisBuilder.SortedInDay | backend/analysis_builder/index.py:45-50 | the sorted collection is in time order and inside the day window |
| AnalysisBuilder.ForecastPointsOrdered | backend/analysis_builder/index.py:50-70 | the forecast series is sorted by time, steps at most 10 min, and lies inside yesterday's day |
| AnalysisBuilder.AbsMinutesCompare | backend/analysis_builder/index.py:80-86 | comparing `abs(delta)/60` values, or comparing one with 5, is the same as comparing the distances in seconds, or a distance with 300 s |
| AnalysisBuilder.CandidateIsEarliestNearest | backend/analysis_builder/index.py:78-86 | on sorted, non-empty times, the neighbour of the bisect point that the lookup keeps is the earliest of the nearest times |
| AnalysisBuilder.NearestForecastSpec | backend/analysis_builder/index.py:75-86 | on sorted times: no times gives no match; there is no match iff every time is more than 5 min away; a match is the nearest time, the earlier of two equally near times |
| AnalysisBuilder.Merge | backend/analysis_builder/index.py:89-96 | one merged row per observation, in input order, each built from that observation |
| AnalysisBuilder.BuildAnalysis | backend/analysis_builder/index.py:33-96 | each row is the observation's row against the collected, sorted and densified forecast of yesterday's window |
| AnalysisBuilder.MergedRowSpec | backend/analysis_builder/index.py:89-96 | a row's actual is the observed speed in knots; it has a prediction iff some forecast point is within 5 min; the prediction is the earliest nearest point's speed |
| ForecastWind.StartHour | backend/forecast_wind/index.py:21-22 | the start is on the hour, at or less than an hour after now, and equal to now exactly when now is on the hour |
| ForecastWind.PastTheHour | backend/forecast_wind/index.py:22 | "minute > 0 or second > 0" holds exactly when the time is not on the hour |
| ForecastWind.StartHourWithinAnHour | backend/forecast_wind/index.py:21-22 | in microseconds, the start lies less than an hour after now, and less than a second before it when only microseconds are past the hour |
| ForecastWind.Cutoff | backend/forecast_wind/index.py:24 | the cutoff is exactly 12 h after the start hour |
| ForecastWind.CollectPoints | backend/forecast_wind/index.py:27-38 | the nested loop appends exactly the reference collection |
| ForecastWind.CollectedDayIff | backend/forecast_wind/index.py:29-38 | a day contributes a point iff one of its entries lies in `[start_hour, cutoff]`, converted, with its direction fields |
| ForecastWind.CollectedIff | backend/forecast_wind/index.py:27-38 | a point is collected iff some entry of some day lies in the closed 12-hour window |
| ForecastWind.SortedPointsInWindow | backend/forecast_wind/index.py:32-40 | `points` is sorted by time, is a permutation of what was collected, and lies in the window |
| ForecastWind.ForecastNext12Hours | backend/forecast_wind/index.py:19-70 | `filled` is the rows of the densified, sorted window points for the start hour of `now` |
| ForecastWind.FilledKeepsPoints | backend/forecast_wind/index.py:43-70 | every point has its own row in order, and the last row is the last point's |
| ForecastWind.FilledEmpty | backend/forecast_wind/index.py:63-70 | `filled` is empty iff `points` is |
| ForecastWind.FilledBetween | backend/forecast_wind/index.py:52-61 | an interpolated row lies on a 10-minute step after its stretch's first point, has a speed between the two points' speeds, and has the first point's direction |
| ForecastWind.FilledOrdered | backend/forecast_wind/index.py:43-70 | on distinct times, the rows strictly increase in time and are at most 10 min apart |
| ChartCommon.NearestIndexSpec | web/src/components/WindChart/WindChart.tsx:274-283 | on sorted times, the lookup answers iff there is a point; one point answers that point; the answer is the nearest time, the earlier one on a tie |
| ChartCommon.Round | web/src/components/ErrorChart/ErrorChart.tsx:264-266 | `Math.round` gives the integer within half a unit below and less than half a unit above |
| ChartCommon.RoundDifference | web/src/components/ErrorChart/ErrorChart.tsx:264-266 | the rounded difference is within one of the difference of the rounded values |
| ChartCommon.RoundMonotone | web/src/components/WindChart/WindChart.tsx:301 | rounding never reverses order |
| ChartCommon.MobileFlipPlacementSpec | web/src/components/WindChart/WindChart.tsx:365-370 | the panel is 100 px above the pointer with its near edge 20 px away; it is right-anchored only on mobile, and exactly in the right half of the viewport |
| ChartCommon.ScrollOffset | web/src/components/ErrorChart/ErrorChart.tsx:291 | the scroll offset is non-negative, either 0 or the overflow, and 0 exactly when nothing overflows |
| ChartCommon.CardHidesSpec | web/src/components/WindChart/WindChart.tsx:64-87 | with the document, card and SVG listeners, a pointer-down keeps the tooltip exactly in the y-axis SVG or on a mark |
| Tooltip.TooltipController.constructor | web/src/components/WindChart/WindChart.tsx:24-37 | the tooltip starts hidden at (0, 0) with no payload and no pending timer |
| Tooltip.TooltipController.ClearHideTimer | web/src/components/WindChart/WindChart.tsx:38-43 | the pending timeout is cancelled and forgotten, and the tooltip is untouched; the truthiness test of the scatter chart behaves the same |
| Tooltip.TooltipController.HideNow | web/src/components/WindChart/WindChart.tsx:44-47 | the tooltip is hidden with no timeout left pending, and position and payload are kept |
| Tooltip.TooltipController.ScheduleHide | web/src/components/WindChart/WindChart.tsx:48-54 | the old timeout is cancelled and a new one is the only one armed; its handle is newer than any earlier handle |
| Tooltip.TooltipController.Show | web/src/components/WindChart/WindChart.tsx:296-308 | the tooltip is visible at the pointer with the payload, and hiding is scheduled |
| Tooltip.TooltipController.Fire | web/src/components/WindChart/WindChart.tsx:50-53 | an armed timeout hides the tooltip and clears the ref; any other handle changes nothing |
| Tooltip.StaleTimerKeepsNewerTooltip | web/src/components/WindChart/WindChart.tsx:48-54 | after a show, running any timeout but the one it armed leaves the new tooltip visible where it was shown, with its payload and its own timer pending |
| Tooltip.HideNowLeavesNothingPending | web/src/components/WindChart/WindChart.tsx:44-47 | after `hideNow`, no timeout can change the tooltip |
| WindChart.ToChartData | web/src/components/WindChart/WindChart.tsx:105-127 | the map with its `prevHM` and `dayOffset` variables gives each row its point on the timeline |
| WindChart.TimeOfDay | web/src/components/WindChart/WindChart.tsx:114-119 | a point's whole days after `today0` are the midnights crossed so far, and its remainder is the label's minute of the day |
| WindChart.TimelineStep | web/src/components/WindChart/WindChart.tsx:109-119 | the timeline never goes back, and it stays put exactly when a label repeats |
| WindChart.TimelineNonDecreasing | web/src/components/WindChart/WindChart.tsx:109-119 | later rows never get earlier times |
| WindChart.ChartTimesSorted | web/src/components/WindChart/WindChart.tsx:109-127 | the chart times are sorted, which is the bisector's precondition |
| WindChart.Recent | web/src/components/WindChart/WindChart.tsx:130 | `slice(-72)` is the last 72 points, or all of them, and is a suffix of the chart data |
| WindChart.ChartWidth | web/src/components/WindChart/WindChart.tsx:98-131 | the plot is the container less 100 px, stretched 2.6 times on mobile |
| WindChart.ArrowFillBands | web/src/components/WindChart/WindChart.tsx:262-266 | red up to 10 kn, yellow above 10 up to 17 kn, green above 17 kn |
| WindChart.ArrowFillMonotone | web/src/components/WindChart/WindChart.tsx:262-266 | a faster wind never gets a lower band |
| WindChart.ArrowPoseSpec | web/src/components/WindChart/WindChart.tsx:267-270 | the arrow's base is at most 182 px down, at the speed's height exactly from 2.7 kn up, rotated by direction + 180 |
| WindChart.GustArrowsIff | web/src/components/WindChart/WindChart.tsx:237 | a point gets a gust arrow iff it is drawn and its gust is positive |
| WindChart.NoGustNoArrow | web/src/components/WindChart/WindChart.tsx:124 | a row without a gust gets gust 0, and its point is not among the gust arrows of any drawn series |
| WindChart.MobileScrollSpec | web/src/components/WindChart/WindChart.tsx:325-330 | the mobile chart scrolls to 1.6 widths exactly when a gust arrow is drawn, and stays at 0 otherwise |
| WindChart.FormatHM | web/src/components/WindChart/WindChart.tsx:293 | the label names the minute of the day of the time since `today0` |
| WindChart.FindLabel | web/src/components/WindChart/WindChart.tsx:294 | `find` answers the first row with the label, or none when no row has it |
| WindChart.TipForOwnRow | web/src/components/WindChart/WindChart.tsx:292-306 | the payload's time is the point's own label; gust and direction come from the point's own row when no earlier row repeats the label |
| WindChart.ShowTooltip | web/src/components/WindChart/WindChart.tsx:287-309 | with no nearest point nothing changes; otherwise the nearest point's payload is shown and hiding is scheduled after 3 s |
| WindChart.WindHidesSpec | web/src/components/WindChart/WindChart.tsx:311-318 | a pointer-down keeps the tooltip exactly in the y-axis SVG or on an arrow that is not the background |
| ErrorChart.MinTime | web/src/components/ErrorChart/ErrorChart.tsx:112 | the extent's start is a data time, and no data time is earlier |
| ErrorChart.MaxTime | web/src/components/ErrorChart/ErrorChart.tsx:112 | the extent's end is a data time, and no data time is later |
| ErrorChart.ChartWidthSpec | web/src/components/ErrorChart/ErrorChart.tsx:113-117 | the plot is at least the inner width on mobile and at least 0.98 of it on desktop; once the data spans more than one screen, the width is the inner width scaled by data span over visible span (5 h or 12 h), times 0.98 on desktop |
| ErrorChart.RenderPlanSpec | web/src/components/ErrorChart/ErrorChart.tsx:109-119 | no data draws nothing; otherwise the x domain is the earliest to the latest data time |
| ErrorChart.TipForSpec | web/src/components/ErrorChart/ErrorChart.tsx:264-266 | the rounded error is within one of the rounded speeds' difference; its sign matches the side of the miss; it is 0 iff the miss is within half a knot |
| ErrorChart.NearestPointSpec | web/src/components/ErrorChart/ErrorChart.tsx:245-252 | on samples in time order, a sample is found exactly when there is one, and it is the earliest of the samples nearest the pointer's time |
| ErrorChart.ShowTooltip | web/src/components/ErrorChart/ErrorChart.tsx:255-271 | with no nearest sample nothing changes; otherwise the sample's rounded numbers are shown and hiding is scheduled after 1 s |
| ErrorChart.ErrorHidesSpec | web/src/components/ErrorChart/ErrorChart.tsx:273-280 | a pointer-down keeps the tooltip only in the y-axis SVG or on one of the two lines |
| BarChart.SplitRejoins | web/src/components/BarChart/BarChart.tsx:8 | `split` loses nothing: joining the parts with the separator gives the string back |
| BarChart.SplitPartsFree | web/src/components/BarChart/BarChart.tsx:8 | no part of a split holds the separator |
| BarChart.SplitIsoDate | web/src/components/BarChart/BarChart.tsx:7-8 | a matching date splits into year, month and day |
| BarChart.FormatToAusDateSpec | web/src/components/BarChart/BarChart.tsx:6-10 | a matching date becomes `DD/MM/YYYY` and can be read back; any other string comes back unchanged |
| BarChart.TickLabelSpec | web/src/components/BarChart/BarChart.tsx:194-197 | a matching date's tick is `DD/MM`, the first five characters of its Australian form |
| BarChart.DateLeIsTotalPreorder | web/src/components/BarChart/BarChart.tsx:115 | the date comparator orders all rows transitively |
| BarChart.SortedRows | web/src/components/BarChart/BarChart.tsx:115 | the sort yields a new array that is the stable sort by date; no data gives an empty array |
| BarChart.SortedRowsSpec | web/src/components/BarChart/BarChart.tsx:115 | the rows are in date order, a permutation of the input, with same-date rows in input order |
| BarChart.BarLayoutSpec | web/src/components/BarChart/BarChart.tsx:126-131 | the plot is at least the inner width and the needed width; no bar is narrower than the target; the last bar ends inside the plot, less than a pixel per bar short of its edge |
| BarChart.MaxMae | web/src/components/BarChart/BarChart.tsx:134 | `d3.max` is undefined exactly for no rows, else the largest MAE (a missing MAE counting as 0) |
| BarChart.RenderPlanSpec | web/src/components/BarChart/BarChart.tsx:111-134 | no rows only clears both SVGs; otherwise the plot is at least the inner width and holds every bar at the target width, and the scale reaches 11.5 and above every MAE |
| BarChart.YMaxSpec | web/src/components/BarChart/BarChart.tsx:134 | the y domain reaches at least 11.5 and 1.15 × every MAE, and no further than one of them |
| BarChart.BarColourSpec | web/src/components/BarChart/BarChart.tsx:204-205 | `pos` iff bias > 0.1, `neg` iff bias < −0.1, and `zero` in between or when missing; negating the bias swaps `pos` and `neg` |
| BarChart.PlacementSpec | web/src/components/BarChart/BarChart.tsx:298-301 | exactly one of `left` and `right` is set, `left` iff the pointer is in the left half; the near edge is 18 px away, the top 110 px above |
| BarChart.ShowTip | web/src/components/BarChart/BarChart.tsx:207-212 | the row is shown at the client coordinate, else at the first touch, else at 0, and hiding is scheduled after 1 s |
| BarChart.BarHidesSpec | web/src/components/BarChart/BarChart.tsx:240-247 | a pointer-down keeps the tooltip only in the y-axis SVG or on a bar |
| ScatterChart.CleanPoints | web/src/components/ScatterChart/ScatterChart.tsx:85-102 | missing data has no points |
| ScatterChart.KeepIff | web/src/components/ScatterChart/ScatterChart.tsx:88-94 | a row is kept iff both speeds are finite; the `null` tests add nothing |
| ScatterChart.PointsAppend | web/src/components/ScatterChart/ScatterChart.tsx:85-102 | filtering keeps input order |
| ScatterChart.PointsIff | web/src/components/ScatterChart/ScatterChart.tsx:85-102 | a point is present iff it comes from a kept row, with that row's speeds |
| ScatterChart.PointsErr | web/src/components/ScatterChart/ScatterChart.tsx:95-100 | every point's error is its observed speed minus its forecast speed |
| ScatterChart.PlotWidth | web/src/components/ScatterChart/ScatterChart.tsx:121-123 | the width is at least 280 and at least the container less 72 px, and is one of the two |
| ScatterChart.MinOf | web/src/components/ScatterChart/ScatterChart.tsx:136 | `d3.min` is undefined exactly for no values, else a value no larger than any |
| ScatterChart.MaxOf | web/src/components/ScatterChart/ScatterChart.tsx:137 | `d3.max` is undefined exactly for no values, else a value no smaller than any |
| ScatterChart.VMinSpec | web/src/components/ScatterChart/ScatterChart.tsx:135-136 | the domain's lower end is at most 0 and at most every plotted speed, and is 0 or one of them |
| ScatterChart.VMaxSpec | web/src/components/ScatterChart/ScatterChart.tsx:137 | the upper end bounds every plotted speed iff the largest speed is not negative |
| ScatterChart.RenderPlanSpec | web/src/components/ScatterChart/ScatterChart.tsx:121-132 | with no points only the SVG is sized; the width is at least 280 px either way |
| ScatterChart.ColourAgainstTip | web/src/components/ScatterChart/ScatterChart.tsx:199-222 | a dot is coloured over-forecast iff its tooltip error is negative; a perfect forecast is coloured under-forecast |
| ScatterChart.Placement | web/src/components/ScatterChart/ScatterChart.tsx:292-296 | the panel never flips: it is left-anchored 18 px right of the pointer and 110 px above it |
| ScatterChart.ShowOnMouse | web/src/components/ScatterChart/ScatterChart.tsx:217-225 | the dot's payload is shown at the pointer and hiding is scheduled after 1 s |
| ScatterChart.ShowOnTouch | web/src/components/ScatterChart/ScatterChart.tsx:227-236 | the same at the first touch, or at (0, 0) when there is none |
| ScatterChart.Lower | web/src/components/ScatterChart/ScatterChart.tsx:244 | `toLowerCase` keeps the length, turns ASCII capitals into small letters and leaves every other character alone |
| ScatterChart.ScatterHidesSpec | web/src/components/ScatterChart/ScatterChart.tsx:242-245 | together with the document listener and the background rectangle, a pointer-down keeps the tooltip exactly on a circle or in the card outside the SVG |
| ScatterChart.LowerMatches | web/src/components/ScatterChart/ScatterChart.tsx:244 | a tag lower-cases to a word of small letters exactly when it spells that word with each letter in either case |
| ScatterChart.LowerCircle | web/src/components/ScatterChart/ScatterChart.tsx:244 | the tag test ignores case: a tag counts as a dot exactly when it is `circle` with each letter in either case |

## Left out

- **I/O.** S3 reads and writes, and the JSON and HTTP envelopes, are left out: the handlers' inputs (the feed's days and entries, the observations, `now`) are parameters.
- **Parsing and formatting.** `fromisoformat` is not modelled: stamps arrive parsed, as wall-clock seconds with or without a UTC offset. Nor are `strptime`, or `strftime` beyond `%H:%M`. Fractional seconds of stamps are not modelled.
- **Time zones.** Brisbane's historical daylight saving (before 1992) is left out: the offset is a constant +10 h. The browser's local midnight `today0` is a parameter. The wind chart's labels are computed with the browser's offset at `today0`, so the model assumes that offset does not change between `today0` and the drawn points (see `WindChart.FormatHM` below).
- **Drawing.** d3 scales, axes, grid lines, `nice()`, path strings and the React rendering are not modelled. `xScale.invert(mx)` is given as the integer time `x0`, and pixel positions as reals.
- **Floating point.** Speeds and pixels are exact reals, so IEEE rounding of `speed * 0.539957`, of `frac` and of the widths is not modelled. `Math.round` is modelled exactly (floor of x + 0.5).
- **Number formatting.** `toFixed`, and the tooltip's time strings (`formatBris`, `%Y-%m-%d %H:%M`), are left out. So are the bar chart's other metrics (n, coverage, RMSE, sMAPE, means), which it only prints.
- **Locale.** `localeCompare` is modelled as plain lexicographic order on characters, which agrees with it on `YYYY-MM-DD` dates.
- **Timers.** Timer timing is left out: the delay is carried by the armed timeout, and `Fire` may run any handle at any time. React's batching of state updates is not modelled: each update applies at once.
- **Resize and leave events.** The resize flag (`innerWidth <= 768`) is an input, `isMobile`. `pointerleave`, `mouseleave` and `touchend` call `hideNow`, which `Tooltip.TooltipController.HideNow` models, with one exception. The bar chart sets a second `mouseleave` handler on the bars (web/src/components/BarChart/BarChart.tsx:236-238). It replaces the `hideNow` handler of line 229, so leaving a bar only clears its outline, and only leaving the whole SVG (`pointerleave`) hides the tooltip.
- **Scroll timing.** The 100 ms `setTimeout` around each auto-scroll is left out: only the offset it sets is modelled.
- WindChart.FormatHM: formats every time with the browser's offset at `today0`. `d3.timeFormat` uses the offset at the time itself, so across a daylight-saving change in the browser's zone the source's label is off by the change, which the model does not capture.
- WindChart.TipForOwnRow: holds when the browser's offset is the same at `today0` and at the point. After a change of offset, the source's label, and so the row that `find` picks, may differ.
- ScatterChart.ScatterHides: describes the listeners after a render that drew points. After a render with no points, the SVG listener of an earlier render may or may not remain, and that is not modelled.
- **Rows and payloads.** The wind chart takes rows whose `x` is already a valid `HH:MM` label (`parseHM` never fails on the backend's labels). The error chart's rows arrive with `time` as a millisecond value. The error chart maps its rows without sorting them, so its nearest-point guarantee (`ErrorChart.NearestPointSpec`) holds for rows that arrive in time order, which the model requires and does not check.
- **Two behaviours kept as lemmas.** Both are modelled as written and not claimed as defects:
  - The wind chart's `data.find` picks the first row with a label, which belongs to another day when a label repeats. `WindChart.TipForOwnRow` states when it is the point's own row.
  - `slice(-72)` drops the first of 73 rows.
