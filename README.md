# NewScale manipulator coordinates

This is a Dafny model of the coordinate resolver in `src/npc_ephys/newscale.py`, from the
`npc_ephys` package. The NewScale manipulator software logs every probe-manipulator
movement as one row: a timestamp, the manipulator's serial number, x/y/z and three virtual
coordinates. Given such a log and the time a recording started, the resolver answers: where
was each probe at the start of the recording?

The resolver works in these steps:

1. It fails unless some logged movement falls on the recording's start date.
2. It decides from a majority vote whether the log recorded the z-axis inverted. The vote
   is over the z readings dated on or after the start date, rounded to hundreds.
3. It keeps, for each manipulator (grouped on the serial number as logged), its latest
   movement strictly before the start.
4. It keeps the six manipulators moved most recently.
5. It strips whitespace from the serial numbers.
6. It labels each row `probe` plus the registry's probe letter.
7. When the z-axis is inverted, it mirrors z about the manipulator's travel (6000 or
   15000). This fails for a serial number the registry does not know.
8. It records each movement's time relative to the start.
9. It sorts the rows by label.

Modules:

- `Outcomes`: `Option`, `Result` and the three failures: missing start time, no
  movement on the start date, unknown serial number.
- `Text`: whitespace stripping (the Unicode `White_Space` set) and the
  code-point lexicographic order used for sorting.
- `Registry`: the serial-number table of the four rigs NP.0 to NP.3, the short-travel
  set and `ZTravel`. The resolver takes the registry as a parameter `DeviceRegistry`;
  the rigs' own registry is `NewScale`.
- `ZInversion`: rounding to hundreds (ties to even), the per-value counter and the
  inversion heuristic.
- `Coordinates`: the log and table rows, and the resolver. The resolver is written as
  methods with loops where the source works step by step:
  - `LatestPerDevice` builds a map in a loop (the group-by).
  - `TopK` repeatedly takes the most recently moved device.
  - `CorrectAndLabel` corrects z in place in an array.

  Each method is proved against the ghost predicates that say what its result means:
  `IsLatestMap`, `IsTopK`, `IsTopLatest`, `ResolverOutcome`, `IsResolution`.

Timestamps are whole seconds on a time-zone-free time line. The date of a timestamp `t`
is `t / 86400` (floor division).

The model follows the code in these easily misread points:

- Grouping uses the serial number as logged, not the trimmed one. A serial logged both
  with and without a leading space forms two groups, and so two rows
  (`PaddedSerialFormsItsOwnGroup`).
- Labels are not unique. SN32149 and SN24272 both carry probe D
  (`SharedProbeLetterGivesDuplicateLabels`).
- An unknown serial number fails only when the z-axis is judged inverted, because only
  then is its travel looked up. Otherwise the row keeps the stripped serial number as
  its label (`ElectrodeGroupName`).
- The table has no virtual columns: the code keeps only the first five log columns.
- The "recent" sample for the heuristic is not the 24 hours before the start. It is
  every movement dated on or after the start date, later ones included
  (`RecentMeansFromStartDay`).

## Model

| member | source | states |
|---|---|---|
| Registry.ZTravel | src/npc_ephys/newscale.py:185-198 | A travel exists exactly for registered serial numbers; an unregistered one gives `UnknownSerial` with that serial; the travel is 6000 exactly for short-travel serials and 15000 exactly for the others |
| Registry.ShortTravelSerialsRegistered | src/npc_ephys/newscale.py:16-58 | Every short-travel serial number is registered and its travel is 6000 |
| Registry.ShortExample | src/npc_ephys/newscale.py:187-188 | SN32144 has travel 6000 |
| Registry.LongExample | src/npc_ephys/newscale.py:189-190 | SN40911 has travel 15000 |
| Registry.Np0LongExample | src/npc_ephys/newscale.py:16-58 | SN24272, although on NP.0, is not short-travel and has travel 15000 |
| Registry.UnknownExample | src/npc_ephys/newscale.py:192-195 | A serial number outside the table gives the unknown-serial error |
| Registry.SharedLetterD | src/npc_ephys/newscale.py:21-22 | SN32149 and SN24272 are both registered and both carry probe D |
| Registry.NotOnLaterRigs | src/npc_ephys/newscale.py:26-49 | No serial number of NP.1 to NP.3 has a digit other than 4 after "SN", so the later rigs' tables never override an NP.0 entry |
| Registry.LetterA | src/npc_ephys/newscale.py:43 | SN40906 is registered and carries probe A |
| ZInversion.RoundToHundred | src/npc_ephys/newscale.py:216 | The result is a multiple of 100 within 50 of the reading, and an exact half goes to the even multiple |
| ZInversion.RoundToHundredUnique | src/npc_ephys/newscale.py:216 | These three properties determine the rounding uniquely |
| ZInversion.Count | src/npc_ephys/newscale.py:216 | A counter bucket never holds more than the number of readings |
| ZInversion.ZLimit | src/npc_ephys/newscale.py:217-218 | The limit is 15000 exactly when some reading rounds to 15000, and 6000 exactly when none does |
| ZInversion.CountPairBound | src/npc_ephys/newscale.py:216 | Two distinct buckets together hold at most all readings |
| ZInversion.IsZInverted | src/npc_ephys/newscale.py:201-219 | Inversion needs at least one reading rounding to the travel limit, and a sample with at least half its readings rounding to 0 (the heuristic's stated assumption, lines 208-209) is never judged inverted |
| ZInversion.IsZInvertedExamples | src/npc_ephys/newscale.py:211-214 | [0, 3000, 3000, 0] is not inverted and [15000, 3000, 3000, 15000] is |
| ZInversion.Reflect | src/npc_ephys/newscale.py:165 | Each reading is replaced by the limit minus the reading, the length kept |
| ZInversion.RoundReflect | src/npc_ephys/newscale.py:216 | Rounding to hundreds commutes with mirroring about 6000 or 15000 |
| ZInversion.CountReflect | src/npc_ephys/newscale.py:216-219 | Mirroring moves the bucket of `limit - v` to the bucket of `v` |
| ZInversion.CorrectedSampleNotInverted | src/npc_ephys/newscale.py:161-166 | Mirroring an inverted sample about its limit gives a sample judged not inverted, provided the corrected sample keeps the same limit |
| Text.Strip | src/npc_ephys/newscale.py:150 | The stripped serial is never longer than the logged one; `StripSpec` states what it keeps |
| Text.StripSpec | src/npc_ephys/newscale.py:149-151 | The stripped serial is a contiguous slice of the original with no whitespace at either end, and everything cut on either side is whitespace |
| Text.StripTrimmed | src/npc_ephys/newscale.py:149-151 | A serial with no whitespace at its ends is left unchanged |
| Text.StripIdempotent | src/npc_ephys/newscale.py:149-151 | Stripping twice equals stripping once |
| Text.StripPadded | src/npc_ephys/newscale.py:149-151 | A leading or trailing whitespace character does not change the stripped serial (the logged leading space) |
| Text.LexLeReflexive | src/npc_ephys/newscale.py:177 | The label order is reflexive |
| Text.LexLeTotal | src/npc_ephys/newscale.py:177 | Any two labels are comparable |
| Text.LexLeTransitive | src/npc_ephys/newscale.py:177 | The label order is transitive |
| Text.LexLeAntisymmetric | src/npc_ephys/newscale.py:177 | Two labels each no greater than the other are equal |
| Coordinates.HasMovementOn | src/npc_ephys/newscale.py:129-132 | The start date is among the log's dates exactly when some timed row moved on that day, so an empty log is never covered |
| Coordinates.RecentMeansFromStartDay | src/npc_ephys/newscale.py:134-137 | An entry is in the recent sample exactly when it is timed at or after midnight of the start date (no upper bound) |
| Coordinates.RecentZ | src/npc_ephys/newscale.py:134-138 | The sample is no longer than the log, and each of its readings is the z of a recent log entry |
| Coordinates.RecentZAppend | src/npc_ephys/newscale.py:134-138 | The sample of two concatenated logs is the concatenation of their samples |
| Coordinates.OlderEntriesIgnored | src/npc_ephys/newscale.py:134-139 | Prepending entries dated before the start date changes neither the sample nor the inversion verdict |
| Coordinates.PriorMovements | src/npc_ephys/newscale.py:142-143 | Exactly the timed entries strictly before the start survive, each with its first five columns |
| Coordinates.LatestPerDevice | src/npc_ephys/newscale.py:144-145 | The map's keys are the logged serial numbers, and each maps to a movement of that device no earlier than any other of its movements |
| Coordinates.DeviceNamesSnoc | src/npc_ephys/newscale.py:144-146 | One more movement adds exactly its device to the devices moved |
| Coordinates.TopKStep | src/npc_ephys/newscale.py:146 | Taking the most recently moved remaining device keeps the top-k invariant |
| Coordinates.TakenAreLatest | src/npc_ephys/newscale.py:146 | Rows taken from the latest-per-device map stay the map's rows |
| Coordinates.TakenAreDistinct | src/npc_ephys/newscale.py:146 | A device not yet taken keeps the taken devices distinct |
| Coordinates.TopKDone | src/npc_ephys/newscale.py:146 | Once six devices are taken or none is left, the loop invariant is the top-k property |
| Coordinates.TopK | src/npc_ephys/newscale.py:146 | min(k, number of devices) rows, one per distinct device, each the device's own row, and no device left out moved later than any kept one |
| Coordinates.MostRecentlyMoved | src/npc_ephys/newscale.py:146 | The chosen device is among those left and moved no earlier than any of them |
| Coordinates.TopOfLatestMap | src/npc_ephys/newscale.py:141-147 | The top k of the latest-per-device map are the latest movements of the k most recently moved devices of the filtered log |
| Coordinates.ElectrodeGroupName | src/npc_ephys/newscale.py:157-159 | A registered serial becomes "probe" plus its letter; any other is kept as it is |
| Coordinates.ProbeLabelOrder | src/npc_ephys/newscale.py:175-177 | Probe labels order as their letters do |
| Coordinates.LexLeCommonPrefix | src/npc_ephys/newscale.py:177 | A common prefix does not change the order of two labels |
| Coordinates.Resolved | src/npc_ephys/newscale.py:149-173 | A row has the stripped serial, its label, the logged time, x and y; z is unchanged unless inverted, and then z plus the logged z is the device's travel; the relative time plus the start is the movement time |
| Coordinates.Tabulate | src/npc_ephys/newscale.py:149-173 | One row per kept movement, in order, each its resolved row |
| Coordinates.InsertByLabel | src/npc_ephys/newscale.py:175-177 | Inserting into a sorted table keeps it sorted and adds exactly that row |
| Coordinates.SortedCons | src/npc_ephys/newscale.py:177 | A row no greater than the first of a sorted table can go in front of it |
| Coordinates.SortedConsInserted | src/npc_ephys/newscale.py:177 | The first row of a sorted table stays first once a no-smaller row is inserted into the rest |
| Coordinates.SortByLabel | src/npc_ephys/newscale.py:175-177 | The result is sorted by label and is a permutation of the rows |
| Coordinates.ResolvedRowHasPriorMovement | src/npc_ephys/newscale.py:141-147 | A device with no movement before the start has no row: every row comes from a movement logged before the start under that stripped serial |
| Coordinates.TwoDevicesBothKept | src/npc_ephys/newscale.py:144-146 | Two movements of two different logged serials are both kept |
| Coordinates.SharedProbeLetterGivesDuplicateLabels | src/npc_ephys/newscale.py:157-159 | A log with both SN32149 and SN24272 before the start gives two rows labelled probeD with different serials |
| Coordinates.PaddedSerialFormsItsOwnGroup | src/npc_ephys/newscale.py:144-151 | " SN40906" and "SN40906" form two groups and two rows, with the same serial and the same label |
| Coordinates.CorrectAndLabel | src/npc_ephys/newscale.py:149-173 | Succeeds exactly when every kept serial can be corrected, and then gives the resolved rows; a failure happens only when inverted and names an unregistered stripped serial of a kept row |
| Coordinates.ResolutionProperties | src/npc_ephys/newscale.py:141-182 | A resolved table is sorted by label, has min(6, devices) rows, each the corrected latest movement of its device, with a negative relative time equal to movement time minus start |
| Coordinates.KeptSerialsArePrior | src/npc_ephys/newscale.py:141-150 | Every kept row's stripped serial is among the serials of the filtered log |
| Coordinates.ResolverOutcomeProperties | src/npc_ephys/newscale.py:141-182 | From the outcome: a covered log resolves whenever it is not judged inverted or all its serial numbers before the start are registered; an unknown serial is one moved before the start; a table is a resolution, sorted by label, with min(6, devices) rows, each the corrected latest movement of its device and timed before the start |
| Coordinates.ResolveCoordinates | src/npc_ephys/newscale.py:123-182 | The outcome, over the ghost selection `kept` of the latest movements of the (at most six) most recently moved devices: no movement on the start date exactly gives `NoMovementData` for that date; otherwise success exactly when every kept row can be corrected, the table then being the kept rows resolved and sorted by label; the only other failure names an unregistered stripped serial of a kept row and needs an inverted verdict. Also the consequences listed for `ResolverOutcomeProperties` |
| Coordinates.GetNewscaleCoordinates | src/npc_ephys/newscale.py:94-182 | A missing start time exactly gives `MissingStartTime`; with a start time, the outcome of `ResolveCoordinates` over the rigs' registry: an empty log fails, a covered log with registered serials (or not inverted) succeeds, an unknown serial needs an inverted verdict and an unregistered serial, and a table has min(6, devices) rows, sorted by label, timed before the start |

## Left out

- Reading the CSV file (`get_newscale_data`, lines 73-91) is I/O. The model takes the
  parsed rows in log order. An empty file is the empty log; a missing file raises in the
  reader (only the no-data error is caught at line 90), which the model does not cover.
- Lines 113-121 parse the start time from the log's path or from a string. That parsing
  is done by another package, so the model takes the start as an optional number of
  seconds; a missing start is the `MissingStartTime` error.
- Parsing numbers from text (lines 138 and 153-156) is left out, and so are the
  malformed-number errors it can raise. Coordinates are integers, and the 32- and 64-bit
  floating-point arithmetic is not modelled.
- Lines 178-181 convert the table to pandas and turn its time column into strings; this
  is a representation change only.
- The doctest runner at lines 222-230 is left out.
- Ties are not broken as the libraries break them. Among one device's movements with
  equal times, any one may be its latest. Among devices with equal times, any may be kept
  in the top six. Rows with equal labels may come out in any order.
  - `LatestPerDevice` takes one whole row per device. With equal times, the source's
    per-column `last()` could in principle mix columns of different rows.
- Times are whole seconds: fractions of a second in the log are not modelled, and the
  relative time is the whole-second difference (`.dt.total_seconds()` at line 171). The
  strict `lastMovementTime < 0` of a resolved row relies on this whole-second time line.
- The six-probe example in the resolver's own docstring (lines 106-110) needs the logged
  file, which is not part of this model.
- The further check that every probe letter lies in A to F is not stated as a lemma.
