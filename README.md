# heatmap-bot scheduling and cleanup core, in Dafny

heatmap-bot is a Telegram bot that posts liquidation-heatmap charts for
crypto pairs. This project models and proves three parts of it.

- **Posting-time alignment.** Posts are aligned to multiples of a posting
  interval counted from UTC midnight. The modules are `Alignment` and
  `ChannelUtils.SecondsUntilNextInterval`, plus the simultaneous scheduler in
  `SchedulerUtils`.
- **Sequential (staggered) scheduler.** Each pair gets a baseline offset
  `i * pair_interval`. From how far "now" lies into the current cycle it
  computes a rotation index `k`. It left-rotates the `(pair, offset)` list by
  `k` and adds one posting interval to the entries that wrapped around, or to
  all of them when `k == 0`. It then turns the offsets into absolute starting
  times and renders them as a message. This is `SchedulerUtils`.
- **Download-directory cleanup.** This is the chart downloader's cleanup
  (`DataChart`):
  - it deletes every non-PNG file;
  - it renames downloaded PNGs to `heatmap_<PAIR>.png`;
  - it removes a file already holding the new name;
  - it leaves directories alone.

  `DataChart` also covers the normalisation of the downloader's `pair_list`.
- **Per-chat job registration and image caption.** Each configured chat gets
  one repeating job whose first run is aligned to its posting interval, and
  every chart is sent with a fixed caption naming its pair as a hashtag. This
  is `ChannelUtils`.

Python behaviour the code relies on is in `PyCore`:

- floor `%`, which differs from Dafny's Euclidean `%` for negative divisors;
- `int(a / b)`, which truncates toward zero;
- `str.split`, `in` on strings and `lower()`;
- `ZeroDivisionError`, returned as `Err` in a `Result`.

Intervals come from user-edited configuration, so they may be zero or
negative; both are modelled. Times are integers:

- the scheduler's `nowMs` is milliseconds since the Unix epoch (UTC);
- `ChannelUtils` uses seconds since the epoch;
- midnight is `now - now % day`.

**Docstring and code disagree.** The roll's docstring
(channel/scheduler_utils.py:87-89) says `[0, 3600, 7200]`, rolled by one with
a 43200 s interval, becomes `[3600, 7200, 46800]`. The code adds the interval
to the wrapped entry's own offset 0 and gives `[3600, 7200, 43200]`. The
model follows the code. `SchedulerUtils.DocstringRollExample` proves the
code's value and that it is not the docstring's.

The directory cleanup keeps the source's naming quirk: `X_BTC.png` becomes
`heatmap_BTC.png.png`, because the pair field runs to the end of the name
when there is no space.

## Model

| member | source | states |
|---|---|---|
| PyCore.FloorMod | channel/scheduler_utils.py:29 | Python `a % b`: the result has the divisor's sign, is smaller than the divisor in magnitude, and `a - r` is a multiple of `b` |
| PyCore.TruncDiv | channel/scheduler_utils.py:76 | `int(a / b)` truncates toward zero: it is the floor for non-negative operands, `|q|·|b| <= |a| < (|q|+1)·|b|`, it is negative only for opposite signs, and for opposite signs it is never positive |
| PyCore.Split | data/chart.py:211 | `str.split` with one separator: at least one field, and no field contains the separator |
| PyCore.SplitHeadAppend | data/chart.py:211 | a separator-free head is glued onto the first field of what follows it |
| PyCore.SplitHeadIsPrefix | data/chart.py:214 | the first field of a split is a prefix of the string |
| PyCore.Lower | data/chart.py:199 | `lower()` keeps the length and lower-cases each character (ASCII letters) |
| PyCore.EndsWith | data/chart.py:199 | `endswith(suffix)` holds exactly when the last `|suffix|` characters are the suffix's, position by position |
| PyCore.Contains | data/chart.py:209 | `sub in s` holds exactly when `sub` stands in `s` at some position |
| PyCore.SplitAtSeparator | data/chart.py:209-212 | a name containing `_` always splits into more than one field, so the `len(parts) > 1` test never fails once `"_" in filename` holds |
| Alignment.SinceMidnight | channel/scheduler_utils.py:28 | the time since the last UTC midnight lies in `[0, day)`, and `now` minus it is a whole number of days |
| Alignment.LastMidnight | channel/scheduler_utils.py:28 | `now.replace(hour=0, …)` is a midnight (a multiple of the day) at or before `now`, less than a day before it |
| Alignment.UntilNextBoundary | channel/scheduler_utils.py:29 | `period - elapsed % period` lies in `(0, period]` (in `[period, 0)` for a negative period), and `elapsed` plus it is a multiple of the period |
| Alignment.NextBoundaryIsFirst | channel/channel_utils.py:21 | no multiple of the period lies strictly between `elapsed` and `elapsed + UntilNextBoundary`, so that sum is the next boundary |
| Alignment.UntilNextBoundaryAtBoundary | channel/channel_utils.py:21 | the wait is a whole period exactly when `elapsed` is already on a boundary; it is never zero |
| ChannelUtils.SecondsUntilNextInterval | channel/channel_utils.py:8-24 | error exactly when the interval is 0; for a positive interval the result is in `(1, interval + 1]` and seconds-since-midnight plus `result - 1` is a multiple of the interval; negative intervals give `[interval + 1, 1)` |
| ChannelUtils.FirstRunIsNextBoundary | channel/channel_utils.py:19-24 | no multiple of the interval lies strictly between now and the first run less its extra second |
| ChannelUtils.FirstRunAtBoundary | channel/channel_utils.py:21-24 | exactly on a boundary the first delay is `interval + 1`, not 1 |
| ChannelUtils.PostingIntervalOf | channel/channel_utils.py:37 | a chat's interval is its configured value, or 3600 when none is set |
| ChannelUtils.InitiatePeriodicCharting | channel/channel_utils.py:32-39 | one job per chat, in configuration order. Each job has the chat's id, its interval (default 3600) and `first` equal to the wait for that same interval. A zero interval raises and aborts the loop: the jobs are exactly those of the chats before it, and none is left out otherwise |
| ChannelUtils.ImageCaption | channel/channel_utils.py:42-54 | the caption is the fixed head, then `#` and the pair, then the fixed tail, at fixed positions |
| ChannelUtils.CaptionTagsPair | channel/channel_utils.py:44 | the caption contains `"#" + pair` |
| ChannelUtils.CaptionDeterminesPair | channel/channel_utils.py:42-54 | two captions are equal if and only if their pairs are |
| ChannelUtils.CaptionTextIsFixed | channel/channel_utils.py:43-52 | around the pair, every caption has the same text, independent of the pair |
| SchedulerUtils.MsUntilNextInterval | channel/scheduler_utils.py:15-32 | error exactly when the interval is 0. For a positive interval the wait less the settle delay lies in `(0, P·1000]` and ends on a multiple of `P·1000` after midnight; for a negative one it lies in `[P·1000, 0)` |
| SchedulerUtils.SettleDelayIsAdditive | channel/scheduler_utils.py:32 | the settle delay only shifts the wait by `CHART_DELAY_SECONDS·1000` |
| SchedulerUtils.SimultaneousWaitIsFirstBoundary | channel/scheduler_utils.py:28-29 | no boundary lies strictly inside the core wait: it ends on the next boundary |
| SchedulerUtils.SimultaneousScheduler.constructor | channel/scheduler_utils.py:8-13 | stores the interval and sets `startingTime` to now plus the wait |
| SchedulerUtils.SimultaneousScheduler.GetStartingTime | channel/scheduler_utils.py:34-38 | `startingTime` becomes now plus the wait; for a positive interval the firing instant (without the delay) is strictly after now, at most one interval away, and a whole number of intervals after midnight |
| SchedulerUtils.MsSinceLastPosting | channel/scheduler_utils.py:53-62 | error exactly when the interval is 0; for a positive interval the value is in `[0, P·1000)`, and time-since-midnight minus it is a multiple of `P·1000` |
| SchedulerUtils.LastPostingTime | channel/scheduler_utils.py:64-70 | the last posting time is at or before now, less than one interval before it, and a whole number of intervals after midnight |
| SchedulerUtils.NextScheduledPairIndex | channel/scheduler_utils.py:72-82 | error exactly when either interval is 0. For positive intervals the result is 0 exactly when the last pair's baseline slot is already past; otherwise it is `k` in `[1, n)` with `(k-1)·pi <= elapsed < k·pi`, the first pair whose slot is still ahead |
| SchedulerUtils.LeftRolled | channel/scheduler_utils.py:97-117 | the roll raises ZeroDivisionError exactly on an empty list (from `shift % n`) and otherwise keeps the length; its content is stated by the two lemmas below |
| SchedulerUtils.LeftRolledPatchesRotation | channel/scheduler_utils.py:97-117 | the roll is `lst[s:] + lst[:s]` with `s = shift % n`. The first `n - s` entries keep their offset and the last `s` gain the posting interval; every entry gains it when `s == 0` |
| SchedulerUtils.LeftRolledIsPermutation | channel/scheduler_utils.py:97-100 | the rolled pairs are the input's pairs rotated by `s`, so they have the same multiset |
| SchedulerUtils.DocstringRollExample | channel/scheduler_utils.py:86-89 | `[A 0, B 3600, C 7200]` rolled by 1 with interval 43200 gives `[B 3600, C 7200, A 43200]`, not the docstring's `A 46800` |
| SchedulerUtils.CalculateLeftRolledPostingTimes | channel/scheduler_utils.py:85-120 | the loop with the source's own index test computes the roll-and-patch reference, and an empty list raises ZeroDivisionError |
| SchedulerUtils.BaselineSlots | channel/scheduler_utils.py:126-127 | pair `i` is zipped with the baseline offset `i · pair_interval` |
| SchedulerUtils.StartingOffsets | channel/scheduler_utils.py:122-130 | error exactly when an interval is 0 or the pair list is empty |
| SchedulerUtils.StartingSchedule | channel/scheduler_utils.py:122-144 | error exactly when an interval is 0 or the pair list is empty; otherwise one entry per pair |
| SchedulerUtils.StartingOffsetsAreUpcomingSlots | channel/scheduler_utils.py:72-130 | the pair at position `i` gets its own upcoming slot at rolled position `(i - k) mod n`: `i·pi` if still ahead in this cycle, else `i·pi + P`. Every offset is strictly after now |
| SchedulerUtils.RolledOrderIsFiringOrder | channel/scheduler_utils.py:100-126 | when `pi·(n-1) < P`, rolled offsets strictly increase, and consecutive ones differ by exactly `pi` except across the wrap |
| SchedulerUtils.StartingScheduleIsNextOccurrence | channel/scheduler_utils.py:122-144 | each pair's entry (without the settle delay) fires strictly after now, at midnight plus `i·pi` modulo the posting interval, and at most one interval away when the pairs fit in one interval |
| SchedulerUtils.RestartWithinSlotKeepsSchedule | channel/scheduler_utils.py:75-82 | two start-ups in the same cycle and the same pair slot compute the same rotation index and the same schedule |
| SchedulerUtils.MidCycleExample | channel/scheduler_utils.py:122-130 | BTC, ETH, SOL, 5000 s into a 43200 s cycle with a 3600 s stagger: index 2 and offsets SOL 7200, BTC 43200, ETH 46800 |
| SchedulerUtils.AfterLastSlotExample | channel/scheduler_utils.py:79-80 | 8000 s into the cycle, past every slot: index 0 and every pair moves to the next cycle |
| SchedulerUtils.ScheduleLinesSplit | channel/scheduler_utils.py:148-149 | the rendered lines split on newlines into one `pair: time` line per entry, in order |
| SchedulerUtils.ComposedScheduleLines | channel/scheduler_utils.py:146-151 | the composed message is the header line followed by exactly one line per schedule entry, in schedule order |
| SchedulerUtils.SequentialScheduler.constructor | channel/scheduler_utils.py:43-51 | stores the configuration, with `n_pairs` the length of the list, and sets the starting schedule |
| SchedulerUtils.SequentialScheduler.GetStartingSchedule | channel/scheduler_utils.py:122-144 | the loop builds exactly the reference schedule: the rolled entries in order, each at last posting time plus offset plus settle delay |
| SchedulerUtils.SequentialScheduler.ComposeStartingSchedule | channel/scheduler_utils.py:146-151 | the accumulated string is the header followed by the rendered lines of the schedule |
| DataChart.NormalisePairList | data/chart.py:46-49 | a single pair becomes a one-element list; a list is kept unchanged |
| DataChart.NormalisedListIsStable | data/chart.py:46-49 | normalising a normalised list changes nothing, and only an empty list gives an empty result |
| DataChart.IsPngIgnoresCase | data/chart.py:199 | a name passes the PNG test exactly when its last four characters, lower-cased, spell `.png` (so `X.PNG` passes) |
| DataChart.RenamedName | data/chart.py:209-215 | a file gets a new name exactly when its name contains `_` and not `heatmap`; a new name is `heatmap_`, then a field with no `_` and no space, then `.png` |
| DataChart.RenamedNameIsFinal | data/chart.py:209-215 | a new name contains `heatmap` and `_`, ends in `.png`, is never renamed again, and differs from the old name |
| DataChart.RenameKeepsPairField | data/chart.py:211-215 | `<prefix>_<pair> <rest>` becomes `heatmap_<pair>.png`, whatever `rest` holds, further underscores included |
| DataChart.RenameStopsAtNextUnderscore | data/chart.py:211-215 | `<prefix>_<field>_<rest>` with no space in `field` becomes `heatmap_<field>.png` |
| DataChart.RenameWithoutSpaceKeepsExtension | data/chart.py:211-215 | `<prefix>_<field>` with no space becomes `heatmap_<field>.png`, extension included |
| DataChart.RenameExampleWithCounter | data/chart.py:214-215 | `X_BTC 1.png` becomes `heatmap_BTC.png` |
| DataChart.RenameExampleDoublesExtension | data/chart.py:214-215 | `X_BTC.png` becomes `heatmap_BTC.png.png` |
| DataChart.RenameExampleCounterThenUnderscore | data/chart.py:211-215 | `X_BTC 1_2.png` becomes `heatmap_BTC.png` |
| DataChart.RenameExampleSecondUnderscore | data/chart.py:211-215 | `X_BTC_1.png` becomes `heatmap_BTC.png` |
| DataChart.RenameExamplesKept | data/chart.py:209 | `heatmap_BTC.png` and `BTC.png` keep their names |
| DataChart.CleanEntry | data/chart.py:191-227 | One iteration. A directory is skipped. A non-PNG is removed. A PNG with no new name is untouched. Otherwise the target, unless it is a directory, is replaced by the renamed file; when the target is a directory nothing changes. No names appear except the target, directories are unchanged, and a name that survives means nothing changed |
| DataChart.CleanAll | data/chart.py:191-227 | the pass over a listing, one CleanEntry per name in order; after any pass the directories are exactly the original ones |
| DataChart.CleanupKeepsPlainPngs | data/chart.py:209 | a PNG without `_` keeps its name and bytes |
| DataChart.CleanupCreatesOnlyHeatmapNames | data/chart.py:215-223 | every name the pass creates is a PNG name containing `heatmap` |
| DataChart.CleanupLeavesOnlyPngs | data/chart.py:199-204 | after a pass over the whole listing every remaining file is a PNG |
| DataChart.CleanupRenamesPngs | data/chart.py:209-223 | after a pass each renamable PNG is gone from its old name, and a file stands at its new name |
| DataChart.CleanupKeepsHeatmapPngs | data/chart.py:209 | files already named with `heatmap` survive as files |
| DataChart.CleanupSettles | data/chart.py:191-227 | after a pass every file is a PNG that a further pass would leave where it is |
| DataChart.SettledIsFixedPoint | data/chart.py:191-227 | a pass over a settled directory changes nothing |
| DataChart.CleanupIsIdempotent | data/chart.py:191-227 | cleaning twice equals cleaning once, whatever the second listing's order |
| DataChart.Directory.IsDir | data/chart.py:195-196 | `os.path.isdir`: a directory exists, and the cleanup iteration for its name changes nothing |
| DataChart.Directory.Exists | data/chart.py:219 | `os.path.exists`: the name is in the directory; a missing name is not a directory |
| DataChart.Directory.Unlink | data/chart.py:201 | removes a file; on a directory or a missing name it fails and nothing changes |
| DataChart.Directory.Rename | data/chart.py:223 | moves a file onto the target; it fails, changing nothing, on a missing source or a directory target |
| DataChart.Chart.constructor | data/chart.py:46-49 | `pair_list` is the normalised argument |
| DataChart.Chart.ClearDownloadDirectory | data/chart.py:185-227 | the loop over the listing leaves the directory equal to the reference pass `CleanAll` over the same listing |

## Left out

- Selenium browser automation in data/chart.py (driver set-up, clicks, downloads) is foreign code with timing waits. data/plotting.py, data/utils.py, channel/handlers.py, channel/app.py, utils/config_manager.py and utils/logger.py are not part of this model.
- The clock is not modelled. Each operation takes the current instant as a parameter and reads it once, whereas the source re-reads `datetime.now` per call and per schedule entry. The naive local time at channel/scheduler_utils.py:36 is treated as UTC.
- Floating point is not modelled. `total_seconds() * 1000` and the float result of `/` become integers: sub-second precision and float rounding in `int(a / b)` are not captured.
- Datetime rendering in `compose_starting_schedule` is the parameter `fmt`.
- `constants.CHART_DELAY_SECONDS` is the parameter `chartDelaySeconds`.
- `job_queue.run_repeating` is reduced to the `(chat id, interval, first)` values it receives, and the configuration file to a sequence of chat entries in key order. Logging is dropped.
- `SchedulerUtils.SimultaneousScheduler.constructor`: requires a non-zero interval, because the source raises ZeroDivisionError there and no object exists. The raising path is modelled by `MsUntilNextInterval`.
- `SchedulerUtils.SequentialScheduler.constructor`: requires non-zero intervals and a non-empty pair list, for the same reason. The raising paths are modelled by `StartingSchedule`.
- `os.listdir` order is the parameter `listing`, because the outcome of colliding renames depends on it.
- `DataChart.CleanupLeavesOnlyPngs`, `CleanupRenamesPngs`, `CleanupKeepsHeatmapPngs`, `CleanupSettles` and `CleanupIsIdempotent` assume the listing names every entry exactly once, as `os.listdir` does. Files appearing or vanishing concurrently are not modelled.
- Operating-system failures other than the ones the cleanup itself provokes are not modelled: permissions, races, and a missing download directory. The provoked ones are unlinking a directory, unlinking or renaming a missing name, and renaming onto a directory; each fails and leaves the directory unchanged, as the `try`/`except` blocks do.
- `PyCore.Lower`: `lower()` is modelled for ASCII letters only; Unicode case mapping is not, so the PNG test `DataChart.IsPng` may differ from the source on names ending in non-ASCII letters.
- File contents are opaque bytes; path joining with the download directory is implicit in the map's keys.
