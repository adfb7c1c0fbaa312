# Daily Weaver: the journaling form's logic

Daily Weaver is a Streamlit journaling app. This project models the logic
that sits under its page in `app.py`:

- **The entry log.** Each saved day is appended as one line to an entries
  file. Reading the file returns the entries of its non-blank lines, in order.
- **The six-prompt wizard.** The session holds the current prompt (1 to 6),
  the conversation style and the answers given so far. Prompt 1 is a mood
  emoji. Prompt 2 is the day's activities. Prompts 3 to 5 are a one-word
  keyword, a memorable moment and what the day meant. Prompt 6 is a special
  question, and its save button appends the entry, then resets the form.
- **The sidebar analysis.** `group_by` puts the entries into buckets keyed by
  their creation date: `YYYY-Wnn` for the `%U` week, `YYYY-MM` for the month,
  `YYYY` for the year. For each kind of period the sidebar takes the greatest
  key as the latest period. It then shows the three most frequent activities
  and keywords of that bucket.

Files, one module each:

| file | module | what it holds |
|---|---|---|
| `journal.dfy` | `Journal` | the entry and answers records, the fixed option lists, the default answers |
| `entrylog.dfy` | `EntryLog` | the entries file as a list of lines; `Log` (append and read) |
| `wizard.dfy` | `Wizard` | `Session`: the prompt counter, the style and the answers, with one method per widget |
| `calendar.dfy` | `Calendar` | Gregorian dates, day of year, weekday, the `%U` week number |
| `periodkey.dfy` | `PeriodKey` | the bucket keys; how their string order and equality match the calendar |
| `lexorder.dfy` | `LexOrder` | Python's string order; the greatest key (`sorted(keys)[-1]`) |
| `grouping.dfy` | `Grouping` | `group_by` as a loop filling a map; the buckets as an ordered partition |
| `counting.dfy` | `Counting` | `Counter(xs).most_common(n)` and its uniqueness |
| `summary.dfy` | `Summary` | the latest-period summary and the three-period sidebar |

Modelling choices:

- Python compares strings by code point, lexicographically. Dafny's `<` on
  sequences means "proper prefix", so `LexOrder.LexLe` defines Python's order.
- `%Y` is a four-digit zero-padded year, as Python documents it for years
  1 to 9999 (see "## Left out" for platforms that do not pad).
- `%U` counts Sunday-started weeks. The days before the year's first Sunday
  are week 0. The weekday comes from the proleptic Gregorian day count that
  Python's `datetime` uses; January 1 of year 1 was a Monday.
- `most_common(n)` sorts the counter's items by count, highest first, with a
  stable sort. A counter lists its keys in first-seen order. So among equal
  counts, the value seen first comes first. `Counting.Ahead` is that order.
  `Counting.MostCommon` selects by it, and `Counting.MostCommonUnique` shows
  that any list with those properties is the same list.
- The `key` argument of `group_by` becomes the `Period` datatype. The code
  treats every key other than `"week"` and `"month"` as a year. Its callers
  pass only `"week"`, `"month"` and `"year"`.
- Python dicts remember insertion order. `GroupBy` therefore also returns the
  keys in first-seen order.
- Each Streamlit widget becomes a method that may be called only on the
  prompt that shows it. A text box or multi-select writes its value into the
  answers at every rerun, so it is its own `Edit…` method. A "next" button is
  `Next`.

## Model

| member | source | states |
|---|---|---|
| `Grouping.GroupBy` | app.py:103-114 | the result map has exactly the keys of the entries, listed as `Distinct` lists them (first-seen order, by `Counting.DistinctFirstSeen`); each key maps to the bucket of the entries with that key |
| `Grouping.GroupStep` | app.py:113 | appending an entry to the bucket of its key keeps the map, the key order and the key set in step with the entries seen so far |
| `Grouping.SelectIsSubsequence` | app.py:104-113 | a bucket is exactly the entries at the increasing positions whose key is that key, in their original order |
| `Grouping.ExactlyOneBucket` | app.py:105-113 | an entry is in the bucket of key `k` if and only if `k` is its own key |
| `Grouping.BucketSizesAddUp` | app.py:103-114 | summed over the distinct keys, the bucket sizes equal the number of entries |
| `PeriodKey.KeyEqual` | app.py:107-112 | two dates get the same key if and only if they share year and `%U` week, year and month, or year |
| `PeriodKey.KeyOrder` | app.py:107-112 | as strings, keys compare exactly as their periods compare in time |
| `PeriodKey.PeriodMonotone` | app.py:107-112 | a later date never falls in an earlier period |
| `PeriodKey.KeyMonotone` | app.py:107-112 | a later date never has a smaller key |
| `PeriodKey.PadOrder` | app.py:108-112 | zero-padded numbers of one width sort as strings as they sort as numbers |
| `PeriodKey.PadInjective` | app.py:108-112 | zero-padded numbers of one width are equal only when the numbers are |
| `Calendar.WeekNumber` | app.py:108 | the `%U` week is between 0 and 53 |
| `Calendar.WeekNumberMonotone` | app.py:108 | within one year the `%U` week never decreases with time |
| `Calendar.NextDayWeek` | app.py:108 | from one day to the next the weekday advances by one, and the week grows by one exactly when the new day is a Sunday |
| `Calendar.NewYearWeek` | app.py:108 | January 1 is in week 1 if it is a Sunday, else in week 0 |
| `Calendar.DaysInYear` | app.py:106 | a year has 365 days, 366 in a leap year |
| `LexOrder.Latest` | app.py:120 | the chosen key is one of the keys and is at least every key in Python's string order |
| `LexOrder.LatestUnique` | app.py:120 | a key at least every key is the one chosen, whatever order the keys come in |
| `LexOrder.LexLeTotal` | app.py:120 | any two strings are ordered one way or the other |
| `LexOrder.LexLeTransitive` | app.py:120 | the string order is transitive |
| `LexOrder.LexLeAntisymmetric` | app.py:120 | strings ordered both ways are equal |
| `Summary.LatestIsLatestPeriod` | app.py:120 | the latest key belongs to an entry whose period is at least every entry's period |
| `Summary.NewestEntryIsInLatest` | app.py:120 | the most recently dated entry lies in the latest bucket |
| `Summary.ActivitiesOf` | app.py:123 | an activity is in the joined list exactly when some entry of the bucket lists it |
| `Summary.Collect` | app.py:121-124 | the loop yields the bucket's activity lists joined in order, and one keyword per entry in order |
| `Summary.Summarize` | app.py:119-126 | the summary's key is the greatest key present; its activities and keywords are `most_common(3)` of that bucket |
| `Summary.SelectMember` | app.py:113 | every entry of a bucket is an entry of the log with that bucket's key |
| `Summary.SummaryDrawsFromLatest` | app.py:121-126 | at most three activities and three keywords are shown, each from an entry of the latest period |
| `Summary.Sidebar` | app.py:116-128 | no entries give no summaries; otherwise there is one summary each for week, month and year |
| `Summary.SidebarOfLog` | app.py:98-128 | reading the log the wizard writes always gives dated entries, and the sidebar summarises exactly what was read |
| `Counting.Distinct` | app.py:125 | the counter's keys are the distinct values, each once |
| `Counting.DistinctFirstSeen` | app.py:113 | the distinct values are listed in the order of their first occurrence |
| `Counting.MostCommon` | app.py:125-126 | `min(n, distinct values)` values from the input, sorted by count then first occurrence, each ahead of every value left out |
| `Counting.MostCommonUnique` | app.py:125-126 | any list with those properties equals `MostCommon`'s |
| `Counting.TopOfUnique` | app.py:125-126 | the first `n` of a pool in that order are unique |
| `Counting.MostCommonCounts` | app.py:125-126 | counts along the result never increase, and ties are in order of first occurrence |
| `EntryLog.Records` | app.py:72 | reading yields at most one entry per line, and exactly one per line when no line is blank |
| `EntryLog.RecordsAppend` | app.py:69-72 | reading a file split in two reads the first part, then the second |
| `EntryLog.RecordsOfWritten` | app.py:64-72 | a file holding only appended entries reads back exactly those entries |
| `EntryLog.WrittenReadsBack` | app.py:64-72 | entries appended after existing lines read back after the existing entries, in order |
| `EntryLog.Log.constructor` | app.py:69-71 | a missing file reads as no entries, and so holds only dated entries |
| `EntryLog.Log.Append` | app.py:64-67 | one line is added at the end; the entries read are the old ones plus the new entry; every entry stays dated |
| `EntryLog.Log.ReadEntries` | app.py:69-72 | returns the entries of the non-blank lines, in order, each dated when the log is |
| `Wizard.Session.constructor` | app.py:80-94 | a new session is at prompt 1 with the first style and the default answers |
| `Wizard.Session.ChooseStyle` | app.py:161-163 | sets the style only |
| `Wizard.Session.PickEmoji` | app.py:168-175 | at prompt 1, stores the chosen emoji, leaves every other answer unchanged, and moves to prompt 2 |
| `Wizard.Session.EditActivities` | app.py:178-182 | at prompt 2, sets the activity list only |
| `Wizard.Session.EditOneWord` | app.py:188-192 | at prompt 3, sets the keyword only |
| `Wizard.Session.EditMoment` | app.py:198-202 | at prompt 4, sets the moment only |
| `Wizard.Session.EditGrowth` | app.py:208-212 | at prompt 5, sets the growth answer only |
| `Wizard.Session.EditSpecial` | app.py:218-223 | at prompt 6, sets the special answer only |
| `Wizard.Session.Next` | app.py:183-215 | at prompts 2 to 5, moves on by exactly one and keeps the answers; the prompt stays within 1 to 6 |
| `Wizard.Session.Save` | app.py:224-239 | appends exactly one entry with the current style and answers after the old ones, and that entry has an emoji; resets to prompt 1 and the default answers |
| `Wizard.RecordDay` | app.py:165-239 | one pass through the six prompts appends exactly the entry made of the given answers and the style chosen before the pass, keeps that style, and returns to prompt 1 |

## Left out

- Streamlit rendering: page setup, columns, buttons, markdown, `st.info`,
  `st.stop` and `st.experimental_rerun`. These are presentation. Only the
  state changes they trigger are modelled.
- File and JSON I/O: creating the data directory, opening files, and encoding
  and decoding JSON. The entries file is a list of lines, each an entry or a
  blank line; JSON itself is a library format not modelled here.
- Malformed files: a non-blank line that is not valid JSON makes `json.loads`
  raise in `read_entries` (app.py:72), and an entry without `created` makes
  `group_by` raise (app.py:106). The model's file holds no such line, so
  these exceptions are not modelled.
- The clock: `datetime.now()` becomes the `created` parameter of `Save`.
  `datetime.fromisoformat` is not modelled; an entry carries its date
  directly. The time of day does not affect any key, so it is dropped.
- `random.choice` of the special question (app.py:219) only chooses the
  prompt text shown, so it is left out.
- Onboarding and the profile file (app.py:54-62, 77-78, 133-153) only show
  and store a form, so they are left out.
- The sidebar's labels and the joining of the shown values with commas
  (app.py:117-118, 125-126) are presentation.
- `PeriodKey.Key`: models `%Y` as four zero-padded digits. Some C libraries
  print years below 1000 without padding (year 999 as `999`, which sorts
  after `1000`). On such a platform and such a date, `PeriodKey.KeyOrder` and
  `PeriodKey.KeyEqual` do not describe the program. Entries are stamped by
  the clock, so such years do not arise in practice.
