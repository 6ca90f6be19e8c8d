# Chinese Stats: a Dafny model of the vocabulary-coverage engine

This project models the core of the Chinese Stats Anki add-on: the engine that
measures how much Chinese vocabulary a learner has met in the sentences of
their studied notes.

- **Crediting.** Notes are processed in first-study order. A keyword tree
  reports the HSK words found in each note's sentence. Every word is credited
  once, to the first note whose sentence reports it. A credit appends the
  note id to the list of the word's HSK level (1..6). A second track does the
  same with the frequency list, using the star rating (0..5) of the word's
  0-based rank as the category.
- **Daily series.** The credits are bucketed by the calendar day of each
  note's first study. They are then turned into a cumulative per-category
  series, in ascending day order.
- **Search-field configuration.** A configuration says, per deck and note
  type ("model"), which field is searched. The model covers the lookup in
  that configuration, the rebuild of the configuration from the settings
  dialog's view model, and the mapping of the combo-box entry "Disabled" to
  "no field".

Files:

- `outcomes.dfy`: `Option` and `Result`.
- `tables.dfy`: the star rating and the two constant size tables. Python list
  indexing is modelled with negative indices and `IndexError`.
- `coverage.dfy`: the two crediting loops of `chinese_stats`.
  - They are modelled as one imperative method over a `Track`, which holds the
    word table, the category function and the result keys.
  - The method is proved equal to a reference definition: the first
    occurrences of every reported word.
  - `KeyError` is modelled as an `Err` result.
- `daily.dfy`: `results_by_day`, `sorted` over the day keys, and
  `cumulative_results_by_day`. Each is an imperative method proved against a
  predicate on its output.
- `search_fields.dfy`: `config.py`. The stored configuration is a value. Each
  view-model entry is a `ModelView` object whose `selectedField` the settings
  callback overwrites in place.

Modelling choices:

- The keyword tree's `search_all` is a parameter: a function from a text to
  the words it reports, in order. The code ignores the offsets, so they are
  dropped. `EarliestContainingNoteWins` shows what the crediting does when the
  tree reports exactly the listed words that occur as substrings.
- The conversion of a millisecond timestamp to a local calendar day is a
  parameter `dayOf`. Days are integers whose order is that of the
  `'%Y-%m-%d'` strings.
- The result dicts of `chinese_stats` use keys `str(level)` and
  `str(num_stars)`. Here the keys are the integer categories. This is the
  same key set under a one-to-one renaming.
- A dict whose insertion order matters is a sequence. The cumulative result
  is a sequence of `Snapshot(day, totals)` in ascending day order, which is
  the iteration order of the source's dict.

Behaviour of the code worth noting:

- Notes are credited in the order of the `order by date` query. There is no
  tie-break on the note id.
- Each word is credited to exactly one category.
- `num_words_for_stars` holds `[-1, 30000, 15000, 10000, 3500, 1500]`.
- A word missing from a table raises `KeyError`, so the run produces no
  result. It is not skipped.

## Model

| member | source | states |
|---|---|---|
| Tables.FreqNumStars | __init__.py:44-56 | The star rating of a rank is between 0 and 5 |
| Tables.FreqNumStarsCountsBounds | __init__.py:44-56 | The rating equals the number of thresholds 60000, 30000, 15000, 5000, 1500 that the rank does not exceed |
| Tables.FreqNumStarsBands | __init__.py:44-56 | Each rating 0..5 is given for exactly its band of ranks: 5 for rank <= 1500, and so on down to 0 for rank > 60000 |
| Tables.FreqNumStarsMonotone | __init__.py:44-56 | A larger (less frequent) rank never earns more stars |
| Tables.PyIndex | __init__.py:58-62 | Python list indexing: defined exactly for -len..len-1, negative indices count from the end |
| Tables.NumWordsForStars | __init__.py:58-59 | Defined exactly for -6..5 (IndexError otherwise); ratings 0..5 give -1, 30000, 15000, 10000, 3500, 1500 |
| Tables.NumWordsInHskLevel | __init__.py:61-62 | Defined exactly for levels -5..6 (IndexError otherwise); levels 1..6 give 150, 150, 300, 600, 1300, 2500 |
| Tables.NumWordsForStarsWraps | __init__.py:58-59 | A negative star count reads the entry of the count plus 6 |
| Tables.NumWordsInHskLevelWraps | __init__.py:61-62 | Level 0 and below read the entry of the level plus 6 |
| Tables.StarBandWidths | __init__.py:44-59 | For 1..4 stars the size table gives the width of the rank band that earns that rating |
| Coverage.HskTrack | __init__.py:90-99 | The HSK result keys are created as 1..6 in that order; a known word's category is its own level, and crediting it fails exactly when that level is not 1..6 |
| Coverage.FreqTrack | __init__.py:105-115 | The frequency result keys are created 5 down to 0; a known word's category is the star rating of its rank, and crediting fails exactly on a word missing from the table |
| Coverage.NoteMatches | __init__.py:93-95 | The reports of one sentence are its reported words, in order, each paired with the note |
| Coverage.CreditFirstOccurrences | __init__.py:88-116 | One crediting track returns exactly the reference outcome: the first error among the first occurrences, or the result lists of the first occurrences and the set of all reported words |
| Coverage.CreditNote | __init__.py:94-100 | The reports of one sentence, credited in order: if none fails, the state afterwards is the reference state of all reports so far; if one fails, the reports so far already end in that error |
| Coverage.FailingNote | __init__.py:93-100 | A `KeyError` raised while crediting one note's reports is the outcome of the whole run, whatever the later notes report |
| Coverage.ChineseStats | __init__.py:64-118 | The HSK track runs first and its error ends the call; otherwise the frequency track's error ends it; otherwise both tracks' result lists are returned with the study dates, and, since every listed note has a study date (the note list and `note_info` are filled together), so does every credited note |
| Coverage.CreditsDated | __init__.py:80-116 | A successful run credits only notes of its note list, so every credited note has a study date when every listed note has one |
| Coverage.CreditsOncePerWord | __init__.py:96-100 | Each word is credited at most once, every reported word is credited, and there are as many credits as distinct reported words |
| Coverage.CoverageSucceeds | __init__.py:96-100 | A run succeeds exactly when every reported word is in the table and its category is a result key; the found set is then all reported words and the result keys are the track's keys |
| Coverage.FreqTrackFailsOnlyOnUnknownWords | __init__.py:103-116 | The frequency track never fails on a category; it succeeds exactly when every reported word is in `freq_for_word` |
| Coverage.HskTrackSucceeds | __init__.py:88-100 | The HSK track succeeds when every reported word has a level between 1 and 6 |
| Coverage.Conservation | __init__.py:88-116 | After a successful run the lengths of all result lists add up to the number of found words |
| Coverage.TracksConserve | __init__.py:88-116 | Both tracks of `chinese_stats` satisfy that conservation over their own keys |
| Coverage.CategoryCountsWords | __init__.py:88-116 | After a successful run the list of category k holds one note per distinct reported word of category k |
| Coverage.EarliestNoteWins | __init__.py:93-100 | With distinct note ids, note i gets the credit for w exactly when its sentence reports w and no earlier note's sentence does |
| Coverage.EarliestContainingNoteWins | __init__.py:93-100 | With a tree that reports the listed words occurring in a text, note i gets the credit for a listed word exactly when its sentence contains it and no earlier sentence does |
| Coverage.CreditsPersist | __init__.py:93-100 | Credits are never revoked: if the full run succeeds, the run over the first n notes succeeds, its found set is contained in the full run's, and each of its result lists is a prefix of the full run's |
| Daily.DaysOf | __init__.py:130-132 | The days of a credit list are, position by position, the days of the credited notes' first study |
| Daily.ResultsByDay | __init__.py:126-141 | For every day and category the count is the number of that category's credits on that day; only days and categories with a credit are present, and every count is positive |
| Daily.Increment | __init__.py:134-140 | Creating the missing day and category entries and adding one raises exactly that one count |
| Daily.SortedDays | __init__.py:147 | The days come out strictly ascending and are exactly the given set |
| Daily.AddCounts | __init__.py:148-150 | Every running total grows by that day's count for the category, and the keys stay the same |
| Daily.RunningTotals | __init__.py:146-151 | One snapshot per sorted day; each holds every category with the sum of its daily counts up to and including that day |
| Daily.TotalsStep | __init__.py:148-151 | Adding one day's counts to the totals after the first n days gives the totals after n + 1 days, for every category |
| Daily.CumulativeResultsByDay | __init__.py:143-152 | One snapshot per credit day, strictly ascending; each holds every category with the number of its credits on or before that day |
| Daily.SumOverDaysIsCountLe | __init__.py:143-152 | Summing the daily counts over the sorted days up to day d gives the credits on or before d |
| Daily.DailyKeys | __init__.py:126-141 | The days of the daily counts are exactly the days on which some credit was made |
| Daily.DailyCountsConserve | __init__.py:126-141 | Summed over all days, the daily counts of a category equal the number of its credits |
| Daily.CumulativeMonotone | __init__.py:143-152 | Per category the cumulative totals never decrease from one day to a later one |
| Daily.CumulativeFinal | __init__.py:143-152 | The last snapshot holds, for every category, the number of its credits |
| Daily.FinalTotalsCountWords | __init__.py:64-152 | End to end: after a successful crediting run over dated notes, the credits are dated, and the last cumulative snapshot of each category equals the number of distinct reported words of that category |
| Daily.CumulativeEmpty | __init__.py:143-152 | The series is empty exactly when no category has a credit |
| SearchFields.SelectedFieldFromConfig | config.py:27-32 | The nested search with early return computes the first-match lookup |
| SearchFields.ModelFieldFirst | config.py:30-32 | Within a deck the lookup finds the first model with the id, and nothing exactly when none has it |
| SearchFields.SelectedFieldNone | config.py:27-32 | The lookup returns None exactly when no deck with the deck id holds a model with the model id, including the empty configuration |
| SearchFields.SelectedFieldFirstMatch | config.py:27-32 | The lookup returns the selected field of the first matching (deck, model) pair in list order |
| SearchFields.ModelView.constructor | config.py:34-39 | A view-model entry holds the given name, id, fields and selection |
| SearchFields.SearchFieldsConfig | config.py:75-84 | The two append loops build exactly the configuration of the view model |
| SearchFields.ConfigModelOfEntry | config.py:80-81 | A disabled entry leaves no trace, and an enabled one is stored with its id and field unchanged |
| SearchFields.ConfigModelsConcat | config.py:78-81 | The stored models of consecutive entries are those of each part, in order |
| SearchFields.ConfigModelsMembers | config.py:78-81 | Every stored model comes from an enabled entry with the same id and field, and every enabled entry is stored |
| SearchFields.ConfigDeckOfView | config.py:82-83 | A deck is stored, with its enabled entries, exactly when it has one |
| SearchFields.ConfigDecksConcat | config.py:76-84 | The stored decks of consecutive decks are those of each part, in order |
| SearchFields.ConfigDecksShape | config.py:82-83 | No stored deck is empty; each comes from a view deck with the same id and that deck's enabled entries; every view deck with an enabled entry is stored |
| SearchFields.ModelFieldOfConfig | config.py:78-81 | Looking a model up among a deck's stored models finds the first enabled entry with that id |
| SearchFields.SelectedFieldOfConfig | config.py:27-32 | Round trip: looking (deck, model) up in the configuration built from the view gives the first enabled matching entry's field, or None |
| SearchFields.SelectedFieldOfEntry | config.py:27-32 | With distinct ids, the lookup gives each entry's own selection, None when it is disabled |
| SearchFields.FieldChoice | config.py:104 | The stored choice is None exactly for "Disabled", and otherwise the selected name unchanged |
| SearchFields.SelectedFieldChanged | config.py:102-106 | The entry's selection becomes the choice; the configuration is rebuilt from the updated view; with distinct ids, looking the entry up gives that choice |

## Left out

- The Aho–Corasick keyword tree (`lib/ahocorapy/keywordtree.py`) is not part of this model. `search_all` is a parameter, and its offsets are dropped. The trees are built with `case_insensitive=True` (`create_hsk_tree.py`, `create_freq_tree.py`), but case folding is not modelled; it has no effect on Chinese characters.
- Building the trees (`create_hsk_tree.py`, `create_freq_tree.py`) is an offline script that pickles them.
- Loading the word lists and pickled trees (`load_data`) is file I/O, and so is the background thread that runs it.
- The database query that picks the studied notes and their sentences (`__init__.py:66-82`) is left out. It needs the Anki collection and `getNote`. Its outputs are the inputs of `Coverage.ChineseStats`.
- `datetime.fromtimestamp` and the date formatting are replaced by the parameter `dayOf`. The time zone and float division are not modelled.
- `chart_json`, `show_webview`, the web view and the menu actions are UI. The gviz table only formats the cumulative series.
- `load_search_field_config` and `save_search_field_config` are left out: they read and write the add-on manager's storage and show a tooltip.
- `search_fields_config_view_model` is left out: it builds the view model from database and model queries.
- The settings dialog (`show_settings`) is Qt UI.
- Dict key order in `chinese_stats` and `results_by_day` is not modelled. Those dicts are maps, and the iteration order of `results.items()` does not affect their contents.
- Dict keys are integers, not the strings `str(level)` and `str(num_stars)`.
- Tables.NumWordsForStars: the five-star entry 1500 is one less than the 1501 ranks (0..1500) that earn five stars. `num_words_for_stars` and `num_words_in_hsk_level` are never called in `__init__.py` (the only table function called is `freq_num_stars`), so the one-rank gap has no effect on any computed result.
