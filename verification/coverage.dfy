/**
 * First-occurrence crediting (the two search loops of `chinese_stats` in
 * `__init__.py`).
 *
 * Notes arrive in ascending first-study order. Every word the keyword tree
 * reports in a note's sentence is credited to that note unless an earlier
 * report already credited it; a credit appends the note id to the list of
 * the word's category. The HSK track and the frequency track run the same
 * loop with their own word table, category function and result keys, so
 * the loop is modelled once over a `Track`.
 */
module Coverage {
  import opened Outcomes
  import Tables

  type Word = string
  type NoteId = int
  type Category = int

  /** `KeywordTree.search_all`, reduced to the words it reports for a text,
      in report order (the code ignores the offsets). */
  type Matcher = string -> seq<Word>

  /** One report of the keyword tree: `word` was found in the sentence of `note`. */
  datatype Match = Match(note: NoteId, word: Word)

  /** One crediting track: the word table (`hsk_data` or `freq_for_word`),
      the map from a table value to a category (identity for HSK levels,
      `freq_num_stars` for ranks) and the result keys created up front. */
  datatype Track = Track(lookup: map<Word, int>, classify: int -> Category, keys: seq<Category>)

  /** The `KeyError`s the loop can raise: a reported word missing from the
      table, or a category that is not one of the result keys. */
  datatype CreditError = UnknownWord(word: Word) | UnknownCategory(category: Category)

  /** The state of one track: the per-category note-id lists and the found-words set. */
  datatype Tally = Tally(results: map<Category, seq<NoteId>>, found: set<Word>)

  /** The HSK track: categories are the levels 1..6 of `hsk_data`. A known
      word falls in its own level, and crediting it fails exactly when that
      level is not one of the six keys. */
  function HskTrack(hskData: map<Word, int>): (t: Track)
    ensures t.lookup == hskData && t.keys == [1, 2, 3, 4, 5, 6]
    ensures forall w | w in hskData :: CategoryOf(t, w) == Some(hskData[w])
    ensures forall w | w in hskData :: ErrorFor(t, w) == None <==> 1 <= hskData[w] <= 6
  {
    Track(hskData, level => level, [1, 2, 3, 4, 5, 6])
  }

  /** The frequency track: categories are the star ratings of the ranks,
      keys created 5 down to 0. Every rating is a key, so crediting fails
      exactly on a word missing from the table. */
  function FreqTrack(freqForWord: map<Word, int>): (t: Track)
    ensures t.lookup == freqForWord && t.keys == [5, 4, 3, 2, 1, 0]
    ensures forall w | w in freqForWord :: CategoryOf(t, w) == Some(Tables.FreqNumStars(freqForWord[w]))
    ensures forall w :: ErrorFor(t, w) == None <==> w in freqForWord
  {
    Track(freqForWord, Tables.FreqNumStars, [5, 4, 3, 2, 1, 0])
  }

  // ---------------------------------------------------------------------
  // The reports over a run
  // ---------------------------------------------------------------------

  /** Every id in the note list has a sentence (the two are filled together). */
  ghost predicate HasSentences(noteIds: seq<NoteId>, sentenceFor: map<NoteId, string>)
  {
    forall i | 0 <= i < |noteIds| :: noteIds[i] in sentenceFor
  }

  /** Every id in the note list has a first-study time (the two are filled together). */
  ghost predicate NotesDated(noteIds: seq<NoteId>, noteInfo: map<NoteId, int>)
  {
    forall i | 0 <= i < |noteIds| :: noteIds[i] in noteInfo
  }

  /** Every credited note has a first-study time. */
  ghost predicate HasDates(noteInfo: map<NoteId, int>, results: map<Category, seq<NoteId>>)
  {
    forall k, i | k in results && 0 <= i < |results[k]| :: results[k][i] in noteInfo
  }

  /** The reports of one note's sentence, in report order. */
  function NoteMatches(note: NoteId, words: seq<Word>): (ms: seq<Match>)
    ensures |ms| == |words|
    ensures forall k | 0 <= k < |ms| :: ms[k] == Match(note, words[k])
  {
    if words == [] then []
    else NoteMatches(note, words[..|words| - 1]) + [Match(note, words[|words| - 1])]
  }

  /** All reports of a run: note by note, in note order. */
  function Matches(noteIds: seq<NoteId>, sentenceFor: map<NoteId, string>, searchAll: Matcher): seq<Match>
    requires HasSentences(noteIds, sentenceFor)
  {
    if noteIds == [] then []
    else
      var last := noteIds[|noteIds| - 1];
      Matches(noteIds[..|noteIds| - 1], sentenceFor, searchAll) + NoteMatches(last, searchAll(sentenceFor[last]))
  }

  /** The words reported anywhere in `ms`. */
  function Words(ms: seq<Match>): set<Word>
  {
    set m | m in ms :: m.word
  }

  // ---------------------------------------------------------------------
  // The reference definition: first occurrences
  // ---------------------------------------------------------------------

  /** The reports in `ms` whose word is neither in `seen` nor reported earlier in `ms`. */
  function FirstNew(seen: set<Word>, ms: seq<Match>): seq<Match>
  {
    if ms == [] then []
    else
      var rest := ms[..|ms| - 1];
      var m := ms[|ms| - 1];
      if m.word in seen || m.word in Words(rest) then FirstNew(seen, rest) else FirstNew(seen, rest) + [m]
  }

  /** The first report of every word: the credits of a run, in crediting order. */
  function FirstOccurrences(ms: seq<Match>): seq<Match>
  {
    FirstNew({}, ms)
  }

  /** The category of a word on a track, if the table knows the word. */
  function CategoryOf(track: Track, w: Word): Option<Category>
  {
    if w in track.lookup then Some(track.classify(track.lookup[w])) else None
  }

  /** The `KeyError` that crediting `w` raises, if any. */
  function ErrorFor(track: Track, w: Word): Option<CreditError>
  {
    if w !in track.lookup then Some(UnknownWord(w))
    else if track.classify(track.lookup[w]) !in track.keys then Some(UnknownCategory(track.classify(track.lookup[w])))
    else None
  }

  /** The error of the first credit that fails, if any. */
  function FirstError(track: Track, credits: seq<Match>): Option<CreditError>
  {
    if credits == [] then None
    else
      var e := FirstError(track, credits[..|credits| - 1]);
      if e.Some? then e else ErrorFor(track, credits[|credits| - 1].word)
  }

  /** The notes of the credits whose word falls in category `k`, in crediting order. */
  function CreditedNotes(track: Track, credits: seq<Match>, k: Category): seq<NoteId>
  {
    if credits == [] then []
    else
      var m := credits[|credits| - 1];
      CreditedNotes(track, credits[..|credits| - 1], k) + (if CategoryOf(track, m.word) == Some(k) then [m.note] else [])
  }

  /** The result lists: one per key of the track. */
  function CreditLists(track: Track, credits: seq<Match>): map<Category, seq<NoteId>>
  {
    map k | k in track.keys :: CreditedNotes(track, credits, k)
  }

  /** What a crediting run over the reports `ms` should produce. */
  function RunOutcome(track: Track, ms: seq<Match>): Result<Tally, CreditError>
  {
    var credits := FirstOccurrences(ms);
    match FirstError(track, credits)
    case Some(e) => Err(e)
    case None => Ok(Tally(CreditLists(track, credits), Words(ms)))
  }

  // ---------------------------------------------------------------------
  // The crediting loop
  // ---------------------------------------------------------------------

  /** The loop state after the reports `done`: `found` holds their words and
      `results` the lists of their first occurrences, none of which failed. */
  ghost predicate Credited(track: Track, done: seq<Match>, found: set<Word>, results: map<Category, seq<NoteId>>)
  {
    && found == Words(done)
    && FirstError(track, FirstOccurrences(done)) == None
    && results == CreditLists(track, FirstOccurrences(done))
  }

  /** One track of `chinese_stats`: the result lists start empty under every
      key, then each note's reports are credited in order. */
  method CreditFirstOccurrences(noteIds: seq<NoteId>, sentenceFor: map<NoteId, string>, searchAll: Matcher, track: Track)
    returns (r: Result<Tally, CreditError>)
    requires HasSentences(noteIds, sentenceFor)
    ensures r == RunOutcome(track, Matches(noteIds, sentenceFor, searchAll))
  {
    var found: set<Word> := {};
    var results: map<Category, seq<NoteId>> := map k | k in track.keys :: [];
    ghost var done: seq<Match> := [];
    var i := 0;
    while i < |noteIds|
      invariant 0 <= i <= |noteIds|
      invariant done == Matches(noteIds[..i], sentenceFor, searchAll)
      invariant Credited(track, done, found, results)
    {
      var note := noteIds[i];
      var error;
      error, found, results := CreditNote(track, note, searchAll(sentenceFor[note]), found, results, done);
      MatchesStep(noteIds, sentenceFor, searchAll, i);
      if error.Some? {
        FailingNote(noteIds, sentenceFor, searchAll, track, i, error.value);
        return Err(error.value);
      }
      done := done + NoteMatches(note, searchAll(sentenceFor[note]));
      i := i + 1;
    }
    assert noteIds[..|noteIds|] == noteIds;
    return Ok(Tally(results, found));
  }

  /** The inner loop of one track: the reports of one note's sentence, in
      order. A word not in `found` is credited to `note`, unless the table
      lookup or the result key raises `KeyError`. */
  method CreditNote(track: Track, note: NoteId, words: seq<Word>, found0: set<Word>,
                    results0: map<Category, seq<NoteId>>, ghost prior: seq<Match>)
    returns (error: Option<CreditError>, found: set<Word>, results: map<Category, seq<NoteId>>)
    requires Credited(track, prior, found0, results0)
    ensures error.None? ==> Credited(track, prior + NoteMatches(note, words), found, results)
    ensures error.Some? ==> RunOutcome(track, prior + NoteMatches(note, words)) == Err(error.value)
  {
    found, results := found0, results0;
    ghost var done := prior;
    var j := 0;
    while j < |words|
      invariant 0 <= j <= |words|
      invariant done == prior + NoteMatches(note, words[..j])
      invariant Credited(track, done, found, results)
    {
      var w := words[j];
      var m := Match(note, w);
      NoteMatchesStep(note, words, j);
      ReportStep(track, done, found, results, m);
      ghost var next := done + [m];
      assert next == prior + NoteMatches(note, words[..j + 1]);
      if w !in found {
        if w !in track.lookup {
          assert FirstError(track, FirstOccurrences(next)) == Some(UnknownWord(w));
          FailingReport(track, prior, note, words, j);
          return Some(UnknownWord(w)), found, results;
        }
        var category := track.classify(track.lookup[w]);
        if category !in results {
          assert FirstError(track, FirstOccurrences(next)) == Some(UnknownCategory(category));
          FailingReport(track, prior, note, words, j);
          return Some(UnknownCategory(category)), found, results;
        }
        results := results[category := results[category] + [note]];
        found := found + {w};
      }
      done := next;
      j := j + 1;
    }
    assert words[..|words|] == words;
    error := None;
  }

  /** The outcome of `chinese_stats`: the study dates and both tracks' result lists. */
  datatype Stats = Stats(noteInfo: map<NoteId, int>, hskResults: map<Category, seq<NoteId>>, freqResults: map<Category, seq<NoteId>>)

  /** `chinese_stats` from line 87 on: the HSK track, then the frequency
      track; the first `KeyError` ends the call. */
  method ChineseStats(noteIds: seq<NoteId>, sentenceFor: map<NoteId, string>, noteInfo: map<NoteId, int>,
                      hskTree: Matcher, hskData: map<Word, int>, freqTree: Matcher, freqForWord: map<Word, int>)
    returns (r: Result<Stats, CreditError>)
    requires HasSentences(noteIds, sentenceFor)
    requires NotesDated(noteIds, noteInfo)
    ensures var hsk := RunOutcome(HskTrack(hskData), Matches(noteIds, sentenceFor, hskTree));
            var freq := RunOutcome(FreqTrack(freqForWord), Matches(noteIds, sentenceFor, freqTree));
            && (r.Ok? <==> hsk.Ok? && freq.Ok?)
            && (r.Ok? ==> r.value == Stats(noteInfo, hsk.value.results, freq.value.results))
            && (hsk.Err? ==> r == Err(hsk.error))
            && (hsk.Ok? && freq.Err? ==> r == Err(freq.error))
    ensures r.Ok? ==> HasDates(r.value.noteInfo, r.value.hskResults) && HasDates(r.value.noteInfo, r.value.freqResults)
  {
    var hsk := CreditFirstOccurrences(noteIds, sentenceFor, hskTree, HskTrack(hskData));
    if hsk.Err? {
      return Err(hsk.error);
    }
    var freq := CreditFirstOccurrences(noteIds, sentenceFor, freqTree, FreqTrack(freqForWord));
    if freq.Err? {
      return Err(freq.error);
    }
    CreditsDated(HskTrack(hskData), noteIds, sentenceFor, hskTree, noteInfo);
    CreditsDated(FreqTrack(freqForWord), noteIds, sentenceFor, freqTree, noteInfo);
    return Ok(Stats(noteInfo, hsk.value.results, freq.value.results));
  }

  // ---------------------------------------------------------------------
  // Facts about sequences of reports
  // ---------------------------------------------------------------------

  lemma WordsConcat(a: seq<Match>, b: seq<Match>)
    ensures Words(a + b) == Words(a) + Words(b)
  {
    forall w | w in Words(a + b) ensures w in Words(a) + Words(b) {
      var m :| m in a + b && m.word == w;
    }
  }

  lemma {:induction false} NoteMatchesPrefix(note: NoteId, words: seq<Word>, j: nat)
    requires j <= |words|
    ensures NoteMatches(note, words[..j]) == NoteMatches(note, words)[..j]
  {
  }

  lemma {:induction false} MatchesConcat(a: seq<NoteId>, b: seq<NoteId>, sentenceFor: map<NoteId, string>, searchAll: Matcher)
    requires HasSentences(a, sentenceFor) && HasSentences(b, sentenceFor)
    ensures HasSentences(a + b, sentenceFor)
    ensures Matches(a + b, sentenceFor, searchAll) == Matches(a, sentenceFor, searchAll) + Matches(b, sentenceFor, searchAll)
  {
    if b == [] {
      assert a + b == a;
    } else {
      var b', last := b[..|b| - 1], b[|b| - 1];
      assert HasSentences(b', sentenceFor);
      MatchesConcat(a, b', sentenceFor, searchAll);
      var ab := a + b;
      assert ab[..|ab| - 1] == a + b' && ab[|ab| - 1] == last;
      var own := NoteMatches(last, searchAll(sentenceFor[last]));
      assert Matches(ab, sentenceFor, searchAll) == Matches(a + b', sentenceFor, searchAll) + own;
      assert Matches(b, sentenceFor, searchAll) == Matches(b', sentenceFor, searchAll) + own;
    }
  }

  lemma NoteMatchesStep(note: NoteId, words: seq<Word>, j: nat)
    requires j < |words|
    ensures NoteMatches(note, words[..j + 1]) == NoteMatches(note, words[..j]) + [Match(note, words[j])]
  {
    assert words[..j + 1][..j] == words[..j];
  }

  lemma MatchesStep(noteIds: seq<NoteId>, sentenceFor: map<NoteId, string>, searchAll: Matcher, i: nat)
    requires HasSentences(noteIds, sentenceFor) && i < |noteIds|
    ensures HasSentences(noteIds[..i], sentenceFor) && HasSentences(noteIds[..i + 1], sentenceFor)
    ensures Matches(noteIds[..i + 1], sentenceFor, searchAll)
         == Matches(noteIds[..i], sentenceFor, searchAll) + NoteMatches(noteIds[i], searchAll(sentenceFor[noteIds[i]]))
  {
    assert noteIds[..i + 1][..i] == noteIds[..i];
  }

  /** Every element of `FirstNew(seen, ms)` is a report of `ms` with an unseen word. */
  lemma {:induction false} FirstNewFrom(seen: set<Word>, ms: seq<Match>)
    ensures forall m | m in FirstNew(seen, ms) :: m in ms && m.word !in seen
  {
    if ms != [] {
      FirstNewFrom(seen, ms[..|ms| - 1]);
    }
  }

  /** The first occurrences credit exactly the unseen reported words. */
  lemma {:induction false} FirstNewWords(seen: set<Word>, ms: seq<Match>)
    ensures Words(FirstNew(seen, ms)) == Words(ms) - seen
  {
    if ms != [] {
      var rest, m := ms[..|ms| - 1], ms[|ms| - 1];
      FirstNewWords(seen, rest);
      assert ms == rest + [m];
      WordsConcat(rest, [m]);
      if !(m.word in seen || m.word in Words(rest)) {
        WordsConcat(FirstNew(seen, rest), [m]);
      }
    }
  }

  /** At most one credit per word: the credited words are pairwise distinct and unseen. */
  lemma {:induction false} FirstNewDistinct(seen: set<Word>, ms: seq<Match>)
    ensures forall a, b | 0 <= a < b < |FirstNew(seen, ms)| :: FirstNew(seen, ms)[a].word != FirstNew(seen, ms)[b].word
  {
    if ms != [] {
      var rest, m := ms[..|ms| - 1], ms[|ms| - 1];
      FirstNewDistinct(seen, rest);
      FirstNewWords(seen, rest);
      var f := FirstNew(seen, rest);
      if !(m.word in seen || m.word in Words(rest)) {
        forall a | 0 <= a < |f| ensures f[a].word != m.word {
          assert f[a] in f;
          assert f[a].word in Words(f);
        }
      }
    }
  }

  lemma {:induction false} FirstNewConcat(seen: set<Word>, a: seq<Match>, b: seq<Match>)
    ensures FirstNew(seen, a + b) == FirstNew(seen, a) + FirstNew(seen + Words(a), b)
  {
    if b == [] {
      assert a + b == a;
    } else {
      var b', m := b[..|b| - 1], b[|b| - 1];
      assert (a + b)[..|a + b| - 1] == a + b';
      FirstNewConcat(seen, a, b');
      WordsConcat(a, b');
    }
  }

  lemma {:induction false} FirstErrorConcat(track: Track, s: seq<Match>, t: seq<Match>)
    requires FirstError(track, s).Some?
    ensures FirstError(track, s + t) == FirstError(track, s)
  {
    if t == [] {
      assert s + t == s;
    } else {
      assert (s + t)[..|s + t| - 1] == s + t[..|t| - 1];
      FirstErrorConcat(track, s, t[..|t| - 1]);
    }
  }

  /** Once a credit fails, the whole run fails with that error. */
  lemma ErrorIsFinal(track: Track, pre: seq<Match>, all: seq<Match>)
    requires |pre| <= |all| && all[..|pre|] == pre
    requires FirstError(track, FirstOccurrences(pre)).Some?
    ensures RunOutcome(track, all) == Err(FirstError(track, FirstOccurrences(pre)).value)
  {
    var post := all[|pre|..];
    assert all == pre + post;
    FirstNewConcat({}, pre, post);
    assert {} + Words(pre) == Words(pre);
    assert FirstOccurrences(all) == FirstOccurrences(pre) + FirstNew(Words(pre), post);
    FirstErrorConcat(track, FirstOccurrences(pre), FirstNew(Words(pre), post));
  }

  /** A credit that fails at report `j` of a note fails the reports up to the end of that note. */
  lemma FailingReport(track: Track, prior: seq<Match>, note: NoteId, words: seq<Word>, j: nat)
    requires j < |words|
    requires FirstError(track, FirstOccurrences(prior + NoteMatches(note, words[..j + 1]))).Some?
    ensures RunOutcome(track, prior + NoteMatches(note, words))
         == Err(FirstError(track, FirstOccurrences(prior + NoteMatches(note, words[..j + 1]))).value)
  {
    var pre := prior + NoteMatches(note, words[..j + 1]);
    var all := prior + NoteMatches(note, words);
    NoteMatchesPrefix(note, words, j + 1);
    assert all[..|pre|] == pre;
    ErrorIsFinal(track, pre, all);
  }

  /** A note whose reports fail ends the whole run with that error. */
  lemma FailingNote(noteIds: seq<NoteId>, sentenceFor: map<NoteId, string>, searchAll: Matcher, track: Track, i: nat, e: CreditError)
    requires HasSentences(noteIds, sentenceFor) && i < |noteIds|
    requires RunOutcome(track, Matches(noteIds[..i + 1], sentenceFor, searchAll)) == Err(e)
    ensures RunOutcome(track, Matches(noteIds, sentenceFor, searchAll)) == Err(e)
  {
    var pre := Matches(noteIds[..i + 1], sentenceFor, searchAll);
    var all := Matches(noteIds, sentenceFor, searchAll);
    assert noteIds == noteIds[..i + 1] + noteIds[i + 1..];
    MatchesConcat(noteIds[..i + 1], noteIds[i + 1..], sentenceFor, searchAll);
    assert all[..|pre|] == pre;
    ErrorIsFinal(track, pre, all);
  }

  /** One report of the inner loop: an old word changes nothing; a new word
      either fails with its `KeyError` or is credited to its category. */
  lemma ReportStep(track: Track, done: seq<Match>, found: set<Word>, results: map<Category, seq<NoteId>>, m: Match)
    requires Credited(track, done, found, results)
    ensures forall k :: k in results <==> k in track.keys
    ensures m.word in found ==> Credited(track, done + [m], found, results)
    ensures m.word !in found && ErrorFor(track, m.word).Some? ==>
              FirstError(track, FirstOccurrences(done + [m])) == ErrorFor(track, m.word)
    ensures m.word !in found && ErrorFor(track, m.word).None? ==>
              var k := CategoryOf(track, m.word).value;
              k in results && Credited(track, done + [m], found + {m.word}, results[k := results[k] + [m.note]])
  {
    if m.word in found {
      OldWordStep(done, m);
    } else {
      NewWordStep(track, done, m);
    }
  }

  /** Crediting a report whose word is new appends it to the credits. */
  lemma NewWordStep(track: Track, done: seq<Match>, m: Match)
    requires m.word !in Words(done)
    requires FirstError(track, FirstOccurrences(done)) == None
    ensures Words(done + [m]) == Words(done) + {m.word}
    ensures FirstOccurrences(done + [m]) == FirstOccurrences(done) + [m]
    ensures FirstError(track, FirstOccurrences(done + [m])) == ErrorFor(track, m.word)
    ensures ErrorFor(track, m.word) == None ==>
              var lists := CreditLists(track, FirstOccurrences(done));
              var k := CategoryOf(track, m.word).value;
              k in lists && CreditLists(track, FirstOccurrences(done + [m])) == lists[k := lists[k] + [m.note]]
  {
    assert (done + [m])[..|done|] == done;
    WordsConcat(done, [m]);
    assert Words([m]) == {m.word};
    var fo := FirstOccurrences(done);
    assert FirstOccurrences(done + [m]) == fo + [m];
    assert (fo + [m])[..|fo|] == fo;
    if ErrorFor(track, m.word) == None {
      CreditListsStep(track, fo, m);
    }
  }

  /** A successful credit appends its note to the list of its word's category and to no other. */
  lemma CreditListsStep(track: Track, credits: seq<Match>, m: Match)
    requires ErrorFor(track, m.word) == None
    ensures var lists := CreditLists(track, credits);
            var k := CategoryOf(track, m.word).value;
            k in lists && CreditLists(track, credits + [m]) == lists[k := lists[k] + [m.note]]
  {
    var lists := CreditLists(track, credits);
    var k := CategoryOf(track, m.word).value;
    assert (credits + [m])[..|credits|] == credits;
    var after := CreditLists(track, credits + [m]);
    forall key | key in track.keys
      ensures after[key] == lists[k := lists[k] + [m.note]][key]
    {
      assert CreditedNotes(track, credits + [m], key)
          == CreditedNotes(track, credits, key) + (if key == k then [m.note] else []);
    }
  }

  /** A report whose word was already credited changes nothing. */
  lemma OldWordStep(done: seq<Match>, m: Match)
    requires m.word in Words(done)
    ensures Words(done + [m]) == Words(done)
    ensures FirstOccurrences(done + [m]) == FirstOccurrences(done)
  {
    assert (done + [m])[..|done|] == done;
    WordsConcat(done, [m]);
    assert Words([m]) == {m.word};
  }

  lemma {:induction false} FirstErrorNone(track: Track, credits: seq<Match>)
    ensures FirstError(track, credits) == None <==> forall i | 0 <= i < |credits| :: ErrorFor(track, credits[i].word) == None
  {
    if credits != [] {
      FirstErrorNone(track, credits[..|credits| - 1]);
    }
  }

  lemma {:induction false} CreditedNotesConcat(track: Track, a: seq<Match>, b: seq<Match>, k: Category)
    ensures CreditedNotes(track, a + b, k) == CreditedNotes(track, a, k) + CreditedNotes(track, b, k)
  {
    if b == [] {
      assert a + b == a;
    } else {
      assert (a + b)[..|a + b| - 1] == a + b[..|b| - 1];
      CreditedNotesConcat(track, a, b[..|b| - 1], k);
    }
  }

  /** The position of a report of `w`. */
  lemma WordIndex(s: seq<Match>, w: Word) returns (a: nat)
    requires w in Words(s)
    ensures a < |s| && s[a].word == w
  {
    var m :| m in s && m.word == w;
    a :| a < |s| && s[a] == m;
  }

  /** A sequence of reports with pairwise distinct words has as many words as reports. */
  lemma {:induction false} DistinctWordsCount(s: seq<Match>)
    requires forall a, b | 0 <= a < b < |s| :: s[a].word != s[b].word
    ensures |Words(s)| == |s|
  {
    if s != [] {
      var rest, m := s[..|s| - 1], s[|s| - 1];
      DistinctWordsCount(rest);
      assert s == rest + [m];
      WordsConcat(rest, [m]);
      assert Words([m]) == {m.word};
      assert m.word !in Words(rest) by {
        if m.word in Words(rest) {
          var a := WordIndex(rest, m.word);
          assert false;
        }
      }
      assert Words(s) == Words(rest) + {m.word};
    }
  }

  // ---------------------------------------------------------------------
  // Properties of a crediting run
  // ---------------------------------------------------------------------

  /** Each word is credited at most once, and exactly the reported words are credited. */
  lemma CreditsOncePerWord(ms: seq<Match>)
    ensures forall a, b | 0 <= a < b < |FirstOccurrences(ms)| :: FirstOccurrences(ms)[a].word != FirstOccurrences(ms)[b].word
    ensures Words(FirstOccurrences(ms)) == Words(ms)
    ensures |FirstOccurrences(ms)| == |Words(ms)|
  {
    FirstNewDistinct({}, ms);
    FirstNewWords({}, ms);
    DistinctWordsCount(FirstOccurrences(ms));
  }

  /** A run succeeds exactly when every reported word is in the table and
      its category is a result key; the found set is then every reported word. */
  lemma CoverageSucceeds(track: Track, ms: seq<Match>)
    ensures RunOutcome(track, ms).Ok? <==> forall w | w in Words(ms) :: ErrorFor(track, w) == None
    ensures RunOutcome(track, ms).Ok? ==> RunOutcome(track, ms).value.found == Words(ms)
    ensures RunOutcome(track, ms).Ok? ==> RunOutcome(track, ms).value.results.Keys == set k | k in track.keys
  {
    var credits := FirstOccurrences(ms);
    FirstErrorNone(track, credits);
    FirstNewWords({}, ms);
    assert Words(ms) - {} == Words(ms);
    if FirstError(track, credits) == None {
      forall w | w in Words(ms) ensures ErrorFor(track, w) == None {
        var m :| m in credits && m.word == w;
        var i :| 0 <= i < |credits| && credits[i] == m;
      }
    } else {
      var i :| 0 <= i < |credits| && ErrorFor(track, credits[i].word) != None;
      assert credits[i] in credits;
    }
  }

  /** The frequency track never fails on a category: every rank has a rating among its keys. */
  lemma {:induction false} FreqFirstError(freqForWord: map<Word, int>, credits: seq<Match>)
    ensures FirstError(FreqTrack(freqForWord), credits).Some? ==> FirstError(FreqTrack(freqForWord), credits).value.UnknownWord?
  {
    if credits != [] {
      FreqFirstError(freqForWord, credits[..|credits| - 1]);
      var w := credits[|credits| - 1].word;
      if w in freqForWord {
        var stars := Tables.FreqNumStars(freqForWord[w]);
        assert stars in FreqTrack(freqForWord).keys;
      }
    }
  }

  /** The frequency track fails only on a reported word missing from `freq_for_word`. */
  lemma FreqTrackFailsOnlyOnUnknownWords(freqForWord: map<Word, int>, ms: seq<Match>)
    ensures RunOutcome(FreqTrack(freqForWord), ms).Err? ==> RunOutcome(FreqTrack(freqForWord), ms).error.UnknownWord?
    ensures RunOutcome(FreqTrack(freqForWord), ms).Ok? <==> Words(ms) <= freqForWord.Keys
  {
    FreqFirstError(freqForWord, FirstOccurrences(ms));
    CoverageSucceeds(FreqTrack(freqForWord), ms);
    forall w | w in freqForWord ensures ErrorFor(FreqTrack(freqForWord), w) == None {
      assert Tables.FreqNumStars(freqForWord[w]) in FreqTrack(freqForWord).keys;
    }
  }

  /** The HSK track succeeds when every reported word has a level 1..6. */
  lemma HskTrackSucceeds(hskData: map<Word, int>, ms: seq<Match>)
    requires forall w | w in Words(ms) :: w in hskData && 1 <= hskData[w] <= 6
    ensures RunOutcome(HskTrack(hskData), ms).Ok?
  {
    CoverageSucceeds(HskTrack(hskData), ms);
    forall w | w in Words(ms) ensures ErrorFor(HskTrack(hskData), w) == None {
      assert hskData[w] in HskTrack(hskData).keys;
    }
  }

  // ---------------------------------------------------------------------
  // Conservation: credits and found words balance
  // ---------------------------------------------------------------------

  /** No two positions of `s` hold the same value. */
  ghost predicate Distinct<T>(s: seq<T>)
  {
    forall a, b | 0 <= a < b < |s| :: s[a] != s[b]
  }

  /** The summed lengths of the lists under `keys`. */
  function Total(results: map<Category, seq<NoteId>>, keys: seq<Category>): nat
    requires forall i | 0 <= i < |keys| :: keys[i] in results
  {
    if keys == [] then 0
    else Total(results, keys[..|keys| - 1]) + |results[keys[|keys| - 1]]|
  }

  /** How many positions of `keys` hold the category `c`. */
  function KeyCount(keys: seq<Category>, c: Option<Category>): nat
  {
    if keys == [] then 0
    else KeyCount(keys[..|keys| - 1], c) + (if c == Some(keys[|keys| - 1]) then 1 else 0)
  }

  lemma {:induction false} KeyCountOfDistinct(keys: seq<Category>, c: Category)
    requires Distinct(keys) && c in keys
    ensures KeyCount(keys, Some(c)) == 1
  {
    var rest := keys[..|keys| - 1];
    if c == keys[|keys| - 1] {
      forall a | 0 <= a < |rest| ensures rest[a] != c {
        assert keys[a] != keys[|keys| - 1];
      }
      KeyCountAbsent(rest, c);
    } else {
      KeyCountOfDistinct(rest, c);
    }
  }

  lemma {:induction false} KeyCountAbsent(keys: seq<Category>, c: Category)
    requires c !in keys
    ensures KeyCount(keys, Some(c)) == 0
  {
    if keys != [] {
      KeyCountAbsent(keys[..|keys| - 1], c);
    }
  }

  /** One more credit adds one to the total of every key listing its category. */
  lemma {:induction false} TotalStep(track: Track, credits: seq<Match>, m: Match, keys: seq<Category>)
    requires forall i | 0 <= i < |keys| :: keys[i] in track.keys
    ensures Total(CreditLists(track, credits + [m]), keys)
         == Total(CreditLists(track, credits), keys) + KeyCount(keys, CategoryOf(track, m.word))
  {
    if keys != [] {
      TotalStep(track, credits, m, keys[..|keys| - 1]);
      assert (credits + [m])[..|credits|] == credits;
    }
  }

  /** When every credit's category is a key, the lists hold one entry per credit. */
  lemma {:induction false} TotalOfCredits(track: Track, credits: seq<Match>)
    requires Distinct(track.keys)
    requires FirstError(track, credits) == None
    ensures Total(CreditLists(track, credits), track.keys) == |credits|
  {
    if credits == [] {
      TotalOfEmpty(track, track.keys);
    } else {
      var rest, m := credits[..|credits| - 1], credits[|credits| - 1];
      assert credits == rest + [m];
      TotalOfCredits(track, rest);
      TotalStep(track, rest, m, track.keys);
      KeyCountOfDistinct(track.keys, CategoryOf(track, m.word).value);
    }
  }

  lemma {:induction false} TotalOfEmpty(track: Track, keys: seq<Category>)
    requires forall i | 0 <= i < |keys| :: keys[i] in track.keys
    ensures Total(CreditLists(track, []), keys) == 0
  {
    if keys != [] {
      TotalOfEmpty(track, keys[..|keys| - 1]);
    }
  }

  /** After a successful run, the lengths of all result lists add up to the
      number of found words. */
  lemma Conservation(track: Track, ms: seq<Match>)
    requires Distinct(track.keys)
    ensures RunOutcome(track, ms).Ok? ==>
              Total(RunOutcome(track, ms).value.results, track.keys) == |RunOutcome(track, ms).value.found|
  {
    if RunOutcome(track, ms).Ok? {
      TotalOfCredits(track, FirstOccurrences(ms));
      CreditsOncePerWord(ms);
    }
  }

  /** Both tracks of `chinese_stats` balance credits and found words. */
  lemma TracksConserve(hskData: map<Word, int>, freqForWord: map<Word, int>, ms: seq<Match>)
    ensures var hsk := RunOutcome(HskTrack(hskData), ms);
            hsk.Ok? ==> Total(hsk.value.results, [1, 2, 3, 4, 5, 6]) == |hsk.value.found|
    ensures var freq := RunOutcome(FreqTrack(freqForWord), ms);
            freq.Ok? ==> Total(freq.value.results, [5, 4, 3, 2, 1, 0]) == |freq.value.found|
  {
    Conservation(HskTrack(hskData), ms);
    Conservation(FreqTrack(freqForWord), ms);
  }

  /** The words of category `k` among the reports `ms`. */
  function WordsOfCategory(track: Track, ms: seq<Match>, k: Category): set<Word>
  {
    set m | m in ms && CategoryOf(track, m.word) == Some(k) :: m.word
  }

  lemma {:induction false} CreditedNotesCount(track: Track, credits: seq<Match>, k: Category)
    requires forall a, b | 0 <= a < b < |credits| :: credits[a].word != credits[b].word
    ensures |CreditedNotes(track, credits, k)| == |WordsOfCategory(track, credits, k)|
  {
    if credits != [] {
      var rest, m := credits[..|credits| - 1], credits[|credits| - 1];
      CreditedNotesCount(track, rest, k);
      assert credits == rest + [m];
      forall x | x in rest ensures x.word != m.word {
        var a :| 0 <= a < |rest| && rest[a] == x;
        assert credits[a] == x;
      }
      WordsOfCategoryStep(track, rest, m, k);
      if CategoryOf(track, m.word) == Some(k) {
        assert m.word !in WordsOfCategory(track, rest, k);
      }
    }
  }

  lemma WordsOfCategoryStep(track: Track, rest: seq<Match>, m: Match, k: Category)
    ensures WordsOfCategory(track, rest + [m], k)
         == WordsOfCategory(track, rest, k) + (if CategoryOf(track, m.word) == Some(k) then {m.word} else {})
  {
    var extra: set<Word> := if CategoryOf(track, m.word) == Some(k) then {m.word} else {};
    forall w | w in WordsOfCategory(track, rest + [m], k)
      ensures w in WordsOfCategory(track, rest, k) + extra
    {
      var x :| x in rest + [m] && CategoryOf(track, x.word) == Some(k) && x.word == w;
      if x != m {
        assert x in rest;
      }
    }
    forall w | w in WordsOfCategory(track, rest, k) ensures w in WordsOfCategory(track, rest + [m], k) {
      var x :| x in rest && CategoryOf(track, x.word) == Some(k) && x.word == w;
      assert x in rest + [m];
    }
    if CategoryOf(track, m.word) == Some(k) {
      assert m in rest + [m];
    }
  }

  /** Per-category conservation: after a successful run, the result list of
      category `k` holds one note per distinct reported word of that category. */
  lemma CategoryCountsWords(track: Track, ms: seq<Match>, k: Category)
    requires k in track.keys
    ensures RunOutcome(track, ms).Ok? ==> |RunOutcome(track, ms).value.results[k]| == |WordsOfCategory(track, ms, k)|
  {
    var credits := FirstOccurrences(ms);
    CreditsOncePerWord(ms);
    CreditedNotesCount(track, credits, k);
    forall x ensures x in WordsOfCategory(track, credits, k) <==> x in WordsOfCategory(track, ms, k) {
      if x in WordsOfCategory(track, ms, k) {
        assert x in Words(ms);
        var m :| m in credits && m.word == x;
      }
      if x in WordsOfCategory(track, credits, k) {
        assert x in Words(credits);
        var m :| m in ms && m.word == x;
      }
    }
    assert WordsOfCategory(track, credits, k) == WordsOfCategory(track, ms, k);
    if RunOutcome(track, ms).Ok? {
      assert RunOutcome(track, ms).value.results[k] == CreditedNotes(track, credits, k);
    }
  }

  // ---------------------------------------------------------------------
  // The earliest note gets the credit
  // ---------------------------------------------------------------------

  lemma {:induction false} MatchesNotes(noteIds: seq<NoteId>, sentenceFor: map<NoteId, string>, searchAll: Matcher)
    requires HasSentences(noteIds, sentenceFor)
    ensures forall m | m in Matches(noteIds, sentenceFor, searchAll) :: m.note in noteIds
  {
    if noteIds != [] {
      var rest := noteIds[..|noteIds| - 1];
      MatchesNotes(rest, sentenceFor, searchAll);
      forall m | m in Matches(noteIds, sentenceFor, searchAll) ensures m.note in noteIds {
        if m in Matches(rest, sentenceFor, searchAll) {
          var e :| 0 <= e < |rest| && rest[e] == m.note;
          assert noteIds[e] == m.note;
        }
      }
    }
  }

  /** Every note of a category's list is the note of some credit. */
  lemma {:induction false} CreditedNotesFrom(track: Track, credits: seq<Match>, k: Category)
    ensures forall n | n in CreditedNotes(track, credits, k) :: exists m | m in credits :: m.note == n
  {
    if credits != [] {
      var rest, last := credits[..|credits| - 1], credits[|credits| - 1];
      CreditedNotesFrom(track, rest, k);
      forall n | n in CreditedNotes(track, credits, k) ensures exists m | m in credits :: m.note == n {
        if n in CreditedNotes(track, rest, k) {
          var m :| m in rest && m.note == n;
          assert m in credits;
        } else {
          assert last in credits;
        }
      }
    }
  }

  /** A successful run credits only notes of its note list, so every credited
      note has a first-study time when every listed note has one. */
  lemma CreditsDated(track: Track, noteIds: seq<NoteId>, sentenceFor: map<NoteId, string>, searchAll: Matcher,
                     noteInfo: map<NoteId, int>)
    requires HasSentences(noteIds, sentenceFor)
    ensures var out := RunOutcome(track, Matches(noteIds, sentenceFor, searchAll));
            out.Ok? ==> forall k, i | k in out.value.results && 0 <= i < |out.value.results[k]| :: out.value.results[k][i] in noteIds
    ensures var out := RunOutcome(track, Matches(noteIds, sentenceFor, searchAll));
            out.Ok? && NotesDated(noteIds, noteInfo) ==> HasDates(noteInfo, out.value.results)
  {
    var ms := Matches(noteIds, sentenceFor, searchAll);
    var credits := FirstOccurrences(ms);
    var out := RunOutcome(track, ms);
    MatchesNotes(noteIds, sentenceFor, searchAll);
    FirstNewFrom({}, ms);
    if out.Ok? {
      forall k, i | k in out.value.results && 0 <= i < |out.value.results[k]|
        ensures out.value.results[k][i] in noteIds
      {
        assert out.value.results[k] == CreditedNotes(track, credits, k);
        CreditedNotesFrom(track, credits, k);
        assert out.value.results[k][i] in CreditedNotes(track, credits, k);
        var m :| m in credits && m.note == out.value.results[k][i];
      }
      if NotesDated(noteIds, noteInfo) {
        forall k, i | k in out.value.results && 0 <= i < |out.value.results[k]|
          ensures out.value.results[k][i] in noteInfo
        {
          var e :| 0 <= e < |noteIds| && noteIds[e] == out.value.results[k][i];
        }
      }
    }
  }

  /** A word is reported somewhere in a run exactly when some note's sentence reports it. */
  lemma {:induction false} MatchesWords(noteIds: seq<NoteId>, sentenceFor: map<NoteId, string>, searchAll: Matcher, w: Word)
    requires HasSentences(noteIds, sentenceFor)
    ensures w !in Words(Matches(noteIds, sentenceFor, searchAll))
        <==> forall e | 0 <= e < |noteIds| :: w !in searchAll(sentenceFor[noteIds[e]])
  {
    if noteIds != [] {
      var rest, last := noteIds[..|noteIds| - 1], noteIds[|noteIds| - 1];
      var words := searchAll(sentenceFor[last]);
      MatchesWords(rest, sentenceFor, searchAll, w);
      WordsConcat(Matches(rest, sentenceFor, searchAll), NoteMatches(last, words));
      if w in words {
        var k :| 0 <= k < |words| && words[k] == w;
        assert NoteMatches(last, words)[k].word == w;
      }
      if w in Words(NoteMatches(last, words)) {
        var x :| x in NoteMatches(last, words) && x.word == w;
        var k :| 0 <= k < |words| && NoteMatches(last, words)[k] == x;
      }
    }
  }

  /** Within one note's reports, the note gets the credit for `w` exactly
      when its sentence reports `w` and `w` was not seen before. */
  lemma NoteCredit(seen: set<Word>, note: NoteId, words: seq<Word>, w: Word)
    ensures forall x | x in FirstNew(seen, NoteMatches(note, words)) :: x.note == note
    ensures Match(note, w) in FirstNew(seen, NoteMatches(note, words)) <==> w in words && w !in seen
  {
    var own := NoteMatches(note, words);
    FirstNewFrom(seen, own);
    forall x | x in FirstNew(seen, own) ensures x.note == note {
      var k :| 0 <= k < |own| && own[k] == x;
    }
    if w in words && w !in seen {
      FirstNewWords(seen, own);
      var k :| 0 <= k < |words| && words[k] == w;
      assert own[k].word == w;
      assert w in Words(FirstNew(seen, own));
      var x :| x in FirstNew(seen, own) && x.word == w;
      assert x == Match(note, w);
    }
    if Match(note, w) in FirstNew(seen, own) {
      var k :| 0 <= k < |own| && own[k] == Match(note, w);
      assert words[k] == w;
    }
  }

  /** The credits of a run are those of all notes but the last, then the
      last note's credits for words not reported before it. */
  lemma SplitLastNote(noteIds: seq<NoteId>, sentenceFor: map<NoteId, string>, searchAll: Matcher)
    requires HasSentences(noteIds, sentenceFor) && noteIds != []
    ensures var rest, last := noteIds[..|noteIds| - 1], noteIds[|noteIds| - 1];
            var before := Matches(rest, sentenceFor, searchAll);
            FirstOccurrences(Matches(noteIds, sentenceFor, searchAll))
              == FirstOccurrences(before) + FirstNew(Words(before), NoteMatches(last, searchAll(sentenceFor[last])))
  {
    var rest, last := noteIds[..|noteIds| - 1], noteIds[|noteIds| - 1];
    var before := Matches(rest, sentenceFor, searchAll);
    FirstNewConcat({}, before, NoteMatches(last, searchAll(sentenceFor[last])));
    assert {} + Words(before) == Words(before);
  }

  /** The last note gets the credit for `w` exactly when its sentence reports
      `w` and no earlier note's does. */
  lemma LastNoteCredit(noteIds: seq<NoteId>, sentenceFor: map<NoteId, string>, searchAll: Matcher, w: Word)
    requires HasSentences(noteIds, sentenceFor) && Distinct(noteIds) && noteIds != []
    ensures var n := |noteIds|;
            (Match(noteIds[n - 1], w) in FirstOccurrences(Matches(noteIds, sentenceFor, searchAll)))
            == (w in searchAll(sentenceFor[noteIds[n - 1]]) && forall e | 0 <= e < n - 1 :: w !in searchAll(sentenceFor[noteIds[e]]))
  {
    var n := |noteIds|;
    var rest, last := noteIds[..n - 1], noteIds[n - 1];
    var before := Matches(rest, sentenceFor, searchAll);
    var own := NoteMatches(last, searchAll(sentenceFor[last]));
    var target := Match(last, w);
    SplitLastNote(noteIds, sentenceFor, searchAll);
    assert (target in FirstOccurrences(Matches(noteIds, sentenceFor, searchAll)))
        == (target in FirstOccurrences(before) || target in FirstNew(Words(before), own));
    assert target !in FirstOccurrences(before) by {
      FirstNewFrom({}, before);
      MatchesNotes(rest, sentenceFor, searchAll);
    }
    NoteCredit(Words(before), last, searchAll(sentenceFor[last]), w);
    assert (w !in Words(before)) == forall e | 0 <= e < n - 1 :: w !in searchAll(sentenceFor[noteIds[e]]) by {
      MatchesWords(rest, sentenceFor, searchAll, w);
      assert forall e | 0 <= e < n - 1 :: rest[e] == noteIds[e];
    }
  }

  /** A note other than the last keeps the credits it had before the last note ran. */
  lemma EarlierNoteCredit(noteIds: seq<NoteId>, sentenceFor: map<NoteId, string>, searchAll: Matcher, i: nat, w: Word)
    requires HasSentences(noteIds, sentenceFor) && Distinct(noteIds)
    requires i < |noteIds| - 1
    ensures Match(noteIds[i], w) in FirstOccurrences(Matches(noteIds, sentenceFor, searchAll))
        <==> Match(noteIds[i], w) in FirstOccurrences(Matches(noteIds[..|noteIds| - 1], sentenceFor, searchAll))
  {
    var last := noteIds[|noteIds| - 1];
    SplitLastNote(noteIds, sentenceFor, searchAll);
    NoteCredit(Words(Matches(noteIds[..|noteIds| - 1], sentenceFor, searchAll)), last, searchAll(sentenceFor[last]), w);
    assert noteIds[i] != last;
  }

  /** Earliest note wins: with distinct note ids, note `i` gets the credit
      for `w` exactly when its sentence reports `w` and no earlier note's does. */
  lemma {:induction false} EarliestNoteWins(noteIds: seq<NoteId>, sentenceFor: map<NoteId, string>, searchAll: Matcher, i: nat, w: Word)
    requires HasSentences(noteIds, sentenceFor) && Distinct(noteIds)
    requires i < |noteIds|
    ensures Match(noteIds[i], w) in FirstOccurrences(Matches(noteIds, sentenceFor, searchAll))
        <==> w in searchAll(sentenceFor[noteIds[i]]) && forall e | 0 <= e < i :: w !in searchAll(sentenceFor[noteIds[e]])
  {
    if i < |noteIds| - 1 {
      var rest := noteIds[..|noteIds| - 1];
      EarlierNoteCredit(noteIds, sentenceFor, searchAll, i, w);
      EarliestNoteWins(rest, sentenceFor, searchAll, i, w);
      assert forall e | 0 <= e <= i :: rest[e] == noteIds[e];
    } else {
      LastNoteCredit(noteIds, sentenceFor, searchAll, w);
    }
  }

  /** `w` occurs in `text` starting at position `k`. */
  ghost predicate OccursAt(w: string, text: string, k: int)
  {
    0 <= k && k + |w| <= |text| && text[k..k + |w|] == w
  }

  /** `w` occurs in `text` as a contiguous substring. */
  ghost predicate IsSubstring(w: string, text: string)
  {
    exists k :: OccursAt(w, text, k)
  }

  /** The keyword tree built from `words` reports exactly the listed words that occur in a text. */
  ghost predicate ReportsOccurrences(searchAll: Matcher, words: set<Word>)
  {
    forall text, w :: w in searchAll(text) <==> w in words && IsSubstring(w, text)
  }

  /** With a keyword tree that reports occurrences, note `i` gets the credit for a listed
      word exactly when its sentence contains it and no earlier sentence does. */
  lemma EarliestContainingNoteWins(noteIds: seq<NoteId>, sentenceFor: map<NoteId, string>, searchAll: Matcher,
                                   words: set<Word>, i: nat, w: Word)
    requires HasSentences(noteIds, sentenceFor) && Distinct(noteIds)
    requires ReportsOccurrences(searchAll, words)
    requires i < |noteIds|
    ensures Match(noteIds[i], w) in FirstOccurrences(Matches(noteIds, sentenceFor, searchAll))
        <==> && w in words
             && IsSubstring(w, sentenceFor[noteIds[i]])
             && forall e | 0 <= e < i :: !IsSubstring(w, sentenceFor[noteIds[e]])
  {
    EarliestNoteWins(noteIds, sentenceFor, searchAll, i, w);
  }

  // ---------------------------------------------------------------------
  // Credits are never revoked
  // ---------------------------------------------------------------------

  /** Running over the first `n` notes only yields a found set contained in
      the full run's, and result lists that are prefixes of the full run's:
      later notes only add credits. */
  lemma CreditsPersist(noteIds: seq<NoteId>, sentenceFor: map<NoteId, string>, searchAll: Matcher, track: Track, n: nat)
    requires HasSentences(noteIds, sentenceFor)
    requires n <= |noteIds|
    ensures var early := RunOutcome(track, Matches(noteIds[..n], sentenceFor, searchAll));
            var full := RunOutcome(track, Matches(noteIds, sentenceFor, searchAll));
            full.Ok? ==>
              && early.Ok?
              && early.value.found <= full.value.found
              && early.value.results.Keys == full.value.results.Keys
              && forall k | k in early.value.results :: early.value.results[k] <= full.value.results[k]
  {
    var a, b := noteIds[..n], noteIds[n..];
    assert noteIds == a + b;
    MatchesConcat(a, b, sentenceFor, searchAll);
    var ma, mb := Matches(a, sentenceFor, searchAll), Matches(b, sentenceFor, searchAll);
    FirstNewConcat({}, ma, mb);
    assert {} + Words(ma) == Words(ma);
    var fa, fb := FirstOccurrences(ma), FirstNew(Words(ma), mb);
    assert FirstOccurrences(ma + mb) == fa + fb;
    if FirstError(track, fa).Some? {
      FirstErrorConcat(track, fa, fb);
    }
    WordsConcat(ma, mb);
    forall k | k in track.keys ensures CreditedNotes(track, fa, k) <= CreditedNotes(track, fa + fb, k) {
      CreditedNotesConcat(track, fa, fb, k);
    }
  }
}
