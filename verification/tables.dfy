/**
 * The star rating of a frequency rank and the two constant tables of
 * vocabulary sizes (`freq_num_stars`, `num_words_for_stars`,
 * `num_words_in_hsk_level` in `__init__.py`).
 */
module Tables {
  import opened Outcomes

  /** The rank bounds of the rating bands, widest first: a rank at or below
      each of them earns one more star. */
  const StarThresholds: seq<int> := [60000, 30000, 15000, 5000, 1500]

  /** How many of the bounds in `bounds` lie at or above `rank`. */
  function BoundsAtOrAbove(bounds: seq<int>, rank: int): (n: nat)
    ensures n <= |bounds|
  {
    if bounds == [] then 0
    else (if rank <= bounds[0] then 1 else 0) + BoundsAtOrAbove(bounds[1..], rank)
  }

  /** Fewer bounds lie above a larger rank. */
  lemma {:induction false} BoundsAtOrAboveAntitone(bounds: seq<int>, a: int, b: int)
    requires a <= b
    ensures BoundsAtOrAbove(bounds, b) <= BoundsAtOrAbove(bounds, a)
  {
    if bounds != [] {
      BoundsAtOrAboveAntitone(bounds[1..], a, b);
    }
  }

  /** The star rating (0..5) of a 0-based frequency rank. */
  function FreqNumStars(freq: int): (stars: int)
    ensures 0 <= stars <= 5
  {
    if freq <= 1500 then 5
    else if freq <= 5000 then 4
    else if freq <= 15000 then 3
    else if freq <= 30000 then 2
    else if freq <= 60000 then 1
    else 0
  }

  /** The rating is the number of thresholds the rank does not exceed. */
  lemma FreqNumStarsCountsBounds(freq: int)
    ensures FreqNumStars(freq) == BoundsAtOrAbove(StarThresholds, freq)
  {
    var t := StarThresholds;
    assert t[4..][1..] == t[5..] == [];
    assert BoundsAtOrAbove(t[4..], freq) == if freq <= 1500 then 1 else 0;
    assert t[3..][1..] == t[4..];
    assert BoundsAtOrAbove(t[3..], freq) == (if freq <= 5000 then 1 else 0) + BoundsAtOrAbove(t[4..], freq);
    assert t[2..][1..] == t[3..];
    assert BoundsAtOrAbove(t[2..], freq) == (if freq <= 15000 then 1 else 0) + BoundsAtOrAbove(t[3..], freq);
    assert t[1..][1..] == t[2..];
    assert BoundsAtOrAbove(t[1..], freq) == (if freq <= 30000 then 1 else 0) + BoundsAtOrAbove(t[2..], freq);
    assert BoundsAtOrAbove(t, freq) == (if freq <= 60000 then 1 else 0) + BoundsAtOrAbove(t[1..], freq);
  }

  /** The rating bands, stated band by band. */
  lemma FreqNumStarsBands(freq: int)
    ensures FreqNumStars(freq) == 5 <==> freq <= 1500
    ensures FreqNumStars(freq) == 4 <==> 1500 < freq <= 5000
    ensures FreqNumStars(freq) == 3 <==> 5000 < freq <= 15000
    ensures FreqNumStars(freq) == 2 <==> 15000 < freq <= 30000
    ensures FreqNumStars(freq) == 1 <==> 30000 < freq <= 60000
    ensures FreqNumStars(freq) == 0 <==> 60000 < freq
  {
  }

  /** A less frequent word (larger rank) never earns more stars. */
  lemma FreqNumStarsMonotone(a: int, b: int)
    requires a <= b
    ensures FreqNumStars(b) <= FreqNumStars(a)
  {
    FreqNumStarsCountsBounds(a);
    FreqNumStarsCountsBounds(b);
    BoundsAtOrAboveAntitone(StarThresholds, a, b);
  }

  /** Python's `list[i]`: negative indices count from the end, anything
      outside `-len .. len-1` raises `IndexError` (here `None`). */
  function PyIndex<T>(s: seq<T>, i: int): (r: Option<T>)
    ensures r.Some? <==> -|s| <= i < |s|
    ensures 0 <= i < |s| ==> r == Some(s[i])
    ensures -|s| <= i < 0 ==> r == Some(s[|s| + i])
  {
    if 0 <= i < |s| then Some(s[i])
    else if -|s| <= i < 0 then Some(s[|s| + i])
    else None
  }

  /** Vocabulary size per star rating; -1 marks "undefined" for 0 stars. */
  const WordsForStars: seq<int> := [-1, 30000, 15000, 10000, 3500, 1500]

  /** Vocabulary size per HSK level 1..6 (stored 0-based). */
  const WordsInHskLevel: seq<int> := [150, 150, 300, 600, 1300, 2500]

  /** `num_words_for_stars`: a plain list index, so -6..-1 wrap around and
      anything else outside 0..5 is an `IndexError`. */
  function NumWordsForStars(numStars: int): (r: Option<int>)
    ensures r.Some? <==> -6 <= numStars <= 5
    ensures numStars == 0 ==> r == Some(-1)
    ensures numStars == 1 ==> r == Some(30000)
    ensures numStars == 2 ==> r == Some(15000)
    ensures numStars == 3 ==> r == Some(10000)
    ensures numStars == 4 ==> r == Some(3500)
    ensures numStars == 5 ==> r == Some(1500)
  {
    PyIndex(WordsForStars, numStars)
  }

  /** `num_words_in_hsk_level`: the list is indexed with `level - 1`, so
      level 0 and below wrap around to the end of the list. */
  function NumWordsInHskLevel(hskLevel: int): (r: Option<int>)
    ensures r.Some? <==> -5 <= hskLevel <= 6
    ensures hskLevel == 1 ==> r == Some(150)
    ensures hskLevel == 2 ==> r == Some(150)
    ensures hskLevel == 3 ==> r == Some(300)
    ensures hskLevel == 4 ==> r == Some(600)
    ensures hskLevel == 5 ==> r == Some(1300)
    ensures hskLevel == 6 ==> r == Some(2500)
  {
    PyIndex(WordsInHskLevel, hskLevel - 1)
  }

  /** Negative star counts wrap around to the end of the table. */
  lemma NumWordsForStarsWraps(numStars: int)
    requires -6 <= numStars < 0
    ensures NumWordsForStars(numStars) == NumWordsForStars(numStars + 6)
  {
  }

  /** Levels 0 and below wrap around to the end of the table. */
  lemma NumWordsInHskLevelWraps(hskLevel: int)
    requires -5 <= hskLevel <= 0
    ensures NumWordsInHskLevel(hskLevel) == NumWordsInHskLevel(hskLevel + 6)
  {
  }

  /** For one to four stars the table holds the width of the rank band that
      earns that rating: the band is `(lower, lower + size]`. */
  lemma StarBandWidths(stars: int, rank: int)
    requires 1 <= stars <= 4
    ensures var lower := StarThresholds[stars];
            var size := NumWordsForStars(stars).value;
            FreqNumStars(rank) == stars <==> lower < rank <= lower + size
  {
  }
}
