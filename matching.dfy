/** Filtering a word list by rows of feedback: `matchPattern` and the checks of
    `main` in main.py.

    A row is a candidate pattern of marks. For each row the program keeps, in list
    order, the words of length five whose own pattern against today's word is that
    row. A row of the wrong length or with a value other than 0, 1 or 2 aborts the
    whole call with an error; here the error is a value of `Result`. */
module RowFilter {
  import opened Feedback

  /** Number of rows `main` demands (one per guess of a game). */
  const RowCount: nat := 6

  /** The `ValueError`s the program raises, one per message. */
  datatype Error =
    | WordLengthError   // "Word must be 5 letters long"
    | RowCountError     // "Pattern array must be 6 elements long"
    | RowLengthError    // "Each pattern element must be 5 elements long"
    | RowValueError     // "Pattern elements must contain only integers 0, 1, or 2"

  datatype Result<T> = Success(value: T) | Failure(error: Error)

  /** The error a row raises, if any: its length is checked before its values. */
  function RowError(row: seq<int>): (e: Option<Error>)
    ensures e.None? <==> |row| == WordLength && forall k :: 0 <= k < |row| ==> IsMark(row[k])
    ensures e == Some(RowLengthError) <==> |row| != WordLength
    ensures e.Some? ==> e.value == RowLengthError || e.value == RowValueError
  {
    if |row| != WordLength then Some(RowLengthError)
    else if forall k :: 0 <= k < |row| ==> IsMark(row[k]) then None
    else Some(RowValueError)
  }

  /** Every pattern the program computes is a row it accepts. */
  lemma PatternIsValidRow(word: string, todaysWord: string)
    requires |word| == |todaysWord| == WordLength
    ensures RowError(Pattern(word, todaysWord)) == None
  {
  }

  /** The elements of `s` that `keep` accepts, in their order in `s`. */
  function Filter<T>(keep: T -> bool, s: seq<T>): (r: seq<T>)
    ensures |r| <= |s|
    ensures forall k :: 0 <= k < |r| ==> keep(r[k])
  {
    if s == [] then []
    else
      var rest := Filter(keep, s[..|s| - 1]);
      var x := s[|s| - 1];
      assert s == s[..|s| - 1] + [x];
      if keep(x) then rest + [x] else rest
  }

  /** The kept elements are a subsequence of `s`, picked out by increasing
      positions, and the positions picked are exactly those of accepted elements. */
  lemma {:induction false} FilterIsSubsequence<T>(keep: T -> bool, s: seq<T>) returns (idx: seq<nat>)
    ensures |idx| == |Filter(keep, s)|
    ensures forall k :: 0 <= k < |idx| ==> idx[k] < |s| && Filter(keep, s)[k] == s[idx[k]]
    ensures forall k, l :: 0 <= k < l < |idx| ==> idx[k] < idx[l]
    ensures forall j :: 0 <= j < |s| ==> (j in idx <==> keep(s[j]))
  {
    if s == [] {
      idx := [];
    } else {
      var n := |s| - 1;
      var front := s[..n];
      var prev := FilterIsSubsequence(keep, front);
      assert s == front + [s[n]];
      if keep(s[n]) {
        assert Filter(keep, s) == Filter(keep, front) + [s[n]];
        idx := prev + [n];
      } else {
        assert Filter(keep, s) == Filter(keep, front);
        idx := prev;
      }
      forall j | 0 <= j < |s|
        ensures j in idx <==> keep(s[j])
      {
        if j < n {
          assert front[j] == s[j];
        } else {
          assert n !in prev;
        }
      }
    }
  }

  /** An accepted element is kept as many times as `s` holds it, any other not at all. */
  lemma {:induction false} FilterCount<T>(keep: T -> bool, s: seq<T>, x: T)
    ensures multiset(Filter(keep, s))[x] == if keep(x) then multiset(s)[x] else 0
  {
    if s != [] {
      var n := |s| - 1;
      FilterCount(keep, s[..n], x);
      assert s == s[..n] + [s[n]];
    }
  }

  /** A word is kept for a row when it has five letters and its pattern against
      today's word is the row. */
  predicate Fits(todaysWord: string, row: seq<int>, word: string) {
    |word| == WordLength && |todaysWord| == WordLength && Pattern(word, todaysWord) == row
  }

  /** The words of `words` that fit `row`, in their order in `words`. */
  function Matches(todaysWord: string, row: seq<int>, words: seq<string>): seq<string> {
    Filter(word => Fits(todaysWord, row, word), words)
  }

  /** A row whose only non-green mark is one yellow is never any word's pattern:
      the yellow letter would have to stand at another non-green position. */
  lemma LoneYellowMatchesNothing(todaysWord: string, row: seq<int>, words: seq<string>, i: nat)
    requires |todaysWord| == |row| == WordLength && i < WordLength
    requires row[i] == Yellow
    requires forall k :: 0 <= k < WordLength && k != i ==> row[k] == Green
    ensures Matches(todaysWord, row, words) == []
  {
    var r := Matches(todaysWord, row, words);
    if r != [] {
      var w := r[0];
      assert Fits(todaysWord, row, w);
      YellowIsElsewhere(w, todaysWord, i);
      assert false;
    }
  }

  /** The result of `matchPattern`: the first row that raises decides the error;
      when none does, one list of matches per row. */
  function MatchAll(todaysWord: string, rows: seq<seq<int>>, words: seq<string>): (r: Result<seq<seq<string>>>)
    requires |todaysWord| == WordLength
    ensures r.Success? <==> forall k :: 0 <= k < |rows| ==> RowError(rows[k]).None?
    ensures r.Success? ==>
      |r.value| == |rows| && forall k :: 0 <= k < |rows| ==> r.value[k] == Matches(todaysWord, rows[k], words)
  {
    if rows == [] then Success([])
    else
      var n := |rows| - 1;
      var front := MatchAll(todaysWord, rows[..n], words);
      assert forall k :: 0 <= k < n ==> rows[..n][k] == rows[k];
      if front.Failure? then front
      else if RowError(rows[n]).Some? then Failure(RowError(rows[n]).value)
      else Success(front.value + [Matches(todaysWord, rows[n], words)])
  }

  /** When the rows before `i` all pass and row `i` raises, the call fails with
      row `i`'s error, whatever the rows after it. */
  lemma {:induction false} FirstErrorWins(todaysWord: string, rows: seq<seq<int>>, words: seq<string>, i: nat)
    requires |todaysWord| == WordLength && i < |rows|
    requires forall k :: 0 <= k < i ==> RowError(rows[k]).None?
    requires RowError(rows[i]).Some?
    ensures MatchAll(todaysWord, rows, words) == Failure(RowError(rows[i]).value)
  {
    var n := |rows| - 1;
    if i < n {
      FirstErrorWins(todaysWord, rows[..n], words, i);
    }
  }

  /** Whether a call fails, and with which error, depends on the rows alone. */
  lemma {:induction false} ErrorIgnoresWords(todaysWord: string, rows: seq<seq<int>>, words: seq<string>, others: seq<string>)
    requires |todaysWord| == WordLength
    ensures MatchAll(todaysWord, rows, words).Failure? == MatchAll(todaysWord, rows, others).Failure?
    ensures MatchAll(todaysWord, rows, words).Failure? ==>
      MatchAll(todaysWord, rows, words).error == MatchAll(todaysWord, rows, others).error
  {
    if rows != [] {
      ErrorIgnoresWords(todaysWord, rows[..|rows| - 1], words, others);
    }
  }

  /** The inner loop of `matchPattern`: scan the list, skip words that are not
      five letters long, keep those whose pattern is the row. */
  method MatchRow(todaysWord: string, row: seq<int>, validWords: seq<string>)
    returns (matchingWords: seq<string>)
    requires |todaysWord| == WordLength
    ensures matchingWords == Matches(todaysWord, row, validWords)
  {
    matchingWords := [];
    for j := 0 to |validWords|
      invariant matchingWords == Matches(todaysWord, row, validWords[..j])
    {
      var word := validWords[j];
      assert validWords[..j + 1][..j] == validWords[..j];
      if |word| == WordLength {
        var actualPattern := GetWordlePattern(word, todaysWord);
        if actualPattern == row {
          matchingWords := matchingWords + [word];
        }
      }
    }
    assert validWords[..|validWords|] == validWords;
  }

  /** `matchPattern`: rows are checked and matched in order, and the first row that
      raises ends the call. */
  method MatchPattern(todaysWord: string, pattern: seq<seq<int>>, validWords: seq<string>)
    returns (r: Result<seq<seq<string>>>)
    requires |todaysWord| == WordLength
    ensures r == MatchAll(todaysWord, pattern, validWords)
  {
    var wordMatches: seq<seq<string>> := [];
    for i := 0 to |pattern|
      invariant MatchAll(todaysWord, pattern[..i], validWords) == Success(wordMatches)
    {
      var element := pattern[i];
      assert pattern[..i + 1][..i] == pattern[..i];
      var e := RowError(element);
      if e.Some? {
        assert forall k :: 0 <= k < i ==> pattern[..i][k] == pattern[k];
        FirstErrorWins(todaysWord, pattern, validWords, i);
        return Failure(e.value);
      }
      var matchingWords := MatchRow(todaysWord, element, validWords);
      wordMatches := wordMatches + [matchingWords];
    }
    assert pattern[..|pattern|] == pattern;
    r := Success(wordMatches);
  }

  /** `main`, with the word list as a parameter: today's word must have five
      letters and there must be six rows, checked in that order and before any
      row is looked at. */
  method Run(todaysWord: string, pattern: seq<seq<int>>, validWords: seq<string>)
    returns (r: Result<seq<seq<string>>>)
    ensures |todaysWord| != WordLength ==> r == Failure(WordLengthError)
    ensures |todaysWord| == WordLength && |pattern| != RowCount ==> r == Failure(RowCountError)
    ensures |todaysWord| == WordLength && |pattern| == RowCount ==> r == MatchAll(todaysWord, pattern, validWords)
  {
    if |todaysWord| != WordLength {
      return Failure(WordLengthError);
    }
    if |pattern| != RowCount {
      return Failure(RowCountError);
    }
    r := MatchPattern(todaysWord, pattern, validWords);
  }
}
