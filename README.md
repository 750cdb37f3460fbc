# Wordle pattern matcher, modelled in Dafny

This project models the engine of a small Wordle helper. Given today's word and six
rows of colours (0 gray, 1 yellow, 2 green), the program lists, for each row, the
dictionary words whose feedback against today's word is that row.

The model has two files:

- `feedback.dfy` (module `Feedback`) models `getWordlePattern`.
  - `Pattern` is a reference definition of the feedback. It visits the positions
    left to right with a multiset pool of the target letters that no green took.
  - `GetWordlePattern` is the program's own two-pass algorithm. It works on two
    lists: the marks, and the target letters with consumed ones set to `None`. It
    is proved to return `Pattern`.
  - Lemmas state what the feedback means:
    - a position is green exactly when the letters agree;
    - a yellow letter stands elsewhere in the target;
    - copies of a letter are revealed up to the smaller of its counts in guess
      and target;
    - yellows go to the leftmost copies.
- `matching.dfy` (module `RowFilter`) models `matchPattern` and the argument checks
  of `main`. A `ValueError` is a `Failure` value of `Result`. A row's matches are
  an order-preserving filter of the word list.

Every row is run against the same word list. The list is a parameter, not read from
a file.

## Model

| member | source | states |
|---|---|---|
| Feedback.Pattern | main.py:18-40 | The feedback has one mark per letter; every mark is 0, 1 or 2; a position is green exactly when guess and target agree there. |
| Feedback.Scan | main.py:26-38 | After the first n positions there are n marks, all valid. The green ones are exactly the positions where the letters agree. |
| Feedback.ScanPoolShrinks | main.py:35-38 | The number of available copies of any letter never grows as positions are visited. |
| Feedback.MarkAt | main.py:33-38 | The mark at a position is green if the letters agree; otherwise yellow exactly when the letter is still available after the positions before it, else gray. |
| Feedback.SelfIsAllGreen | main.py:27-30 | A word against itself gets all greens. |
| Feedback.YellowIsElsewhere | main.py:33-38 | A yellow position does not hold the target's letter. Its letter occurs in the target, at a position that is not green. |
| Feedback.PoolAccount | main.py:35-38 | For each letter, available copies plus yellows so far equals the target's copies at non-green positions. |
| Feedback.YellowCount | main.py:33-38 | For each letter, the yellows among the first n positions number min(non-green copies in the guess so far, non-green copies in the target). |
| Feedback.RevealedCount | main.py:26-38 | For each letter, its green or yellow copies in the guess number min(count in guess, count in target). |
| Feedback.RevealedIsCommonLetters | main.py:26-38 | The multiset of letters at non-gray positions is the guess's multiset intersected with the target's. |
| Feedback.YellowsLeftToRight | main.py:33-38 | Take two non-green positions i < j with the same guess letter. If j is yellow, i is yellow too. |
| Feedback.AvailableHas | main.py:35 | A letter is in the list of available target letters exactly when some entry holds it. |
| Feedback.AvailableConsume | main.py:38 | Setting one entry to `None` removes exactly one copy of its letter from the available letters. |
| Feedback.AvailableAfterGreens | main.py:24-30 | After the first pass, the available letters are exactly the target letters at non-green positions. |
| Feedback.IndexOf | main.py:38 | Returns the first position holding the value, as `list.index` does. |
| Feedback.MarkGreens | main.py:23-30 | First pass: green where the letters agree, gray elsewhere. The list entry at each green is `None`; every other entry keeps its target letter. |
| Feedback.VisitPosition | main.py:34-38 | One step of the second pass takes the marks and the remaining list from position i to position i + 1 of the reference definition. |
| Feedback.MarkYellows | main.py:32-38 | From the first pass's state, the second pass produces exactly `Pattern`. |
| Feedback.GetWordlePattern | main.py:18-40 | The two-pass algorithm returns exactly `Pattern(guess, target)`. |
| RowFilter.RowError | main.py:50-53 | A row is accepted exactly when it has 5 entries, all 0, 1 or 2. The length error is reported exactly when the length is wrong, so it takes precedence over the value error. |
| RowFilter.PatternIsValidRow | main.py:21-23 | Every computed pattern is a row that passes the checks. |
| RowFilter.Filter | main.py:55-65 | The kept words are no more than the list, and every kept word is accepted. |
| RowFilter.FilterIsSubsequence | main.py:55-65 | The kept words are the list at strictly increasing positions. The positions taken are exactly those of accepted words. |
| RowFilter.FilterCount | main.py:55-65 | An accepted word is kept as often as the list holds it; any other word is never kept. |
| RowFilter.LoneYellowMatchesNothing | main.py:61-65 | A row with four greens and one yellow matches no word. |
| RowFilter.MatchAll | main.py:49-69 | Succeeds exactly when every row passes the checks. It then gives one list per row, in row order, each that row's matches. |
| RowFilter.FirstErrorWins | main.py:49-53 | If the rows before i pass and row i fails, the call fails with row i's error, whatever the later rows. |
| RowFilter.ErrorIgnoresWords | main.py:49-53 | Whether the call fails, and with which error, does not depend on the word list. |
| RowFilter.MatchRow | main.py:55-65 | The inner loop returns exactly the matches of the row: five-letter words whose computed pattern equals the row, in list order. |
| RowFilter.MatchPattern | main.py:42-69 | The nested loops return exactly `MatchAll`. |
| RowFilter.Run | main.py:77-84 | A wrong word length is reported first, then a row count other than 6. Otherwise the result is `MatchAll`. |

## Left out

- Loading the word list (main.py:4-15) is left out: file I/O, stripping, `lower()`
  and the wrapping of exceptions. The list is the `validWords` parameter.
- Printing the first match of each row (main.py:86-90) is left out. So is the
  command-line block (main.py:94 onwards) with its `int()` parsing and exit codes.
- Python's `isinstance(x, int)` accepts `True` and `False` as 1 and 0. The model
  does not capture this, because row entries are integers.
- The `None` sentinel is modelled as `Option<char>` in a `seq`. Python lists the
  function builds locally become sequence values that are reassigned, since nothing
  else can alias them.
- The second pass of `getWordlePattern` is split into `MarkYellows` and its step
  `VisitPosition`. The first pass is `MarkGreens`. The loops and their order are the
  program's.
- Feedback.GetWordlePattern: requires both words to have 5 letters. The program
  only calls it that way, and with a shorter target it would fail with an
  IndexError.
- RowFilter.MatchPattern, RowFilter.MatchRow, RowFilter.MatchAll: require today's
  word to have 5 letters, as `main` checks before calling `matchPattern`. The
  program's behaviour for other lengths is not modelled. A longer word's extra
  letters are still copied into `targetChars` (main.py:24), where they can produce
  yellows (main.py:35). A shorter word raises IndexError once a five-letter word
  is compared (main.py:28).
