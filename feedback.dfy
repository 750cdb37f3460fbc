/** The feedback pattern a guess receives against the secret word: the two-pass
    algorithm of `getWordlePattern` in main.py.

    `Pattern` is the reference definition: it walks the positions left to right,
    holding the target letters still available for a yellow as a multiset.
    `GetWordlePattern` is the program's own algorithm on two lists (the marks and
    the target letters, consumed ones replaced by `None`) and is proved equal to it.
    The lemmas state what the pattern means independently of either. */
module Feedback {

  /** Length of every word and of every pattern. */
  const WordLength: nat := 5

  /** The three marks, as the integers the program uses. */
  const Gray: int := 0
  const Yellow: int := 1
  const Green: int := 2

  predicate IsMark(m: int) {
    m == Gray || m == Yellow || m == Green
  }

  datatype Option<T> = None | Some(value: T)

  // ---------------------------------------------------------------------------
  // Sequence facts, kept apart so that each proof sees only the one it needs
  // ---------------------------------------------------------------------------

  lemma PrefixOfSnoc<T>(s: seq<T>, x: T, n: nat)
    requires n <= |s|
    ensures (s + [x])[..n] == s[..n]
  {
  }

  lemma TakeSnoc<T>(s: seq<T>, i: nat)
    requires i < |s|
    ensures s[..i + 1] == s[..i] + [s[i]]
  {
  }

  lemma TakeUpdate<T>(s: seq<T>, i: nat, x: T)
    requires i < |s|
    ensures s[i := x][..i] == s[..i]
  {
  }

  lemma MultisetOfPrefix<T>(s: seq<T>, n: nat)
    requires 0 < n <= |s|
    ensures multiset(s[..n]) == multiset(s[..n - 1]) + multiset{s[n - 1]}
  {
    assert s[..n] == s[..n - 1] + [s[n - 1]];
  }

  // ---------------------------------------------------------------------------
  // Letters by position
  // ---------------------------------------------------------------------------

  /** The letters of `b` at the positions below `n` where `a` and `b` differ. */
  function Unmatched(a: string, b: string, n: nat): multiset<char>
    requires |a| == |b| && n <= |a|
  {
    if n == 0 then multiset{}
    else if a[n - 1] == b[n - 1] then Unmatched(a, b, n - 1)
    else Unmatched(a, b, n - 1) + multiset{b[n - 1]}
  }

  /** A letter of `Unmatched(a, b, n)` stands in `b` at a position where `a` differs. */
  lemma {:induction false} UnmatchedWitness(a: string, b: string, n: nat, c: char) returns (j: nat)
    requires |a| == |b| && n <= |a|
    requires c in Unmatched(a, b, n)
    ensures j < n && b[j] == c && a[j] != b[j]
  {
    if a[n - 1] != b[n - 1] && b[n - 1] == c {
      j := n - 1;
    } else {
      j := UnmatchedWitness(a, b, n - 1, c);
    }
  }

  // ---------------------------------------------------------------------------
  // The reference definition
  // ---------------------------------------------------------------------------

  /** The marks of the first positions and the target letters still available
      for a yellow after them. */
  datatype Progress = Progress(marks: seq<int>, pool: multiset<char>)

  /** The mark of one position: green when guess and target agree there; otherwise
      yellow when the guess letter is still in the pool, and gray when it is not. */
  function MarkOf(pool: multiset<char>, letter: char, targetLetter: char): int
  {
    if letter == targetLetter then Green
    else if letter in pool then Yellow
    else Gray
  }

  /** The first `n` marks, and the pool they leave. Before any position is visited
      the pool holds the target letters not taken by a green; each yellow takes one
      copy of its letter out of it. */
  function Scan(guess: string, target: string, n: nat): (s: Progress)
    requires |guess| == |target| && n <= |guess|
    ensures |s.marks| == n
    ensures forall k :: 0 <= k < n ==> IsMark(s.marks[k])
    ensures forall k :: 0 <= k < n ==> (s.marks[k] == Green <==> guess[k] == target[k])
    decreases n
  {
    if n == 0 then Progress([], Unmatched(guess, target, |guess|))
    else
      var prev := Scan(guess, target, n - 1);
      var m := MarkOf(prev.pool, guess[n - 1], target[n - 1]);
      var c := guess[n - 1];
      Progress(prev.marks + [m], if m == Yellow then prev.pool[c := prev.pool[c] - 1] else prev.pool)
  }

  /** The feedback `guess` receives against `target`: one mark per position, and a
      position is green exactly when the two words have the same letter there
      (the second pass only visits positions the first pass left gray). */
  function Pattern(guess: string, target: string): (p: seq<int>)
    requires |guess| == |target|
    ensures |p| == |guess|
    ensures forall k :: 0 <= k < |p| ==> IsMark(p[k])
    ensures forall k :: 0 <= k < |p| ==> (p[k] == Green <==> guess[k] == target[k])
  {
    Scan(guess, target, |guess|).marks
  }

  /** Later positions never change earlier marks. */
  lemma {:induction false} ScanPrefix(guess: string, target: string, n: nat, m: nat)
    requires |guess| == |target| && n <= m <= |guess|
    ensures Scan(guess, target, n).marks == Scan(guess, target, m).marks[..n]
    decreases m
  {
    if n < m {
      ScanPrefix(guess, target, n, m - 1);
      var prev := Scan(guess, target, m - 1);
      PrefixOfSnoc(prev.marks, Scan(guess, target, m).marks[m - 1], n);
    }
  }

  /** The pool only shrinks. */
  lemma {:induction false} ScanPoolShrinks(guess: string, target: string, n: nat, m: nat, c: char)
    requires |guess| == |target| && n <= m <= |guess|
    ensures Scan(guess, target, m).pool[c] <= Scan(guess, target, n).pool[c]
    decreases m
  {
    if n < m {
      ScanPoolShrinks(guess, target, n, m - 1, c);
    }
  }

  /** The mark at position `i`, from the pool left by the positions before it. */
  lemma MarkAt(guess: string, target: string, i: nat)
    requires |guess| == |target| && i < |guess|
    ensures Pattern(guess, target)[i] ==
      if guess[i] == target[i] then Green
      else if guess[i] in Scan(guess, target, i).pool then Yellow
      else Gray
  {
    ScanPrefix(guess, target, i + 1, |guess|);
  }

  // ---------------------------------------------------------------------------
  // What the pattern means
  // ---------------------------------------------------------------------------

  /** A word guessed against itself is all green. */
  lemma SelfIsAllGreen(word: string)
    ensures Pattern(word, word) == seq(|word|, _ => Green)
  {
  }

  /** A yellow letter is not at its own position in the target, but it stands in the
      target at some position that is not itself green. */
  lemma YellowIsElsewhere(guess: string, target: string, i: nat)
    requires |guess| == |target| && i < |guess|
    requires Pattern(guess, target)[i] == Yellow
    ensures guess[i] != target[i]
    ensures guess[i] in target
    ensures exists j :: 0 <= j < |target| && target[j] == guess[i] && guess[j] != target[j]
  {
    MarkAt(guess, target, i);
    ScanPoolShrinks(guess, target, 0, i, guess[i]);
    var j := UnmatchedWitness(guess, target, |guess|, guess[i]);
  }

  /** The guess letters at the positions below `n` of `p` not marked gray. */
  function RevealedBelow(guess: string, p: seq<int>, n: nat): multiset<char>
    requires n <= |p| <= |guess|
  {
    if n == 0 then multiset{}
    else if p[n - 1] != Gray then RevealedBelow(guess, p, n - 1) + multiset{guess[n - 1]}
    else RevealedBelow(guess, p, n - 1)
  }

  /** The guess letters at the positions of `p` not marked gray. */
  function Revealed(guess: string, p: seq<int>): multiset<char>
    requires |p| <= |guess|
  {
    RevealedBelow(guess, p, |p|)
  }

  // Letter counts over the first `n` positions.

  function Count(s: string, c: char, n: nat): nat
    requires n <= |s|
  {
    if n == 0 then 0
    else if s[n - 1] == c then Count(s, c, n - 1) + 1
    else Count(s, c, n - 1)
  }

  /** Positions where both words hold `c`. */
  function CountAgreed(a: string, b: string, c: char, n: nat): nat
    requires |a| == |b| && n <= |a|
  {
    if n == 0 then 0
    else if a[n - 1] == c && b[n - 1] == c then CountAgreed(a, b, c, n - 1) + 1
    else CountAgreed(a, b, c, n - 1)
  }

  /** Positions where `b` holds `c` and `a` differs. */
  function CountUnmatched(a: string, b: string, c: char, n: nat): nat
    requires |a| == |b| && n <= |a|
  {
    if n == 0 then 0
    else if a[n - 1] != b[n - 1] && b[n - 1] == c then CountUnmatched(a, b, c, n - 1) + 1
    else CountUnmatched(a, b, c, n - 1)
  }

  /** Positions marked `m` in `p` where the guess holds `c`. */
  function CountMarked(guess: string, p: seq<int>, m: int, c: char, n: nat): nat
    requires n <= |p| <= |guess|
  {
    if n == 0 then 0
    else if p[n - 1] == m && guess[n - 1] == c then CountMarked(guess, p, m, c, n - 1) + 1
    else CountMarked(guess, p, m, c, n - 1)
  }

  lemma {:induction false} CountIsMultiplicity(s: string, c: char, n: nat)
    requires n <= |s|
    ensures Count(s, c, n) == multiset(s[..n])[c]
  {
    if n > 0 {
      CountIsMultiplicity(s, c, n - 1);
      MultisetOfPrefix(s, n);
    }
  }

  lemma {:induction false} UnmatchedCount(a: string, b: string, c: char, n: nat)
    requires |a| == |b| && n <= |a|
    ensures Unmatched(a, b, n)[c] == CountUnmatched(a, b, c, n)
  {
    if n > 0 {
      UnmatchedCount(a, b, c, n - 1);
    }
  }

  /** Every copy of `c` in `b` is either matched by `a` or not. */
  lemma {:induction false} CountSplit(a: string, b: string, c: char, n: nat)
    requires |a| == |b| && n <= |a|
    ensures Count(b, c, n) == CountAgreed(a, b, c, n) + CountUnmatched(a, b, c, n)
    ensures Count(a, c, n) == CountAgreed(a, b, c, n) + CountUnmatched(b, a, c, n)
  {
    if n > 0 {
      CountSplit(a, b, c, n - 1);
    }
  }

  lemma {:induction false} RevealedCounts(guess: string, p: seq<int>, c: char, n: nat)
    requires n <= |p| <= |guess|
    requires forall k :: 0 <= k < |p| ==> IsMark(p[k])
    ensures RevealedBelow(guess, p, n)[c] == CountMarked(guess, p, Green, c, n) + CountMarked(guess, p, Yellow, c, n)
  {
    if n > 0 {
      RevealedCounts(guess, p, c, n - 1);
    }
  }

  /** The greens are the positions where the words agree. */
  lemma {:induction false} GreensAgree(guess: string, target: string, c: char, n: nat)
    requires |guess| == |target| && n <= |guess|
    ensures CountMarked(guess, Pattern(guess, target), Green, c, n) == CountAgreed(guess, target, c, n)
  {
    if n > 0 {
      GreensAgree(guess, target, c, n - 1);
    }
  }

  function Min(a: int, b: int): int {
    if a <= b then a else b
  }

  /** Each yellow so far has taken one copy of its letter out of the pool. */
  lemma {:induction false} PoolAccount(guess: string, target: string, c: char, n: nat)
    requires |guess| == |target| && n <= |guess|
    ensures Scan(guess, target, n).pool[c] + CountMarked(guess, Pattern(guess, target), Yellow, c, n)
      == Unmatched(guess, target, |guess|)[c]
  {
    if n > 0 {
      PoolAccount(guess, target, c, n - 1);
      MarkAt(guess, target, n - 1);
    }
  }

  /** The yellows so far number as many copies of a letter as there are among the
      non-green guess letters so far or among the target letters no green took,
      whichever is fewer. */
  lemma {:induction false} YellowCount(guess: string, target: string, c: char, n: nat)
    requires |guess| == |target| && n <= |guess|
    ensures CountMarked(guess, Pattern(guess, target), Yellow, c, n)
      == Min(CountUnmatched(target, guess, c, n), Unmatched(guess, target, |guess|)[c])
  {
    if n > 0 {
      YellowCount(guess, target, c, n - 1);
      PoolAccount(guess, target, c, n - 1);
      MarkAt(guess, target, n - 1);
    }
  }

  /** The count of one letter among the green and yellow positions. */
  lemma RevealedCount(guess: string, target: string, c: char)
    requires |guess| == |target|
    ensures Revealed(guess, Pattern(guess, target))[c] == Min(multiset(guess)[c], multiset(target)[c])
  {
    var n := |guess|;
    RevealedCounts(guess, Pattern(guess, target), c, n);
    GreensAgree(guess, target, c, n);
    YellowCount(guess, target, c, n);
    UnmatchedCount(guess, target, c, n);
    CountSplit(guess, target, c, n);
    CountIsMultiplicity(guess, c, n);
    CountIsMultiplicity(target, c, n);
    assert guess[..n] == guess && target[..n] == target;
  }

  /** Duplicate letters: for every letter, the number of its copies in the guess that
      are green or yellow is the smaller of its counts in the guess and in the target
      (multiset intersection keeps the smaller multiplicity). */
  lemma RevealedIsCommonLetters(guess: string, target: string)
    requires |guess| == |target|
    ensures Revealed(guess, Pattern(guess, target)) == multiset(guess) * multiset(target)
  {
    forall c ensures Revealed(guess, Pattern(guess, target))[c] == (multiset(guess) * multiset(target))[c] {
      RevealedCount(guess, target, c);
    }
  }

  /** Yellows go to the leftmost copies: of two non-green positions with the same
      guess letter, the right one is yellow only if the left one is. */
  lemma YellowsLeftToRight(guess: string, target: string, i: nat, j: nat)
    requires |guess| == |target| && i < j < |guess|
    requires guess[i] == guess[j] && guess[i] != target[i]
    requires Pattern(guess, target)[j] == Yellow
    ensures Pattern(guess, target)[i] == Yellow
  {
    MarkAt(guess, target, i);
    MarkAt(guess, target, j);
    ScanPoolShrinks(guess, target, i, j, guess[i]);
  }

  // ---------------------------------------------------------------------------
  // The program's algorithm
  // ---------------------------------------------------------------------------

  /** The target letters still available in a list where consumed ones are `None`. */
  function Available(s: seq<Option<char>>): multiset<char>
  {
    if s == [] then multiset{}
    else if s[|s| - 1].Some? then Available(s[..|s| - 1]) + multiset{s[|s| - 1].value}
    else Available(s[..|s| - 1])
  }

  lemma {:induction false} AvailableHas(s: seq<Option<char>>, c: char)
    ensures c in Available(s) <==> Some(c) in s
  {
    if s != [] {
      AvailableHas(s[..|s| - 1], c);
      assert s == s[..|s| - 1] + [s[|s| - 1]];
    }
  }

  /** Replacing an entry by `None` takes one copy of its letter out of the pool. */
  lemma {:induction false} AvailableConsume(s: seq<Option<char>>, k: nat)
    requires k < |s| && s[k].Some?
    ensures Available(s[k := None]) == Available(s) - multiset{s[k].value}
  {
    var n := |s|;
    if k == n - 1 {
      assert s[k := None][..n - 1] == s[..n - 1];
    } else {
      AvailableConsume(s[..n - 1], k);
      assert s[k := None][..n - 1] == s[..n - 1][k := None];
      AvailableHas(s[..n - 1], s[k].value);
    }
  }

  /** After the first pass the list holds exactly the target letters a green did not take. */
  lemma {:induction false} AvailableAfterGreens(s: seq<Option<char>>, guess: string, target: string, n: nat)
    requires |s| == |guess| == |target| && n <= |s|
    requires forall k :: 0 <= k < |s| ==> s[k] == if guess[k] == target[k] then None else Some(target[k])
    ensures Available(s[..n]) == Unmatched(guess, target, n)
  {
    if n > 0 {
      AvailableAfterGreens(s, guess, target, n - 1);
      assert s[..n][..n - 1] == s[..n - 1];
    }
  }

  /** The position of the first entry equal to `x`, as Python's `list.index`. */
  method IndexOf(s: seq<Option<char>>, x: Option<char>) returns (k: nat)
    requires x in s
    ensures k < |s| && s[k] == x
    ensures forall j :: 0 <= j < k ==> s[j] != x
  {
    k := 0;
    while s[k] != x
      invariant k < |s| && x in s[k..]
      invariant forall j :: 0 <= j < k ==> s[j] != x
      decreases |s| - k
    {
      k := k + 1;
    }
  }

  /** `getWordlePattern`: the first pass marks greens and removes their target
      letters from the list; the second pass marks a non-green position yellow when
      its letter is still in the list and then removes the first copy of it. */
  method GetWordlePattern(guess: string, target: string) returns (pattern: seq<int>)
    requires |guess| == WordLength && |target| == WordLength
    ensures pattern == Pattern(guess, target)
  {
    var greens, targetChars := MarkGreens(guess, target);
    pattern := MarkYellows(guess, target, greens, targetChars);
  }

  /** The first pass: every position starts gray, and a position where guess and
      target agree becomes green and gives up its target letter. */
  method MarkGreens(guess: string, target: string) returns (pattern: seq<int>, targetChars: seq<Option<char>>)
    requires |guess| == WordLength && |target| == WordLength
    ensures |pattern| == |targetChars| == WordLength
    ensures forall k :: 0 <= k < WordLength ==>
      pattern[k] == if guess[k] == target[k] then Green else Gray
    ensures forall k :: 0 <= k < WordLength ==>
      targetChars[k] == if guess[k] == target[k] then None else Some(target[k])
  {
    pattern := seq(WordLength, _ => Gray);
    targetChars := seq(WordLength, k requires 0 <= k < WordLength => Some(target[k]));
    for i := 0 to WordLength
      invariant |pattern| == |targetChars| == WordLength
      invariant forall k :: 0 <= k < WordLength ==>
        pattern[k] == if k < i && guess[k] == target[k] then Green else Gray
      invariant forall k :: 0 <= k < WordLength ==>
        targetChars[k] == if k < i && guess[k] == target[k] then None else Some(target[k])
    {
      if guess[i] == target[i] {
        pattern := pattern[i := Green];
        targetChars := targetChars[i := None];
      }
    }
  }

  /** The second pass, from the state the first one leaves: each gray position
      whose letter is still in the list turns yellow and consumes the first copy. */
  method MarkYellows(guess: string, target: string, greens: seq<int>, targetChars: seq<Option<char>>)
    returns (pattern: seq<int>)
    requires |guess| == |target| == |greens| == |targetChars| == WordLength
    requires forall k :: 0 <= k < WordLength ==>
      greens[k] == if guess[k] == target[k] then Green else Gray
    requires forall k :: 0 <= k < WordLength ==>
      targetChars[k] == if guess[k] == target[k] then None else Some(target[k])
    ensures pattern == Pattern(guess, target)
  {
    AvailableAfterGreens(targetChars, guess, target, WordLength);
    assert targetChars[..WordLength] == targetChars;
    pattern := greens;
    var chars := targetChars;
    for i := 0 to WordLength
      invariant |pattern| == |chars| == WordLength
      invariant pattern[..i] == Scan(guess, target, i).marks
      invariant forall k :: i <= k < WordLength ==>
        pattern[k] == if guess[k] == target[k] then Green else Gray
      invariant Available(chars) == Scan(guess, target, i).pool
    {
      pattern, chars := VisitPosition(guess, target, i, pattern, chars);
    }
    assert pattern[..WordLength] == pattern;
  }

  /** One step of the second pass: position `i`, if gray, turns yellow when its
      letter is still in the list, and the first copy of the letter is consumed. */
  method VisitPosition(guess: string, target: string, i: nat, pattern: seq<int>, chars: seq<Option<char>>)
    returns (pattern': seq<int>, chars': seq<Option<char>>)
    requires |guess| == |target| == |pattern| == |chars| == WordLength && i < WordLength
    requires pattern[..i] == Scan(guess, target, i).marks
    requires forall k :: i <= k < WordLength ==>
      pattern[k] == if guess[k] == target[k] then Green else Gray
    requires Available(chars) == Scan(guess, target, i).pool
    ensures |pattern'| == |chars'| == WordLength
    ensures pattern'[..i + 1] == Scan(guess, target, i + 1).marks
    ensures forall k :: i + 1 <= k < WordLength ==>
      pattern'[k] == if guess[k] == target[k] then Green else Gray
    ensures Available(chars') == Scan(guess, target, i + 1).pool
  {
    pattern', chars' := pattern, chars;
    AvailableHas(chars, guess[i]);
    if pattern[i] == Gray && Some(guess[i]) in chars {
      TakeUpdate(pattern, i, Yellow);
      pattern' := pattern[i := Yellow];
      var j := IndexOf(chars, Some(guess[i]));
      AvailableConsume(chars, j);
      chars' := chars[j := None];
    }
    TakeSnoc(pattern', i);
  }
}
