/**
 The scorer of the game (getColoring): the two-pass duplicate-letter rule
 that labels each position of a five-letter guess green, yellow or gray
 against the target word.

 The operational model follows the source loop by loop: `Tally` is the
 letter count, `GreenPass` the first loop and `YellowPass` the second, each
 written as "the scorer's state after i iterations". `Label`/`Verdict` give
 the same labels in closed form, and `Score` is proved equal to them.
 */
module Scoring {
  import opened Colors

  /** One letter of the alphabet, an opaque token even when it is spelt with
      several characters (the Uzbek letters o‘ and g‘). */
  type Letter = string

  type Word = seq<Letter>

  /** Length of the target word and of every submitted guess. */
  const WordLength: nat := 5

  function Min(a: int, b: int): int
  {
    if a <= b then a else b
  }

  /** Count stored for `c`, a missing key reading as zero. */
  function Get(m: map<Letter, int>, c: Letter): int
  {
    if c in m then m[c] else 0
  }

  /** Number of positions j < n at which both a and b hold c. */
  function Paired(a: seq<Letter>, b: seq<Letter>, c: Letter, n: nat): nat
    requires n <= |a| == |b|
  {
    if n == 0 then 0
    else Paired(a, b, c, n - 1) + (if a[n - 1] == c && b[n - 1] == c then 1 else 0)
  }

  /** Number of positions j < n at which a holds c but b does not. */
  function Unpaired(a: seq<Letter>, b: seq<Letter>, c: Letter, n: nat): nat
    requires n <= |a| == |b|
  {
    if n == 0 then 0
    else Unpaired(a, b, c, n - 1) + (if a[n - 1] == c && b[n - 1] != c then 1 else 0)
  }

  /** Every occurrence of c in a[..n] is either paired with c in b or not. */
  lemma {:induction false} SplitCount(a: seq<Letter>, b: seq<Letter>, c: Letter, n: nat)
    requires n <= |a| == |b|
    ensures multiset(a[..n])[c] == Paired(a, b, c, n) + Unpaired(a, b, c, n)
  {
    if n > 0 {
      SplitCount(a, b, c, n - 1);
      assert a[..n] == a[..n - 1] + [a[n - 1]];
    }
  }

  /** SplitCount over the whole of a. */
  lemma SplitWhole(a: seq<Letter>, b: seq<Letter>, c: Letter)
    requires |a| == |b|
    ensures multiset(a)[c] == Paired(a, b, c, |a|) + Unpaired(a, b, c, |a|)
  {
    SplitCount(a, b, c, |a|);
    assert a[..|a|] == a;
  }

  /** Pairing is symmetric in the two words. */
  lemma {:induction false} PairedSymmetric(a: seq<Letter>, b: seq<Letter>, c: Letter, n: nat)
    requires n <= |a| == |b|
    ensures Paired(a, b, c, n) == Paired(b, a, c, n)
  {
    if n > 0 {
      PairedSymmetric(a, b, c, n - 1);
    }
  }

  /** A letter that a does not contain is never unpaired in a. */
  lemma {:induction false} AbsentUnpaired(a: seq<Letter>, b: seq<Letter>, c: Letter, n: nat)
    requires n <= |a| == |b|
    requires c !in a
    ensures Unpaired(a, b, c, n) == 0
  {
    if n > 0 {
      AbsentUnpaired(a, b, c, n - 1);
      assert a[n - 1] in a;
    }
  }

  /** AbsentUnpaired for every letter at once. */
  lemma AbsentLettersUnpaired(a: seq<Letter>, b: seq<Letter>, n: nat)
    requires n <= |a| == |b|
    ensures forall c :: c !in a ==> Unpaired(a, b, c, n) == 0
  {
    forall c | c !in a
      ensures Unpaired(a, b, c, n) == 0
    {
      AbsentUnpaired(a, b, c, n);
    }
  }

  /** The letter count of the first loop of getColoring: one increment per
      letter of `w`, in order, a missing key starting from zero. */
  function Tally(w: seq<Letter>): (m: map<Letter, int>)
    ensures forall c :: c in m <==> c in w
    ensures forall c :: c in m ==> m[c] == multiset(w)[c]
  {
    if |w| == 0 then map[]
    else
      var c := w[|w| - 1];
      assert w == w[..|w| - 1] + [c];
      var m := Tally(w[..|w| - 1]);
      m[c := Get(m, c) + 1]
  }

  /** The scorer between loop iterations: the labels written so far and the
      letter counts not yet used up. */
  datatype Pass = Pass(labels: seq<Color>, remaining: map<Letter, int>)

  /** The scorer after i iterations of the first (green) loop. Before the
      loop every label is gray and the counts are the target's tally. */
  function GreenPass(guess: Word, target: Word, i: nat): (p: Pass)
    requires |guess| == WordLength && |target| == WordLength && i <= WordLength
    ensures |p.labels| == WordLength
    ensures forall j :: 0 <= j < WordLength ==>
      (p.labels[j] == Green <==> j < i && guess[j] == target[j])
    ensures forall j :: 0 <= j < WordLength ==> p.labels[j] != Yellow
    ensures forall c :: c in p.remaining <==> c in target
    ensures forall c :: c in p.remaining ==>
      p.remaining[c] == multiset(target)[c] - Paired(target, guess, c, i)
  {
    if i == 0 then Pass(seq(WordLength, _ => Gray), Tally(target))
    else
      var p := GreenPass(guess, target, i - 1);
      var c := guess[i - 1];
      if c == target[i - 1] then
        assert target[i - 1] in target;
        Pass(p.labels[i - 1 := Green], p.remaining[c := p.remaining[c] - 1])
      else p
  }

  /** The closed-form label of position i: green on an exact match;
      otherwise yellow exactly when fewer earlier unmatched guess positions
      hold the same letter than there are unmatched target positions holding
      it; gray otherwise. */
  function Label(guess: Word, target: Word, i: nat): Color
    requires |guess| == WordLength && |target| == WordLength && i < WordLength
  {
    var c := guess[i];
    if c == target[i] then Green
    else if Unpaired(guess, target, c, i) < Unpaired(target, guess, c, |target|) then Yellow
    else Gray
  }

  /** The closed-form labels of a whole guess. */
  function Verdict(guess: Word, target: Word): (v: seq<Color>)
    requires |guess| == WordLength && |target| == WordLength
    ensures |v| == WordLength
  {
    seq(WordLength, i requires 0 <= i < WordLength => Label(guess, target, i))
  }

  /** After the first loop, the count left for each letter of the target
      is the number of unmatched target positions holding it. */
  lemma GreenPassLeaves(guess: Word, target: Word)
    requires |guess| == WordLength && |target| == WordLength
    ensures forall c :: c in target ==>
      GreenPass(guess, target, |target|).remaining[c] == Unpaired(target, guess, c, |target|)
  {
    assert target[..|target|] == target;
    forall c | c in target
      ensures GreenPass(guess, target, |target|).remaining[c]
           == Unpaired(target, guess, c, |target|)
    {
      SplitCount(target, guess, c, |target|);
    }
  }

  /** The scorer after i iterations of the second (yellow) loop, which starts
      from the state the first loop left. */
  function YellowPass(guess: Word, target: Word, i: nat): (p: Pass)
    requires |guess| == WordLength && |target| == WordLength && i <= WordLength
    ensures |p.labels| == WordLength
    ensures forall c :: c in p.remaining <==> c in target
    ensures forall j :: 0 <= j < i ==> p.labels[j] == Label(guess, target, j)
    ensures forall j :: i <= j < WordLength ==>
      p.labels[j] == (if guess[j] == target[j] then Green else Gray)
    ensures forall c :: c in p.remaining ==>
      p.remaining[c] == Unpaired(target, guess, c, |target|)
                        - Min(Unpaired(guess, target, c, i), Unpaired(target, guess, c, |target|))
    ensures forall c :: c in p.remaining ==> p.remaining[c] >= 0
  {
    if i == 0 then
      GreenPassLeaves(guess, target);
      GreenPass(guess, target, |target|)
    else
      var p := YellowPass(guess, target, i - 1);
      var c := guess[i - 1];
      if p.labels[i - 1] == Gray && c in target && p.remaining[c] > 0 then
        Pass(p.labels[i - 1 := Yellow], p.remaining[c := p.remaining[c] - 1])
      else
        AbsentLettersUnpaired(target, guess, |target|);
        p
  }

  /** getColoring: the labels the two loops leave, one per position. */
  function Score(guess: Word, target: Word): (r: seq<Color>)
    requires |guess| == WordLength && |target| == WordLength
    ensures r == Verdict(guess, target)
    ensures |r| == WordLength
    ensures forall i :: 0 <= i < WordLength ==> (r[i] == Green <==> guess[i] == target[i])
    ensures forall i :: 0 <= i < WordLength && r[i] == Yellow ==>
      guess[i] != target[i] && guess[i] in target
    ensures forall i :: 0 <= i < WordLength && guess[i] !in target ==> r[i] == Gray
  {
    AbsentLettersUnpaired(target, guess, |target|);
    YellowPass(guess, target, |target|).labels
  }

  /** Number of positions j < n at which the guess holds c and the label is
      green or yellow, i.e. the occurrences of c the labels give credit for. */
  function Claimed(guess: Word, labels: seq<Color>, c: Letter, n: nat): nat
    requires n <= |guess| == |labels|
  {
    if n == 0 then 0
    else Claimed(guess, labels, c, n - 1) + (if guess[n - 1] == c && labels[n - 1] != Gray then 1 else 0)
  }

  /** Counting unpaired positions over a longer prefix never gives less. */
  lemma {:induction false} UnpairedGrows(a: seq<Letter>, b: seq<Letter>, c: Letter, m: nat, n: nat)
    requires m <= n <= |a| == |b|
    ensures Unpaired(a, b, c, m) <= Unpaired(a, b, c, n)
    decreases n - m
  {
    if m < n {
      UnpairedGrows(a, b, c, m, n - 1);
    }
  }

  /** Over the first n positions, the labels credit c once per exact match
      plus once per unmatched guess occurrence, but no more often than c is
      left unmatched in the target. */
  lemma {:induction false} ClaimedPrefix(guess: Word, target: Word, c: Letter, n: nat)
    requires |guess| == WordLength && |target| == WordLength && n <= WordLength
    ensures Claimed(guess, Verdict(guess, target), c, n)
         == Paired(guess, target, c, n)
            + Min(Unpaired(guess, target, c, n), Unpaired(target, guess, c, |target|))
  {
    if n > 0 {
      ClaimedPrefix(guess, target, c, n - 1);
    }
  }

  /** Duplicate-letter rule: for every letter, the number of positions
      labelled green or yellow is the smaller of its number of occurrences in
      the guess and in the target; in particular it never exceeds the
      target's count. */
  lemma ClaimedIsMin(guess: Word, target: Word, c: Letter)
    requires |guess| == WordLength && |target| == WordLength
    ensures Claimed(guess, Score(guess, target), c, |target|)
         == Min(multiset(guess)[c], multiset(target)[c])
    ensures Claimed(guess, Score(guess, target), c, |target|) <= multiset(target)[c]
  {
    var n := |target|;
    ClaimedPrefix(guess, target, c, n);
    var paired := Paired(guess, target, c, n);
    var leftG, leftT := Unpaired(guess, target, c, n), Unpaired(target, guess, c, n);
    assert Claimed(guess, Score(guess, target), c, n) == paired + Min(leftG, leftT);
    SplitWhole(guess, target, c);
    SplitWhole(target, guess, c);
    PairedSymmetric(guess, target, c, n);
    assert multiset(guess)[c] == paired + leftG;
    assert multiset(target)[c] == paired + leftT;
  }

  /** If an unmatched guess occurrence of c at position i already finds the
      target's unmatched occurrences of c used up, the labels credit c
      exactly as often as the target holds it. */
  lemma ExhaustedAt(guess: Word, target: Word, c: Letter, i: nat)
    requires |guess| == WordLength && |target| == WordLength && i < WordLength
    requires guess[i] == c && target[i] != c
    requires Unpaired(guess, target, c, i) >= Unpaired(target, guess, c, WordLength)
    ensures Claimed(guess, Verdict(guess, target), c, |target|) == multiset(target)[c]
  {
    assert Unpaired(guess, target, c, i + 1) == Unpaired(guess, target, c, i) + 1;
    UnpairedGrows(guess, target, c, i + 1, |target|);
    ClaimedPrefix(guess, target, c, |target|);
    SplitWhole(target, guess, c);
    PairedSymmetric(guess, target, c, |target|);
  }

  /** A gray label on a letter the target contains means every occurrence of
      that letter in the target is already credited elsewhere. */
  lemma GrayMeansExhausted(guess: Word, target: Word, i: nat)
    requires |guess| == WordLength && |target| == WordLength && i < WordLength
    requires Score(guess, target)[i] == Gray && guess[i] in target
    ensures Claimed(guess, Score(guess, target), guess[i], |target|) == multiset(target)[guess[i]]
  {
    var c := guess[i];
    assert Label(guess, target, i) == Gray;
    assert c != target[i];
    assert Unpaired(guess, target, c, i) >= Unpaired(target, guess, c, |target|);
    ExhaustedAt(guess, target, c, i);
  }

  /** A guess equal to the target is labelled green everywhere. */
  lemma ScoreOfTarget(target: Word)
    requires |target| == WordLength
    ensures Score(target, target) == seq(WordLength, _ => Green)
  {
  }

  /** Target "apple", guess "eppaa": the two exact p's are green, the e and
      the first leftover a take the target's single e and a, and the second
      a finds no a left. */
  lemma DuplicateLetterExample()
    ensures Score(["e", "p", "p", "a", "a"], ["a", "p", "p", "l", "e"]) == [Yellow, Green, Green, Yellow, Gray]
  {
    var g: Word := ["e", "p", "p", "a", "a"];
    var t: Word := ["a", "p", "p", "l", "e"];
    assert Unpaired(t, g, "e", 5) == 1;
    assert Unpaired(g, t, "e", 0) == 0;
    assert Unpaired(t, g, "a", 5) == 1;
    assert Unpaired(g, t, "a", 3) == 0;
    assert Unpaired(g, t, "a", 4) == 1;
    var v := [Label(g, t, 0), Label(g, t, 1), Label(g, t, 2), Label(g, t, 3), Label(g, t, 4)];
    assert v == [Yellow, Green, Green, Yellow, Gray];
    assert Verdict(g, t) == v;
  }

  /** Target "kitob", guess "tobik": every letter occurs once in each word
      and none is in place, so every position is yellow. */
  lemma AnagramExample()
    ensures Score(["t", "o", "b", "i", "k"], ["k", "i", "t", "o", "b"]) == [Yellow, Yellow, Yellow, Yellow, Yellow]
  {
    var g: Word := ["t", "o", "b", "i", "k"];
    var t: Word := ["k", "i", "t", "o", "b"];
    assert Unpaired(t, g, "t", 5) == 1 && Unpaired(g, t, "t", 0) == 0;
    assert Unpaired(t, g, "o", 5) == 1 && Unpaired(g, t, "o", 1) == 0;
    assert Unpaired(t, g, "b", 5) == 1 && Unpaired(g, t, "b", 2) == 0;
    assert Unpaired(t, g, "i", 5) == 1 && Unpaired(g, t, "i", 3) == 0;
    assert Unpaired(t, g, "k", 5) == 1 && Unpaired(g, t, "k", 4) == 0;
    var v := [Label(g, t, 0), Label(g, t, 1), Label(g, t, 2), Label(g, t, 3), Label(g, t, 4)];
    assert v == [Yellow, Yellow, Yellow, Yellow, Yellow];
    assert Verdict(g, t) == v;
  }
}
