/**
 The colours of the on-screen keyboard (usedKeys) and how a scored guess
 updates them. The source overwrites a key's colour under a three-way
 condition; this module proves that the condition amounts to keeping the
 higher of the old and the new colour, so a key is never downgraded.
 */
module Keyboard {
  import opened Colors
  import opened Scoring

  /** The letters that occur in a word. */
  function LettersOf(w: seq<Letter>): (s: set<Letter>)
    ensures forall c :: c in s <==> c in w
  {
    set c | c in w
  }

  /** One step of the update for one letter of the guess: green always
      overwrites, yellow overwrites anything but green, gray is written only
      for a key without a colour yet. */
  function Recolor(keys: map<Letter, Color>, letter: Letter, color: Color): (r: map<Letter, Color>)
    ensures r.Keys == keys.Keys + {letter}
    ensures forall c :: c in keys && c != letter ==> r[c] == keys[c]
    ensures r[letter] == (if letter in keys then Join(keys[letter], color) else color)
  {
    if color == Green
       || (color == Yellow && !(letter in keys && keys[letter] == Green))
       || (color == Gray && letter !in keys)
    then keys[letter := color]
    else
      assert color != Green;
      assert color == Gray ==> letter in keys;
      assert letter in keys;
      assert keys.Keys + {letter} == keys.Keys;
      keys
  }

  /** Two steps of the update commute, so the order in which the guess's
      letters are visited does not change the keyboard. */
  lemma RecolorSwap(keys: map<Letter, Color>, a: Letter, x: Color, b: Letter, y: Color)
    ensures Recolor(Recolor(keys, a, x), b, y) == Recolor(Recolor(keys, b, y), a, x)
  {
    var l, r := Recolor(Recolor(keys, a, x), b, y), Recolor(Recolor(keys, b, y), a, x);
    if a == b {
      if a in keys {
        JoinLattice(keys[a], x, y);
        JoinLattice(keys[a], y, x);
        JoinLattice(x, y, keys[a]);
        assert l[a] == r[a];
      } else {
        JoinLattice(x, y, x);
        assert l[a] == r[a];
      }
    }
    assert l.Keys == r.Keys;
    assert forall c :: c in l ==> l[c] == r[c];
  }

  /** The whole update: the guess's letters are visited in order, each with
      the colour the scorer gave its position. Every guessed letter ends at
      least as high as each colour it was given and as its old colour, and
      at one of those colours; every other key keeps its colour. */
  function RecolorAll(keys: map<Letter, Color>, letters: seq<Letter>, colors: seq<Color>): (r: map<Letter, Color>)
    requires |letters| == |colors|
    ensures r.Keys == keys.Keys + LettersOf(letters)
    ensures forall c :: c in keys && c !in letters ==> r[c] == keys[c]
    ensures forall c :: c in keys ==> Rank(keys[c]) <= Rank(r[c])
    ensures forall j :: 0 <= j < |letters| ==> Rank(colors[j]) <= Rank(r[letters[j]])
    decreases |letters|
  {
    if |letters| == 0 then keys
    else
      var first := Recolor(keys, letters[0], colors[0]);
      assert Rank(colors[0]) <= Rank(first[letters[0]]);
      assert forall j :: 1 <= j < |letters| ==> letters[1..][j - 1] == letters[j];
      assert forall j :: 1 <= j < |letters| ==> colors[1..][j - 1] == colors[j];
      assert LettersOf(letters) == {letters[0]} + LettersOf(letters[1..]);
      RecolorAll(first, letters[1..], colors[1..])
  }

  /** Whether some position of the guess gives letter c the colour col. */
  predicate Gives(letters: seq<Letter>, colors: seq<Color>, c: Letter, col: Color)
    requires |letters| == |colors|
    decreases |letters|
  {
    && |letters| > 0
    && ((letters[0] == c && colors[0] == col) || Gives(letters[1..], colors[1..], c, col))
  }

  /** Every key colour after the update was either already there or was
      given to that letter by the guess: the update never invents a colour.
      With the bounds RecolorAll states, a guessed letter's key ends at the
      highest of its old colour and the colours given to it. */
  lemma {:induction false} RecolorAllAttained(keys: map<Letter, Color>, letters: seq<Letter>, colors: seq<Color>, c: Letter)
    requires |letters| == |colors|
    requires c in keys || c in letters
    ensures var r := RecolorAll(keys, letters, colors);
      (c in keys && r[c] == keys[c]) || Gives(letters, colors, c, r[c])
    decreases |letters|
  {
    if |letters| > 0 {
      var first := Recolor(keys, letters[0], colors[0]);
      var r := RecolorAll(first, letters[1..], colors[1..]);
      assert r == RecolorAll(keys, letters, colors);
      RecolorAllAttained(first, letters[1..], colors[1..], c);
    }
  }

  /** Every letter of every word has a key at least as high as each colour
      the matching labels gave it. */
  predicate Covers(keys: map<Letter, Color>, words: seq<seq<Letter>>, labels: seq<seq<Color>>)
    requires |words| == |labels|
    requires forall k :: 0 <= k < |words| ==> |words[k]| == |labels[k]|
  {
    forall k, j :: 0 <= k < |words| && 0 <= j < |words[k]| ==>
      words[k][j] in keys && Rank(labels[k][j]) <= Rank(keys[words[k][j]])
  }

  /** Whether one of the words was given colour col for letter c. */
  predicate SeenIn(words: seq<seq<Letter>>, labels: seq<seq<Color>>, c: Letter, col: Color)
    requires |words| == |labels|
    requires forall k :: 0 <= k < |words| ==> |words[k]| == |labels[k]|
    decreases |words|
  {
    && |words| > 0
    && var n := |words| - 1;
       || SeenIn(words[..n], labels[..n], c, col)
       || Gives(words[n], labels[n], c, col)
  }

  /** Every key colour is one the words gave its letter. */
  predicate Attained(keys: map<Letter, Color>, words: seq<seq<Letter>>, labels: seq<seq<Color>>)
    requires |words| == |labels|
    requires forall k :: 0 <= k < |words| ==> |words[k]| == |labels[k]|
  {
    forall c :: c in keys ==> SeenIn(words, labels, c, keys[c])
  }

  /** Merging one more labelled word keeps every key at least as high as
      every colour given so far, the new word's included. */
  lemma RecolorAllKeepsCover(keys: map<Letter, Color>, words: seq<seq<Letter>>, labels: seq<seq<Color>>,
                             letters: seq<Letter>, colors: seq<Color>)
    requires |words| == |labels| && |letters| == |colors|
    requires forall k :: 0 <= k < |words| ==> |words[k]| == |labels[k]|
    requires Covers(keys, words, labels)
    ensures Covers(RecolorAll(keys, letters, colors), words + [letters], labels + [colors])
  {
    var keys' := RecolorAll(keys, letters, colors);
    var words', labels' := words + [letters], labels + [colors];
    forall k, j | 0 <= k < |words'| && 0 <= j < |words'[k]|
      ensures words'[k][j] in keys' && Rank(labels'[k][j]) <= Rank(keys'[words'[k][j]])
    {
      if k < |words| {
        assert words'[k] == words[k] && labels'[k] == labels[k];
      } else {
        assert words'[k] == letters && labels'[k] == colors;
      }
    }
  }

  /** Merging one more labelled word keeps every key colour one that some
      word gave its letter, the new word's included. */
  lemma RecolorAllKeepsAttained(keys: map<Letter, Color>, words: seq<seq<Letter>>, labels: seq<seq<Color>>,
                                letters: seq<Letter>, colors: seq<Color>)
    requires |words| == |labels| && |letters| == |colors|
    requires forall k :: 0 <= k < |words| ==> |words[k]| == |labels[k]|
    requires Attained(keys, words, labels)
    ensures Attained(RecolorAll(keys, letters, colors), words + [letters], labels + [colors])
  {
    var keys' := RecolorAll(keys, letters, colors);
    var words', labels' := words + [letters], labels + [colors];
    assert words'[..|words|] == words && labels'[..|words|] == labels;
    forall c | c in keys'
      ensures SeenIn(words', labels', c, keys'[c])
    {
      RecolorAllAttained(keys, letters, colors, c);
    }
  }
}
