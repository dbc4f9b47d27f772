/** The straight-line Boggle search of boggle.cpp. From every cell of a
    board the search walks down, right and diagonally down-right,
    extending the word letter by letter while it is a prefix of some
    dictionary word, and records the longest dictionary word met on the
    way. The dictionary and prefix sets come from a list of words. */
module Boggle {
  import opened Util

  /** Every row is at least as long as the board is tall: the search reads
      only the columns below the board's height. */
  predicate RowsCoverBoard(board: seq<seq<char>>)
  {
    forall i :: 0 <= i < |board| ==> |board[i]| >= |board|
  }

  /** The directions the search steps in: one row down and/or one column
      right. */
  predicate IsDirection(dr: nat, dc: nat)
  {
    dr <= 1 && dc <= 1 && dr + dc >= 1
  }

  // ---------------------------------------------------------------------
  // Lines of letters on the board
  // ---------------------------------------------------------------------

  /** The number of cells from `(r, c)` in direction `(dr, dc)` before the
      edge of an `n`-by-`n` board. */
  function Steps(n: nat, r: nat, c: nat, dr: nat, dc: nat): (k: nat)
    requires IsDirection(dr, dc)
    ensures r >= n || c >= n ==> k == 0
    decreases if r >= n || c >= n then 0 else (n - r) + (n - c)
  {
    if r >= n || c >= n then 0 else 1 + Steps(n, r + dr, c + dc, dr, dc)
  }

  /** The letters of the first `len` cells from `(r, c)` in direction
      `(dr, dc)`. */
  function Walk(board: seq<seq<char>>, r: nat, c: nat, dr: nat, dc: nat, len: nat): (s: string)
    requires RowsCoverBoard(board) && IsDirection(dr, dc)
    requires len <= Steps(|board|, r, c, dr, dc)
    ensures |s| == len
    decreases len
  {
    if len == 0 then [] else [board[r][c]] + Walk(board, r + dr, c + dc, dr, dc, len - 1)
  }

  // ---------------------------------------------------------------------
  // boggleHelper
  // ---------------------------------------------------------------------

  /** `boggleHelper`: extends `word` with the letter at `(r, c)`; while the
      extended word is in `prefix` it goes one cell further first. It
      returns the word it inserts into `result` (`Some`, the C++ `true`),
      or `None` when it inserts nothing (`false`). */
  function Helper(dict: set<string>, prefix: set<string>, board: seq<seq<char>>,
                  word: string, r: nat, c: nat, dr: nat, dc: nat): (found: Option<string>)
    requires RowsCoverBoard(board) && IsDirection(dr, dc)
    ensures r >= |board| || c >= |board| ==> found == None
    ensures found.Some? ==> found.value in dict
    ensures found.Some? ==> |word| < |found.value| && found.value[..|word|] == word
    decreases if r >= |board| || c >= |board| then 0 else (|board| - r) + (|board| - c)
  {
    if r >= |board| || c >= |board| then None
    else
      var extended := word + [board[r][c]];
      var inDict := extended in dict;
      var canExtend := extended in prefix;
      if !canExtend then
        if inDict then Some(extended) else None
      else
        var deeper := Helper(dict, prefix, board, extended, r + dr, c + dc, dr, dc);
        if deeper.Some? then
          assert deeper.value[..|extended|][..|word|] == deeper.value[..|word|];
          deeper
        else if inDict then Some(extended)
        else None
  }

  /** The search started with `word` at `(r, c)` reaches cell `j` (counting
      from 1) of the line: the cell is on the board and every shorter word
      along the line is a prefix. */
  ghost predicate Reachable(prefix: set<string>, board: seq<seq<char>>,
                            word: string, r: nat, c: nat, dr: nat, dc: nat, j: nat)
    requires RowsCoverBoard(board) && IsDirection(dr, dc)
  {
    && 1 <= j <= Steps(|board|, r, c, dr, dc)
    && forall i :: 1 <= i < j ==> word + Walk(board, r, c, dr, dc, i) in prefix
  }

  /** One cell along the line: the word of `j` cells from `(r, c)` is the
      word of `j - 1` cells from the next cell, started one letter
      longer. */
  lemma ShiftLine(board: seq<seq<char>>, word: string, r: nat, c: nat, dr: nat, dc: nat, j: nat)
    requires RowsCoverBoard(board) && IsDirection(dr, dc)
    requires r < |board| && c < |board|
    requires 1 <= j <= Steps(|board|, r, c, dr, dc)
    ensures j - 1 <= Steps(|board|, r + dr, c + dc, dr, dc)
    ensures word + Walk(board, r, c, dr, dc, j)
         == (word + [board[r][c]]) + Walk(board, r + dr, c + dc, dr, dc, j - 1)
  {
  }

  /** Reaching cell `j >= 2` from `(r, c)` is reaching cell `j - 1` from the
      next cell with the one-letter-longer word, which must be a prefix. */
  lemma ReachableShift(prefix: set<string>, board: seq<seq<char>>,
                       word: string, r: nat, c: nat, dr: nat, dc: nat, j: nat)
    requires RowsCoverBoard(board) && IsDirection(dr, dc)
    requires r < |board| && c < |board| && 2 <= j
    ensures Reachable(prefix, board, word, r, c, dr, dc, j)
        <==> (word + [board[r][c]] in prefix
              && Reachable(prefix, board, word + [board[r][c]], r + dr, c + dc, dr, dc, j - 1))
  {
    var n := |board|;
    var w1 := word + [board[r][c]];
    var r1, c1 := r + dr, c + dc;
    if j <= Steps(n, r, c, dr, dc) {
      ShiftLine(board, word, r, c, dr, dc, 1);
      assert Walk(board, r1, c1, dr, dc, 0) == [];
      assert word + Walk(board, r, c, dr, dc, 1) == w1;
      forall i | 2 <= i <= j
        ensures word + Walk(board, r, c, dr, dc, i) == w1 + Walk(board, r1, c1, dr, dc, i - 1)
      {
        ShiftLine(board, word, r, c, dr, dc, i);
      }
      if Reachable(prefix, board, word, r, c, dr, dc, j) {
        forall i | 1 <= i < j - 1
          ensures w1 + Walk(board, r1, c1, dr, dc, i) in prefix
        {
          assert word + Walk(board, r, c, dr, dc, i + 1) in prefix;
        }
      }
      if w1 in prefix && Reachable(prefix, board, w1, r1, c1, dr, dc, j - 1) {
        forall i | 1 <= i < j
          ensures word + Walk(board, r, c, dr, dc, i) in prefix
        {
          if i >= 2 {
            assert w1 + Walk(board, r1, c1, dr, dc, i - 1) in prefix;
          }
        }
      }
    }
  }

  /** What `boggleHelper` records, described without its recursion: it
      finds something exactly when some reachable word along the line is
      in the dictionary, and then it records the longest such word. */
  lemma {:induction false} HelperRecordsLongest(dict: set<string>, prefix: set<string>, board: seq<seq<char>>,
                                                word: string, r: nat, c: nat, dr: nat, dc: nat)
    requires RowsCoverBoard(board) && IsDirection(dr, dc)
    ensures Helper(dict, prefix, board, word, r, c, dr, dc).Some?
        <==> exists j :: Reachable(prefix, board, word, r, c, dr, dc, j)
                         && word + Walk(board, r, c, dr, dc, j) in dict
    ensures Helper(dict, prefix, board, word, r, c, dr, dc).Some? ==>
              exists j :: && Reachable(prefix, board, word, r, c, dr, dc, j)
                          && Helper(dict, prefix, board, word, r, c, dr, dc).value == word + Walk(board, r, c, dr, dc, j)
                          && forall i :: j < i && Reachable(prefix, board, word, r, c, dr, dc, i) ==>
                                           word + Walk(board, r, c, dr, dc, i) !in dict
    decreases if r >= |board| || c >= |board| then 0 else (|board| - r) + (|board| - c)
  {
    var n := |board|;
    if r >= n || c >= n {
      return;
    }
    var w1 := word + [board[r][c]];
    var r1, c1 := r + dr, c + dc;
    var found := Helper(dict, prefix, board, word, r, c, dr, dc);
    ShiftLine(board, word, r, c, dr, dc, 1);
    assert Walk(board, r1, c1, dr, dc, 0) == [];
    assert word + Walk(board, r, c, dr, dc, 1) == w1;
    assert Reachable(prefix, board, word, r, c, dr, dc, 1);
    if w1 !in prefix {
      // only the first cell is reached
      forall i | 2 <= i
        ensures !Reachable(prefix, board, word, r, c, dr, dc, i)
      {
        ReachableShift(prefix, board, word, r, c, dr, dc, i);
      }
      if found.Some? {
        assert found.value == word + Walk(board, r, c, dr, dc, 1);
      }
    } else {
      HelperRecordsLongest(dict, prefix, board, w1, r1, c1, dr, dc);
      var deeper := Helper(dict, prefix, board, w1, r1, c1, dr, dc);
      forall i | 2 <= i
        ensures Reachable(prefix, board, word, r, c, dr, dc, i)
            <==> Reachable(prefix, board, w1, r1, c1, dr, dc, i - 1)
      {
        ReachableShift(prefix, board, word, r, c, dr, dc, i);
      }
      forall i | 2 <= i && Reachable(prefix, board, word, r, c, dr, dc, i)
        ensures word + Walk(board, r, c, dr, dc, i) == w1 + Walk(board, r1, c1, dr, dc, i - 1)
      {
        ShiftLine(board, word, r, c, dr, dc, i);
      }
      if deeper.Some? {
        var j' :| && Reachable(prefix, board, w1, r1, c1, dr, dc, j')
                  && deeper.value == w1 + Walk(board, r1, c1, dr, dc, j')
                  && forall i :: j' < i && Reachable(prefix, board, w1, r1, c1, dr, dc, i) ==>
                                   w1 + Walk(board, r1, c1, dr, dc, i) !in dict;
        var j := j' + 1;
        assert Reachable(prefix, board, word, r, c, dr, dc, j);
        ShiftLine(board, word, r, c, dr, dc, j);
        assert found == deeper;
        forall i | j < i && Reachable(prefix, board, word, r, c, dr, dc, i)
          ensures word + Walk(board, r, c, dr, dc, i) !in dict
        {
          assert Reachable(prefix, board, w1, r1, c1, dr, dc, i - 1);
        }
      } else {
        forall i | 2 <= i && Reachable(prefix, board, word, r, c, dr, dc, i)
          ensures word + Walk(board, r, c, dr, dc, i) !in dict
        {
          assert Reachable(prefix, board, w1, r1, c1, dr, dc, i - 1);
        }
        if found.Some? {
          assert found.value == word + Walk(board, r, c, dr, dc, 1);
        }
      }
    }
  }

  /** `boggleHelper` as written: it threads the result set through and
      inserts into it. It reports whether it inserted, inserts at most one
      word, and inserts exactly what `Helper` describes. */
  method BoggleHelper(dict: set<string>, prefix: set<string>, board: seq<seq<char>>,
                      word: string, result: set<string>, r: nat, c: nat, dr: nat, dc: nat)
      returns (recorded: bool, result': set<string>)
    requires RowsCoverBoard(board) && IsDirection(dr, dc)
    ensures recorded == Helper(dict, prefix, board, word, r, c, dr, dc).Some?
    ensures result' == result + Inserted(Helper(dict, prefix, board, word, r, c, dr, dc))
    decreases if r >= |board| || c >= |board| then 0 else (|board| - r) + (|board| - c)
  {
    result' := result;
    var n := |board|;
    if r >= n || c >= n {
      return false, result';
    }
    var extended := word + [board[r][c]];
    var inDict := extended in dict;
    var canExtend := extended in prefix;
    if !canExtend {
      if inDict {
        result' := result' + {extended};
        return true, result';
      }
      return false, result';
    }
    var deeper;
    deeper, result' := BoggleHelper(dict, prefix, board, extended, result', r + dr, c + dc, dr, dc);
    if deeper {
      return true, result';
    }
    if inDict {
      result' := result' + {extended};
      return true, result';
    }
    return false, result';
  }

  // ---------------------------------------------------------------------
  // boggle
  // ---------------------------------------------------------------------

  /** The word one call of the helper inserts, as a set. */
  function Inserted(found: Option<string>): set<string>
  {
    if found.Some? then {found.value} else {}
  }

  /** The words the three calls from cell `(i, j)` insert. */
  function CellWords(dict: set<string>, prefix: set<string>, board: seq<seq<char>>, i: nat, j: nat): set<string>
    requires RowsCoverBoard(board)
  {
    Inserted(Helper(dict, prefix, board, "", i, j, 1, 0))
    + Inserted(Helper(dict, prefix, board, "", i, j, 0, 1))
    + Inserted(Helper(dict, prefix, board, "", i, j, 1, 1))
  }

  /** The words inserted from the first `j` cells of row `i`. */
  function RowWords(dict: set<string>, prefix: set<string>, board: seq<seq<char>>, i: nat, j: nat): set<string>
    requires RowsCoverBoard(board)
  {
    if j == 0 then {} else RowWords(dict, prefix, board, i, j - 1) + CellWords(dict, prefix, board, i, j - 1)
  }

  /** The words inserted from the first `i` rows. */
  function BoardWords(dict: set<string>, prefix: set<string>, board: seq<seq<char>>, i: nat): set<string>
    requires RowsCoverBoard(board)
  {
    if i == 0 then {} else BoardWords(dict, prefix, board, i - 1) + RowWords(dict, prefix, board, i - 1, |board|)
  }

  /** The search launched from cell `(i, j)` in direction `(dr, dc)` inserts
      `w`. */
  ghost predicate FoundFrom(dict: set<string>, prefix: set<string>, board: seq<seq<char>>,
                            w: string, i: nat, j: nat, dr: nat, dc: nat)
    requires RowsCoverBoard(board)
  {
    && IsDirection(dr, dc) && (dr, dc) in {(1, 0), (0, 1), (1, 1)}
    && Helper(dict, prefix, board, "", i, j, dr, dc) == Some(w)
  }

  lemma CellWordsMembers(dict: set<string>, prefix: set<string>, board: seq<seq<char>>, i: nat, j: nat, w: string)
    requires RowsCoverBoard(board)
    ensures w in CellWords(dict, prefix, board, i, j)
        <==> exists dr: nat, dc: nat :: FoundFrom(dict, prefix, board, w, i, j, dr, dc)
  {
    if w in CellWords(dict, prefix, board, i, j) {
      if Helper(dict, prefix, board, "", i, j, 1, 0) == Some(w) {
        assert FoundFrom(dict, prefix, board, w, i, j, 1, 0);
      } else if Helper(dict, prefix, board, "", i, j, 0, 1) == Some(w) {
        assert FoundFrom(dict, prefix, board, w, i, j, 0, 1);
      } else {
        assert FoundFrom(dict, prefix, board, w, i, j, 1, 1);
      }
    }
  }

  lemma {:induction false} RowWordsMembers(dict: set<string>, prefix: set<string>, board: seq<seq<char>>,
                                           i: nat, j: nat, w: string)
    requires RowsCoverBoard(board)
    ensures w in RowWords(dict, prefix, board, i, j)
        <==> exists j': nat, dr: nat, dc: nat :: j' < j && FoundFrom(dict, prefix, board, w, i, j', dr, dc)
  {
    if j > 0 {
      RowWordsMembers(dict, prefix, board, i, j - 1, w);
      CellWordsMembers(dict, prefix, board, i, j - 1, w);
    }
  }

  /** The words the search finds are exactly those some launch finds. */
  lemma {:induction false} BoardWordsMembers(dict: set<string>, prefix: set<string>, board: seq<seq<char>>,
                                             i: nat, w: string)
    requires RowsCoverBoard(board)
    ensures w in BoardWords(dict, prefix, board, i)
        <==> exists i': nat, j': nat, dr: nat, dc: nat :: i' < i && j' < |board| && FoundFrom(dict, prefix, board, w, i', j', dr, dc)
  {
    if i > 0 {
      BoardWordsMembers(dict, prefix, board, i - 1, w);
      RowWordsMembers(dict, prefix, board, i - 1, |board|, w);
      if w in RowWords(dict, prefix, board, i - 1, |board|) {
        var j': nat, dr: nat, dc: nat :| j' < |board| && FoundFrom(dict, prefix, board, w, i - 1, j', dr, dc);
        assert i - 1 < i;
      }
    }
  }

  /** Every word found is a dictionary word. */
  lemma {:induction false} BoardWordsInDict(dict: set<string>, prefix: set<string>, board: seq<seq<char>>, i: nat)
    requires RowsCoverBoard(board)
    ensures BoardWords(dict, prefix, board, i) <= dict
  {
    forall w | w in BoardWords(dict, prefix, board, i)
      ensures w in dict
    {
      BoardWordsMembers(dict, prefix, board, i, w);
    }
  }

  /** `boggle`: the three launches from every cell, row by row, collecting
      what they insert. */
  method Search(dict: set<string>, prefix: set<string>, board: seq<seq<char>>) returns (result: set<string>)
    requires RowsCoverBoard(board)
    ensures result == BoardWords(dict, prefix, board, |board|)
    ensures result <= dict
  {
    result := {};
    var n := |board|;
    var i := 0;
    while i < n
      invariant 0 <= i <= n
      invariant result == BoardWords(dict, prefix, board, i)
    {
      var j := 0;
      while j < n
        invariant 0 <= j <= n
        invariant result == BoardWords(dict, prefix, board, i) + RowWords(dict, prefix, board, i, j)
      {
        var recorded;
        recorded, result := BoggleHelper(dict, prefix, board, "", result, i, j, 1, 0);
        recorded, result := BoggleHelper(dict, prefix, board, "", result, i, j, 0, 1);
        recorded, result := BoggleHelper(dict, prefix, board, "", result, i, j, 1, 1);
        j := j + 1;
      }
      i := i + 1;
    }
    BoardWordsInDict(dict, prefix, board, n);
  }

  // ---------------------------------------------------------------------
  // parseDict
  // ---------------------------------------------------------------------

  /** The words read so far, as a set. */
  function DictOf(words: seq<string>): set<string>
  {
    if |words| == 0 then {} else DictOf(words[..|words| - 1]) + {words[|words| - 1]}
  }

  /** The prefixes `word[..1]`, ..., `word[..i-1]`. */
  function PrefixesOf(word: string, i: nat): set<string>
    requires i <= |word|
  {
    if i <= 1 then {} else PrefixesOf(word, i - 1) + {word[..i - 1]}
  }

  /** The strict, non-empty prefixes of every word read so far. */
  function StrictPrefixes(words: seq<string>): set<string>
  {
    if |words| == 0 then {}
    else StrictPrefixes(words[..|words| - 1]) + PrefixesOf(words[|words| - 1], |words[|words| - 1]|)
  }

  /** The prefix set `parseDict` returns. */
  function PrefixSet(words: seq<string>): set<string>
  {
    StrictPrefixes(words) + {""}
  }

  /** `s` is a strict prefix of `w`. */
  predicate IsStrictPrefix(s: string, w: string)
  {
    |s| < |w| && w[..|s|] == s
  }

  lemma DictOfMembers(words: seq<string>, w: string)
    ensures w in DictOf(words) <==> w in words
  {
    if |words| > 0 {
      DictOfMembers(words[..|words| - 1], w);
      assert words == words[..|words| - 1] + [words[|words| - 1]];
    }
  }

  lemma {:induction false} PrefixesOfMembers(word: string, i: nat, s: string)
    requires i <= |word|
    ensures s in PrefixesOf(word, i) <==> 1 <= |s| < i && word[..|s|] == s
  {
    if i > 1 {
      PrefixesOfMembers(word, i - 1, s);
    }
  }

  /** The prefix set holds "" and exactly the non-empty strict prefixes of
      the words read; a word is in it only as a strict prefix of another
      word. */
  lemma {:induction false} PrefixSetMembers(words: seq<string>, s: string)
    ensures s in PrefixSet(words)
        <==> s == "" || exists w :: w in words && IsStrictPrefix(s, w)
  {
    StrictPrefixesMembers(words, s);
  }

  lemma {:induction false} StrictPrefixesMembers(words: seq<string>, s: string)
    ensures s in StrictPrefixes(words)
        <==> |s| >= 1 && exists w :: w in words && IsStrictPrefix(s, w)
  {
    if |words| > 0 {
      var init, last := words[..|words| - 1], words[|words| - 1];
      assert words == init + [last];
      StrictPrefixesMembers(init, s);
      PrefixesOfMembers(last, |last|, s);
      if s in PrefixesOf(last, |last|) {
        assert last in words && IsStrictPrefix(s, last);
      } else if s in StrictPrefixes(init) {
        var w :| w in init && IsStrictPrefix(s, w);
        assert w in words;
      }
      if |s| >= 1 && exists w :: w in words && IsStrictPrefix(s, w) {
        var w :| w in words && IsStrictPrefix(s, w);
        if w != last {
          assert w in init;
        }
      }
    }
  }

  /** The set-building loop of `parseDict`, over the words the file
      holds. */
  method ParseDict(words: seq<string>) returns (dict: set<string>, prefix: set<string>)
    ensures dict == DictOf(words) && prefix == PrefixSet(words)
  {
    dict, prefix := {}, {};
    var k := 0;
    while k < |words|
      invariant 0 <= k <= |words|
      invariant dict == DictOf(words[..k]) && prefix == StrictPrefixes(words[..k])
    {
      var word := words[k];
      assert words[..k + 1][..k] == words[..k];
      dict := dict + {word};
      var i := 1;
      while i < |word|
        invariant 1 <= i && (i <= |word| || |word| == 0)
        invariant prefix == StrictPrefixes(words[..k]) + PrefixesOf(word, if |word| == 0 then 0 else i)
      {
        prefix := prefix + {word[..i]};
        i := i + 1;
      }
      k := k + 1;
    }
    assert words[..k] == words;
    prefix := prefix + {""};
  }
}
