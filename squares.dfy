/** The 64 squares of the board, the fixed enumeration the puzzle builds its
    target list from, and the order-keeping filter applied to it. */
module Squares {

  /** A square of chess.js's `Square` type: the two-character name
      `${file}${rank}`, kept as its two characters. */
  datatype Square = Square(file: char, rank: char)

  predicate OnBoard(s: Square) {
    'a' <= s.file <= 'h' && '1' <= s.rank <= '8'
  }

  /** The enumeration order of the source: ranks 8 down to 1, and within a
      rank files h down to a. */
  const Ranks: string := "87654321"
  const Files: string := "hgfedcba"

  /** Position of a square in the enumeration. */
  function BoardIndex(s: Square): int {
    8 * ('8' as int - s.rank as int) + ('h' as int - s.file as int)
  }

  lemma FileAt(k: nat)
    requires k < 8
    ensures Files[k] as int == 'h' as int - k
  {
    if k == 0 {} else if k == 1 {} else if k == 2 {} else if k == 3 {}
    else if k == 4 {} else if k == 5 {} else if k == 6 {} else {}
  }

  lemma RankAt(k: nat)
    requires k < 8
    ensures Ranks[k] as int == '8' as int - k
  {
    if k == 0 {} else if k == 1 {} else if k == 2 {} else if k == 3 {}
    else if k == 4 {} else if k == 5 {} else if k == 6 {} else {}
  }

  /** `files.map((file) => `${file}${rank}`)`. */
  function Row(files: string, rank: char): (r: seq<Square>)
    ensures |r| == |files|
    ensures forall k :: 0 <= k < |files| ==> r[k] == Square(files[k], rank)
  {
    if files == [] then [] else [Square(files[0], rank)] + Row(files[1..], rank)
  }

  /** `ranks.map(row).reduce((prev, curr) => prev.concat(curr), [])`. */
  function Board(ranks: string): seq<Square> {
    if ranks == [] then [] else Row(Files, ranks[0]) + Board(ranks[1..])
  }

  /** The enumeration in closed form: index `i` holds file `i % 8` of rank
      `i / 8`. `AllSquaresIsBoard` shows it is the map/reduce above. */
  function AllSquares(): seq<Square> {
    seq(64, i requires 0 <= i < 64 => SquareAt(i))
  }

  /** The square the enumeration puts at index `i`: file `i % 8` counted
      down from h, rank `i / 8` counted down from 8. */
  function SquareAt(i: nat): Square
    requires i < 64
  {
    Square(('h' as int - i % 8) as char, ('8' as int - i / 8) as char)
  }

  lemma {:induction false} BoardAt(ranks: string, i: nat)
    requires i < 8 * |ranks|
    ensures |Board(ranks)| == 8 * |ranks|
    ensures Board(ranks)[i] == Square(Files[i % 8], ranks[i / 8])
    decreases |ranks|
  {
    var head := Row(Files, ranks[0]);
    if |ranks| > 1 {
      var j := if i >= 8 then i - 8 else 0;
      BoardAt(ranks[1..], j);
      if i >= 8 {
        assert j % 8 == i % 8 && j / 8 == i / 8 - 1;
      }
    } else {
      assert Board(ranks[1..]) == [];
    }
  }

  /** The source's map/reduce over any eight ranks counted down from 8
      is the closed form. */
  lemma BoardIsAllSquares(ranks: string)
    requires |ranks| == 8
    requires forall k :: 0 <= k < 8 ==> ranks[k] as int == '8' as int - k
    ensures Board(ranks) == AllSquares()
  {
    forall i | 0 <= i < 64
      ensures |Board(ranks)| == 64 && Board(ranks)[i] == AllSquares()[i]
    {
      BoardSquare(ranks, i);
    }
    BoardAt(ranks, 0);
  }

  lemma BoardSquare(ranks: string, i: nat)
    requires |ranks| == 8 && i < 64
    requires ranks[i / 8] as int == '8' as int - i / 8
    ensures |Board(ranks)| == 64 && Board(ranks)[i] == SquareAt(i)
  {
    BoardAt(ranks, i);
    FileAt(i % 8);
    var f := Files[i % 8];
    var r := ranks[i / 8];
    assert f == ('h' as int - i % 8) as char;
    assert r == ('8' as int - i / 8) as char;
  }

  /** The closed form is the source's map/reduce over ranks and files. */
  lemma AllSquaresIsBoard()
    ensures AllSquares() == Board(Ranks)
  {
    forall k | 0 <= k < 8
      ensures Ranks[k] as int == '8' as int - k
    {
      RankAt(k);
    }
    BoardIsAllSquares(Ranks);
  }

  lemma AllSquaresAt()
    ensures |AllSquares()| == 64
    ensures forall i :: 0 <= i < 64 ==> AllSquares()[i] == SquareAt(i)
  {}

  lemma SquareAtIndex(i: nat)
    requires i < 64
    ensures OnBoard(SquareAt(i)) && BoardIndex(SquareAt(i)) == i
  {}

  lemma IndexSquareAt(s: Square)
    requires OnBoard(s)
    ensures 0 <= BoardIndex(s) < 64 && SquareAt(BoardIndex(s)) == s
  {
    var i := BoardIndex(s);
    assert i % 8 == 'h' as int - s.file as int && i / 8 == '8' as int - s.rank as int;
  }

  /** The enumeration lists every square of the board exactly once, in
      increasing board index: rank 8 to 1, file h to a. */
  lemma AllSquaresSpec()
    ensures |AllSquares()| == 64
    ensures forall s :: s in AllSquares() <==> OnBoard(s)
    ensures Increasing(AllSquares())
  {
    AllSquaresAt();
    var all := AllSquares();
    forall i | 0 <= i < 64
      ensures OnBoard(all[i]) && BoardIndex(all[i]) == i
    {
      SquareAtIndex(i);
    }
    forall s | OnBoard(s)
      ensures s in all
    {
      IndexSquareAt(s);
      assert all[BoardIndex(s)] == s;
    }
  }

  predicate Increasing(s: seq<Square>) {
    forall i, j :: 0 <= i < j < |s| ==> BoardIndex(s[i]) < BoardIndex(s[j])
  }

  /** `s.filter(keep)`. */
  function Filter(s: seq<Square>, keep: Square -> bool): (r: seq<Square>)
    ensures |r| <= |s|
  {
    if s == [] then []
    else (if keep(s[0]) then [s[0]] else []) + Filter(s[1..], keep)
  }

  /** The filter keeps exactly the squares `keep` accepts. */
  lemma {:induction false} FilterMembers(s: seq<Square>, keep: Square -> bool)
    ensures forall x :: x in Filter(s, keep) <==> x in s && keep(x)
  {
    if s != [] {
      FilterMembers(s[1..], keep);
      assert s == [s[0]] + s[1..];
    }
  }

  lemma FilterAt(s: seq<Square>, keep: Square -> bool, i: nat)
    requires i < |s|
    ensures Filter(s[i..], keep) == (if keep(s[i]) then [s[i]] else []) + Filter(s[i + 1..], keep)
  {
    assert s[i..][1..] == s[i + 1..];
  }

  /** Filtering keeps the relative order of what it keeps. */
  lemma {:induction false} FilterIncreasing(s: seq<Square>, keep: Square -> bool)
    requires Increasing(s)
    ensures Increasing(Filter(s, keep))
  {
    if s != [] {
      var tail := s[1..];
      assert Increasing(tail) by {
        forall i, j | 0 <= i < j < |tail| ensures BoardIndex(tail[i]) < BoardIndex(tail[j]) {
          assert tail[i] == s[i + 1] && tail[j] == s[j + 1];
        }
      }
      FilterIncreasing(tail, keep);
      FilterMembers(tail, keep);
      var rest := Filter(tail, keep);
      forall y | y in rest
        ensures BoardIndex(s[0]) < BoardIndex(y)
      {
        var j :| 0 <= j < |tail| && tail[j] == y;
        assert s[j + 1] == y;
      }
    }
  }

  /** Two filters whose predicates agree on every element are equal. */
  lemma {:induction false} FilterAgree(s: seq<Square>, keep1: Square -> bool, keep2: Square -> bool)
    requires forall k :: 0 <= k < |s| ==> keep1(s[k]) == keep2(s[k])
    ensures Filter(s, keep1) == Filter(s, keep2)
  {
    if s != [] {
      FilterAgree(s[1..], keep1, keep2);
    }
  }

  /** A filter of the enumeration holds exactly the board squares `keep`
      accepts, in enumeration order. */
  lemma FilterOfBoard(keep: Square -> bool, t: seq<Square>)
    requires t == Filter(AllSquares(), keep)
    ensures forall s :: s in t <==> OnBoard(s) && keep(s)
    ensures Increasing(t)
  {
    AllSquaresSpec();
    FilterMembers(AllSquares(), keep);
    FilterIncreasing(AllSquares(), keep);
  }

  /** Filtering a sequence filters its two halves. */
  lemma {:induction false} FilterSplit(s: seq<Square>, keep: Square -> bool, i: nat)
    requires i <= |s|
    ensures Filter(s, keep) == Filter(s[..i], keep) + Filter(s[i..], keep)
  {
    if i > 0 {
      FilterSplit(s[1..], keep, i - 1);
      assert s[1..][..i - 1] == s[..i][1..];
      assert s[1..][i - 1..] == s[i..];
    } else {
      assert s[..i] == [];
      assert s[i..] == s;
    }
  }

  /** The squares with index in [lo, hi) that `keep` accepts, in
      enumeration order. */
  function Kept(keep: Square -> bool, lo: nat, hi: nat): seq<Square>
    requires lo <= hi <= 64
    decreases hi - lo
  {
    if lo == hi then []
    else if keep(SquareAt(hi - 1)) then Kept(keep, lo, hi - 1) + [SquareAt(hi - 1)]
    else Kept(keep, lo, hi - 1)
  }

  lemma {:induction false} KeptSplit(keep: Square -> bool, lo: nat, mid: nat, hi: nat)
    requires lo <= mid <= hi <= 64
    ensures Kept(keep, lo, hi) == Kept(keep, lo, mid) + Kept(keep, mid, hi)
    decreases hi - mid
  {
    if mid < hi {
      KeptSplit(keep, lo, mid, hi - 1);
    }
  }

  /** Filtering a stretch of the enumeration keeps what `Kept` lists. */
  lemma FilterIsKept(keep: Square -> bool, lo: nat, hi: nat)
    requires lo <= hi <= 64
    ensures |AllSquares()| == 64
    ensures Filter(AllSquares()[lo..hi], keep) == Kept(keep, lo, hi)
  {
    AllSquaresAt();
    FilterIsKeptOn(AllSquares(), keep, lo, hi);
  }

  /** The same for any sequence that lists the squares by index. */
  lemma {:induction false} FilterIsKeptOn(all: seq<Square>, keep: Square -> bool, lo: nat, hi: nat)
    requires |all| == 64 && forall i :: 0 <= i < 64 ==> all[i] == SquareAt(i)
    requires lo <= hi <= 64
    ensures Filter(all[lo..hi], keep) == Kept(keep, lo, hi)
    decreases hi - lo
  {
    var s := all[lo..hi];
    if lo < hi {
      FilterIsKeptOn(all, keep, lo, hi - 1);
      FilterSplit(s, keep, hi - 1 - lo);
      assert s[..hi - 1 - lo] == all[lo..hi - 1];
      FilterAt(s, keep, hi - 1 - lo);
      assert s[hi - lo..] == [];
    } else {
      assert s == [];
    }
  }

  /** Eight ranks of `Kept` make up the whole board's. */
  lemma KeptRanks(keep: Square -> bool, r8: seq<Square>, r7: seq<Square>, r6: seq<Square>, r5: seq<Square>,
                  r4: seq<Square>, r3: seq<Square>, r2: seq<Square>, r1: seq<Square>)
    requires Kept(keep, 0, 8) == r8 && Kept(keep, 8, 16) == r7
    requires Kept(keep, 16, 24) == r6 && Kept(keep, 24, 32) == r5
    requires Kept(keep, 32, 40) == r4 && Kept(keep, 40, 48) == r3
    requires Kept(keep, 48, 56) == r2 && Kept(keep, 56, 64) == r1
    ensures Kept(keep, 0, 64) == r8 + r7 + r6 + r5 + r4 + r3 + r2 + r1
  {
    KeptSplit(keep, 0, 8, 16);
    KeptSplit(keep, 0, 16, 24);
    KeptSplit(keep, 0, 24, 32);
    KeptSplit(keep, 0, 32, 40);
    KeptSplit(keep, 0, 40, 48);
    KeptSplit(keep, 0, 48, 56);
    KeptSplit(keep, 0, 56, 64);
  }

  /** The whole enumeration is its stretch from 0 to 64. */
  lemma AllSquaresWhole()
    ensures |AllSquares()| == 64 && AllSquares()[0..64] == AllSquares()
  {}
}
