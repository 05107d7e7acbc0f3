/**
 * The reader panel's two offset tables, chapterStartOffsets and
 * chapterEndOffsets, as values, and how each edit of the loaded window
 * changes them. Entry i of the tables is chapter i's range [start, end) in
 * the document, or -1 in both when chapter i is not loaded.
 */
module OffsetTables {

  /**
   * The tables `s` and `e` describe the window [lo, hi] over a document of
   * length `n`: the window is empty (both bounds -1) or lies within the
   * tables; the loaded chapters' ranges are non-empty and tile the whole
   * document in chapter order, from 0 to `n`; every other entry is -1.
   */
  ghost predicate Tiles(s: seq<int>, e: seq<int>, lo: int, hi: int, n: int)
  {
    && |s| == |e|
    && (lo < 0 || hi < 0 ==> lo == -1 && hi == -1)
    && (0 <= lo ==> lo <= hi < |s| && s[lo] == 0 && e[hi] == n)
    && (forall i :: 0 <= i < |s| && !(0 <= lo <= i <= hi) ==> s[i] == -1 && e[i] == -1)
    && (forall i :: 0 <= lo <= i <= hi ==> 0 <= s[i] < e[i] <= n)
    && (forall i, j {:trigger e[i], s[j]} :: 0 <= lo <= i && j == i + 1 <= hi ==> e[i] == s[j])
  }

  /** The table `t` with the recorded entries (those at least 0) from `from` to `to` moved by `delta`. */
  function Shifted(t: seq<int>, from: int, to: int, delta: int): (r: seq<int>)
    ensures |r| == |t|
    ensures forall i :: 0 <= i < |t| ==> r[i] == if from <= i <= to && t[i] >= 0 then t[i] + delta else t[i]
  {
    seq(|t|, i requires 0 <= i < |t| => if from <= i <= to && t[i] >= 0 then t[i] + delta else t[i])
  }

  /** Loaded chapters come in document order: an earlier one ends where or before a later one starts. */
  lemma {:induction false} TilesOrdered(s: seq<int>, e: seq<int>, lo: int, hi: int, n: int, i: int, j: int)
    requires Tiles(s, e, lo, hi, n) && 0 <= lo <= i < j <= hi
    ensures e[i] <= s[j]
    decreases j - i
  {
    if i + 1 < j {
      TilesOrdered(s, e, lo, hi, n, i, j - 1);
      assert e[j - 1] == s[j];
    } else {
      assert e[i] == s[j];
    }
  }

  /** Every offset of the document from chapter `i`'s start on lies in some loaded chapter from `i` on. */
  lemma {:induction false} TilesCover(s: seq<int>, e: seq<int>, lo: int, hi: int, n: int, off: int, i: int)
    requires Tiles(s, e, lo, hi, n) && 0 <= lo <= i <= hi && s[i] <= off < n
    ensures exists j :: i <= j <= hi && s[j] <= off < e[j]
    decreases hi - i
  {
    if e[i] <= off {
      if i < hi {
        assert e[i] == s[i + 1];
        TilesCover(s, e, lo, hi, n, off, i + 1);
      }
    }
  }

  /** Nothing loaded: all entries -1, for a document of any length. */
  lemma TilesCleared(len: nat, n: int)
    ensures Tiles(seq(len, _ => -1), seq(len, _ => -1), -1, -1, n)
  {
  }

  /**
   * Appending a chunk of length `len` as chapter `index`, right after the
   * window (or as the only chapter of an empty window over an empty
   * document), extends the window to `index` and the document by `len`.
   */
  lemma TilesAfterAppend(s: seq<int>, e: seq<int>, lo: int, hi: int, n: int, index: int, len: int)
    requires Tiles(s, e, lo, hi, n) && 0 < len && 0 <= index < |s|
    requires if hi < 0 then n == 0 else index == hi + 1
    ensures Tiles(s[index := n], e[index := n + len], if lo < 0 then index else lo, index, n + len)
  {
    var s', e' := s[index := n], e[index := n + len];
    var lo' := if lo < 0 then index else lo;
    forall i, j | 0 <= lo' <= i && j == i + 1 <= index
      ensures e'[i] == s'[j]
    {
      if j < index {
        assert e[i] == s[j];
      }
    }
  }

  /**
   * Inserting a chunk of length `len` at the top as chapter lo - 1 moves
   * every loaded chapter down by `len` and extends the window to lo - 1.
   */
  lemma TilesAfterPrepend(s: seq<int>, e: seq<int>, lo: int, hi: int, n: int, len: int)
    requires Tiles(s, e, lo, hi, n) && 1 <= lo && 0 < len
    ensures Tiles(Shifted(s, lo, hi, len)[lo - 1 := 0], Shifted(e, lo, hi, len)[lo - 1 := len], lo - 1, hi, n + len)
  {
    var s', e' := Shifted(s, lo, hi, len)[lo - 1 := 0], Shifted(e, lo, hi, len)[lo - 1 := len];
    forall i, j | 0 <= lo - 1 <= i && j == i + 1 <= hi
      ensures e'[i] == s'[j]
    {
      if lo <= i {
        assert e[i] == s[j];
      }
    }
  }

  /**
   * Evicting the first loaded chapter: its entries become -1 and the later
   * loaded chapters move up by its end, which is its length; the window
   * starts one chapter later and the document is shorter by that length.
   */
  lemma TilesAfterEvictFirst(s: seq<int>, e: seq<int>, lo: int, hi: int, n: int)
    requires Tiles(s, e, lo, hi, n) && 0 <= lo < hi
    ensures 0 < e[lo] <= n
    ensures Tiles(Shifted(s[lo := -1], lo + 1, hi, -e[lo]), Shifted(e[lo := -1], lo + 1, hi, -e[lo]),
                  lo + 1, hi, n - e[lo])
  {
    var end := e[lo];
    var s', e' := Shifted(s[lo := -1], lo + 1, hi, -end), Shifted(e[lo := -1], lo + 1, hi, -end);
    assert e[lo] == s[lo + 1];
    forall i | lo + 1 <= i <= hi
      ensures end <= s[i]
    {
      TilesOrdered(s, e, lo, hi, n, lo, i);
    }
    forall i, j | 0 <= lo + 1 <= i && j == i + 1 <= hi
      ensures e'[i] == s'[j]
    {
      assert e[i] == s[j];
    }
  }

  /**
   * Evicting the last loaded chapter: its entries become -1 and the
   * document ends where that chapter started.
   */
  lemma TilesAfterEvictLast(s: seq<int>, e: seq<int>, lo: int, hi: int, n: int)
    requires Tiles(s, e, lo, hi, n) && 0 <= lo < hi
    ensures 0 < s[hi] < n
    ensures Tiles(s[hi := -1], e[hi := -1], lo, hi - 1, s[hi])
  {
    var s', e' := s[hi := -1], e[hi := -1];
    assert e[hi - 1] == s[hi];
    forall i | lo <= i < hi
      ensures e[i] <= s[hi]
    {
      TilesOrdered(s, e, lo, hi, n, i, hi);
    }
    forall i, j | 0 <= lo <= i && j == i + 1 <= hi - 1
      ensures e'[i] == s'[j]
    {
      assert e[i] == s[j];
    }
  }
}
