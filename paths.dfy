// Alignment paths through the score matrix and the three text rows a path
// renders to (aligned a, marker line, aligned b).

module Paths {
  import opened Scoring

  /**
   * One column of an alignment, read left to right. `Diagonal` pairs a symbol of a
   * with a symbol of b, `Vertical` puts a symbol of b against '-', `Horizontal`
   * puts a symbol of a against '-'.
   */
  datatype Move = Diagonal | Vertical | Horizontal

  /** Number of symbols of a that `path` consumes. */
  function CountA(path: seq<Move>): (n: nat)
    ensures n <= |path|
  {
    if path == [] then 0 else (if path[0] == Vertical then 0 else 1) + CountA(path[1..])
  }

  /** Number of symbols of b that `path` consumes. */
  function CountB(path: seq<Move>): (n: nat)
    ensures n <= |path|
  {
    if path == [] then 0 else (if path[0] == Horizontal then 0 else 1) + CountB(path[1..])
  }

  /** The row a move out of row i enters. */
  function RowAfter(m: Move, i: nat): nat
  {
    if m == Horizontal then i else i + 1
  }

  /** The column a move out of column j enters. */
  function ColumnAfter(m: Move, j: nat): nat
  {
    if m == Vertical then j else j + 1
  }

  /** `path` followed by one more move `m`, which consumes one more symbol of a unless vertical and of b unless horizontal. */
  function Extend(path: seq<Move>, m: Move): (r: seq<Move>)
    ensures CountA(r) == CountA(path) + (if m == Vertical then 0 else 1)
    ensures CountB(r) == CountB(path) + (if m == Horizontal then 0 else 1)
  {
    CountAppend(path, m);
    path + [m]
  }

  /** Appending a move adds its own consumption to the counts. */
  lemma {:induction false} CountAppend(path: seq<Move>, m: Move)
    ensures CountA(path + [m]) == CountA(path) + (if m == Vertical then 0 else 1)
    ensures CountB(path + [m]) == CountB(path) + (if m == Horizontal then 0 else 1)
  {
    if path != [] {
      assert (path + [m])[0] == path[0] && (path + [m])[1..] == path[1..] + [m];
      CountAppend(path[1..], m);
    }
  }

  /** Moving one move across the seam of a concatenation. */
  lemma Reassociate(x: seq<Move>, m: Move, y: seq<Move>)
    ensures x + ([m] + y) == (x + [m]) + y
  {
  }

  /** The path of n moves `m`. */
  function Run(m: Move, n: nat): (path: seq<Move>)
    ensures |path| == n
    ensures CountA(path) == (if m == Vertical then 0 else n)
    ensures CountB(path) == (if m == Horizontal then 0 else n)
  {
    if n == 0 then [] else [m] + Run(m, n - 1)
  }

  /** A run grows at its end as well as at its front. */
  lemma {:induction false} RunSnoc(m: Move, n: nat)
    ensures Run(m, n + 1) == Run(m, n) + [m]
  {
    if n > 0 {
      RunSnoc(m, n - 1);
      assert Run(m, n + 1) == [m] + Run(m, n);
    }
  }

  /** The aligned row of a: the symbols of `sa` in order, '-' in every vertical column. */
  function TopRow(path: seq<Move>, sa: seq<char>): (r: seq<char>)
    requires CountA(path) == |sa|
    ensures |r| == |path|
  {
    if path == [] then []
    else if path[0] == Vertical then ['-'] + TopRow(path[1..], sa)
    else [sa[0]] + TopRow(path[1..], sa[1..])
  }

  /** The aligned row of b: the symbols of `sb` in order, '-' in every horizontal column. */
  function BottomRow(path: seq<Move>, sb: seq<char>): (r: seq<char>)
    requires CountB(path) == |sb|
    ensures |r| == |path|
  {
    if path == [] then []
    else if path[0] == Horizontal then ['-'] + BottomRow(path[1..], sb)
    else [sb[0]] + BottomRow(path[1..], sb[1..])
  }

  /** The marker line: '|' on a diagonal column whose pair scores the match score, ' ' elsewhere. */
  function MarkerRow(p: Params, path: seq<Move>, sa: seq<char>, sb: seq<char>): (r: seq<char>)
    requires CountA(path) == |sa| && CountB(path) == |sb|
    ensures |r| == |path|
  {
    if path == [] then []
    else
      match path[0]
      case Diagonal =>
        [if IsMatch(p, sa[0], sb[0]) == p.matchScore then '|' else ' ']
        + MarkerRow(p, path[1..], sa[1..], sb[1..])
      case Vertical => [' '] + MarkerRow(p, path[1..], sa, sb[1..])
      case Horizontal => [' '] + MarkerRow(p, path[1..], sa[1..], sb)
  }

  /** The entries of `row` in the columns of `path` that are not `skip` moves. */
  function Keep(path: seq<Move>, row: seq<char>, skip: Move): seq<char>
    requires |row| == |path|
  {
    if path == [] then []
    else (if path[0] == skip then [] else [row[0]]) + Keep(path[1..], row[1..], skip)
  }

  /** `s` with every '-' deleted. */
  function Ungap(s: seq<char>): seq<char>
  {
    if s == [] then [] else (if s[0] == '-' then [] else [s[0]]) + Ungap(s[1..])
  }

  /** `s` read backwards (the slice `[::-1]` of the original). */
  function Reverse<T>(s: seq<T>): (r: seq<T>)
    ensures |r| == |s|
  {
    if s == [] then [] else Reverse(s[1..]) + [s[0]]
  }

  /** A path with one column per step: it has at least as many columns as either sequence has symbols, and at most their total. */
  lemma {:induction false} PathLength(path: seq<Move>)
    ensures CountA(path) <= |path| && CountB(path) <= |path|
    ensures |path| <= CountA(path) + CountB(path)
  {
    if path != [] {
      PathLength(path[1..]);
    }
  }

  /** Deleting the vertical (gap) columns of the aligned row of a gives back a exactly. */
  lemma {:induction false} TopRowKeepsA(path: seq<Move>, sa: seq<char>)
    requires CountA(path) == |sa|
    ensures Keep(path, TopRow(path, sa), Vertical) == sa
  {
    if path != [] {
      if path[0] == Vertical {
        TopRowKeepsA(path[1..], sa);
      } else {
        TopRowKeepsA(path[1..], sa[1..]);
        assert sa == [sa[0]] + sa[1..];
      }
    }
  }

  /** Deleting the horizontal (gap) columns of the aligned row of b gives back b exactly. */
  lemma {:induction false} BottomRowKeepsB(path: seq<Move>, sb: seq<char>)
    requires CountB(path) == |sb|
    ensures Keep(path, BottomRow(path, sb), Horizontal) == sb
  {
    if path != [] {
      if path[0] == Horizontal {
        BottomRowKeepsB(path[1..], sb);
      } else {
        BottomRowKeepsB(path[1..], sb[1..]);
        assert sb == [sb[0]] + sb[1..];
      }
    }
  }

  /** The aligned row of a holds '-' in every vertical column; when a holds no '-', only there. */
  lemma {:induction false} TopRowAt(path: seq<Move>, sa: seq<char>, k: nat)
    requires CountA(path) == |sa| && k < |path|
    ensures path[k] == Vertical ==> TopRow(path, sa)[k] == '-'
    ensures '-' !in sa ==> (TopRow(path, sa)[k] == '-' <==> path[k] == Vertical)
  {
    if k > 0 {
      if path[0] == Vertical {
        TopRowAt(path[1..], sa, k - 1);
      } else {
        TopRowAt(path[1..], sa[1..], k - 1);
        assert '-' !in sa ==> '-' !in sa[1..];
      }
    }
  }

  /** The aligned row of b holds '-' in every horizontal column; when b holds no '-', only there. */
  lemma {:induction false} BottomRowAt(path: seq<Move>, sb: seq<char>, k: nat)
    requires CountB(path) == |sb| && k < |path|
    ensures path[k] == Horizontal ==> BottomRow(path, sb)[k] == '-'
    ensures '-' !in sb ==> (BottomRow(path, sb)[k] == '-' <==> path[k] == Horizontal)
  {
    if k > 0 {
      if path[0] == Horizontal {
        BottomRowAt(path[1..], sb, k - 1);
      } else {
        BottomRowAt(path[1..], sb[1..], k - 1);
        assert '-' !in sb ==> '-' !in sb[1..];
      }
    }
  }

  /** When a holds no '-', deleting every '-' of its aligned row gives back a. */
  lemma {:induction false} UngapTopRow(path: seq<Move>, sa: seq<char>)
    requires CountA(path) == |sa| && '-' !in sa
    ensures Ungap(TopRow(path, sa)) == sa
  {
    if path != [] {
      var r := TopRow(path, sa);
      if path[0] == Vertical {
        assert r[1..] == TopRow(path[1..], sa);
        UngapTopRow(path[1..], sa);
      } else {
        assert r[0] == sa[0] && r[1..] == TopRow(path[1..], sa[1..]);
        assert '-' !in sa[1..];
        UngapTopRow(path[1..], sa[1..]);
        assert sa == [sa[0]] + sa[1..];
      }
    }
  }

  /** When b holds no '-', deleting every '-' of its aligned row gives back b. */
  lemma {:induction false} UngapBottomRow(path: seq<Move>, sb: seq<char>)
    requires CountB(path) == |sb| && '-' !in sb
    ensures Ungap(BottomRow(path, sb)) == sb
  {
    if path != [] {
      var r := BottomRow(path, sb);
      if path[0] == Horizontal {
        assert r[1..] == BottomRow(path[1..], sb);
        UngapBottomRow(path[1..], sb);
      } else {
        assert r[0] == sb[0] && r[1..] == BottomRow(path[1..], sb[1..]);
        assert '-' !in sb[1..];
        UngapBottomRow(path[1..], sb[1..]);
        assert sb == [sb[0]] + sb[1..];
      }
    }
  }

  /**
   * Column k of the marker line is '|' exactly when the column is diagonal and its
   * pair scores the match score; every other column holds ' '.
   */
  lemma {:induction false} MarkerRowAt(p: Params, path: seq<Move>, sa: seq<char>, sb: seq<char>, k: nat)
    requires CountA(path) == |sa| && CountB(path) == |sb| && k < |path|
    ensures MarkerRow(p, path, sa, sb)[k] == '|' <==>
              path[k] == Diagonal && IsMatch(p, TopRow(path, sa)[k], BottomRow(path, sb)[k]) == p.matchScore
    ensures MarkerRow(p, path, sa, sb)[k] != '|' ==> MarkerRow(p, path, sa, sb)[k] == ' '
  {
    if k > 0 {
      match path[0]
      case Diagonal => MarkerRowAt(p, path[1..], sa[1..], sb[1..], k - 1);
      case Vertical => MarkerRowAt(p, path[1..], sa, sb[1..], k - 1);
      case Horizontal => MarkerRowAt(p, path[1..], sa[1..], sb, k - 1);
    }
  }

  /**
   * When the match score differs from the mismatch penalty and neither sequence holds
   * '-', column k of the marker line is '|' exactly when both aligned rows hold the
   * same symbol there and it is not a gap.
   */
  lemma MarkerMeansIdentical(p: Params, path: seq<Move>, sa: seq<char>, sb: seq<char>, k: nat)
    requires CountA(path) == |sa| && CountB(path) == |sb| && k < |path|
    requires p.matchScore != p.mismatch && '-' !in sa && '-' !in sb
    ensures MarkerRow(p, path, sa, sb)[k] == '|' <==>
              TopRow(path, sa)[k] == BottomRow(path, sb)[k] && TopRow(path, sa)[k] != '-'
  {
    MarkerRowAt(p, path, sa, sb, k);
    TopRowAt(path, sa, k);
    BottomRowAt(path, sb, k);
  }

  /** Reading backwards twice gives the original sequence. */
  lemma {:induction false} ReverseReverse<T>(s: seq<T>)
    ensures Reverse(Reverse(s)) == s
  {
    if s != [] {
      ReverseReverse(s[1..]);
      ReverseSnoc(Reverse(s[1..]), s[0]);
      assert s == [s[0]] + s[1..];
    }
  }

  /** Reading `s + [x]` backwards puts `x` first. */
  lemma {:induction false} ReverseSnoc<T>(s: seq<T>, x: T)
    ensures Reverse(s + [x]) == [x] + Reverse(s)
  {
    if s == [] {
      assert [x][1..] == [];
    } else {
      assert (s + [x])[1..] == s[1..] + [x];
      ReverseSnoc(s[1..], x);
    }
  }

  /** Reading `[x] + s` backwards puts `x` last. */
  lemma ReverseCons<T>(x: T, s: seq<T>)
    ensures Reverse([x] + s) == Reverse(s) + [x]
  {
    assert ([x] + s)[1..] == s;
  }
}
