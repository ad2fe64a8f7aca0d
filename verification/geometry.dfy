/**
 * Grid geometry of the 9x9 puzzle: how a flat cell index 0..80 maps to its
 * line (row), column and 3x3 box, and which cells each of the 27 containers
 * receives, in the order the puzzle's constructor appends them.
 */
module Geometry {

  /** The three kinds of container; they differ only in the index mapping. */
  datatype Kind = Line | Column | Box

  const Size := 9
  const CellCount := 81

  /** A sequence whose elements strictly increase (so it has no duplicates). */
  ghost predicate Increasing(s: seq<int>)
  {
    forall a, b :: 0 <= a < b < |s| ==> s[a] < s[b]
  }

  function LineOf(i: int): int { i / 9 }

  function ColumnOf(i: int): int { i % 9 }

  /** The box of a cell: column band plus three times the line band. */
  function BoxOf(i: int): int { ColumnOf(i) / 3 + LineOf(i) / 3 * 3 }

  function IndexOf(kind: Kind, i: int): int
  {
    match kind
    case Line => LineOf(i)
    case Column => ColumnOf(i)
    case Box => BoxOf(i)
  }

  /** Every cell of the grid lies in one container of each kind, numbered 0..8. */
  lemma IndexInRange(kind: Kind, i: int)
    requires 0 <= i < CellCount
    ensures 0 <= IndexOf(kind, i) < Size
  {
  }

  /**
   * The cells of container `k` of the given kind among cells 0..n-1, in the
   * order the constructor's loop over the seed appends them.
   */
  function MembersUpTo(kind: Kind, k: int, n: nat): (r: seq<int>)
    ensures forall j :: 0 <= j < |r| ==> 0 <= r[j] < n && IndexOf(kind, r[j]) == k
  {
    if n == 0 then []
    else MembersUpTo(kind, k, n - 1) + (if IndexOf(kind, n - 1) == k then [n - 1] else [])
  }

  /** The members of container `k` of the given kind once the grid is built. */
  function Members(kind: Kind, k: int): seq<int>
  {
    MembersUpTo(kind, k, CellCount)
  }

  /** Membership in a container is exactly: a cell of the prefix with that index. */
  lemma {:induction false} MembersUpToHas(kind: Kind, k: int, n: nat)
    ensures forall x :: x in MembersUpTo(kind, k, n) <==> 0 <= x < n && IndexOf(kind, x) == k
  {
    if n > 0 {
      MembersUpToHas(kind, k, n - 1);
    }
  }

  lemma {:induction false} MembersUpToIncreasing(kind: Kind, k: int, n: nat)
    ensures Increasing(MembersUpTo(kind, k, n))
  {
    if n > 0 {
      MembersUpToIncreasing(kind, k, n - 1);
    }
  }

  /** The flat index of the cell in line `r` and column `c`. */
  function At(r: int, c: int): int { 9 * r + c }

  /** The j-th cell (0..8) of box k: line 3*(k/3) + j/3, column 3*(k%3) + j%3. */
  function BoxCell(k: int, j: int): int
  {
    At(3 * (k / 3) + j / 3, 3 * (k % 3) + j % 3)
  }

  lemma Split9(a: int, b: int)
    requires 0 <= b < 9
    ensures (9 * a + b) / 9 == a && (9 * a + b) % 9 == b
  {
  }

  lemma Split3(a: int, b: int)
    requires 0 <= b < 3
    ensures (3 * a + b) / 3 == a && (3 * a + b) % 3 == b
  {
  }

  lemma AtCoordinates(r: int, c: int)
    requires 0 <= r < 9 && 0 <= c < 9
    ensures 0 <= At(r, c) < CellCount
    ensures LineOf(At(r, c)) == r && ColumnOf(At(r, c)) == c
    ensures BoxOf(At(r, c)) == c / 3 + r / 3 * 3
  {
    Split9(r, c);
  }

  /** A number 0..8 is three times its band plus its offset in the band. */
  lemma Parts3(x: int)
    requires 0 <= x < 9
    ensures x == 3 * (x / 3) + x % 3 && 0 <= x / 3 < 3 && 0 <= x % 3 < 3
  {
  }

  /**
   * Box 3a+b holds, at position 3p+q, the cell in line 3a+p and column
   * 3b+q, and that cell's box is indeed 3a+b.
   */
  lemma BoxSlot(a: int, b: int, p: int, q: int)
    requires 0 <= a < 3 && 0 <= b < 3 && 0 <= p < 3 && 0 <= q < 3
    ensures BoxCell(3 * a + b, 3 * p + q) == At(3 * a + p, 3 * b + q)
    ensures 0 <= At(3 * a + p, 3 * b + q) < CellCount
    ensures BoxOf(At(3 * a + p, 3 * b + q)) == 3 * a + b
  {
    Split3(a, b);
    Split3(p, q);
    AtCoordinates(3 * a + p, 3 * b + q);
    Split3(a, p);
    Split3(b, q);
  }

  /** Every cell is in line 3a+p and column 3b+q for some a, p, b, q in 0..2. */
  lemma Decompose(x: int) returns (a: int, p: int, b: int, q: int)
    requires 0 <= x < CellCount
    ensures 0 <= a < 3 && 0 <= p < 3 && 0 <= b < 3 && 0 <= q < 3
    ensures x == At(3 * a + p, 3 * b + q)
  {
    var r, c := x / 9, x % 9;
    assert x == At(r, c);
    Parts3(r);
    Parts3(c);
    a, p, b, q := r / 3, r % 3, c / 3, c % 3;
  }

  lemma BoxSlotIncreasing(a: int, b: int, p: int, q: int, p': int, q': int)
    requires 0 <= q < 3 && 0 <= q' < 3 && 3 * p + q < 3 * p' + q'
    ensures At(3 * a + p, 3 * b + q) < At(3 * a + p', 3 * b + q')
  {
  }

  lemma HeadIsElement(s: seq<int>)
    ensures |s| > 0 ==> s[0] in s
  {
  }

  /** Two increasing sequences with the same elements are equal. */
  lemma {:induction false} IncreasingUnique(a: seq<int>, b: seq<int>)
    requires Increasing(a) && Increasing(b)
    requires forall x :: x in a <==> x in b
    ensures a == b
  {
    if a == [] {
      HeadIsElement(b);
    } else {
      assert a[0] in a;
      assert b != [] && a[0] in b;
      assert b[0] in b;
      assert a[0] == b[0] by {
        assert b[0] in a;
      }
      forall x
        ensures x in a[1..] <==> x in b[1..]
      {
        if x in a[1..] {
          assert x in a && x != a[0];
        }
        if x in b[1..] {
          assert x in b && x != b[0];
        }
      }
      IncreasingUnique(a[1..], b[1..]);
      assert a == [a[0]] + a[1..] && b == [b[0]] + b[1..];
    }
  }

  /**
   * Container k is exactly `expected` when `expected` is increasing, lists
   * only cells of container k and lists every one of them.
   */
  lemma MembersAre(kind: Kind, k: int, expected: seq<int>)
    requires Increasing(expected)
    requires forall j :: 0 <= j < |expected| ==> 0 <= expected[j] < CellCount && IndexOf(kind, expected[j]) == k
    requires forall x :: 0 <= x < CellCount && IndexOf(kind, x) == k ==> x in expected
    ensures Members(kind, k) == expected
  {
    MembersUpToHas(kind, k, CellCount);
    MembersUpToIncreasing(kind, k, CellCount);
    forall x
      ensures x in expected <==> x in Members(kind, k)
    {
      if x in expected {
        var j :| 0 <= j < |expected| && expected[j] == x;
      }
    }
    IncreasingUnique(expected, Members(kind, k));
  }

  /** Line k holds cells 9k .. 9k+8. */
  lemma LineMembers(k: int)
    requires 0 <= k < Size
    ensures Members(Line, k) == seq(9, j => At(k, j))
    ensures |Members(Line, k)| == Size && Increasing(Members(Line, k))
  {
    var expected := seq(9, j => At(k, j));
    forall j | 0 <= j < 9
      ensures 0 <= expected[j] < CellCount && IndexOf(Line, expected[j]) == k
    {
      AtCoordinates(k, j);
    }
    forall x | 0 <= x < CellCount && IndexOf(Line, x) == k
      ensures x in expected
    {
      assert expected[x % 9] == x;
    }
    MembersAre(Line, k, expected);
  }

  /** Column k holds cells k, k+9, ..., k+72. */
  lemma ColumnMembers(k: int)
    requires 0 <= k < Size
    ensures Members(Column, k) == seq(9, j => At(j, k))
    ensures |Members(Column, k)| == Size && Increasing(Members(Column, k))
  {
    var expected := seq(9, j => At(j, k));
    forall j | 0 <= j < 9
      ensures 0 <= expected[j] < CellCount && IndexOf(Column, expected[j]) == k
    {
      AtCoordinates(j, k);
    }
    forall x | 0 <= x < CellCount && IndexOf(Column, x) == k
      ensures x in expected
    {
      assert expected[x / 9] == x;
    }
    MembersAre(Column, k, expected);
  }

  /** Box k holds the three-by-three block of lines 3*(k/3).. and columns 3*(k%3).., line by line. */
  lemma BoxMembers(k: int)
    requires 0 <= k < Size
    ensures Members(Box, k) == seq(9, j => BoxCell(k, j))
    ensures |Members(Box, k)| == Size && Increasing(Members(Box, k))
  {
    var expected := seq(9, j => BoxCell(k, j));
    Parts3(k);
    forall j | 0 <= j < 9
      ensures 0 <= expected[j] < CellCount && IndexOf(Box, expected[j]) == k
    {
      Parts3(j);
      BoxSlot(k / 3, k % 3, j / 3, j % 3);
    }
    forall x | 0 <= x < CellCount && IndexOf(Box, x) == k
      ensures x in expected
    {
      var a, p, b, q := Decompose(x);
      BoxSlot(a, b, p, q);
      assert expected[3 * p + q] == x;
    }
    forall i, j | 0 <= i < j < 9
      ensures expected[i] < expected[j]
    {
      Parts3(i);
      Parts3(j);
      BoxSlot(k / 3, k % 3, i / 3, i % 3);
      BoxSlot(k / 3, k % 3, j / 3, j % 3);
      BoxSlotIncreasing(k / 3, k % 3, i / 3, i % 3, j / 3, j % 3);
    }
    MembersAre(Box, k, expected);
  }

  /** Each of the 27 containers ends up with exactly nine cells, in increasing index order. */
  lemma MembersExact(kind: Kind, k: int)
    requires 0 <= k < Size
    ensures |Members(kind, k)| == Size && Increasing(Members(kind, k))
  {
    match kind
    case Line => LineMembers(k);
    case Column => ColumnMembers(k);
    case Box => BoxMembers(k);
  }

  /** A cell belongs to its own container of each kind. */
  lemma MemberOfOwn(kind: Kind, i: int)
    requires 0 <= i < CellCount
    ensures i in Members(kind, IndexOf(kind, i))
  {
    MembersUpToHas(kind, IndexOf(kind, i), CellCount);
  }
}
