/** Row-major order on cells: the order in which the player's nested loops
    over rows and then columns visit the cells of its memory grid. */
module RowMajor {
  import opened Grid

  /** `a` is visited before `b` by a scan over rows, then columns. */
  predicate Before(a: Cell, b: Cell) {
    a.y < b.y || (a.y == b.y && a.x < b.x)
  }

  /** Strictly increasing in row-major order, hence free of repeats. */
  predicate Sorted(s: seq<Cell>) {
    forall i, j :: 0 <= i < j < |s| ==> Before(s[i], s[j])
  }

  /** A sorted sequence is determined by its elements: two sorted sequences
      holding the same cells are equal. So a list described by "which cells"
      and "in row-major order" is described completely. */
  lemma {:induction false} SortedDeterminedByElements(s: seq<Cell>, t: seq<Cell>)
    requires Sorted(s) && Sorted(t)
    requires forall c :: c in s <==> c in t
    ensures s == t
  {
    if s == [] {
      assert forall i | 0 <= i < |t| :: t[i] in t;
    } else {
      assert t != [] by {
        assert s[0] in t;
      }
      assert s[0] == t[0] by {
        assert s[0] in t;
        assert t[0] in s;
        var k :| 0 <= k < |t| && t[k] == s[0];
        var m :| 0 <= m < |s| && s[m] == t[0];
        assert k > 0 ==> Before(t[0], s[0]);
        assert m > 0 ==> Before(s[0], t[0]);
      }
      forall c
        ensures c in s[1..] <==> c in t[1..]
      {
        if c in s[1..] {
          var i :| 1 <= i < |s| && s[i] == c;
          assert Before(s[0], s[i]);
          assert c in t;
          assert c != t[0];
        }
        if c in t[1..] {
          var i :| 1 <= i < |t| && t[i] == c;
          assert Before(t[0], t[i]);
          assert c in s;
          assert c != s[0];
        }
      }
      SortedDeterminedByElements(s[1..], t[1..]);
      assert s == [s[0]] + s[1..];
      assert t == [t[0]] + t[1..];
    }
  }
}
