/** A DataFrame as the sequence of its rows, and boolean-mask indexing
    `df[mask]` as an order-preserving selection of the rows that pass. */
module Frames {

  /** `df[mask]` where `mask[i] == keep(df[i])`: the passing rows, in order,
      unchanged. */
  function Select<T>(rows: seq<T>, keep: T -> bool): (r: seq<T>)
    ensures |r| <= |rows|
    ensures forall i :: 0 <= i < |r| ==> keep(r[i])
  {
    if rows == [] then []
    else Select(rows[..|rows| - 1], keep) + (if keep(rows[|rows| - 1]) then [rows[|rows| - 1]] else [])
  }

  /** `r` is obtained from `rows` by deleting some of its elements (matched
      greedily from the end). */
  predicate IsSubsequence<T(==)>(r: seq<T>, rows: seq<T>)
    decreases |rows|
  {
    if r == [] then true
    else if rows == [] then false
    else if r[|r| - 1] == rows[|rows| - 1] then IsSubsequence(r[..|r| - 1], rows[..|rows| - 1])
    else IsSubsequence(r, rows[..|rows| - 1])
  }

  /** The reference meaning of a mask selection: a subsequence of the rows in
      which every row passes and every passing row keeps all its occurrences. */
  ghost predicate ExactSelection<T(!new)>(r: seq<T>, rows: seq<T>, keep: T -> bool)
  {
    && IsSubsequence(r, rows)
    && (forall i :: 0 <= i < |r| ==> keep(r[i]))
    && (forall x :: keep(x) ==> multiset(r)[x] == multiset(rows)[x])
  }

  /** A subsequence holds no element more often than the sequence does. */
  lemma {:induction false} SubsequenceMultiset<T>(r: seq<T>, rows: seq<T>, x: T)
    requires IsSubsequence(r, rows)
    ensures multiset(r)[x] <= multiset(rows)[x]
    decreases |rows|
  {
    if r != [] {
      var n, m := |rows|, |r|;
      assert rows == rows[..n - 1] + [rows[n - 1]];
      if r[m - 1] == rows[n - 1] {
        assert r == r[..m - 1] + [r[m - 1]];
        SubsequenceMultiset(r[..m - 1], rows[..n - 1], x);
      } else {
        SubsequenceMultiset(r, rows[..n - 1], x);
      }
    }
  }

  /** Every sequence is a subsequence of itself extended at the end. */
  lemma {:induction false} SubsequenceExtend<T>(r: seq<T>, rows: seq<T>, x: T)
    requires IsSubsequence(r, rows)
    ensures IsSubsequence(r, rows + [x])
    decreases |rows|, 1
  {
    var ext := rows + [x];
    assert ext[..|ext| - 1] == rows;
    if r != [] && r[|r| - 1] == x {
      SubsequenceDropLast(r, rows);
    }
  }

  /** Dropping the last element of a subsequence keeps it a subsequence. */
  lemma {:induction false} SubsequenceDropLast<T>(r: seq<T>, rows: seq<T>)
    requires r != [] && IsSubsequence(r, rows)
    ensures IsSubsequence(r[..|r| - 1], rows)
    decreases |rows|, 0
  {
    var n, m := |rows|, |r|;
    if r[m - 1] == rows[n - 1] {
      SubsequenceExtend(r[..m - 1], rows[..n - 1], rows[n - 1]);
      assert rows[..n - 1] + [rows[n - 1]] == rows;
    } else {
      SubsequenceDropLast(r, rows[..n - 1]);
      SubsequenceExtend(r[..m - 1], rows[..n - 1], rows[n - 1]);
      assert rows[..n - 1] + [rows[n - 1]] == rows;
    }
  }

  /** A selection is exactly the passing rows: a subsequence of the input,
      every kept row passes, and no passing row is dropped. */
  lemma {:induction false} SelectExact<T(!new)>(rows: seq<T>, keep: T -> bool)
    ensures ExactSelection(Select(rows, keep), rows, keep)
  {
    if rows != [] {
      var n := |rows|;
      var init, last := rows[..n - 1], rows[n - 1];
      SelectExact(init, keep);
      var s := Select(init, keep);
      assert rows == init + [last];
      if keep(last) {
        assert Select(rows, keep) == s + [last];
        ExactSelectionExtendKept(s, init, last, keep);
      } else {
        assert Select(rows, keep) == s;
        ExactSelectionExtendDropped(s, init, last, keep);
      }
    }
  }

  /** A passing row appended to the input is appended to an exact selection. */
  lemma ExactSelectionExtendKept<T(!new)>(s: seq<T>, rows: seq<T>, last: T, keep: T -> bool)
    requires ExactSelection(s, rows, keep) && keep(last)
    ensures ExactSelection(s + [last], rows + [last], keep)
  {
    var ext := rows + [last];
    assert ext[..|ext| - 1] == rows;
    assert (s + [last])[..|s|] == s;
  }

  /** A failing row appended to the input leaves an exact selection exact. */
  lemma ExactSelectionExtendDropped<T(!new)>(s: seq<T>, rows: seq<T>, last: T, keep: T -> bool)
    requires ExactSelection(s, rows, keep) && !keep(last)
    ensures ExactSelection(s, rows + [last], keep)
  {
    SubsequenceExtend(s, rows, last);
    forall x | keep(x)
      ensures multiset(s)[x] == multiset(rows + [last])[x]
    {
    }
  }

  /** The reference meaning determines the selection: any exact selection of
      the passing rows is `Select`'s result. */
  lemma {:induction false} ExactSelectionUnique<T(!new)>(r: seq<T>, rows: seq<T>, keep: T -> bool)
    requires ExactSelection(r, rows, keep)
    ensures r == Select(rows, keep)
    decreases |rows|
  {
    if rows == [] {
      assert r == [];
    } else {
      var init, last := rows[..|rows| - 1], rows[|rows| - 1];
      if keep(last) {
        ExactSelectionKeepsLast(r, rows, keep);
        var front := r[..|r| - 1];
        ExactSelectionUnique(front, init, keep);
        assert r == front + [last];
        assert Select(rows, keep) == Select(init, keep) + [last];
      } else {
        ExactSelectionDropsLast(r, rows, keep);
        ExactSelectionUnique(r, init, keep);
        assert Select(rows, keep) == Select(init, keep);
      }
    }
  }

  /** When the last row passes, it ends the selection, and the rest of the
      selection is an exact selection of the rest of the rows. */
  lemma ExactSelectionKeepsLast<T(!new)>(r: seq<T>, rows: seq<T>, keep: T -> bool)
    requires rows != [] && keep(rows[|rows| - 1]) && ExactSelection(r, rows, keep)
    ensures r != [] && r[|r| - 1] == rows[|rows| - 1]
    ensures ExactSelection(r[..|r| - 1], rows[..|rows| - 1], keep)
  {
    var init, last := rows[..|rows| - 1], rows[|rows| - 1];
    assert rows == init + [last];
    assert multiset(r)[last] == multiset(rows)[last] > 0;
    assert r != [];
    var m := |r|;
    assert r == r[..m - 1] + [r[m - 1]];
    if r[m - 1] != last {
      SubsequenceMultiset(r, init, last);
      assert false;
    }
    forall x | keep(x)
      ensures multiset(r[..m - 1])[x] == multiset(init)[x]
    {
    }
  }

  /** When the last row fails, the selection is an exact selection of the
      rest of the rows. */
  lemma ExactSelectionDropsLast<T(!new)>(r: seq<T>, rows: seq<T>, keep: T -> bool)
    requires rows != [] && !keep(rows[|rows| - 1]) && ExactSelection(r, rows, keep)
    ensures ExactSelection(r, rows[..|rows| - 1], keep)
  {
    var init, last := rows[..|rows| - 1], rows[|rows| - 1];
    assert rows == init + [last];
    assert r == [] || r[|r| - 1] != last;
  }

  /** The rows that pass both masks, selected in one step. */
  lemma {:induction false} SelectSelect<T>(rows: seq<T>, p: T -> bool, q: T -> bool)
    ensures Select(Select(rows, p), q) == Select(rows, x => p(x) && q(x))
  {
    if rows != [] {
      var n := |rows|;
      var init, last := rows[..n - 1], rows[n - 1];
      SelectSelect(init, p, q);
      var s := Select(init, p);
      var both := x => p(x) && q(x);
      assert Select(rows, both) == Select(init, both) + (if both(last) then [last] else []);
      if p(last) {
        assert Select(rows, p) == s + [last];
        assert (s + [last])[..|s|] == s;
        assert Select(s + [last], q) == Select(s, q) + (if q(last) then [last] else []);
      } else {
        assert Select(rows, p) == s;
      }
    }
  }

  /** Selecting twice by the same mask is selecting once. */
  lemma SelectIdempotent<T>(rows: seq<T>, keep: T -> bool)
    ensures Select(Select(rows, keep), keep) == Select(rows, keep)
  {
    SelectSelect(rows, keep, keep);
    SelectSameMask(rows, x => keep(x) && keep(x), keep);
  }

  /** Two selections by masks that agree on every row are equal. */
  lemma {:induction false} SelectSameMask<T>(rows: seq<T>, p: T -> bool, q: T -> bool)
    requires forall x :: p(x) == q(x)
    ensures Select(rows, p) == Select(rows, q)
  {
    if rows != [] {
      SelectSameMask(rows[..|rows| - 1], p, q);
    }
  }

  /** Two selections commute. */
  lemma SelectCommute<T>(rows: seq<T>, p: T -> bool, q: T -> bool)
    ensures Select(Select(rows, p), q) == Select(Select(rows, q), p)
  {
    SelectSelect(rows, p, q);
    SelectSelect(rows, q, p);
    SelectSameMask(rows, x => p(x) && q(x), x => q(x) && p(x));
  }

  /** A mask that no row passes selects nothing. */
  lemma {:induction false} SelectNone<T>(rows: seq<T>, keep: T -> bool)
    requires forall x :: !keep(x)
    ensures Select(rows, keep) == []
  {
    if rows != [] {
      SelectNone(rows[..|rows| - 1], keep);
    }
  }

  /** A selection by one mask is the exact selection by any mask that agrees
      with it on every row. */
  lemma SelectExactBy<T(!new)>(rows: seq<T>, keep: T -> bool, meaning: T -> bool)
    requires forall x :: keep(x) == meaning(x)
    ensures ExactSelection(Select(rows, keep), rows, meaning)
  {
    SelectExact(rows, keep);
  }

  /** pandas `Series.between(lo, hi)` with its default, both ends inclusive. */
  predicate Between(x: real, lo: real, hi: real)
    ensures Between(x, lo, hi) ==> lo <= hi
  {
    lo <= x <= hi
  }
}
