/** What a translated filter means once the database runs it: a list of
    `column = $k` fragments joined by AND, positional arguments bound to the
    placeholders, rows kept in table order, then LIMIT/OFFSET. */
module Sql {
  import opened Errors

  /** A positional argument as handed to the driver. */
  datatype Arg = IntArg(i: int) | TextArg(s: string)

  /** The fragment `column = $position` built with fmt.Sprintf; it holds a
      column name and a placeholder number, never the compared value. */
  datatype Fragment = Eq(column: string, position: nat)

  /** A row satisfies the WHERE list when every fragment's placeholder is
      bound and the named column holds the bound argument. `col` reads a
      column of a row (None for a column the table does not have). */
  predicate Satisfies<R>(row: R, col: (R, string) -> Option<Arg>, fragments: seq<Fragment>, args: seq<Arg>)
  {
    forall k :: 0 <= k < |fragments| ==>
      && 1 <= fragments[k].position <= |args|
      && col(row, fragments[k].column) == Some(args[fragments[k].position - 1])
  }

  /** The rows of `rows` for which `p` holds, in their original order. */
  function Keep<R>(rows: seq<R>, p: R -> bool): (r: seq<R>)
    ensures |r| <= |rows|
    ensures forall x :: x in r ==> x in rows && p(x)
  {
    if rows == [] then []
    else if p(rows[0]) then [rows[0]] + Keep(rows[1..], p)
    else Keep(rows[1..], p)
  }

  /** UPDATE ... WHERE: every row for which `p` holds becomes `f` of it, in place. */
  function UpdateWhere<R>(rows: seq<R>, p: R -> bool, f: R -> R): (r: seq<R>)
    ensures |r| == |rows|
    ensures forall k :: 0 <= k < |r| ==> r[k] == if p(rows[k]) then f(rows[k]) else rows[k]
  {
    if rows == [] then [] else [if p(rows[0]) then f(rows[0]) else rows[0]] + UpdateWhere(rows[1..], p, f)
  }

  /** A pairwise property of the elements of a sequence, in order. */
  ghost predicate Pairwise<R>(s: seq<R>, rel: (R, R) -> bool)
  {
    forall i, j :: 0 <= i < j < |s| ==> rel(s[i], s[j])
  }

  /** Keep drops no element that satisfies `p`. */
  lemma {:induction false} KeepComplete<R>(rows: seq<R>, p: R -> bool, x: R)
    requires x in rows && p(x)
    ensures x in Keep(rows, p)
  {
    if rows[0] != x {
      KeepComplete(rows[1..], p, x);
    }
  }

  /** Keep yields a subsequence, so any pairwise property of the table (ids
      ascending, a unique column) holds of every selection from it. */
  lemma {:induction false} KeepPairwise<R>(rows: seq<R>, p: R -> bool, rel: (R, R) -> bool)
    requires Pairwise(rows, rel)
    ensures Pairwise(Keep(rows, p), rel)
  {
    if rows != [] {
      PairwiseTail(rows, rel);
      KeepPairwise(rows[1..], p, rel);
      if p(rows[0]) {
        assert Keep(rows, p) == [rows[0]] + Keep(rows[1..], p);
        PairwisePrepend(rows[0], Keep(rows[1..], p), rel);
      }
    }
  }

  /** The tail of a pairwise-ordered sequence is ordered, and its head is
      related to every element of the tail. */
  lemma PairwiseTail<R>(rows: seq<R>, rel: (R, R) -> bool)
    requires rows != [] && Pairwise(rows, rel)
    ensures Pairwise(rows[1..], rel)
    ensures forall y :: y in rows[1..] ==> rel(rows[0], y)
  {
    var tail := rows[1..];
    forall i, j | 0 <= i < j < |tail| ensures rel(tail[i], tail[j]) {
      assert tail[i] == rows[i + 1] && tail[j] == rows[j + 1];
    }
    forall y | y in tail ensures rel(rows[0], y) {
      var m :| 0 <= m < |tail| && tail[m] == y;
      assert rows[m + 1] == y;
    }
  }

  /** Putting in front an element related to every element keeps a pairwise property. */
  lemma PairwisePrepend<R>(x: R, s: seq<R>, rel: (R, R) -> bool)
    requires Pairwise(s, rel)
    requires forall y :: y in s ==> rel(x, y)
    ensures Pairwise([x] + s, rel)
  {
    var s' := [x] + s;
    forall i, j | 0 <= i < j < |s'| ensures rel(s'[i], s'[j]) {
      assert s'[j] == s[j - 1] && s[j - 1] in s;
      if i > 0 {
        assert s'[i] == s[i - 1];
      }
    }
  }

  /** Appending an element related to every earlier one keeps a pairwise property. */
  lemma PairwiseAppend<R>(s: seq<R>, x: R, rel: (R, R) -> bool)
    requires Pairwise(s, rel)
    requires forall y :: y in s ==> rel(y, x)
    ensures Pairwise(s + [x], rel)
  {
    var s' := s + [x];
    forall i, j | 0 <= i < j < |s'| ensures rel(s'[i], s'[j]) {
      assert s'[i] == s[i] && s[i] in s;
      if j < |s| {
        assert s'[j] == s[j];
      }
    }
  }

  /** The rows a WHERE list selects, in table order. */
  function Matching<R>(rows: seq<R>, col: (R, string) -> Option<Arg>, fragments: seq<Fragment>, args: seq<Arg>): seq<R>
  {
    Keep(rows, (row: R) => Satisfies(row, col, fragments, args))
  }

  /** `LIMIT limit OFFSET offset`, where zero means no limit and no skip. */
  function Page<T>(s: seq<T>, limit: nat, offset: nat): (r: seq<T>)
    ensures offset < |s| ==> r == if limit == 0 || offset + limit >= |s| then s[offset..] else s[offset..offset + limit]
    ensures offset >= |s| ==> r == []
    ensures limit == 0 && offset == 0 ==> r == s
  {
    var rest := if offset < |s| then s[offset..] else [];
    if limit == 0 || limit >= |rest| then rest else rest[..limit]
  }

  /** A page of a sequence is a run of consecutive elements, so a pairwise
      property of the sequence holds of the page. */
  lemma PagePairwise<T>(s: seq<T>, limit: nat, offset: nat, rel: (T, T) -> bool)
    requires Pairwise(s, rel)
    ensures Pairwise(Page(s, limit, offset), rel)
    ensures forall x :: x in Page(s, limit, offset) ==> x in s
  {
    var r := Page(s, limit, offset);
    if offset < |s| {
      forall i, j | 0 <= i < j < |r| ensures rel(r[i], r[j]) {
        assert r[i] == s[offset + i] && r[j] == s[offset + j];
      }
      forall x | x in r ensures x in s {
        var i :| 0 <= i < |r| && r[i] == x;
        assert s[offset + i] == x;
      }
    }
  }

  /** The first page starts with the first element, whatever the limit. */
  lemma PageHead<T>(s: seq<T>, limit: nat)
    requires s != []
    ensures Page(s, limit, 0) != [] && Page(s, limit, 0)[0] == s[0]
  {
  }

  /** In a sequence ordered by `rel`, the head is related to every other element. */
  lemma HeadFirst<T>(s: seq<T>, rel: (T, T) -> bool, x: T)
    requires Pairwise(s, rel) && x in s && x != s[0]
    ensures rel(s[0], x)
  {
    var j :| 0 <= j < |s| && s[j] == x;
  }

  /** An ordered list of (column, value) predicates, the translator's view of
      a filter before numbering. */
  type Conditions = seq<(string, Arg)>

  /** Number the predicates: the k-th becomes `column = $(k+1)`. */
  function Numbered(conds: Conditions): (r: seq<Fragment>)
    ensures |r| == |conds|
    ensures forall k :: 0 <= k < |r| ==> r[k] == Eq(conds[k].0, k + 1)
  {
    seq(|conds|, k requires 0 <= k < |conds| => Eq(conds[k].0, k + 1))
  }

  /** The argument list aligned with Numbered. */
  function Values(conds: Conditions): (r: seq<Arg>)
    ensures |r| == |conds|
    ensures forall k :: 0 <= k < |r| ==> r[k] == conds[k].1
  {
    seq(|conds|, k requires 0 <= k < |conds| => conds[k].1)
  }

  /** Every predicate of `conds` holds of the row. */
  predicate AllHold<R>(row: R, col: (R, string) -> Option<Arg>, conds: Conditions)
  {
    forall k :: 0 <= k < |conds| ==> col(row, conds[k].0) == Some(conds[k].1)
  }

  /** Numbered fragments with aligned arguments mean: every predicate holds. */
  lemma NumberedMeaning<R>(row: R, col: (R, string) -> Option<Arg>, conds: Conditions)
    ensures Satisfies(row, col, Numbered(conds), Values(conds)) <==> AllHold(row, col, conds)
  {
    if Satisfies(row, col, Numbered(conds), Values(conds)) {
      NumberedSound(row, col, conds);
    }
    if AllHold(row, col, conds) {
      NumberedComplete(row, col, conds);
    }
  }

  /** AllHold of one predicate. */
  lemma AllHoldOne<R>(row: R, col: (R, string) -> Option<Arg>, a: (string, Arg))
    ensures AllHold(row, col, [a]) <==> col(row, a.0) == Some(a.1)
  {
    assert [a][0] == a;
  }

  /** AllHold of two predicates. */
  lemma AllHoldTwo<R>(row: R, col: (R, string) -> Option<Arg>, a: (string, Arg), b: (string, Arg))
    ensures AllHold(row, col, [a, b]) <==> col(row, a.0) == Some(a.1) && col(row, b.0) == Some(b.1)
  {
    var c := [a, b];
    assert c[0] == a && c[1] == b;
  }

  lemma NumberedSound<R>(row: R, col: (R, string) -> Option<Arg>, conds: Conditions)
    requires Satisfies(row, col, Numbered(conds), Values(conds))
    ensures forall k :: 0 <= k < |conds| ==> col(row, conds[k].0) == Some(conds[k].1)
  {
    AlignedSound(row, col, conds, Numbered(conds), Values(conds));
  }

  lemma NumberedComplete<R>(row: R, col: (R, string) -> Option<Arg>, conds: Conditions)
    requires forall k :: 0 <= k < |conds| ==> col(row, conds[k].0) == Some(conds[k].1)
    ensures Satisfies(row, col, Numbered(conds), Values(conds))
  {
    AlignedComplete(row, col, conds, Numbered(conds), Values(conds));
  }

  /** `w` and `a` are the numbered fragments and aligned values of `conds`. */
  ghost predicate Aligned(conds: Conditions, w: seq<Fragment>, a: seq<Arg>)
  {
    && |w| == |conds| && |a| == |conds|
    && (forall k :: 0 <= k < |conds| ==> w[k] == Eq(conds[k].0, k + 1))
    && (forall k :: 0 <= k < |conds| ==> a[k] == conds[k].1)
  }

  lemma AlignedSound<R>(row: R, col: (R, string) -> Option<Arg>, conds: Conditions, w: seq<Fragment>, a: seq<Arg>)
    requires Aligned(conds, w, a) && Satisfies(row, col, w, a)
    ensures forall k :: 0 <= k < |conds| ==> col(row, conds[k].0) == Some(conds[k].1)
  {
    forall k | 0 <= k < |conds| ensures col(row, conds[k].0) == Some(conds[k].1) {
      assert w[k] == Eq(conds[k].0, k + 1);
      assert a[k] == conds[k].1;
    }
  }

  lemma AlignedComplete<R>(row: R, col: (R, string) -> Option<Arg>, conds: Conditions, w: seq<Fragment>, a: seq<Arg>)
    requires Aligned(conds, w, a)
    requires forall k :: 0 <= k < |conds| ==> col(row, conds[k].0) == Some(conds[k].1)
    ensures Satisfies(row, col, w, a)
  {
    forall k | 0 <= k < |w| ensures 1 <= w[k].position <= |a| && col(row, w[k].column) == Some(a[w[k].position - 1]) {
      assert w[k] == Eq(conds[k].0, k + 1);
      assert a[k] == conds[k].1;
    }
  }
}
