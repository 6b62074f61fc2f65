/** UNION, INTERSECT and MINUS over rows. */
module SetOps {
  import opened Aggregates

  type Row = seq<ColVal>

  // ----- INTERSECT -----

  /** The rows of left that are also in right, each as often as both sides have it: its first
      copies on the left, in order. A row without columns also matches what an earlier match left. */
  function Common(left: seq<Row>, right: multiset<Row>): seq<Row> {
    if left == [] then []
    else
      var front, last := left[..|left| - 1], left[|left| - 1];
      var common := Common(front, right);
      common + if Matches(front, last, common, right) then [last] else []
  }

  predicate Matches(front: seq<Row>, last: Row, common: seq<Row>, right: multiset<Row>) {
    if last == [] then [] in right || common != [] else multiset(front)[last] < right[last]
  }

  lemma {:induction false} CommonCounts(left: seq<Row>, right: multiset<Row>, r: Row)
    ensures r != [] ==> multiset(Common(left, right))[r] == (multiset(left) * right)[r]
    ensures r !in left ==> r !in Common(left, right)
  {
    if left != [] {
      var front, last := left[..|left| - 1], left[|left| - 1];
      CommonCounts(front, right, r);
      assert left == front + [last];
    }
  }

  /** The rows matched so far, and what they leave of the right side. */
  ghost predicate Matched(left: seq<Row>, right: seq<Row>, rows: seq<Row>, rightRows: seq<Row>) {
    rows == Common(left, multiset(right)) &&
    ([] in rightRows <==> [] in right || rows != []) && Balanced(right, rows, rightRows)
  }

  ghost predicate Balanced(right: seq<Row>, rows: seq<Row>, rightRows: seq<Row>) {
    forall r: Row :: r != [] ==> multiset(rightRows)[r] + multiset(rows)[r] == multiset(right)[r]
  }

  lemma BalancedNext(right: seq<Row>, rows: seq<Row>, rightRows: seq<Row>, j: nat)
    requires Balanced(right, rows, rightRows) && j < |rightRows|
    ensures Balanced(right, rows + [rightRows[j]], rightRows[j := []])
  {
    MovedOut(rightRows, j);
  }

  lemma MatchedNext(left: seq<Row>, lr: Row, right: seq<Row>, rows: seq<Row>, rightRows: seq<Row>, j: nat)
    requires Matched(left, right, rows, rightRows)
    requires j < |rightRows| ==> rightRows[j] == lr
    requires j < |rightRows| <==> multiset(rightRows)[lr] > 0
    ensures if j < |rightRows| then Matched(left + [lr], right, rows + [lr], rightRows[j := []])
            else Matched(left + [lr], right, rows, rightRows)
  {
    CommonNext(left, lr, right);
    assert lr != [] ==> multiset(rightRows)[lr] + multiset(rows)[lr] == multiset(right)[lr];
    assert multiset(rightRows)[lr] > 0 <==> lr in rightRows;
    hide Common, Balanced;
    if j < |rightRows| {
      BalancedNext(right, rows, rightRows, j);
      MovedOut(rightRows, j);
    }
  }

  /** Another row on the left is common exactly if the right has more copies than were taken. */
  lemma CommonNext(left: seq<Row>, lr: Row, right: seq<Row>)
    ensures var common := Common(left, multiset(right));
      Common(left + [lr], multiset(right)) == common +
        if lr == [] then (if [] in right || common != [] then [lr] else [])
        else if multiset(common)[lr] < multiset(right)[lr] then [lr] else []
  {
    CommonCounts(left, multiset(right), lr);
    assert (left + [lr])[..|left|] == left;
    assert [] in multiset(right) <==> [] in right;
  }

  lemma MovedOut(rows: seq<Row>, j: nat)
    requires j < |rows|
    ensures multiset(rows[j := []]) == multiset(rows) - multiset{rows[j]} + multiset{[]}
    ensures [] in rows[j := []]
  {
    assert rows[j := []][j] == [];
  }

  /** Lines 311-319 of SetExecutor.cpp. A matched row is moved out of rightRows, which leaves an empty
      row there. */
  method DoIntersect(left: seq<Row>, right: seq<Row>) returns (rows: seq<Row>)
    ensures rows == Common(left, multiset(right))
    ensures forall r: Row :: r != [] ==> multiset(rows)[r] == (multiset(left) * multiset(right))[r]
    ensures [] !in left ==> multiset(rows) == multiset(left) * multiset(right)
  {
    hide Matched, Common;
    var rightRows := right;
    rows := [];
    NoneMatched(right);
    for i := 0 to |left|
      invariant Matched(left[..i], right, rows, rightRows)
    {
      var j := Find(rightRows, left[i]);
      MatchedNext(left[..i], left[i], right, rows, rightRows, j);
      assert left[..i + 1] == left[..i] + [left[i]];
      if j < |rightRows| {
        rows := rows + [rightRows[j]];
        rightRows := rightRows[j := []];
      }
    }
    assert left[..|left|] == left;
    AllMatched(left, right, rows, rightRows);
  }

  lemma NoneMatched(right: seq<Row>)
    ensures Matched([], right, [], right)
  {
  }

  lemma AllMatched(left: seq<Row>, right: seq<Row>, rows: seq<Row>, rightRows: seq<Row>)
    requires Matched(left, right, rows, rightRows)
    ensures rows == Common(left, multiset(right))
    ensures forall r: Row :: r != [] ==> multiset(rows)[r] == (multiset(left) * multiset(right))[r]
    ensures [] !in left ==> multiset(rows) == multiset(left) * multiset(right)
  {
    hide Common;
    forall r: Row
      ensures r != [] ==> multiset(rows)[r] == (multiset(left) * multiset(right))[r]
      ensures r !in left ==> r !in rows
    {
      CommonCounts(left, multiset(right), r);
    }
    assert [] in multiset(rows) <==> [] in rows;
    assert [] in multiset(left) <==> [] in left;
  }

  /** Lines 313-317 of SetExecutor.cpp: the first row equal to r, or the end. */
  method Find(rows: seq<Row>, r: Row) returns (j: nat)
    ensures j <= |rows| && (j < |rows| ==> rows[j] == r) && (j < |rows| <==> multiset(rows)[r] > 0)
  {
    j := 0;
    while j < |rows| && rows[j] != r
      invariant j <= |rows| && r !in rows[..j]
    {
      j := j + 1;
    }
    if j < |rows| {
      assert r in rows;
    } else {
      assert rows[..j] == rows;
    }
  }

  // ----- MINUS -----

  /** The rows of left that are not in right, all copies, in order. */
  function Rest(left: seq<Row>, right: seq<Row>): seq<Row> {
    if left == [] then []
    else
      Rest(left[..|left| - 1], right) + if left[|left| - 1] in right then [] else [left[|left| - 1]]
  }

  lemma {:induction false} RestCounts(left: seq<Row>, right: seq<Row>, r: Row)
    ensures multiset(Rest(left, right))[r] == if r in right then 0 else multiset(left)[r]
  {
    if left != [] {
      var front, last := left[..|left| - 1], left[|left| - 1];
      RestCounts(front, right, r);
      assert left == front + [last];
      assert multiset(left) == multiset(front) + multiset{last};
      assert multiset(Rest(left, right)) ==
        multiset(Rest(front, right)) + if last in right then multiset{} else multiset{last};
    }
  }

  /** Lines 367-375 of SetExecutor.cpp: every row of the right erases its equals on the left. */
  method DoMinus(left: seq<Row>, right: seq<Row>) returns (rows: seq<Row>)
    ensures rows == Rest(left, right)
    ensures forall r: Row :: multiset(rows)[r] == if r in right then 0 else multiset(left)[r]
  {
    rows := left;
    RestNone(left);
    for i := 0 to |right|
      invariant rows == Rest(left, right[..i])
    {
      rows := EraseAll(rows, right[i]);
      assert right[..i + 1] == right[..i] + [right[i]];
      RestTwice(left, right[..i], right[i]);
    }
    assert right[..|right|] == right;
    forall r: Row ensures multiset(rows)[r] == if r in right then 0 else multiset(left)[r] {
      RestCounts(left, right, r);
    }
  }

  /** Lines 368-374 of SetExecutor.cpp. */
  method EraseAll(rows: seq<Row>, rr: Row) returns (left: seq<Row>)
    ensures left == Rest(rows, [rr])
  {
    left := rows;
    var iter := 0;
    ghost var done := 0;
    while iter < |left|
      invariant done <= |rows| && iter <= |left|
      invariant left[..iter] == Rest(rows[..done], [rr]) && left[iter..] == rows[done..]
      decreases |left| - iter
    {
      assert left[iter] == left[iter..][0] == rows[done];
      assert rows[..done + 1][..done] == rows[..done];
      assert left[iter..][1..] == left[iter + 1..] && rows[done..][1..] == rows[done + 1..];
      if rr == left[iter] {
        left := left[..iter] + left[iter + 1..];
      } else {
        assert left[..iter + 1] == left[..iter] + [left[iter]];
        iter := iter + 1;
      }
      done := done + 1;
    }
    assert left[..iter] == left && rows[..done] == rows;
  }

  lemma {:induction false} RestNone(left: seq<Row>)
    ensures Rest(left, []) == left
  {
    if left != [] {
      RestNone(left[..|left| - 1]);
    }
  }

  lemma {:induction false} RestTwice(left: seq<Row>, right: seq<Row>, r: Row)
    ensures Rest(Rest(left, right), [r]) == Rest(left, right + [r])
  {
    if left != [] {
      var front, last := left[..|left| - 1], left[|left| - 1];
      RestTwice(front, right, r);
      if last !in right {
        var some := Rest(front, right) + [last];
        assert some[..|some| - 1] == Rest(front, right);
      } else {
        assert Rest(left, right) == Rest(front, right);
      }
    }
  }

  // ----- UNION -----

  /** Rows are compared column by column. */
  predicate RowLess(a: Row, b: Row) {
    if b == [] then false
    else if a == [] then true
    else Less(a[0], b[0]) || (a[0] == b[0] && RowLess(a[1..], b[1..]))
  }

  lemma {:induction false} RowLessTransitive(a: Row, b: Row, c: Row)
    requires RowLess(a, b) && RowLess(b, c)
    ensures RowLess(a, c)
  {
    if a != [] {
      LessTransitive(a[0], b[0], c[0]);
      if a[0] == b[0] && b[0] == c[0] && RowLess(a[1..], b[1..]) && RowLess(b[1..], c[1..]) {
        RowLessTransitive(a[1..], b[1..], c[1..]);
      }
      LessTotal(a[0], a[0]);
    }
  }

  lemma {:induction false} RowLessTotal(a: Row, b: Row)
    ensures RowLess(a, b) || RowLess(b, a) || a == b
  {
    if a != [] && b != [] {
      LessTotal(a[0], b[0]);
      RowLessTotal(a[1..], b[1..]);
      assert a == [a[0]] + a[1..] && b == [b[0]] + b[1..];
    }
  }

  ghost predicate Sorted(rows: seq<Row>) {
    forall i, j :: 0 <= i < j < |rows| ==> !RowLess(rows[j], rows[i])
  }

  ghost predicate StrictlySorted(rows: seq<Row>) {
    forall i, j :: 0 <= i < j < |rows| ==> RowLess(rows[i], rows[j])
  }

  /** What std::sort promises. */
  ghost predicate Sorts(sort: seq<Row> -> seq<Row>) {
    forall rows :: Sorted(sort(rows)) && multiset(sort(rows)) == multiset(rows)
  }

  /** Lines 269-273 of SetExecutor.cpp. */
  method DoDistinct(rows: seq<Row>, sort: seq<Row> -> seq<Row>) returns (out: seq<Row>)
    requires Sorts(sort)
    ensures StrictlySorted(out) && forall r :: r in out <==> r in rows
  {
    var s := sort(rows);
    out := Unique(s);
    forall r: Row ensures r in s <==> r in rows {
      assert r in multiset(s) <==> r in multiset(rows);
    }
  }

  /** std::unique and the erase behind it: of each run of equal rows the first. */
  method Unique(s: seq<Row>) returns (out: seq<Row>)
    requires Sorted(s)
    ensures StrictlySorted(out) && forall r :: r in out <==> r in s
  {
    out := [];
    for i := 0 to |s|
      invariant StrictlySorted(out) && (out == [] <==> i == 0)
      invariant forall r :: r in out <==> r in s[..i]
      invariant i > 0 ==> out[|out| - 1] == s[i - 1]
    {
      assert s[..i + 1] == s[..i] + [s[i]];
      if i == 0 || out[|out| - 1] != s[i] {
        if i > 0 {
          RowLessTotal(s[i - 1], s[i]);
          Above(out, s[i]);
        }
        out := out + [s[i]];
      } else {
        assert s[i] in out;
      }
    }
    assert s[..|s|] == s;
  }

  lemma Above(out: seq<Row>, r: Row)
    requires StrictlySorted(out) && out != [] && RowLess(out[|out| - 1], r)
    ensures StrictlySorted(out + [r])
  {
    forall i | 0 <= i < |out| - 1
      ensures RowLess(out[i], r)
    {
      RowLessTransitive(out[i], out[|out| - 1], r);
    }
  }

  /** Lines 169-221 of SetExecutor.cpp: when a side has no rows the other is the result as it is, even for
      UNION DISTINCT. */
  method DoUnion(left: seq<Row>, right: seq<Row>, distinct: bool, sort: seq<Row> -> seq<Row>) returns (out: seq<Row>)
    requires Sorts(sort)
    ensures !distinct ==> out == left + right
    ensures distinct && left != [] && right != [] ==> StrictlySorted(out)
    ensures distinct && (left == [] || right == []) ==> out == left + right
    ensures forall r :: r in out <==> r in left || r in right
  {
    if left == [] {
      assert left + right == right;
      return right;
    }
    if right == [] {
      assert left + right == left;
      return left;
    }
    out := left + right;
    if distinct {
      out := DoDistinct(out, sort);
    }
  }
}
