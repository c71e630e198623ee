/**
 * The one piece of SQL semantics both repositories rely on: `SELECT * FROM t
 * WHERE p`, read as the rows of the table that satisfy `p`, in storage order.
 */
module Query {

  /**
   * The rows of `rows` satisfying `p`: only those, all of them, and the
   * first satisfying row first.
   */
  function Where<T(==)>(rows: seq<T>, p: T -> bool): (r: seq<T>)
    ensures |r| <= |rows|
    ensures forall k :: 0 <= k < |r| ==> p(r[k]) && r[k] in rows
    ensures forall i :: 0 <= i < |rows| && p(rows[i]) ==> rows[i] in r
    // the first selected row is the first row of the table that satisfies p
    ensures r != [] ==>
      exists i :: 0 <= i < |rows| && rows[i] == r[0] &&
        forall j :: 0 <= j < i ==> !p(rows[j])
  {
    if rows == [] then []
    else
      var rest := Where(rows[1..], p);
      if p(rows[0]) then [rows[0]] + rest
      else
        assert rest != [] ==>
          exists i :: (1 <= i < |rows| && rows[i] == rest[0] &&
            forall j :: 0 <= j < i ==> !p(rows[j])) by {
          if rest != [] {
            var i' :| 0 <= i' < |rows[1..]| && rows[1..][i'] == rest[0] &&
              forall j :: 0 <= j < i' ==> !p(rows[1..][j]);
            assert rows[i' + 1] == rest[0];
            forall j | 0 <= j < i' + 1 ensures !p(rows[j]) {
              if j > 0 { assert rows[j] == rows[1..][j - 1]; }
            }
          }
        }
        rest
  }

  /** Selecting from a concatenation selects from each part. */
  lemma {:induction false} WhereAppend<T>(a: seq<T>, b: seq<T>, p: T -> bool)
    ensures Where(a + b, p) == Where(a, p) + Where(b, p)
  {
    if a == [] {
      assert a + b == b;
    } else {
      assert (a + b)[0] == a[0];
      assert (a + b)[1..] == a[1..] + b;
      WhereAppend(a[1..], b, p);
    }
  }
}
