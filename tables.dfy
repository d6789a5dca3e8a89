/**
 * Reading a table: rows come out in ascending primary-key order, which is
 * the order SQLite scans an INTEGER PRIMARY KEY table in.
 */
module Tables {

  lemma {:induction false} MinimumExists(keys: set<int>)
    requires keys != {}
    ensures exists k :: k in keys && forall j :: j in keys ==> k <= j
  {
    if !exists k :: k in keys { assert false; }
    var x :| x in keys;
    if keys != {x} {
      var rest := keys - {x};
      MinimumExists(rest);
      var m :| m in rest && forall j :: j in rest ==> m <= j;
      var least := if x < m then x else m;
      forall j | j in keys ensures least <= j {
        if j != x { assert j in rest; }
      }
    } else {
      assert forall j :: j in keys ==> x <= j;
    }
  }

  /** The least key of a non-empty key set. */
  function Least(keys: set<int>): (k: int)
    requires keys != {}
    ensures k in keys && forall j :: j in keys ==> k <= j
  {
    MinimumExists(keys);
    var k :| k in keys && forall j :: j in keys ==> k <= j; k
  }

  /** The keys in strictly ascending order, each once. */
  function Ascending(keys: set<int>): (ks: seq<int>)
    ensures |ks| == |keys|
    ensures forall k :: k in ks <==> k in keys
    ensures forall i, j :: 0 <= i < j < |ks| ==> ks[i] < ks[j]
    decreases |keys|
  {
    if keys == {} then []
    else
      var k := Least(keys);
      assert |keys - {k}| == |keys| - 1;
      var rest := Ascending(keys - {k});
      PrependLeast(k, keys, rest);
      [k] + rest
  }

  /** Putting the least key in front of the others, in order, orders them all. */
  lemma PrependLeast(k: int, keys: set<int>, rest: seq<int>)
    requires k in keys && forall j :: j in keys ==> k <= j
    requires |rest| == |keys - {k}|
    requires forall x :: x in rest <==> x in keys - {k}
    requires forall i, j :: 0 <= i < j < |rest| ==> rest[i] < rest[j]
    ensures |[k] + rest| == |keys|
    ensures forall x :: x in [k] + rest <==> x in keys
    ensures forall i, j :: 0 <= i < j < |[k] + rest| ==> ([k] + rest)[i] < ([k] + rest)[j]
  {
    var ks := [k] + rest;
    assert |keys - {k}| == |keys| - 1;
    forall x ensures x in ks <==> x in keys {
      assert x in ks <==> x == k || x in rest;
    }
    forall i, j | 0 <= i < j < |ks| ensures ks[i] < ks[j] {
      assert ks[j] == rest[j - 1] && ks[j] in keys - {k};
      if i > 0 {
        assert ks[i] == rest[i - 1];
      }
    }
  }

  /** The rows under the given keys, in the keys' order. */
  function RowsAt<V>(table: map<int, V>, ks: seq<int>): (rows: seq<V>)
    requires forall i :: 0 <= i < |ks| ==> ks[i] in table
  {
    seq(|ks|, i requires 0 <= i < |ks| => table[ks[i]])
  }

  /** The rows of a table, in ascending key order. */
  function Rows<V>(table: map<int, V>): (rows: seq<V>)
    ensures |rows| == |table|
    ensures forall k :: k in table ==> table[k] in rows
    ensures forall i :: 0 <= i < |rows| ==> exists k :: k in table && rows[i] == table[k]
  {
    var ks := Ascending(table.Keys);
    assert forall i :: 0 <= i < |ks| ==> ks[i] in ks;
    var rows := RowsAt(table, ks);
    forall k | k in table ensures table[k] in rows {
      var i :| 0 <= i < |ks| && ks[i] == k;
      assert rows[i] == table[k];
    }
    forall i | 0 <= i < |rows| ensures exists k :: k in table && rows[i] == table[k] {
      assert rows[i] == table[ks[i]];
    }
    rows
  }

  /** A table whose rows are pairwise different yields each of them once. */
  lemma RowsDistinct<V>(table: map<int, V>)
    requires forall k1, k2 :: k1 in table && k2 in table && table[k1] == table[k2] ==> k1 == k2
    ensures forall i, j :: 0 <= i < j < |Rows(table)| ==> Rows(table)[i] != Rows(table)[j]
  {
  }
}
