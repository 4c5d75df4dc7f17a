/**
 * Sequence-level specification of node contents: the key order a node keeps,
 * the insertion point of a key, and insertion at a position.
 */
module Cells {
  import opened Layout

  /** The keys of a run of leaf cells, in order. */
  function Keys(cells: seq<Cell>): (keys: seq<nat>)
    ensures |keys| == |cells|
    ensures forall i :: 0 <= i < |cells| ==> keys[i] == cells[i].key
  {
    seq(|cells|, i requires 0 <= i < |cells| => cells[i].key)
  }

  /** Leaf keys: strictly ascending, hence unique. */
  ghost predicate StrictlyAscending(keys: seq<nat>) {
    forall i, j :: 0 <= i < j < |keys| ==> keys[i] < keys[j]
  }

  /** Separator keys of an internal node: ascending. */
  ghost predicate Ascending(keys: seq<nat>) {
    forall i, j :: 0 <= i < j < |keys| ==> keys[i] <= keys[j]
  }

  /** The number of keys below key: where key sits, or would be inserted, in an ordered run. */
  function CountLess(keys: seq<nat>, key: nat): (n: nat)
    ensures n <= |keys|
  {
    if keys == [] then 0 else (if keys[0] < key then 1 else 0) + CountLess(keys[1..], key)
  }

  /** A position that splits the keys into those below key and those at or above it is CountLess. */
  lemma {:induction false} CountLessAtBoundary(keys: seq<nat>, key: nat, m: nat)
    requires m <= |keys|
    requires forall j :: 0 <= j < m ==> keys[j] < key
    requires forall j :: m <= j < |keys| ==> keys[j] >= key
    ensures CountLess(keys, key) == m
  {
    if keys != [] {
      if m == 0 {
        assert keys[0] >= key;
        CountLessAtBoundary(keys[1..], key, 0);
      } else {
        assert keys[0] < key;
        CountLessAtBoundary(keys[1..], key, m - 1);
      }
    }
  }

  /** In ascending keys, CountLess is the first position whose key is at least key. */
  lemma {:induction false} CountLessIsLowerBound(keys: seq<nat>, key: nat)
    requires Ascending(keys)
    ensures forall j :: 0 <= j < CountLess(keys, key) ==> keys[j] < key
    ensures forall j :: CountLess(keys, key) <= j < |keys| ==> keys[j] >= key
  {
    if keys != [] {
      var rest := keys[1..];
      assert Ascending(rest) by {
        forall i, j | 0 <= i < j < |rest| ensures rest[i] <= rest[j] {
          assert rest[i] == keys[i + 1] && rest[j] == keys[j + 1];
        }
      }
      CountLessIsLowerBound(rest, key);
      if keys[0] >= key {
        assert forall j :: 0 <= j < |rest| ==> rest[j] >= keys[0];
      }
    }
  }

  /**
   * In a strictly ascending run, CountLess locates key: the key is present exactly
   * when it sits at that position, and otherwise every key before the position is
   * smaller and every key from it on is larger.
   */
  lemma LeafSearchPosition(keys: seq<nat>, key: nat)
    requires StrictlyAscending(keys)
    ensures key in keys <==> (CountLess(keys, key) < |keys| && keys[CountLess(keys, key)] == key)
    ensures forall j :: 0 <= j < CountLess(keys, key) ==> keys[j] < key
    ensures key !in keys ==> forall j :: CountLess(keys, key) <= j < |keys| ==> keys[j] > key
  {
    CountLessIsLowerBound(keys, key);
    var n := CountLess(keys, key);
    if key in keys {
      var w :| 0 <= w < |keys| && keys[w] == key;
      assert n <= w;
      assert keys[n] <= keys[w];
    }
  }

  /** Keys 10, 20, 30: 20 is found at 1, and 15, 5 and 35 would be inserted at 1, 0 and 3. */
  lemma LeafSearchExamples()
    ensures CountLess([10, 20, 30], 20) == 1
    ensures CountLess([10, 20, 30], 15) == 1
    ensures CountLess([10, 20, 30], 5) == 0
    ensures CountLess([10, 20, 30], 35) == 3
  {
  }

  /** s with x inserted at position i: the cells before i stay, the cells from i on move up by one. */
  function InsertAt<T>(s: seq<T>, i: nat, x: T): (r: seq<T>)
    requires i <= |s|
    ensures |r| == |s| + 1
    ensures r[i] == x
    ensures forall j :: 0 <= j < i ==> r[j] == s[j]
    ensures forall j :: i < j <= |s| ==> r[j] == s[j - 1]
  {
    s[..i] + [x] + s[i..]
  }

  /** Every element of s, and the inserted one, is an element of the result. */
  lemma InsertAtHolds<T>(s: seq<T>, i: nat, x: T, d: T)
    requires i <= |s| && (d == x || d in s)
    ensures d in InsertAt(s, i, x)
  {
    if d != x {
      var w :| 0 <= w < |s| && s[w] == d;
      assert InsertAt(s, i, x)[if w < i then w else w + 1] == d;
    }
  }

  lemma KeysInsertAt(cells: seq<Cell>, i: nat, c: Cell)
    requires i <= |cells|
    ensures Keys(InsertAt(cells, i, c)) == InsertAt(Keys(cells), i, c.key)
  {
  }

  /**
   * Inserting a missing key at its CountLess position keeps a leaf's keys strictly
   * ascending.
   */
  lemma InsertAtPositionKeepsOrder(cells: seq<Cell>, c: Cell)
    requires StrictlyAscending(Keys(cells))
    requires c.key !in Keys(cells)
    ensures StrictlyAscending(Keys(InsertAt(cells, CountLess(Keys(cells), c.key), c)))
  {
    var keys := Keys(cells);
    var n := CountLess(keys, c.key);
    LeafSearchPosition(keys, c.key);
    KeysInsertAt(cells, n, c);
    var r := InsertAt(keys, n, c.key);
    forall i, j | 0 <= i < j < |r| ensures r[i] < r[j] {
      if j < n {
      } else if j == n {
      } else if i < n {
      } else if i == n {
      } else {
        assert r[i] == keys[i - 1] && r[j] == keys[j - 1];
      }
    }
  }

  /** In a leaf with strictly ascending keys, searching for the key of a cell finds that cell. */
  lemma SearchFindsCell(cells: seq<Cell>, c: Cell)
    requires StrictlyAscending(Keys(cells)) && c in cells
    ensures CountLess(Keys(cells), c.key) < |cells|
    ensures cells[CountLess(Keys(cells), c.key)] == c
  {
    var keys := Keys(cells);
    var w :| 0 <= w < |cells| && cells[w] == c;
    assert keys[w] == c.key;
    LeafSearchPosition(keys, c.key);
  }

  /**
   * After inserting a missing key at its CountLess position, searching for it finds
   * the new cell, and every cell that was there is still found.
   */
  lemma InsertThenFind(cells: seq<Cell>, c: Cell, d: Cell)
    requires StrictlyAscending(Keys(cells)) && c.key !in Keys(cells)
    requires d == c || d in cells
    ensures var r := InsertAt(cells, CountLess(Keys(cells), c.key), c);
            CountLess(Keys(r), d.key) < |r| && r[CountLess(Keys(r), d.key)] == d
  {
    var r := InsertAt(cells, CountLess(Keys(cells), c.key), c);
    InsertAtPositionKeepsOrder(cells, c);
    if d != c {
      var w :| 0 <= w < |cells| && cells[w] == d;
      if w < CountLess(Keys(cells), c.key) {
        assert r[w] == d;
      } else {
        assert r[w + 1] == d;
      }
    }
    SearchFindsCell(r, d);
  }

  /** In a strictly ascending run cut in two, every key on the left is below every key on the right. */
  lemma SplitSeparatesKeys(cells: seq<Cell>, cut: nat)
    requires cut <= |cells|
    requires StrictlyAscending(Keys(cells))
    ensures forall a, b :: a in Keys(cells[..cut]) && b in Keys(cells[cut..]) ==> a < b
    ensures StrictlyAscending(Keys(cells[..cut])) && StrictlyAscending(Keys(cells[cut..]))
  {
    var keys := Keys(cells);
    forall a, b | a in Keys(cells[..cut]) && b in Keys(cells[cut..]) ensures a < b {
      var i :| 0 <= i < cut && Keys(cells[..cut])[i] == a;
      var j :| 0 <= j < |cells| - cut && Keys(cells[cut..])[j] == b;
      assert a == keys[i] && b == keys[cut + j];
    }
    var right := Keys(cells[cut..]);
    forall i, j | 0 <= i < j < |right| ensures right[i] < right[j] {
      assert right[i] == keys[cut + i] && right[j] == keys[cut + j];
    }
  }
}
