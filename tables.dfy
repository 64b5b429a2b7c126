/** A database table as the sequence of its rows in storage order, and the
    single-column lookup the repositories perform on it. Prisma's `findFirst`
    returns the first row that matches; `findUnique` searches a column the
    schema declares unique, where "first" and "only" coincide (FindUnique). */
module Tables {
  import opened Records

  /** Some row of `rows` has `k` in the column `key`. */
  predicate HasKey<T>(rows: seq<T>, key: T -> int, k: int) {
    exists i :: 0 <= i < |rows| && key(rows[i]) == k
  }

  /** No two rows share a value in the column `key`. */
  predicate UniqueBy<T>(rows: seq<T>, key: T -> int) {
    forall i, j :: 0 <= i < |rows| && 0 <= j < |rows| && key(rows[i]) == key(rows[j]) ==> i == j
  }

  /** Position of the first row whose column `key` equals `k`. */
  function FirstIndex<T>(rows: seq<T>, key: T -> int, k: int): (r: Option<nat>)
    ensures r.Some? ==> r.value < |rows| && key(rows[r.value]) == k
    ensures r.Some? ==> forall j :: 0 <= j < r.value ==> key(rows[j]) != k
    ensures r.None? ==> forall j :: 0 <= j < |rows| ==> key(rows[j]) != k
  {
    if |rows| == 0 then None
    else if key(rows[0]) == k then Some(0)
    else match FirstIndex(rows[1..], key, k)
      case None => None
      case Some(i) => Some(i + 1)
  }

  /** The first row whose column `key` equals `k`, if any. */
  function FindBy<T>(rows: seq<T>, key: T -> int, k: int): (r: Option<T>)
    ensures r.Some? ==> r.value in rows && key(r.value) == k
    ensures r.None? <==> !HasKey(rows, key, k)
  {
    match FirstIndex(rows, key, k)
    case None => None
    case Some(i) => Some(rows[i])
  }

  /** On a unique column the lookup returns the one row that carries the key. */
  lemma FindUnique<T>(rows: seq<T>, key: T -> int, x: T)
    requires UniqueBy(rows, key)
    requires x in rows
    ensures FindBy(rows, key, key(x)) == Some(x)
  {
    var i :| 0 <= i < |rows| && rows[i] == x;
    var j := FirstIndex(rows, key, key(x)).value;
    assert key(rows[j]) == key(rows[i]);
  }

  lemma {:induction false} FirstIndexAppend<T>(rows: seq<T>, x: T, key: T -> int, k: int)
    ensures FirstIndex(rows + [x], key, k) ==
      if FirstIndex(rows, key, k).Some? then FirstIndex(rows, key, k)
      else if key(x) == k then Some(|rows|)
      else None
  {
    if |rows| > 0 && key(rows[0]) != k {
      assert (rows + [x])[1..] == rows[1..] + [x];
      FirstIndexAppend(rows[1..], x, key, k);
    }
  }

  /** Appending a row changes a lookup only when no earlier row matched. */
  lemma FindAppend<T>(rows: seq<T>, x: T, key: T -> int, k: int)
    ensures FindBy(rows + [x], key, k) ==
      if HasKey(rows, key, k) then FindBy(rows, key, k)
      else if key(x) == k then Some(x)
      else None
  {
    FirstIndexAppend(rows, x, key, k);
  }

  /** Appending a row with a fresh key keeps the column unique. */
  lemma UniqueAppend<T>(rows: seq<T>, x: T, key: T -> int)
    requires UniqueBy(rows, key)
    requires !HasKey(rows, key, key(x))
    ensures UniqueBy(rows + [x], key)
  {
    var s := rows + [x];
    forall i, j | 0 <= i < |s| && 0 <= j < |s| && key(s[i]) == key(s[j])
      ensures i == j
    {
      if (i < |rows| && j == |rows|) || (j < |rows| && i == |rows|) {
        // the older row would already carry x's key
        assert false;
      }
    }
  }
}
