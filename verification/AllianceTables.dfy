/** Get-or-insert on one table: on a conflict the existing row wins and nothing is written. */
module AllianceTables {
  import opened Prelude

  ghost predicate UniqueKeys<R, K>(t: seq<R>, key: R -> K) {
    forall i, j :: 0 <= i < j < |t| ==> key(t[i]) != key(t[j])
  }

  /** The first row whose unique columns are `k`. */
  function FindKey<R, K(==)>(t: seq<R>, key: R -> K, k: K): (r: Option<nat>)
    ensures r.Some? ==> r.value < |t| && key(t[r.value]) == k
    ensures r.None? ==> forall i :: 0 <= i < |t| ==> key(t[i]) != k
  {
    if t == [] then None
    else
      var n := |t| - 1;
      var earlier := FindKey(t[..n], key, k);
      if earlier.Some? then earlier
      else if key(t[n]) == k then Some(n)
      else None
  }

  function InsertSerial<R, K(==)>(t: seq<R>, key: R -> K, row: R): (r: (seq<R>, nat))
    ensures t <= r.0 && r.1 < |r.0| && key(r.0[r.1]) == key(row)
    ensures (forall i :: 0 <= i < |t| ==> key(t[i]) != key(row)) ==> r == (t + [row], |t|)
    ensures (exists i :: 0 <= i < |t| && key(t[i]) == key(row)) ==> r.0 == t
  {
    match FindKey(t, key, key(row))
    case Some(i) => (t, i)
    case None => (t + [row], |t|)
  }

  function InsertKeyed<K, R>(t: map<K, R>, k: K, row: R): (r: map<K, R>)
    ensures Submap(t, r) && r.Keys == t.Keys + {k}
    ensures k !in t ==> r[k] == row
  {
    if k in t then t else t[k := row]
  }

  lemma InsertSerialUnique<R, K>(t: seq<R>, key: R -> K, row: R)
    requires UniqueKeys(t, key)
    ensures UniqueKeys(InsertSerial(t, key, row).0, key)
  {
    var t' := InsertSerial(t, key, row).0;
    if t' != t {
      assert t' == t + [row];
    }
  }

  lemma FindKeyUnique<R, K>(t: seq<R>, key: R -> K, i: nat)
    requires UniqueKeys(t, key) && i < |t|
    ensures FindKey(t, key, key(t[i])) == Some(i)
  {
    var f := FindKey(t, key, key(t[i]));
    assert f.Some?;
  }

  /** Inserting a row again finds the row the first insert left. */
  lemma InsertSerialTwice<R, K>(t: seq<R>, key: R -> K, row: R, again: R)
    requires UniqueKeys(t, key) && key(again) == key(row)
    ensures InsertSerial(InsertSerial(t, key, row).0, key, again) == InsertSerial(t, key, row)
  {
    var (t', i) := InsertSerial(t, key, row);
    InsertSerialUnique(t, key, row);
    FindKeyUnique(t', key, i);
  }

  /** The insert as the helper performs it: look for a conflicting row, write only when there is none. */
  method InsertThenSelect<R, K(==)>(t: seq<R>, key: R -> K, row: R) returns (t': seq<R>, id: nat, inserted: bool)
    ensures (t', id) == InsertSerial(t, key, row)
    ensures inserted <==> t' != t
  {
    var i := 0;
    while i < |t| && key(t[i]) != key(row)
      invariant 0 <= i <= |t|
      invariant forall j :: 0 <= j < i ==> key(t[j]) != key(row)
    {
      i := i + 1;
    }
    if i < |t| {
      FindKeyFirst(t, key, key(row), i);
      t', id, inserted := t, i, false;
    } else {
      t', id, inserted := t + [row], |t|, true;
    }
  }

  lemma {:induction false} FindKeyFirst<R, K>(t: seq<R>, key: R -> K, k: K, i: nat)
    requires i < |t| && key(t[i]) == k
    requires forall j :: 0 <= j < i ==> key(t[j]) != k
    ensures FindKey(t, key, k) == Some(i)
  {
    var n := |t| - 1;
    if i < n {
      FindKeyFirst(t[..n], key, k, i);
    } else {
      assert FindKey(t[..n], key, k).None?;
    }
  }
}
