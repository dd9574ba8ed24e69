/** `defaultdict(list)` indexes over a list of rows: every row is filed under
  * its key, unless the key is empty.
  */
module Indexing {
  import opened Sorting
  import opened Filtering

  function Has<T>(key: T -> string, k: string): T -> bool { (x: T) => key(x) == k }

  function HasSome<T>(key: T -> string): T -> bool { (x: T) => key(x) != "" }

  /** The rows with a given key, in order. */
  function WithKey<T>(rows: seq<T>, key: T -> string, k: string): seq<T> { Where(rows, Has(key, k)) }

  /** The rows with a key. */
  function Keyed<T>(rows: seq<T>, key: T -> string): seq<T> { Where(rows, HasSome(key)) }

  function KeySet<T>(rows: seq<T>, key: T -> string): set<string> {
    set i | 0 <= i < |rows| && key(rows[i]) != "" :: key(rows[i])
  }

  /** The index files every row with a key, once and in order. */
  ghost predicate Indexes<T(!new)>(index: map<string, seq<T>>, rows: seq<T>, key: T -> string) {
    && index.Keys == KeySet(rows, key)
    && forall k | k in index :: index[k] == WithKey(rows, key, k)
  }

  /** `index[key].append(row)`, skipping an empty key. */
  function File<T>(index: map<string, seq<T>>, k: string, row: T): map<string, seq<T>> {
    if k == "" then index else index[k := (if k in index then index[k] else []) + [row]]
  }

  lemma KeySetStep<T(!new)>(rows: seq<T>, key: T -> string, n: nat)
    requires n < |rows|
    ensures KeySet(rows[..n + 1], key) == KeySet(rows[..n], key) + if key(rows[n]) == "" then {} else {key(rows[n])}
  {
    var a, b := rows[..n], rows[..n + 1];
    assert forall i | 0 <= i < n :: a[i] == b[i];
    forall k | k in KeySet(b, key) ensures k in KeySet(a, key) || k == key(rows[n]) {
      var i :| 0 <= i < |b| && key(b[i]) != "" && key(b[i]) == k;
      if i < n { assert key(a[i]) == k; }
    }
    forall k | k in KeySet(a, key) ensures k in KeySet(b, key) {
      var i :| 0 <= i < |a| && key(a[i]) != "" && key(a[i]) == k;
      assert key(b[i]) == k;
    }
    assert key(b[n]) == key(rows[n]);
  }

  lemma WithKeyStep<T(!new)>(rows: seq<T>, key: T -> string, n: nat, k: string)
    requires n < |rows|
    ensures WithKey(rows[..n + 1], key, k)
         == if key(rows[n]) == k then WithKey(rows[..n], key, k) + [rows[n]] else WithKey(rows[..n], key, k)
  {
    WhereStep(rows, n, Has(key, k));
  }

  lemma WithKeyNone<T(!new)>(rows: seq<T>, key: T -> string, k: string)
    requires k != "" && k !in KeySet(rows, key)
    ensures WithKey(rows, key, k) == []
  {
    KeysFiled(rows, key);
    WhereNone(rows, Has(key, k));
  }

  /** Filing the next row keeps the index right. */
  lemma FileIndexes<T(!new)>(index: map<string, seq<T>>, rows: seq<T>, key: T -> string, n: nat)
    requires n < |rows| && Indexes(index, rows[..n], key)
    ensures Indexes(File(index, key(rows[n]), rows[n]), rows[..n + 1], key)
  {
    hide WithKey;
    KeySetStep(rows, key, n);
    forall k: string
      ensures WithKey(rows[..n + 1], key, k)
           == if key(rows[n]) == k then WithKey(rows[..n], key, k) + [rows[n]] else WithKey(rows[..n], key, k)
    {
      WithKeyStep(rows, key, n, k);
    }
    var k := key(rows[n]);
    if k != "" && k !in index { WithKeyNone(rows[..n], key, k); }
  }

  /** `index.get(key, [])` is the filtered list, also for an unused key. */
  lemma Lookup<T(!new)>(index: map<string, seq<T>>, rows: seq<T>, key: T -> string, k: string)
    requires Indexes(index, rows, key) && k != ""
    ensures (if k in index then index[k] else []) == WithKey(rows, key, k)
  {
    if k !in index { WithKeyNone(rows, key, k); }
  }

  lemma KeysFiled<T(!new)>(rows: seq<T>, key: T -> string)
    ensures forall i | 0 <= i < |rows| :: key(rows[i]) != "" ==> key(rows[i]) in KeySet(rows, key)
  {}

  lemma KeySetMembers<T(!new)>(rows: seq<T>, key: T -> string, k: string)
    ensures k in KeySet(rows, key) <==> k != "" && WithKey(rows, key, k) != []
  {
    WhereMembers(rows, Has(key, k));
    if k in KeySet(rows, key) {
      var i :| 0 <= i < |rows| && key(rows[i]) != "" && key(rows[i]) == k;
      assert rows[i] in rows && rows[i] in WithKey(rows, key, k);
    }
    if k != "" && WithKey(rows, key, k) != [] {
      var x := WithKey(rows, key, k)[0];
      assert x in WithKey(rows, key, k);
      var i :| 0 <= i < |rows| && rows[i] == x;
      KeysFiled(rows, key);
    }
  }

  function TotalFiled<T>(rows: seq<T>, key: T -> string, keys: seq<string>): nat {
    if keys == [] then 0 else |WithKey(rows, key, keys[0])| + TotalFiled(rows, key, keys[1..])
  }

  lemma FirstNotLater(keys: seq<string>)
    requires keys != [] && Ascends(keys)
    ensures keys[0] !in keys[1..]
  {
    BelowIrreflexive(keys[0]);
    forall i | 0 <= i < |keys[1..]| ensures keys[1..][i] != keys[0] {
      assert Below(keys[0], keys[i + 1]);
    }
  }

  lemma {:induction false} TotalStep<T(!new)>(rows: seq<T>, key: T -> string, keys: seq<string>)
    requires rows != [] && Ascends(keys)
    ensures TotalFiled(rows, key, keys)
         == TotalFiled(rows[..|rows| - 1], key, keys) + if key(rows[|rows| - 1]) in keys then 1 else 0
    decreases |keys|
  {
    if keys != [] {
      TotalStep(rows, key, keys[1..]);
      assert keys == [keys[0]] + keys[1..];
      FirstNotLater(keys);
    }
  }

  lemma {:induction false} TotalNothing<T(!new)>(key: T -> string, keys: seq<string>)
    ensures TotalFiled([], key, keys) == 0
    decreases |keys|
  {
    if keys != [] { TotalNothing(key, keys[1..]); }
  }

  /** Over all keys, the index holds every row with a key exactly once. */
  lemma {:induction false} IndexConserves<T(!new)>(rows: seq<T>, key: T -> string, keys: seq<string>)
    requires Ascends(keys)
    requires forall i | 0 <= i < |rows| :: key(rows[i]) != "" ==> key(rows[i]) in keys
    requires "" !in keys
    ensures TotalFiled(rows, key, keys) == |Keyed(rows, key)|
    decreases |rows|
  {
    if rows == [] {
      TotalNothing(key, keys);
    } else {
      TotalStep(rows, key, keys);
      IndexConserves(rows[..|rows| - 1], key, keys);
    }
  }
}
