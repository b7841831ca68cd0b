/** The segment-major to sample-major transpose: every labelled column of
    readings is spread over one record per sample index, a later column
    overwriting the value an earlier one gave the same key. */
module Samples {
  import opened Results

  // ---------------------------------------------------------------------
  // Records: objects with string keys kept in insertion order.

  datatype Entry = Entry(key: string, value: real)

  /** A sample record; its entries are in the order their keys were first written. */
  type Record = seq<Entry>

  function Keys(r: Record): seq<string> {
    seq(|r|, j requires 0 <= j < |r| => r[j].key)
  }

  predicate Distinct(s: seq<string>) {
    forall a, b :: 0 <= a < b < |s| ==> s[a] != s[b]
  }

  /** The value stored under `key`, if any. */
  function Lookup(r: Record, key: string): (v: Option<real>)
    decreases |r|
  {
    if r == [] then None
    else if r[0].key == key then Some(r[0].value)
    else Lookup(r[1..], key)
  }

  /** Keyed assignment: overwrites the value of an existing key where it
      stands, or appends a new key at the end. */
  function Put(r: Record, key: string, value: real): (p: Record)
    ensures |r| <= |p| <= |r| + 1
    ensures Lookup(p, key) == Some(value)
    decreases |r|
  {
    if r == [] then [Entry(key, value)]
    else if r[0].key == key then [Entry(key, value)] + r[1..]
    else
      var tail := Put(r[1..], key, value);
      assert ([r[0]] + tail)[1..] == tail;
      [r[0]] + tail
  }

  lemma KeysStep(r: Record)
    requires r != []
    ensures Keys(r) == [r[0].key] + Keys(r[1..])
  {
  }

  /** A key can be looked up exactly when the record holds it. */
  lemma {:induction false} LookupDefined(r: Record, key: string)
    ensures Lookup(r, key).Some? <==> key in Keys(r)
    decreases |r|
  {
    if r != [] {
      KeysStep(r);
      LookupDefined(r[1..], key);
    }
  }

  /** After a keyed assignment the key reads back the new value and every
      other key reads back what it did before. */
  lemma {:induction false} PutLookup(r: Record, key: string, value: real, other: string)
    ensures Lookup(Put(r, key, value), key) == Some(value)
    ensures other != key ==> Lookup(Put(r, key, value), other) == Lookup(r, other)
    decreases |r|
  {
    if r != [] && r[0].key != key {
      PutLookup(r[1..], key, value, other);
      var tail := Put(r[1..], key, value);
      assert ([r[0]] + tail)[1..] == tail;
    }
  }

  /** A keyed assignment keeps the key order; a new key goes last. */
  lemma {:induction false} PutKeys(r: Record, key: string, value: real)
    ensures key in Keys(r) ==> Keys(Put(r, key, value)) == Keys(r)
    ensures key !in Keys(r) ==> Keys(Put(r, key, value)) == Keys(r) + [key]
    decreases |r|
  {
    if r != [] {
      KeysStep(r);
      if r[0].key == key {
        KeysStep(Put(r, key, value));
        assert Put(r, key, value)[1..] == r[1..];
      } else {
        PutKeys(r[1..], key, value);
        var tail := Put(r[1..], key, value);
        KeysStep([r[0]] + tail);
        assert ([r[0]] + tail)[1..] == tail;
      }
    }
  }

  // ---------------------------------------------------------------------
  // Columns and their transpose.

  /** One decoded segment under its key: reading i belongs to sample i. */
  datatype Column = Column(key: string, values: seq<real>)

  /** The columns before the last one. */
  function Init(cols: seq<Column>): seq<Column>
    requires cols != []
  {
    cols[..|cols| - 1]
  }

  function Last(cols: seq<Column>): Column
    requires cols != []
  {
    cols[|cols| - 1]
  }

  /** Record i, built by visiting the columns in order and assigning each
      column's reading i under its key. */
  function Row(cols: seq<Column>, i: nat): (row: Record)
    ensures |row| <= |cols|
    decreases |cols|
  {
    if cols == [] then []
    else
      var previous := Row(Init(cols), i);
      var c := Last(cols);
      if i < |c.values| then Put(previous, c.key, c.values[i]) else previous
  }

  /** The number of sample indices some column has a reading for. */
  function MaxLength(cols: seq<Column>): nat
    decreases |cols|
  {
    if cols == [] then 0
    else
      var m := MaxLength(Init(cols));
      if |Last(cols).values| > m then |Last(cols).values| else m
  }

  /** The transpose: a record for every sample index that some column reaches. */
  function Transpose(cols: seq<Column>): (t: map<nat, Record>)
    ensures forall i: nat :: i in t <==> i < MaxLength(cols)
    ensures forall i: nat :: i in t ==> |t[i]| <= |cols|
  {
    map i | 0 <= i < MaxLength(cols) :: Row(cols, i)
  }

  /** Reference definition of last-write-wins: reading i of the last column
      carrying `key` that has a reading i. */
  function Latest(cols: seq<Column>, key: string, i: nat): (r: Option<real>)
    ensures r.Some? ==> i < MaxLength(cols)
    decreases |cols|
  {
    if cols == [] then None
    else if Last(cols).key == key && i < |Last(cols).values| then Some(Last(cols).values[i])
    else Latest(Init(cols), key, i)
  }

  lemma InitOf(cols: seq<Column>, c: Column)
    ensures Init(cols + [c]) == cols && Last(cols + [c]) == c
  {
    assert (cols + [c])[..|cols|] == cols;
  }

  /** Record i of the transpose holds, under each key, the reading i of
      the last column with that key: the fold of keyed assignments agrees
      with the last-write-wins reference. */
  lemma {:induction false} RowLookup(cols: seq<Column>, i: nat, key: string)
    ensures Lookup(Row(cols, i), key) == Latest(cols, key, i)
    decreases |cols|
  {
    if cols != [] {
      RowLookup(Init(cols), i, key);
      var c := Last(cols);
      if i < |c.values| {
        PutLookup(Row(Init(cols), i), c.key, c.values[i], key);
      }
    }
  }

  /** No key appears twice in a record of the transpose. */
  lemma {:induction false} RowKeysDistinct(cols: seq<Column>, i: nat)
    ensures Distinct(Keys(Row(cols, i)))
    decreases |cols|
  {
    if cols != [] {
      RowKeysDistinct(Init(cols), i);
      var c := Last(cols);
      if i < |c.values| {
        PutKeys(Row(Init(cols), i), c.key, c.values[i]);
      }
    }
  }

  /** Latest names the last writer: some column k carries the key and has
      a reading i equal to the result, and no later column with the key
      has a reading i; when there is no result, no column writes the key. */
  lemma {:induction false} LatestWriter(cols: seq<Column>, key: string, i: nat)
    ensures Latest(cols, key, i).None? ==>
      forall k :: 0 <= k < |cols| && cols[k].key == key ==> i >= |cols[k].values|
    ensures Latest(cols, key, i).Some? ==>
      exists k :: 0 <= k < |cols| && cols[k].key == key && i < |cols[k].values|
        && Latest(cols, key, i).value == cols[k].values[i]
        && forall k' :: k < k' < |cols| && cols[k'].key == key ==> i >= |cols[k'].values|
    decreases |cols|
  {
    if cols != [] {
      var init := Init(cols);
      LatestWriter(init, key, i);
      assert forall k :: 0 <= k < |init| ==> init[k] == cols[k];
      var last := |cols| - 1;
      if Last(cols).key == key && i < |Last(cols).values| {
        assert cols[last].key == key && i < |cols[last].values|;
      } else if Latest(init, key, i).Some? {
        var k :| 0 <= k < |init| && init[k].key == key && i < |init[k].values|
          && Latest(init, key, i).value == init[k].values[i]
          && forall k' :: k < k' < |init| && init[k'].key == key ==> i >= |init[k'].values|;
        assert cols[k] == init[k];
      }
    }
  }

  /** When every column has `n` readings and there is at least one column,
      the longest column has `n` readings. */
  lemma {:induction false} UniformLength(cols: seq<Column>, n: nat)
    requires cols != []
    requires forall k :: 0 <= k < |cols| ==> |cols[k].values| == n
    ensures MaxLength(cols) == n
    decreases |cols|
  {
    var init := Init(cols);
    if init != [] {
      assert forall k :: 0 <= k < |init| ==> init[k] == cols[k];
      UniformLength(init, n);
    }
  }

  /** When every column has `n` readings, the transpose has a record for
      exactly the sample indices 0 .. n - 1, or none at all when there is no
      column. */
  lemma TransposeDomain(cols: seq<Column>, n: nat)
    requires forall k :: 0 <= k < |cols| ==> |cols[k].values| == n
    ensures forall i: nat :: i in Transpose(cols) <==> cols != [] && i < n
  {
    if cols != [] {
      UniformLength(cols, n);
    }
  }

  /** Adding a column assigns its readings, index by index, over the records so far. */
  lemma RowStep(cols: seq<Column>, c: Column, extended: seq<Column>, i: nat)
    requires extended == cols + [c]
    ensures Row(extended, i) == if i < |c.values| then Put(Row(cols, i), c.key, c.values[i]) else Row(cols, i)
    ensures MaxLength(extended) == if |c.values| > MaxLength(cols) then |c.values| else MaxLength(cols)
  {
    InitOf(cols, c);
  }

  /** `m` holds, for exactly the sample indices the columns reach, the records of their transpose. */
  ghost predicate Holds(m: map<nat, Record>, cols: seq<Column>) {
    && (forall j: nat :: j in m <==> j < MaxLength(cols))
    && (forall j: nat :: j in m ==> m[j] == Row(cols, j))
  }

  lemma HoldsTranspose(m: map<nat, Record>, cols: seq<Column>)
    requires Holds(m, cols)
    ensures m == Transpose(cols)
  {
  }

  // ---------------------------------------------------------------------
  // The transpose as the decoder performs it.

  /** Visits the columns in order, spreading each over the records. */
  method Combine(decryptedDatas: seq<Column>) returns (combinedData: map<nat, Record>)
    ensures combinedData == Transpose(decryptedDatas)
  {
    combinedData := map[];
    var k := 0;
    assert decryptedDatas[..0] == [];
    while k < |decryptedDatas|
      invariant 0 <= k <= |decryptedDatas|
      invariant Holds(combinedData, decryptedDatas[..k])
    {
      assert decryptedDatas[..k + 1] == decryptedDatas[..k] + [decryptedDatas[k]];
      combinedData := Spread(combinedData, decryptedDatas[..k], decryptedDatas[k]);
      k := k + 1;
    }
    assert decryptedDatas[..k] == decryptedDatas;
    HoldsTranspose(combinedData, decryptedDatas);
  }

  /** The inner loop: for each sample index of one column, creates record i
      when it is first needed and assigns the column's reading i under its key. */
  method Spread(combinedData: map<nat, Record>, ghost done: seq<Column>, data: Column) returns (result: map<nat, Record>)
    requires Holds(combinedData, done)
    ensures Holds(result, done + [data])
  {
    result := combinedData;
    ghost var extended := done + [data];
    var i := 0;
    while i < |data.values|
      invariant 0 <= i <= |data.values|
      invariant forall j: nat :: j in result <==> j < MaxLength(done) || j < i
      invariant forall j: nat :: j in result && j < i ==> result[j] == Row(extended, j)
      invariant forall j: nat :: j in result && i <= j ==> result[j] == Row(done, j)
    {
      if i !in result {
        RowBeyond(done, i);
        result := result[i := []];
      }
      assert result[i] == Row(done, i);
      RowStep(done, data, extended, i);
      ghost var previous := result;
      result := result[i := Put(result[i], data.key, data.values[i])];
      assert result[i] == Row(extended, i);
      assert forall j: nat :: j in result && j != i ==> j in previous && result[j] == previous[j];
      i := i + 1;
    }
    forall j | j in result
      ensures result[j] == Row(extended, j)
    {
      RowStep(done, data, extended, j);
    }
    RowStep(done, data, extended, 0);
  }

  /** A sample index no column reaches has the empty record. */
  lemma {:induction false} RowBeyond(cols: seq<Column>, i: nat)
    requires MaxLength(cols) <= i
    ensures Row(cols, i) == []
    decreases |cols|
  {
    if cols != [] {
      RowBeyond(Init(cols), i);
    }
  }
}
