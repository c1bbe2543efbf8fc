/**
 Gathering rows into one bag of fields per key, where a later write to a field replaces an earlier one:
 the shape of parseTelemetryLatest (key: device) and parseTelemetryHistory (key: timestamp) in
 internal/repository/telemetry/telemetry_repository_impl.go.
 */
module LastWrites {
  import opened Common
  import opened Flux

  /** What a row contributes: it makes its key known, and may write one field. */
  datatype Cell<K> = Cell(key: K, write: Option<(string, Value)>)

  function Add<K>(m: map<K, map<string, Value>>, c: Cell<K>): map<K, map<string, Value>> {
    var fields := if c.key in m then m[c.key] else map[];
    m[c.key := if c.write.Some? then fields[c.write.value.0 := c.write.value.1] else fields]
  }

  function Gather<K>(cells: seq<Cell<K>>): map<K, map<string, Value>> {
    if cells == [] then map[] else Add(Gather(cells[..|cells| - 1]), cells[|cells| - 1])
  }

  /** The last value written to a field of a key. */
  function LastWrite<K(==)>(cells: seq<Cell<K>>, key: K, field: string): Option<Value> {
    if cells == [] then None else
    var c := cells[|cells| - 1];
    if c.key == key && c.write.Some? && c.write.value.0 == field then Some(c.write.value.1)
    else LastWrite(cells[..|cells| - 1], key, field)
  }

  ghost predicate Occurs<K>(cells: seq<Cell<K>>, key: K) { exists i :: 0 <= i < |cells| && cells[i].key == key }

  lemma OccursStep<K>(cells: seq<Cell<K>>, c: Cell<K>, key: K)
    ensures Occurs(cells + [c], key) <==> Occurs(cells, key) || c.key == key
  {
    if Occurs(cells, key) {
      var i :| 0 <= i < |cells| && cells[i].key == key;
      assert (cells + [c])[i].key == key;
    }
    if c.key == key { assert (cells + [c])[|cells|].key == key; }
  }

  /** One bag per key that occurs, holding for each field the last value written to it and nothing else. */
  lemma {:induction false} GatherIsLastWrites<K>(cells: seq<Cell<K>>, key: K)
    ensures key in Gather(cells) <==> Occurs(cells, key)
    ensures forall f :: key in Gather(cells) ==>
      if f in Gather(cells)[key] then LastWrite(cells, key, f) == Some(Gather(cells)[key][f])
      else LastWrite(cells, key, f) == None
    ensures !Occurs(cells, key) ==> forall f :: LastWrite(cells, key, f) == None
  {
    if cells != [] {
      var init, c := cells[..|cells| - 1], cells[|cells| - 1];
      assert cells == init + [c];
      GatherIsLastWrites(init, key);
      OccursStep(init, c, key);
    }
  }

  lemma GatherStep<K>(cells: seq<Cell<K>>, c: Cell<K>)
    ensures Gather(cells + [c]) == Add(Gather(cells), c)
  {
    assert (cells + [c])[..|cells|] == cells;
  }

  /** The map update of both parsers: make the key known, then write. */
  method AddCell<K(==)>(m: map<K, map<string, Value>>, c: Cell<K>) returns (m': map<K, map<string, Value>>)
    ensures m' == Add(m, c)
  {
    m' := m;
    if c.key !in m' {
      m' := m'[c.key := map[]];
    }
    if c.write.Some? {
      m' := m'[c.key := m'[c.key][c.write.value.0 := c.write.value.1]];
    }
  }
}
