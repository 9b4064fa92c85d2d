/**
 * The records the converter builds (try.py:11-36, ddlgeneratot.py:7-28), the
 * two program variants, and the insertion-ordered dictionary that holds the
 * tables.
 */
module Schema {
  import opened Wrappers

  /** `SQLDialect`: the target of try.py. */
  datatype Dialect = PostgreSQL | Oracle

  /**
   * Which of the two programs is modelled. `Basic` is ddlgeneratot.py, which
   * has no dialect and writes PostgreSQL-style output; `Versioned` is try.py
   * with the dialect chosen on its command line.
   */
  datatype Variant = Basic | Versioned(dialect: Dialect)

  /** An entry of the attribute catalog (the dictionary stored in `self.attributes`). */
  datatype Attribute = Attribute(
    columnCode: string,
    japaneseName: string,
    dataType: string,
    description: Option<string>)

  /** `Column`; `name` is `None` when a key marker is present but its pattern does not match. */
  datatype Column = Column(
    name: Option<string>,
    japaneseName: Option<string>,
    dataType: Option<string>,
    isPrimaryKey: bool,
    isForeignKey: bool,
    isGenerated: bool,
    description: Option<string>)

  /** `Relationship`: `kind` is the operator token copied from the line. */
  datatype Relationship = Relationship(fromTable: string, toTable: string, kind: string)

  /** `Table`; the parser never fills `relationships`, which stays `None`. */
  datatype Table = Table(
    name: string,
    japaneseName: Option<string>,
    columns: seq<Column>,
    relationships: Option<seq<Relationship>>)

  /** Python truthiness of an optional string: `None` and `""` are false. */
  predicate Truthy(o: Option<string>) {
    o.Some? && o.value != ""
  }

  /**
   * `self.tables`, a Python dict: its entries in insertion order. Assigning
   * to an existing key replaces the value where it stands.
   */
  type TableMap = seq<(string, Table)>

  function Keys(m: TableMap): (ks: seq<string>)
    ensures |ks| == |m|
    ensures forall i | 0 <= i < |m| :: ks[i] == m[i].0
  {
    if m == [] then [] else [m[0].0] + Keys(m[1..])
  }

  predicate UniqueKeys(m: TableMap) {
    forall i, j | 0 <= i < j < |m| :: m[i].0 != m[j].0
  }

  /** `self.tables.get(key)` */
  function Lookup(m: TableMap, key: string): (r: Option<Table>)
    ensures r.Some? <==> key in Keys(m)
    ensures forall i | 0 <= i < |m| && m[i].0 == key && (forall j | 0 <= j < i :: m[j].0 != key) :: r == Some(m[i].1)
  {
    if m == [] then None
    else if m[0].0 == key then Some(m[0].1)
    else Lookup(m[1..], key)
  }

  /** `self.tables[key] = value` */
  function Put(m: TableMap, key: string, value: Table): (r: TableMap)
    ensures Keys(r) == if key in Keys(m) then Keys(m) else Keys(m) + [key]
    ensures Lookup(r, key) == Some(value)
    ensures forall k | k != key :: Lookup(r, k) == Lookup(m, k)
  {
    if m == [] then [(key, value)]
    else if m[0].0 == key then [(key, value)] + m[1..]
    else [m[0]] + Put(m[1..], key, value)
  }

  /** Assigning to a key never creates a second entry for it. */
  lemma {:induction false} PutUnique(m: TableMap, key: string, value: Table)
    requires UniqueKeys(m)
    ensures UniqueKeys(Put(m, key, value))
  {
    if m != [] {
      UniqueTail(m);
      if m[0].0 == key {
        UniqueCons((key, value), m[1..]);
      } else {
        var rest := Put(m[1..], key, value);
        PutUnique(m[1..], key, value);
        assert m[0].0 !in Keys(rest);
        UniqueCons(m[0], rest);
      }
    }
  }

  lemma UniqueTail(m: TableMap)
    requires m != [] && UniqueKeys(m)
    ensures UniqueKeys(m[1..]) && m[0].0 !in Keys(m[1..])
  {
    var t := m[1..];
    forall i, j | 0 <= i < j < |t|
      ensures t[i].0 != t[j].0
    {
      assert t[i] == m[i + 1] && t[j] == m[j + 1];
    }
  }

  lemma UniqueCons(x: (string, Table), rest: TableMap)
    requires UniqueKeys(rest) && x.0 !in Keys(rest)
    ensures UniqueKeys([x] + rest)
  {
    var r := [x] + rest;
    forall i, j | 0 <= i < j < |r|
      ensures r[i].0 != r[j].0
    {
      assert r[j] == rest[j - 1];
      if i == 0 {
        assert r[j].0 == Keys(rest)[j - 1];
      } else {
        assert r[i] == rest[i - 1];
      }
    }
  }
}
