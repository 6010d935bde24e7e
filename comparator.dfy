/** `CompareSchemas`: reports, under keys `<table>` and `<table>.<member>`, what the
    first schema has that the second lacks or holds differently, and which tables
    only the second schema has. */
module Comparator {
  import opened Wrappers
  import opened GoStrings
  import opened Models

  const TableMissingInSecond := "Таблица отсутствует во второй схеме"
  const ColumnMissingInSecond := "Колонка отсутствует во второй схеме"
  const ColumnsDiffer := "Колонки отличаются"
  const IndexMissingInSecond := "Индекс отсутствует во второй схеме"
  const IndexesDiffer := "Индексы отличаются"
  const ConstraintMissingInSecond := "Констрейн отсутствует во второй схеме"
  const ConstraintsDiffer := "Констрейны отличаются"
  const TableMissingInFirst := "Таблица отсутствует в первой схеме"

  /** The key under which a member of a table is reported. */
  function MemberKey(table: string, member: string): string
  {
    table + "." + member
  }

  /** The entries one member loop writes for the members of `m1` named in `names`:
      "missing" for a name the second map lacks, "differs" for a name whose two
      values are not equal. */
  function MemberDiffsOver<T(==)>(table: string, m1: map<string, T>, m2: map<string, T>,
                                 names: set<string>, missing: string, differs: string): map<string, string>
  {
    MemberKeyInjective(table);
    map n | n in names && n in m1 && (n !in m2 || m1[n] != m2[n]) ::
      MemberKey(table, n) := if n in m2 then differs else missing
  }

  function MemberDiffs<T(==)>(table: string, m1: map<string, T>, m2: map<string, T>,
                             missing: string, differs: string): map<string, string>
  {
    MemberDiffsOver(table, m1, m2, m1.Keys, missing, differs)
  }

  /** What the three member loops write for a table both schemas have; a later
      loop overwrites an earlier one's entry under the same key. */
  function TableDiffs(table: string, t1: Table, t2: Table): map<string, string>
  {
    MemberDiffs(table, t1.Columns, t2.Columns, ColumnMissingInSecond, ColumnsDiffer)
    + MemberDiffs(table, t1.Indexes, t2.Indexes, IndexMissingInSecond, IndexesDiffer)
    + MemberDiffs(table, t1.Constraints, t2.Constraints, ConstraintMissingInSecond, ConstraintsDiffer)
  }

  /** What the first phase writes while visiting table `name` of the first schema. */
  function Contribution(s1: Schema, s2: Schema, name: string): map<string, string>
    requires name in s1.Tables
  {
    if name in s2.Tables then TableDiffs(name, s1.Tables[name], s2.Tables[name])
    else map[name := TableMissingInSecond]
  }

  /** The first phase, visiting the first schema's tables in the order `order`. */
  function Phase1(s1: Schema, s2: Schema, order: seq<string>): map<string, string>
    requires forall i :: 0 <= i < |order| ==> order[i] in s1.Tables
  {
    if order == [] then map[]
    else Phase1(s1, s2, order[..|order| - 1]) + Contribution(s1, s2, order[|order| - 1])
  }

  /** The entries the second phase writes for the second schema's tables in `names`. */
  function MissingInFirstOver(s1: Schema, s2: Schema, names: set<string>): map<string, string>
  {
    map t | t in names && t in s2.Tables && t !in s1.Tables :: TableMissingInFirst
  }

  function MissingInFirst(s1: Schema, s2: Schema): map<string, string>
  {
    MissingInFirstOver(s1, s2, s2.Tables.Keys)
  }

  /** `order` lists every name of `names` exactly once. */
  ghost predicate Enumerates(order: seq<string>, names: set<string>)
  {
    && (forall i, j :: 0 <= i < j < |order| ==> order[i] != order[j])
    && (forall t :: t in order <==> t in names)
  }

  /** The difference map `CompareSchemas` produces when it visits the first schema's
      tables in the order `order`. */
  function InOrder(s1: Schema, s2: Schema, order: seq<string>): map<string, string>
    requires forall i :: 0 <= i < |order| ==> order[i] in s1.Tables
  {
    Phase1(s1, s2, order) + MissingInFirst(s1, s2)
  }

  /** The table a key belongs to: its text before the first dot. */
  function Owner(key: string): string
  {
    key[..PrefixLength(key, c => c != '.')]
  }

  /** No table name of the schema contains a dot. Then `<table>` and
      `<table>.<member>` keys of different tables never coincide. */
  predicate DotFree(s: Schema)
  {
    forall t :: t in s.Tables ==> '.' !in t
  }

  /** The entries of the visited tables in `tables`, each key taken from the table
      that owns it. */
  function ContributedKeys(s1: Schema, s2: Schema, tables: set<string>): set<string>
    requires tables <= s1.Tables.Keys
  {
    set t, k | t in tables && k in Contribution(s1, s2, t) :: k
  }

  function OwnedEntries(s1: Schema, s2: Schema, tables: set<string>): map<string, string>
    requires tables <= s1.Tables.Keys
  {
    map k | k in ContributedKeys(s1, s2, tables) && Owner(k) in tables && k in Contribution(s1, s2, Owner(k)) ::
      Contribution(s1, s2, Owner(k))[k]
  }

  /** The order-free description of the result: each table of the first schema
      contributes its own entries, and the tables only the second schema has are
      reported last. */
  function Differences(s1: Schema, s2: Schema): map<string, string>
  {
    OwnedEntries(s1, s2, s1.Tables.Keys) + MissingInFirst(s1, s2)
  }

  /** Every member of `m1` is in `m2` with an equal value. */
  predicate Covers<T(==)>(m1: map<string, T>, m2: map<string, T>)
  {
    forall n :: n in m1 ==> n in m2 && m2[n] == m1[n]
  }

  /** The member loops report nothing for this pair of tables. */
  predicate TableCovered(t1: Table, t2: Table)
  {
    Covers(t1.Columns, t2.Columns) && Covers(t1.Indexes, t2.Indexes) && Covers(t1.Constraints, t2.Constraints)
  }

  /** The condition under which `CompareSchemas` reports the schemas equal: the same
      table names, and every member of a first-schema table present and equal in
      the second. Members only the second schema has, and the tables' `Name` and
      `Comment`, play no part. */
  predicate Reconciled(s1: Schema, s2: Schema)
  {
    && s1.Tables.Keys == s2.Tables.Keys
    && forall t :: t in s1.Tables ==> TableCovered(s1.Tables[t], s2.Tables[t])
  }

  /** What one member loop writes under the key of member `n`, if anything. */
  function MemberStatus<T(==)>(m1: map<string, T>, m2: map<string, T>, n: string,
                               missing: string, differs: string): Option<string>
  {
    if n !in m1 then None
    else if n !in m2 then Some(missing)
    else if m1[n] != m2[n] then Some(differs)
    else None
  }

  /** What the three member loops leave under `<table>.<n>`: the constraint loop
      runs last and wins, then the index loop, then the column loop. */
  function MemberReport(t1: Table, t2: Table, n: string): Option<string>
  {
    var c := MemberStatus(t1.Constraints, t2.Constraints, n, ConstraintMissingInSecond, ConstraintsDiffer);
    var i := MemberStatus(t1.Indexes, t2.Indexes, n, IndexMissingInSecond, IndexesDiffer);
    var col := MemberStatus(t1.Columns, t2.Columns, n, ColumnMissingInSecond, ColumnsDiffer);
    if c.Some? then c else if i.Some? then i else col
  }

  /** One member loop of `CompareSchemas`, over the members of `m1` in any order. */
  method CompareMembers<T(==)>(differences: map<string, string>, table: string,
                               m1: map<string, T>, m2: map<string, T>,
                               missing: string, differs: string)
    returns (r: map<string, string>)
    ensures r == differences + MemberDiffs(table, m1, m2, missing, differs)
  {
    r := differences;
    var pending := m1.Keys;
    while pending != {}
      invariant pending <= m1.Keys
      invariant r == differences + MemberDiffsOver(table, m1, m2, m1.Keys - pending, missing, differs)
      decreases pending
    {
      var name :| name in pending;
      MemberStep(differences, r, table, m1, m2, m1.Keys - pending, name, missing, differs);
      assert m1.Keys - (pending - {name}) == (m1.Keys - pending) + {name};
      pending := pending - {name};
      var v1 := m1[name];
      if name !in m2 {
        r := r[MemberKey(table, name) := missing];
        continue;
      }
      if v1 != m2[name] {
        r := r[MemberKey(table, name) := differs];
      }
    }
    assert m1.Keys - pending == m1.Keys;
  }

  /** The three member loops of `CompareSchemas` for a table both schemas have:
      columns, then indexes, then constraints. */
  method CompareTables(differences: map<string, string>, tableName: string, table1: Table, table2: Table)
    returns (r: map<string, string>)
    ensures r == differences + TableDiffs(tableName, table1, table2)
  {
    r := CompareMembers(differences, tableName, table1.Columns, table2.Columns,
                        ColumnMissingInSecond, ColumnsDiffer);
    r := CompareMembers(r, tableName, table1.Indexes, table2.Indexes,
                        IndexMissingInSecond, IndexesDiffer);
    r := CompareMembers(r, tableName, table1.Constraints, table2.Constraints,
                        ConstraintMissingInSecond, ConstraintsDiffer);
    TableDiffsAssociate(differences, tableName, table1, table2);
  }

  /** The final loop of `CompareSchemas`: the tables only the second schema has. */
  method ReportMissingInFirst(differences: map<string, string>, schema1: Schema, schema2: Schema)
    returns (r: map<string, string>)
    ensures r == differences + MissingInFirst(schema1, schema2)
  {
    r := differences;
    var second := schema2.Tables.Keys;
    while second != {}
      invariant second <= schema2.Tables.Keys
      invariant r == differences + MissingInFirstOver(schema1, schema2, schema2.Tables.Keys - second)
      decreases second
    {
      var tableName :| tableName in second;
      MissingStep(schema1, schema2, differences, schema2.Tables.Keys - second, tableName);
      assert schema2.Tables.Keys - (second - {tableName}) == (schema2.Tables.Keys - second) + {tableName};
      second := second - {tableName};
      if tableName !in schema1.Tables {
        r := r[tableName := TableMissingInFirst];
      }
    }
    assert schema2.Tables.Keys - second == schema2.Tables.Keys;
  }

  /** The first loop of `CompareSchemas`: every table of the first schema, in an
      order the method chooses freely, as Go's map iteration does. */
  method ReportFirstTables(schema1: Schema, schema2: Schema)
    returns (differences: map<string, string>, ghost order: seq<string>)
    ensures forall i :: 0 <= i < |order| ==> order[i] in schema1.Tables
    ensures Enumerates(order, schema1.Tables.Keys)
    ensures differences == Phase1(schema1, schema2, order)
  {
    differences := map[];
    order := [];
    var pending := schema1.Tables.Keys;
    while pending != {}
      invariant pending <= schema1.Tables.Keys
      invariant forall i :: 0 <= i < |order| ==> order[i] in schema1.Tables
      invariant Enumerates(order, schema1.Tables.Keys - pending)
      invariant differences == Phase1(schema1, schema2, order)
      decreases pending
    {
      var tableName :| tableName in pending;
      Phase1Snoc(schema1, schema2, order, tableName);
      EnumeratesSnoc(order, schema1.Tables.Keys - pending, tableName);
      pending := pending - {tableName};
      order := order + [tableName];
      var table1 := schema1.Tables[tableName];
      if tableName !in schema2.Tables {
        differences := differences[tableName := TableMissingInSecond];
        continue;
      }
      var table2 := schema2.Tables[tableName];
      differences := CompareTables(differences, tableName, table1, table2);
    }
    assert schema1.Tables.Keys - pending == schema1.Tables.Keys;
  }

  /** `CompareSchemas`. The result is the one for the order in which the first
      schema's tables were visited, and the one `Differences` describes whenever
      no table name of the first schema contains a dot. */
  method CompareSchemas(schema1: Schema, schema2: Schema) returns (equal: bool, differences: map<string, string>)
    ensures equal <==> differences == map[]
    ensures equal <==> Reconciled(schema1, schema2)
    ensures schema1 == schema2 ==> equal
    ensures forall t :: t in schema2.Tables && t !in schema1.Tables ==>
              t in differences && differences[t] == TableMissingInFirst
    ensures exists order :: Enumerates(order, schema1.Tables.Keys) && differences == InOrder(schema1, schema2, order)
    ensures DotFree(schema1) ==> differences == Differences(schema1, schema2)
  {
    ghost var order;
    differences, order := ReportFirstTables(schema1, schema2);
    differences := ReportMissingInFirst(differences, schema1, schema2);
    equal := |differences| == 0;
    ResultProperties(schema1, schema2, order, differences);
  }

  // ---------------------------------------------------------------------------
  // Proof steps

  lemma MemberStep<T>(d: map<string, string>, r: map<string, string>, table: string,
                     m1: map<string, T>, m2: map<string, T>, done: set<string>, name: string,
                     missing: string, differs: string)
    requires name in m1 && name !in done
    requires r == d + MemberDiffsOver(table, m1, m2, done, missing, differs)
    ensures name !in m2 ==>
      r[MemberKey(table, name) := missing] == d + MemberDiffsOver(table, m1, m2, done + {name}, missing, differs)
    ensures name in m2 && m1[name] != m2[name] ==>
      r[MemberKey(table, name) := differs] == d + MemberDiffsOver(table, m1, m2, done + {name}, missing, differs)
    ensures name in m2 && m1[name] == m2[name] ==>
      r == d + MemberDiffsOver(table, m1, m2, done + {name}, missing, differs)
  {
    var before := MemberDiffsOver(table, m1, m2, done, missing, differs);
    MemberDiffsOverAdd(table, m1, m2, done, name, missing, differs);
    UnionUpdate(d, before, MemberKey(table, name), missing);
    UnionUpdate(d, before, MemberKey(table, name), differs);
  }

  lemma MissingStep(s1: Schema, s2: Schema, p: map<string, string>, done: set<string>, t: string)
    ensures t !in s1.Tables && t in s2.Tables ==>
      (p + MissingInFirstOver(s1, s2, done))[t := TableMissingInFirst] == p + MissingInFirstOver(s1, s2, done + {t})
    ensures t in s1.Tables ==>
      p + MissingInFirstOver(s1, s2, done) == p + MissingInFirstOver(s1, s2, done + {t})
  {
    var m := MissingInFirstOver(s1, s2, done);
    UnionUpdate(p, m, t, TableMissingInFirst);
    if t !in s1.Tables && t in s2.Tables {
      assert MissingInFirstOver(s1, s2, done + {t}) == m[t := TableMissingInFirst];
    } else if t in s1.Tables {
      assert MissingInFirstOver(s1, s2, done + {t}) == m;
    }
  }

  lemma EnumeratesSnoc(order: seq<string>, names: set<string>, t: string)
    requires Enumerates(order, names) && t !in names
    ensures Enumerates(order + [t], names + {t})
  {
  }

  lemma Phase1Snoc(s1: Schema, s2: Schema, order: seq<string>, t: string)
    requires forall i :: 0 <= i < |order| ==> order[i] in s1.Tables
    requires t in s1.Tables
    ensures forall i :: 0 <= i < |order + [t]| ==> (order + [t])[i] in s1.Tables
    ensures t !in s2.Tables ==>
      Phase1(s1, s2, order + [t]) == Phase1(s1, s2, order)[t := TableMissingInSecond]
    ensures t in s2.Tables ==>
      Phase1(s1, s2, order + [t]) == Phase1(s1, s2, order) + TableDiffs(t, s1.Tables[t], s2.Tables[t])
  {
    Phase1Append(s1, s2, order, t);
    if t !in s2.Tables {
      UnionSingleton(Phase1(s1, s2, order), t, TableMissingInSecond);
    }
  }

  lemma Phase1Append(s1: Schema, s2: Schema, order: seq<string>, t: string)
    requires forall i :: 0 <= i < |order| ==> order[i] in s1.Tables
    requires t in s1.Tables
    ensures forall i :: 0 <= i < |order + [t]| ==> (order + [t])[i] in s1.Tables
    ensures Phase1(s1, s2, order + [t]) == Phase1(s1, s2, order) + Contribution(s1, s2, t)
  {
    assert (order + [t])[..|order|] == order;
  }

  lemma UnionSingleton(m: map<string, string>, k: string, v: string)
    ensures m + map[k := v] == m[k := v]
  {
  }

  lemma TableDiffsAssociate(d: map<string, string>, table: string, t1: Table, t2: Table)
    ensures d + MemberDiffs(table, t1.Columns, t2.Columns, ColumnMissingInSecond, ColumnsDiffer)
              + MemberDiffs(table, t1.Indexes, t2.Indexes, IndexMissingInSecond, IndexesDiffer)
              + MemberDiffs(table, t1.Constraints, t2.Constraints, ConstraintMissingInSecond, ConstraintsDiffer)
            == d + TableDiffs(table, t1, t2)
  {
    UnionAssociates(d, MemberDiffs(table, t1.Columns, t2.Columns, ColumnMissingInSecond, ColumnsDiffer),
                    MemberDiffs(table, t1.Indexes, t2.Indexes, IndexMissingInSecond, IndexesDiffer),
                    MemberDiffs(table, t1.Constraints, t2.Constraints, ConstraintMissingInSecond, ConstraintsDiffer));
  }

  lemma UnionAssociates(d: map<string, string>, a: map<string, string>, b: map<string, string>, c: map<string, string>)
    ensures d + a + b + c == d + (a + b + c)
  {
  }

  lemma UnionUpdate(d: map<string, string>, a: map<string, string>, k: string, v: string)
    ensures (d + a)[k := v] == d + a[k := v]
  {
  }

  lemma MemberDiffsOverAdd<T>(table: string, m1: map<string, T>, m2: map<string, T>,
                                  names: set<string>, name: string, missing: string, differs: string)
    requires name in m1 && name !in names
    ensures MemberDiffsOver(table, m1, m2, names + {name}, missing, differs)
         == if name !in m2 then MemberDiffsOver(table, m1, m2, names, missing, differs)[MemberKey(table, name) := missing]
            else if m1[name] != m2[name] then MemberDiffsOver(table, m1, m2, names, missing, differs)[MemberKey(table, name) := differs]
            else MemberDiffsOver(table, m1, m2, names, missing, differs)
  {
    if name !in m2 {
      MemberDiffsOverMissing(table, m1, m2, names, name, missing, differs);
    } else if m1[name] != m2[name] {
      MemberDiffsOverDiffers(table, m1, m2, names, name, missing, differs);
    } else {
      MemberDiffsOverSame(table, m1, m2, names, name, missing, differs);
    }
  }

  lemma MemberDiffsOverMissing<T>(table: string, m1: map<string, T>, m2: map<string, T>,
                                  names: set<string>, name: string, missing: string, differs: string)
    requires name in m1 && name !in names && name !in m2
    ensures MemberDiffsOver(table, m1, m2, names + {name}, missing, differs)
         == MemberDiffsOver(table, m1, m2, names, missing, differs)[MemberKey(table, name) := missing]
  {
    MemberKeyInjective(table);
  }

  lemma MemberDiffsOverDiffers<T>(table: string, m1: map<string, T>, m2: map<string, T>,
                                  names: set<string>, name: string, missing: string, differs: string)
    requires name in m1 && name !in names && name in m2 && m1[name] != m2[name]
    ensures MemberDiffsOver(table, m1, m2, names + {name}, missing, differs)
         == MemberDiffsOver(table, m1, m2, names, missing, differs)[MemberKey(table, name) := differs]
  {
    MemberKeyInjective(table);
  }

  lemma MemberDiffsOverSame<T>(table: string, m1: map<string, T>, m2: map<string, T>,
                               names: set<string>, name: string, missing: string, differs: string)
    requires name in m1 && name !in names && name in m2 && m1[name] == m2[name]
    ensures MemberDiffsOver(table, m1, m2, names + {name}, missing, differs)
         == MemberDiffsOver(table, m1, m2, names, missing, differs)
  {
    MemberKeyInjective(table);
  }

  lemma MemberKeyInjective(table: string)
    ensures forall a, b :: MemberKey(table, a) == MemberKey(table, b) ==> a == b
  {
    forall a, b | MemberKey(table, a) == MemberKey(table, b)
      ensures a == b
    {
      assert a == MemberKey(table, a)[|table| + 1..];
      assert b == MemberKey(table, b)[|table| + 1..];
    }
  }

  /** Keys a dot-free table contributes are owned by that table. */
  lemma OwnerOfContribution(s1: Schema, s2: Schema, t: string, k: string)
    requires t in s1.Tables && '.' !in t && k in Contribution(s1, s2, t)
    ensures Owner(k) == t
  {
    if k != t {
      var n :| MemberKey(t, n) == k;
      OwnerOfMemberKey(t, n);
    } else {
      OwnerOfDotFree(t);
    }
  }

  lemma OwnerOfDotFree(t: string)
    requires '.' !in t
    ensures Owner(t) == t
  {
  }

  lemma OwnerOfMemberKey(t: string, n: string)
    requires '.' !in t
    ensures Owner(MemberKey(t, n)) == t
  {
    var k := MemberKey(t, n);
    var p := PrefixLength(k, c => c != '.');
    assert k[|t|] == '.';
    assert forall i :: 0 <= i < |t| ==> k[i] == t[i] && t[i] in t;
    assert k[..|t|] == t;
  }

  lemma OwnedEntriesAdd(s1: Schema, s2: Schema, tables: set<string>, t: string)
    requires tables <= s1.Tables.Keys && t in s1.Tables && '.' !in t
    ensures OwnedEntries(s1, s2, tables + {t}) == OwnedEntries(s1, s2, tables) + Contribution(s1, s2, t)
  {
    var lhs := OwnedEntries(s1, s2, tables + {t});
    var old_ := OwnedEntries(s1, s2, tables);
    var c := Contribution(s1, s2, t);
    var rhs := old_ + c;
    forall k | k in lhs
      ensures k in rhs && lhs[k] == rhs[k]
    {
      var o := Owner(k);
      if o == t {
        assert k in c;
      } else {
        assert o in tables && k in Contribution(s1, s2, o);
        assert k in ContributedKeys(s1, s2, tables);
        assert k in old_;
        if k in c {
          OwnerOfContribution(s1, s2, t, k);
        }
      }
    }
    forall k | k in rhs
      ensures k in lhs
    {
      if k in c {
        OwnerOfContribution(s1, s2, t, k);
        assert k in ContributedKeys(s1, s2, tables + {t});
      } else {
        var o := Owner(k);
        assert o in tables && k in Contribution(s1, s2, o);
        assert k in ContributedKeys(s1, s2, tables + {t});
      }
    }
    assert lhs == rhs;
  }

  /** Visiting dot-free tables in any order yields the entries each owns. */
  lemma {:induction false} Phase1IsOwnedEntries(s1: Schema, s2: Schema, order: seq<string>)
    requires forall i :: 0 <= i < |order| ==> order[i] in s1.Tables && '.' !in order[i]
    ensures Phase1(s1, s2, order) == OwnedEntries(s1, s2, set t | t in order)
  {
    if order != [] {
      var init := order[..|order| - 1];
      assert forall i :: 0 <= i < |init| ==> init[i] == order[i];
      Phase1IsOwnedEntries(s1, s2, init);
      Phase1Step(s1, s2, order, init);
    } else {
      assert (set t | t in order) == {};
    }
  }

  lemma Phase1Step(s1: Schema, s2: Schema, order: seq<string>, init: seq<string>)
    requires order != [] && init == order[..|order| - 1]
    requires forall i :: 0 <= i < |order| ==> order[i] in s1.Tables && '.' !in order[i]
    requires Phase1(s1, s2, init) == OwnedEntries(s1, s2, set x | x in init)
    ensures Phase1(s1, s2, order) == OwnedEntries(s1, s2, set x | x in order)
  {
    var t := order[|order| - 1];
    NamesOfSnoc(order, init, t);
    OwnedEntriesAdd(s1, s2, (set x | x in init), t);
  }

  lemma NamesOfSnoc(order: seq<string>, init: seq<string>, t: string)
    requires order == init + [t]
    ensures (set x | x in order) == (set x | x in init) + {t}
  {
  }

  /** When the first schema's table names contain no dot, the result does not
      depend on the order the tables are visited in. */
  lemma OrderIndependent(s1: Schema, s2: Schema, order: seq<string>)
    requires Enumerates(order, s1.Tables.Keys) && DotFree(s1)
    ensures InOrder(s1, s2, order) == Differences(s1, s2)
  {
    Phase1IsOwnedEntries(s1, s2, order);
    assert (set t | t in order) == s1.Tables.Keys;
  }

  // ---------------------------------------------------------------------------
  // Properties of the result

  /** The properties `CompareSchemas` promises of the result for a visiting order. */
  lemma ResultProperties(s1: Schema, s2: Schema, order: seq<string>, d: map<string, string>)
    requires forall i :: 0 <= i < |order| ==> order[i] in s1.Tables
    requires Enumerates(order, s1.Tables.Keys) && d == InOrder(s1, s2, order)
    ensures d == map[] <==> Reconciled(s1, s2)
    ensures s1 == s2 ==> d == map[]
    ensures forall t :: t in s2.Tables && t !in s1.Tables ==> t in d && d[t] == TableMissingInFirst
    ensures DotFree(s1) ==> d == Differences(s1, s2)
  {
    NoDifferencesIff(s1, s2, order);
    if DotFree(s1) {
      OrderIndependent(s1, s2, order);
    }
  }

  lemma MemberDiffsAt<T>(table: string, m1: map<string, T>, m2: map<string, T>, n: string,
                         missing: string, differs: string)
    ensures MemberKey(table, n) in MemberDiffs(table, m1, m2, missing, differs)
        <==> MemberStatus(m1, m2, n, missing, differs).Some?
    ensures MemberStatus(m1, m2, n, missing, differs).Some? ==>
      MemberDiffs(table, m1, m2, missing, differs)[MemberKey(table, n)] == MemberStatus(m1, m2, n, missing, differs).value
  {
    MemberKeyInjective(table);
  }

  lemma MemberDiffsEmpty<T>(table: string, m1: map<string, T>, m2: map<string, T>, missing: string, differs: string)
    ensures MemberDiffs(table, m1, m2, missing, differs) == map[] <==> Covers(m1, m2)
  {
    if !Covers(m1, m2) {
      var n :| n in m1 && !(n in m2 && m2[n] == m1[n]);
      MemberDiffsAt(table, m1, m2, n, missing, differs);
    }
  }

  lemma TableDiffsEmpty(table: string, t1: Table, t2: Table)
    ensures TableDiffs(table, t1, t2) == map[] <==> TableCovered(t1, t2)
  {
    MemberDiffsEmpty(table, t1.Columns, t2.Columns, ColumnMissingInSecond, ColumnsDiffer);
    MemberDiffsEmpty(table, t1.Indexes, t2.Indexes, IndexMissingInSecond, IndexesDiffer);
    MemberDiffsEmpty(table, t1.Constraints, t2.Constraints, ConstraintMissingInSecond, ConstraintsDiffer);
  }

  /** The first phase reports nothing exactly when every visited table is in the
      second schema and covered by it. */
  lemma {:induction false} Phase1Empty(s1: Schema, s2: Schema, order: seq<string>)
    requires forall i :: 0 <= i < |order| ==> order[i] in s1.Tables
    ensures Phase1(s1, s2, order) == map[] <==>
      forall i :: 0 <= i < |order| ==> order[i] in s2.Tables && TableCovered(s1.Tables[order[i]], s2.Tables[order[i]])
  {
    if order != [] {
      var init := order[..|order| - 1];
      var t := order[|order| - 1];
      Phase1Empty(s1, s2, init);
      if t in s2.Tables {
        TableDiffsEmpty(t, s1.Tables[t], s2.Tables[t]);
      } else {
        assert t in Contribution(s1, s2, t);
      }
      assert forall i :: 0 <= i < |init| ==> init[i] == order[i];
    }
  }

  /** `CompareSchemas` finds no difference exactly when the schemas are reconciled. */
  lemma NoDifferencesIff(s1: Schema, s2: Schema, order: seq<string>)
    requires Enumerates(order, s1.Tables.Keys)
    ensures forall i :: 0 <= i < |order| ==> order[i] in s1.Tables
    ensures InOrder(s1, s2, order) == map[] <==> Reconciled(s1, s2)
  {
    Phase1Empty(s1, s2, order);
    if InOrder(s1, s2, order) == map[] {
      EmptyCovers(s1, s2, order);
    }
  }

  lemma EmptyCovers(s1: Schema, s2: Schema, order: seq<string>)
    requires Enumerates(order, s1.Tables.Keys)
    requires forall i :: 0 <= i < |order| ==> order[i] in s2.Tables && TableCovered(s1.Tables[order[i]], s2.Tables[order[i]])
    requires MissingInFirst(s1, s2) == map[]
    ensures Reconciled(s1, s2)
  {
    assert forall t :: t in s2.Tables && t !in s1.Tables ==> t in MissingInFirst(s1, s2);
    forall t | t in s1.Tables
      ensures t in s2.Tables && TableCovered(s1.Tables[t], s2.Tables[t])
    {
      var i :| 0 <= i < |order| && order[i] == t;
    }
  }

  /** A table only the first schema has is reported under its own name, and none
      of its members is reported. */
  lemma TableOnlyInFirst(s1: Schema, s2: Schema, t: string)
    requires DotFree(s1) && DotFree(s2) && t in s1.Tables && t !in s2.Tables
    ensures t in Differences(s1, s2) && Differences(s1, s2)[t] == TableMissingInSecond
    ensures forall n :: MemberKey(t, n) !in Differences(s1, s2)
  {
    OwnerOfDotFree(t);
    assert t in Contribution(s1, s2, t);
    assert t in ContributedKeys(s1, s2, s1.Tables.Keys);
    forall n
      ensures MemberKey(t, n) !in Differences(s1, s2)
    {
      var k := MemberKey(t, n);
      OwnerOfMemberKey(t, n);
      assert k[|t|] == '.';
      assert k !in s2.Tables;
    }
  }

  /** For a table both schemas have, the entry under `<table>.<n>` is the one
      `MemberReport` describes, and there is none when it describes none. */
  lemma MemberReported(s1: Schema, s2: Schema, t: string, n: string)
    requires DotFree(s1) && DotFree(s2) && t in s1.Tables && t in s2.Tables
    ensures MemberKey(t, n) in Differences(s1, s2) <==> MemberReport(s1.Tables[t], s2.Tables[t], n).Some?
    ensures MemberReport(s1.Tables[t], s2.Tables[t], n).Some? ==>
      Differences(s1, s2)[MemberKey(t, n)] == MemberReport(s1.Tables[t], s2.Tables[t], n).value
  {
    var k := MemberKey(t, n);
    var t1, t2 := s1.Tables[t], s2.Tables[t];
    OwnerOfMemberKey(t, n);
    assert k[|t|] == '.';
    assert k !in MissingInFirst(s1, s2);
    MemberDiffsAt(t, t1.Columns, t2.Columns, n, ColumnMissingInSecond, ColumnsDiffer);
    MemberDiffsAt(t, t1.Indexes, t2.Indexes, n, IndexMissingInSecond, IndexesDiffer);
    MemberDiffsAt(t, t1.Constraints, t2.Constraints, n, ConstraintMissingInSecond, ConstraintsDiffer);
    if k in Contribution(s1, s2, t) {
      assert k in ContributedKeys(s1, s2, s1.Tables.Keys);
    }
  }

  /** A name that no member map of the first table holds is never reported, even
      when the second table has a member under it. */
  lemma SecondOnlyMembersIgnored(s1: Schema, s2: Schema, t: string, n: string)
    requires DotFree(s1) && DotFree(s2) && t in s1.Tables && t in s2.Tables
    requires n !in s1.Tables[t].Columns && n !in s1.Tables[t].Indexes && n !in s1.Tables[t].Constraints
    ensures MemberKey(t, n) !in Differences(s1, s2)
  {
    MemberReported(s1, s2, t, n);
  }

  /** Index columns are an ordered list: the same columns in another order make the
      index differ, unless a constraint of the same name reports over it. */
  lemma ReorderedIndexColumnsDiffer(s1: Schema, s2: Schema, t: string, n: string)
    requires DotFree(s1) && DotFree(s2) && t in s1.Tables && t in s2.Tables
    requires n in s1.Tables[t].Indexes && n in s2.Tables[t].Indexes && n !in s1.Tables[t].Constraints
    requires s1.Tables[t].Indexes[n].Columns != s2.Tables[t].Indexes[n].Columns
    ensures MemberKey(t, n) in Differences(s1, s2) && Differences(s1, s2)[MemberKey(t, n)] == IndexesDiffer
  {
    MemberReported(s1, s2, t, n);
  }
}
