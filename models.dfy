/** The canonical schema values that both parsers build and the comparator reads.
    Every one of them is a plain value: the comparator cannot modify its inputs. */
module Models {

  /** A table column. `Default` and `Comment` use `""` for "absent"; `NotNull`
      starts out false. */
  datatype Column = Column(Name: string, Type: string, NotNull: bool, Default: string, Comment: string)

  /** An index; `Columns` is ordered, so the same names in another order make a
      different index. */
  datatype Index = Index(Name: string, Columns: seq<string>, Unique: bool)

  /** A constraint. `Type` is documented as one of the four constraint kinds below
      and `References` as used by `FOREIGN KEY` only. */
  datatype Constraint = Constraint(Name: string, Type: string, Columns: seq<string>, References: string)

  /** A table: name-keyed maps of its members, plus its own name and comment. */
  datatype Table = Table(
    Name: string,
    Columns: map<string, Column>,
    Indexes: map<string, Index>,
    Constraints: map<string, Constraint>,
    Comment: string)

  /** A schema maps each table name to its table. */
  datatype Schema = Schema(Tables: map<string, Table>)

  const PrimaryKey := "PRIMARY KEY"
  const ForeignKey := "FOREIGN KEY"
  const Unique := "UNIQUE"
  const Check := "CHECK"

  /** The constraint kinds the model documents. */
  predicate DocumentedConstraintType(t: string)
  {
    t == PrimaryKey || t == ForeignKey || t == Unique || t == Check
  }

  /** A column as a parser first creates it: only name and type set. */
  function NewColumn(name: string, typ: string): Column
  {
    Column(name, typ, false, "", "")
  }

  /** A table as a parser first creates it: a name and three empty maps. */
  function NewTable(name: string): Table
  {
    Table(name, map[], map[], map[], "")
  }
}
