/** The values that the binder (src/binder) works with: types, names with their
    aliases, tables, and column references.
 */
module SqlTypes {
  import opened Basics

  /** A binder exception, by its error code. */
  datatype BinderError =
    | UndefinedDatabase | FeatureNotSupported | UndefinedSchema | UndefinedTable | UndefinedColumn
    | DuplicateAlias | DuplicateTable | AmbiguousColumn | InvalidSchemaDefinition
    | DatatypeMismatch | SyntaxError | NumericValueOutOfRange

  datatype Result<+T> = Ok(value: T) | Throw(error: BinderError)

  datatype TypeId =
    | INVALID | BOOLEAN | TINYINT | SMALLINT | INTEGER | BIGINT | REAL | DECIMAL | TIMESTAMP | DATE
    | VARCHAR | VARBINARY | PARAMETER_OFFSET | VARIADIC | VAR_ARRAY

  const INVALID_OID: nat := 0

  const TEMP_OID_MASK: nat := 0x8000_0000

  /** MakeTempOid on a 32-bit oid: the lower 31 bits with the topmost one set. */
  function MakeTempOid(serial: nat): (oid: nat)
    ensures TEMP_OID_MASK <= oid < 2 * TEMP_OID_MASK && oid % TEMP_OID_MASK == serial % TEMP_OID_MASK
  {
    serial % TEMP_OID_MASK + TEMP_OID_MASK
  }

  // ---- Names ----

  function LowerChar(c: char): (r: char) {
    if 'A' <= c <= 'Z' then c - 'A' + 'a' else c
  }

  /** std::transform with ::tolower */
  function Lower(s: string): (r: string)
    ensures |r| == |s|
  {
    seq(|s|, i requires 0 <= i < |s| => LowerChar(s[i]))
  }

  lemma {:induction false} LowerTwice(s: string)
    ensures Lower(Lower(s)) == Lower(s)
  {
  }

  /** Letters in upper case become those in lower case, and nothing else changes. */
  lemma {:induction false} LowerLetters(s: string, i: nat)
    requires i < |s|
    ensures 'A' <= s[i] <= 'Z' ==> Lower(s)[i] - 'a' == s[i] - 'A'
    ensures !('A' <= s[i] <= 'Z') ==> Lower(s)[i] == s[i]
  {
  }

  /** AliasType: a name, with a serial number if that is valid. */
  datatype Alias = Alias(name: string, serial: Option<nat>)

  /** AliasType::operator==: an alias without serial number equals all of its name. */
  predicate SameAlias(a: Alias, b: Alias) {
    a.name == b.name && (a.serial.None? || b.serial.None? || a.serial == b.serial)
  }

  function SerialNo(a: Alias): (n: nat) {
    if a.serial.Some? then a.serial.value else 0
  }

  // ---- Tables ----

  datatype Column = Column(name: string, typ: TypeId, oid: nat)

  type Schema = seq<Column>

  predicate ColumnInSchema(schema: Schema, name: string) {
    exists i :: 0 <= i < |schema| && schema[i].name == name
  }

  /** Schema::GetColumn(name): the first column of that name. */
  function GetColumn(schema: Schema, name: string): (c: Column)
    requires ColumnInSchema(schema, name)
    ensures c in schema && c.name == name
  {
    if schema[0].name == name then schema[0] else GetColumn(schema[1..], name)
  }

  lemma {:induction false} GetColumnIsFirst(schema: Schema, name: string) returns (i: nat)
    requires ColumnInSchema(schema, name)
    ensures i < |schema| && GetColumn(schema, name) == schema[i] && schema[i].name == name
    ensures forall j :: 0 <= j < i ==> schema[j].name != name
    decreases |schema|
  {
    i := 0;
    if schema[0].name != name {
      i := GetColumnIsFirst(schema[1..], name);
      i := i + 1;
    }
  }

  /** TableMetadata */
  datatype Table = Table(db: nat, oid: nat, schema: Schema)

  /** The columns of a nested table: the entries of an unordered map, in whatever order
      the map is iterated. */
  datatype NestedColumn = NestedColumn(alias: Alias, typ: TypeId)

  type NestedTable = seq<NestedColumn>

  /** find(AliasType(name)): the first entry of that name. */
  function FindNamed(t: NestedTable, name: string): (r: Option<NestedColumn>)
    ensures r.Some? ==> r.value in t && r.value.alias.name == name
    ensures r.None? ==> forall i :: 0 <= i < |t| ==> t[i].alias.name != name
  {
    if t == [] then None else if t[0].alias.name == name then Some(t[0]) else FindNamed(t[1..], name)
  }

  /** No two entries have equal keys. */
  ghost predicate KeysDistinct(t: NestedTable) {
    forall i, j :: 0 <= i < j < |t| ==> !SameAlias(t[i].alias, t[j].alias)
  }

  /** ColumnValueExpression */
  datatype ColumnRef = ColumnRef(
    table: string, column: string, db: nat, tableOid: nat, columnOid: nat, typ: TypeId, depth: int)
}
