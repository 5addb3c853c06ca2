/** The type codes of `java.sql.Types` that the built-in table registers (JDBC API values). */
module JdbcTypes {

  const ARRAY: int := 2003
  const BIGINT: int := -5
  const BINARY: int := -2
  const BIT: int := -7
  const BLOB: int := 2004
  const BOOLEAN: int := 16
  const CHAR: int := 1
  const CLOB: int := 2005
  const DATALINK: int := 70
  const DATE: int := 91
  const DECIMAL: int := 3
  const DISTINCT: int := 2001
  const DOUBLE: int := 8
  const FLOAT: int := 6
  const INTEGER: int := 4
  const JAVA_OBJECT: int := 2000
  const LONGVARBINARY: int := -4
  const LONGVARCHAR: int := -1
  const NULL: int := 0
  const NUMERIC: int := 2
  const OTHER: int := 1111
  const REAL: int := 7
  const REF: int := 2006
  const SMALLINT: int := 5
  const STRUCT: int := 2002
  const TIME: int := 92
  const TIMESTAMP: int := 93
  const TINYINT: int := -6
  const VARBINARY: int := -3
  const VARCHAR: int := 12
}
