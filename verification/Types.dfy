/** The domain types shared by every layer (internal/types). */
module Types {
  import opened Bytes

  datatype Option<+T> = None | Some(value: T)

  datatype Result<+T, +E> = Ok(value: T) | Err(error: E)

  /** DocID(0) is reserved as "unassigned". */
  type DocID = uint64

  /** Unix nanoseconds. */
  type Timestamp = int64

  /** A nil Fields map and an empty one are never told apart by the engine, so one empty map models both. */
  datatype LogRecord = LogRecord(
    timestamp: Timestamp,
    tenantID: string,
    source: string,
    message: string,
    fields: map<string, string>
  )

  /** A record under its DocID: what the WAL frames, the MemTable orders and the SSTable stores. */
  datatype Entry = Entry(id: DocID, rec: LogRecord)

  /** The record encoding (JSON in the source) is a parameter of the model. */
  datatype Codec = Codec(marshal: LogRecord -> seq<byte>, unmarshal: seq<byte> -> Option<LogRecord>)

  ghost predicate Invertible(c: Codec) {
    forall r: LogRecord :: c.unmarshal(c.marshal(r)) == Some(r)
  }

  function Lookup<K, V>(m: map<K, V>, k: K): Option<V> {
    if k in m then Some(m[k]) else None
  }
}
