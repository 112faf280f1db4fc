/** Optional values and the engine's error returns. */
module Outcomes {

  datatype Option<+T> = None | Some(value: T)

  /** The kinds of `io::Error` the engine produces; `Panic` stands for a panic of the calling thread. */
  datatype Error = InvalidInput | NotFound | UnexpectedEof | InvalidData | Other | Panic

  datatype Result<+T> = Ok(value: T) | Err(error: Error)

  /** `m.get(&k)`. */
  function Lookup<K, V>(m: map<K, V>, k: K): Option<V> {
    if k in m then Some(m[k]) else None
  }
}
