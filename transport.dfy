/** What an HTTP GET of the tool's session yields, seen from the caller.
    The tool never inspects the status code, so any response that arrives
    is a body (`Ok`); only a raised exception (connection failure, timeout)
    is `Failed`. */
module Transport {

  datatype Fetched<T> = Ok(body: T) | Failed

  /** One octet of a segment body. */
  newtype Byte = b: int | 0 <= b < 256

  type Bytes = seq<Byte>
}
