/** Values shared by the whole filter: raw bytes, errors, header lookup and
    the case-sensitive prefix test the program uses on media types. */
module Mail {

  /** One octet of a message body (Go's `byte`). */
  newtype byte = x: int | 0 <= x < 256

  /** An error reported by a reader or parser; its text is opaque here. */
  datatype Error = Error(reason: string)

  datatype Option<T> = None | Some(value: T)

  /** A value, or the error that made the program call log.Fatal. */
  datatype Result<T> = Ok(value: T) | Err(error: Error)

  /** What reading a stream to its end (ioutil.ReadAll) produced: all of it,
      or the bytes read before an error together with that error. */
  datatype Read = Complete(data: seq<byte>) | Failed(partial: seq<byte>, error: Error)

  /** A parsed header block: canonical key to the values in the order they
      appeared, as net/textproto keeps them. */
  type Header = map<string, seq<string>>

  /** Header.Get: the first value stored under `key`, or "" when there is none. */
  function Get(h: Header, key: string): string {
    if key in h && |h[key]| > 0 then h[key][0] else ""
  }

  /** strings.HasPrefix(s, prefix): a case-sensitive, element-wise prefix test. */
  predicate HasPrefix<T(==)>(s: seq<T>, prefix: seq<T>) {
    |prefix| <= |s| && s[..|prefix|] == prefix
  }

  /** Every sequence has the empty prefix, and a prefix test of `s + t` against
      a prefix no longer than `s` depends on `s` alone. */
  lemma HasPrefixFacts<T>(s: seq<T>, t: seq<T>, prefix: seq<T>)
    ensures HasPrefix(s, [])
    ensures |prefix| <= |s| ==> (HasPrefix(s + t, prefix) <==> HasPrefix(s, prefix))
  {
  }
}
