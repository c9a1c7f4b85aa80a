/** Values shared by every component of the burst codec: optional values,
    bytes, and the exceptions the codec raises, as data. */
module Base {

  datatype Option<T> = None | Some(value: T)

  /** One octet of the input or output stream. */
  type byte = x: int | 0 <= x < 256

  /** The exceptions raised by the codec, one constructor per cause. */
  datatype Error =
    | InvalidFlatten(flatten: string)            // ValueError: unknown flatten policy
    | MissingKey(key: string)                    // KeyError: header item absent
    | NotAnInteger(key: string, value: string)   // ValueError: int() of the header value fails
    | UnsupportedMode(mode: int)                 // IndexError: Average has no element type
    | ShorterThanShape(actual: nat, expected: nat)  // reshape: fewer elements than the shape holds
    | LongerThanShape(actual: nat, expected: nat)   // reshape: more elements, forgive mode off
    | BufferTooSmall(available: nat, requested: nat) // frombuffer: payload cut short
    | NegativeSeek(offset: int)                  // seek to the -1 sentinel
    | NoStream                                   // the burst or file has no stream
    | NoData                                     // the payload was never read
    | NegativeDimension                          // the shape holds a negative length
    | TooFewDimensions(ndims: nat)               // indexing a payload of fewer than two axes
    | TooManyDimensions(ndims: nat)              // a payload of more than three axes (not modelled)
    | NotLatin1(line: string)                    // a header line cannot be encoded as latin-1

  /** The outcome of an operation that either returns normally or raises. */
  datatype Status = Ok | Raised(error: Error)

  /** A value, or the exception raised instead of computing it. */
  datatype Result<T> = Success(value: T) | Failure(error: Error)

  /** Concatenation is associative (stated once, so that large proofs can
      cite it instead of rediscovering it). */
  lemma AppendAssoc<T>(a: seq<T>, b: seq<T>, c: seq<T>)
    ensures a + (b + c) == (a + b) + c
  {
  }

  lemma EmptyFront<T>(a: seq<T>, b: seq<T>)
    ensures [] + a + b == a + b
  {
  }

  /** Cutting the last element off a sequence with one more in front. */
  lemma ConsFront<T>(x: T, rest: seq<T>)
    requires rest != []
    ensures ([x] + rest)[..|rest|] == [x] + rest[..|rest| - 1]
    ensures ([x] + rest)[|rest|] == rest[|rest| - 1]
  {
  }

  lemma EmptySides<T>(e: seq<T>)
    ensures [] + e == e + [] && [e][..0] == []
  {
  }

  lemma TakeSplit<T>(s: seq<T>, i: nat, j: nat)
    requires i <= j <= |s|
    ensures s[..j] == s[..i] + s[i..j]
  {
  }

  lemma TakeAll<T>(s: seq<T>)
    ensures s[..|s|] == s
  {
  }

  lemma AppendEmpty<T>(s: seq<T>)
    ensures s + [] == s
  {
  }

  /** The last element of s + t and what precedes it, for t not empty. */
  lemma SnocSplit<T>(s: seq<T>, t: seq<T>)
    requires t != []
    ensures (s + t)[..|s + t| - 1] == s + t[..|t| - 1]
    ensures (s + t)[|s + t| - 1] == t[|t| - 1]
  {
  }

  lemma TakeTake<T>(s: seq<T>, i: nat)
    requires i < |s|
    ensures s[..i + 1][..i] == s[..i] && s[..i + 1][i] == s[i]
  {
  }

  /** Four sequences put together, grouped in the three ways used. */
  lemma Regroup<T>(a: seq<T>, b: seq<T>, c: seq<T>, d: seq<T>)
    ensures (a + b) + c + d == a + (b + c) + d
    ensures a + b + (c + d) == a + (b + c) + d
  {
  }
}
