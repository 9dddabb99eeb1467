/**
 * Shared vocabulary of the model: bytes, the optional/failure wrappers, and
 * the errors the gateway raises as exceptions.
 */
module Base {

  /** One octet as stored in a `char` buffer. */
  type Byte = b: int | 0 <= b < 256

  /** A byte string: `std::string` contents and raw buffer regions alike. */
  type Bytes = seq<Byte>

  datatype Option<+T> = None | Some(value: T)

  /**
   * The exceptions of the core. Each constructor names the condition the
   * source reports; the text of the source's message is given in the comment.
   */
  datatype Error =
    | ReadPastEnd                          // "Buffer is not large enough to read requested data"
    | MaxCapacity                          // "Buffer is at max capacity"
    | FrameTooShort(announced: nat)        // frame length prefix below 4 (see README, Findings)
    | NegativeLength(length: int)          // string length prefix below 0 (see README, Findings)
    | NotA(field: Bytes, expected: string) // "Field '<name>' is not a <type>"
    | SerializeNotHandled                  // "Field::serialize data-type not handled"
    | DeserializeNotHandled(tag: int)      // "Field::deserialize data-type not handled"
    | FieldNotInMessage(name: Bytes)       // "Field <name> not in message"
    | NotPending(socket: Bytes)            // "Socket <name> not in pending-collection"
    | AckTimeout                           // "Timed out without receive ACK from the Messaging Mesh Gateway"

  /** The result of an operation that may throw. Usable with `:-`. */
  datatype Result<+T> = Ok(value: T) | Err(error: Error) {
    predicate IsFailure() { Err? }

    function PropagateFailure<U>(): Result<U>
      requires Err?
    {
      Err(error)
    }

    function Extract(): T
      requires Ok?
    {
      value
    }
  }

  function Min(a: int, b: int): int { if a <= b then a else b }

  function Max(a: int, b: int): int { if a >= b then a else b }

  /** Two adjacent prefixes of a sequence join into one. */
  lemma PrefixJoin<T>(s: seq<T>, i: nat, j: nat)
    requires i <= j <= |s|
    ensures s[..i] + s[i..j] == s[..j]
  {
  }

  /** Two adjacent slices of a sequence join into one. */
  lemma SliceJoin<T>(s: seq<T>, i: nat, j: nat, k: nat)
    requires i <= j <= k <= |s|
    ensures s[i..j] + s[j..k] == s[i..k]
  {
  }

  /** Dropping the first element and then `k - 1` more drops `k`; keeping works likewise. */
  lemma DropOne<T>(s: seq<T>, k: nat)
    requires 1 <= k <= |s|
    ensures s[1..][k - 1..] == s[k..]
    ensures [s[0]] + s[1..][..k - 1] == s[..k]
  {
  }

  /** Joining sequences does not depend on grouping. */
  lemma ConcatAssoc<T>(a: seq<T>, b: seq<T>, c: seq<T>)
    ensures (a + b) + c == a + (b + c)
  {
  }

  /** `n` zero bytes: the model's content for freshly allocated, unwritten memory. */
  function Zeros(n: nat): (r: Bytes)
    ensures |r| == n
  {
    seq(n, _ => 0)
  }

  /** `s` with the region starting at `at` overwritten by `x` (a `memcpy` into `s`). */
  function Splice(s: Bytes, at: nat, x: Bytes): (r: Bytes)
    requires at + |x| <= |s|
    ensures |r| == |s|
  {
    seq(|s|, i requires 0 <= i < |s| => if at <= i < at + |x| then x[i - at] else s[i])
  }

  /** Each byte of a splice comes from `x` inside the region and from `s` outside it. */
  lemma SpliceAt(s: Bytes, at: nat, x: Bytes, i: nat)
    requires at + |x| <= |s| && i < |s|
    ensures Splice(s, at, x)[i] == if at <= i < at + |x| then x[i - at] else s[i]
  {
  }

  /** The region a splice copies into holds exactly `x`. */
  lemma SpliceRegion(s: Bytes, at: nat, x: Bytes)
    requires at + |x| <= |s|
    ensures Splice(s, at, x)[at..at + |x|] == x
  {
  }

  /** Two adjacent copies are one copy of the concatenation. */
  lemma SpliceTwice(s: Bytes, at: nat, x: Bytes, y: Bytes)
    requires at + |x| + |y| <= |s|
    ensures Splice(Splice(s, at, x), at + |x|, y) == Splice(s, at, x + y)
  {
    var m := Splice(s, at, x);
    var l := Splice(m, at + |x|, y);
    var r := Splice(s, at, x + y);
    forall i | 0 <= i < |l|
      ensures l[i] == r[i]
    {
      SpliceAt(m, at + |x|, y, i);
      SpliceAt(s, at, x, i);
      SpliceAt(s, at, x + y, i);
    }
  }

  /** Freshly allocated memory in two steps is the same zeros as in one. */
  lemma ZerosConcat(a: nat, b: nat)
    ensures Zeros(a) + Zeros(b) == Zeros(a + b)
  {
  }

  /** Copying into a region and then extending the array is extending first and then copying. */
  lemma SpliceAppend(s: Bytes, at: nat, x: Bytes, z: Bytes)
    requires at + |x| <= |s|
    ensures Splice(s, at, x) + z == Splice(s + z, at, x)
  {
    assert (s + z)[..at] == s[..at];
    assert (s + z)[at + |x|..] == s[at + |x|..] + z;
  }
}
