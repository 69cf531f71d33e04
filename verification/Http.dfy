/**
 * The slice of Netty's HTTP message model that the chunk aggregator touches:
 * messages with a multi-valued header map, body chunks, and Java's 32-bit
 * `int` arithmetic.
 */
module Http {
  import opened Wrappers

  newtype byte = x: int | 0 <= x < 256

  const INT32_MIN: int := -0x8000_0000
  const INT32_MAX: int := 0x7fff_ffff

  /** A Java `int`. */
  type int32 = x: int | INT32_MIN <= x <= INT32_MAX

  /** Java `int` arithmetic: the mathematical result reduced modulo 2^32 into the `int` range. */
  function WrapInt32(x: int): (r: int32)
    ensures INT32_MIN <= x <= INT32_MAX ==> r == x
    ensures (x - r) % 0x1_0000_0000 == 0
  {
    var m := (x - INT32_MIN) % 0x1_0000_0000;
    m + INT32_MIN
  }

  /** A channel buffer's readable bytes; `readableBytes()` is an `int`, so never longer than `INT32_MAX`. */
  type Payload = s: seq<byte> | |s| <= INT32_MAX

  /** Header names map to their values in insertion order. */
  type Headers = map<string, seq<string>>

  /**
   * An `HttpMessage` (request or response). `chunked` is what `isChunked()`
   * reports; the start line is not needed here.
   */
  datatype HttpMessage = HttpMessage(headers: Headers, chunked: bool, content: seq<byte>)

  /** An `HttpChunk`: its content and whether it is the last chunk of the body. */
  datatype HttpChunk = HttpChunk(content: Payload, isLast: bool)

  /** What travels up the pipeline: a message, a chunk, or anything else. */
  datatype Unit = Message(message: HttpMessage) | Chunk(chunk: HttpChunk) | Other(description: string)

  const TRANSFER_ENCODING := "Transfer-Encoding"
  const EXPECT := "Expect"
  const WARNING := "Warning"
  const CONTENT_LENGTH := "Content-Length"
  const CHUNKED := "chunked"

  /** `getHeaders(name)`: all values of a header, empty when absent. */
  function GetHeaders(m: HttpMessage, name: string): (r: seq<string>)
    ensures name !in m.headers ==> r == []
  {
    if name in m.headers then m.headers[name] else []
  }

  /** `getHeader(name)`: the first value, or nothing (Java `null`). */
  function GetHeader(m: HttpMessage, name: string): (r: Option<string>)
    ensures r.Some? <==> GetHeaders(m, name) != []
    ensures r.Some? ==> r.value == GetHeaders(m, name)[0]
  {
    var vs := GetHeaders(m, name);
    if vs == [] then None else Some(vs[0])
  }

  /** `setHeader(name, value)`: replaces every value of `name` by the single `value`. */
  function SetHeader(m: HttpMessage, name: string, value: string): (r: HttpMessage)
    ensures GetHeaders(r, name) == [value]
    ensures forall n :: n != name ==> GetHeaders(r, n) == GetHeaders(m, n)
    ensures r.chunked == m.chunked && r.content == m.content
  {
    m.(headers := m.headers[name := [value]])
  }

  /** `removeHeader(name)`. */
  function RemoveHeader(m: HttpMessage, name: string): (r: HttpMessage)
    ensures name !in r.headers
    ensures forall n :: n != name ==> GetHeaders(r, n) == GetHeaders(m, n)
    ensures r.chunked == m.chunked && r.content == m.content
  {
    m.(headers := m.headers - {name})
  }

  /** Setting a header twice to the same value is the same as setting it once. */
  lemma SetHeaderIdempotent(m: HttpMessage, name: string, value: string)
    ensures SetHeader(SetHeader(m, name, value), name, value) == SetHeader(m, name, value)
  {
  }

  /** `List.remove(Object)`: drops the first element equal to `x`, if there is one. */
  function RemoveFirst(xs: seq<string>, x: string): (r: seq<string>)
    ensures x !in xs ==> r == xs
    ensures |r| == if x in xs then |xs| - 1 else |xs|
    ensures multiset(r) == multiset(xs) - multiset{x}
  {
    if xs == [] then []
    else if xs[0] == x then
      assert xs == [x] + xs[1..];
      xs[1..]
    else
      assert xs == [xs[0]] + xs[1..];
      [xs[0]] + RemoveFirst(xs[1..], x)
  }

  /** After removing one `x`, nothing is left exactly when the list was empty or was `[x]`. */
  lemma RemoveFirstEmptyIff(xs: seq<string>, x: string)
    ensures RemoveFirst(xs, x) == [] <==> xs == [] || xs == [x]
  {
    if xs != [] && xs[0] != x {
      assert RemoveFirst(xs, x)[0] == xs[0];
    }
  }
}
