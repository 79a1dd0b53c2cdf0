/** Shared vocabulary for the char driver and the socket server: bytes,
    the newline packet terminator, an Option type standing in for C's
    nullable pointers, and the concatenation of byte runs. */
module Base {

  /** One octet, as stored in a `char` buffer. */
  newtype byte = b: int | 0 <= b < 256

  /** The packet terminator `'\n'`. */
  const Newline: byte := 10

  /** `None` plays the role of a NULL pointer or an absent value. */
  datatype Option<T> = None | Some(value: T)

  /** The byte runs of `runs` laid end to end, first run first. */
  function Flatten(runs: seq<seq<byte>>): seq<byte>
  {
    if |runs| == 0 then [] else runs[0] + Flatten(runs[1..])
  }

  /** Flattening distributes over concatenation of the run lists. */
  lemma {:induction false} FlattenAppend(a: seq<seq<byte>>, b: seq<seq<byte>>)
    ensures Flatten(a + b) == Flatten(a) + Flatten(b)
  {
    if |a| == 0 {
      assert a + b == b;
    } else {
      assert (a + b)[1..] == a[1..] + b;
      FlattenAppend(a[1..], b);
    }
  }

  /** Position of the first newline in `s`, as `memchr(s, '\n', |s|)` finds it. */
  function FirstNewline(s: seq<byte>): (r: Option<nat>)
    ensures r.None? <==> Newline !in s
    ensures r.Some? ==> r.value < |s| && s[r.value] == Newline && Newline !in s[..r.value]
  {
    if |s| == 0 then None
    else if s[0] == Newline then Some(0)
    else match FirstNewline(s[1..])
      case None => None
      case Some(i) =>
        assert s[..i + 1] == [s[0]] + s[1..][..i];
        Some(i + 1)
  }
}
