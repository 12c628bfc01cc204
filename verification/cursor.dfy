/** The packet cursor handed through the decoders: the bytes of the packet
    not yet consumed. The cursor class itself (reader.py) is not part of this
    model; a read or skip it cannot serve is reported as `ReaderFault` and
    nothing more is claimed about that case. */
module Cursor {
  import opened Results
  import opened Bytes

  /** Takes `n` bytes from the front of the cursor. */
  function Read(r: seq<byte>, n: nat): (res: Result<(seq<byte>, seq<byte>)>)
    ensures res.Ok? <==> n <= |r|
    ensures res.Ok? ==> |res.value.0| == n && res.value.0 + res.value.1 == r
    ensures res.Err? ==> res.error == ReaderFault
  {
    if |r| < n then Err(ReaderFault) else Ok((r[..n], r[n..]))
  }

  /** Advances the cursor by `n` bytes without looking at them. */
  function Skip(r: seq<byte>, n: int): (res: Result<seq<byte>>)
    ensures res.Ok? <==> 0 <= n <= |r|
    ensures res.Ok? ==> |res.value| == |r| - n && r[n..] == res.value
    ensures res.Err? ==> res.error == ReaderFault
  {
    if n < 0 || |r| < n then Err(ReaderFault) else Ok(r[n..])
  }
}
