/** The TLS connection of the transcription client. Its reads come back short, or with nothing
    yet ("want read"), or fail; `script` says which, and is arbitrary. */
module TlsStream {
  import opened Bytes

  const EIO: int := -5
  const WANT_READ: int := -1
  const BROKEN: int := -2

  /** How many reads in a row bring nothing. */
  function Zeros(script: seq<int>): nat {
    if script == [] || script[0] != 0 then 0 else 1 + Zeros(script[1..])
  }

  /** No call fails, and never more than `limit` reads in a row bring nothing. */
  predicate Calm(script: seq<int>, limit: nat) {
    script == [] || (script[0] >= 0 && Zeros(script) <= limit && Calm(script[1..], limit))
  }

  /** No call fails. */
  predicate NoneFails(script: seq<int>) {
    forall x | x in script :: x >= 0
  }

  function Rest(script: seq<int>): seq<int> {
    if script == [] then [] else script[1..]
  }

  /** What one read of at most `n` bytes returns: a count, WANT_READ or BROKEN. A positive
      entry of the script is the most it offers; past its end everything there is comes. */
  function ReadResult(script: seq<int>, n: nat, there: nat): (r: int)
    requires n > 0
    ensures r <= n && r <= there
    ensures r == WANT_READ || r == BROKEN || r >= 1
  {
    if script != [] && script[0] < 0 then BROKEN
    else if there == 0 || (script != [] && script[0] == 0) then WANT_READ
    else
      var most := if n < there then n else there;
      if script != [] && script[0] < most then script[0] else most
  }

  class Tls {
    var written: Bytes
    var unread: Bytes
    var script: seq<int>

    constructor (incoming: Bytes, script: seq<int>)
      ensures written == [] && unread == incoming && this.script == script
    {
      written, unread, this.script := [], incoming, script;
    }

    method WriteAll(data: Bytes) returns (ret: int)
      modifies this`written, this`script
      ensures ret == if old(script) != [] && old(script)[0] < 0 then EIO else 0
      ensures written == old(written) + (if ret == 0 then data else [])
      ensures script == Rest(old(script))
      ensures NoneFails(old(script)) ==> ret == 0 && NoneFails(script)
    {
      assert script != [] ==> script[0] in script && forall x :: x in script[1..] ==> x in script;
      if script != [] && script[0] < 0 {
        script := script[1..];
        return EIO;
      }
      script := Rest(script);
      written := written + data;
      return 0;
    }

    method Read(buf: array<Byte>, at: nat, n: nat) returns (r: int)
      requires n > 0 && at + n <= buf.Length
      modifies this`unread, this`script, buf
      ensures r == ReadResult(old(script), n, |old(unread)|)
      ensures script == Rest(old(script))
      ensures var k := if r > 0 then r else 0;
        && unread == old(unread)[k..]
        && buf[..at] == old(buf[..at])
        && buf[at..at + k] == old(unread)[..k]
        && buf[at + k..] == old(buf[at + k..])
    {
      r := ReadResult(script, n, |unread|);
      script := Rest(script);
      if r > 0 {
        forall i | 0 <= i < r {
          buf[at + i] := unread[i];
        }
        unread := unread[r..];
      }
    }
  }
}
