/**
 * The server audit log: a message longer than the chat limit is sent to the
 * log channel in 4000-character slices.
 */
module AuditLog {

  const PartSize: nat := 4000

  function Min(a: int, b: int): int { if a <= b then a else b }

  /** The slices `message[i:i+4000]` for `i` in `range(0, len(message), 4000)`. */
  function Parts(message: string): (parts: seq<string>)
    ensures |parts| == (|message| + PartSize - 1) / PartSize
    ensures forall k :: 0 <= k < |parts| ==> 0 < |parts[k]| <= PartSize
    ensures forall k :: 0 <= k < |parts| - 1 ==> |parts[k]| == PartSize
  {
    seq((|message| + PartSize - 1) / PartSize,
        k requires 0 <= k < (|message| + PartSize - 1) / PartSize =>
          message[k * PartSize .. Min(k * PartSize + PartSize, |message|)])
  }

  function Concat(parts: seq<string>): string
  {
    if parts == [] then [] else parts[0] + Concat(parts[1..])
  }

  /** A long message is its first slice followed by the slices of the rest. */
  lemma PartsUnfold(message: string)
    requires message != []
    ensures var n := Min(PartSize, |message|);
      Parts(message) == [message[..n]] + Parts(message[n..])
  {
    var n := Min(PartSize, |message|);
    var rest := message[n..];
    var p, q := Parts(message), Parts(rest);
    assert |p| == 1 + |q|;
    forall k | 0 < k < |p|
      ensures p[k] == q[k - 1]
    {
      assert (k - 1) * PartSize + PartSize == k * PartSize;
    }
  }

  /** Sending the parts one after another delivers exactly the original message. */
  lemma {:induction false} PartsConcat(message: string)
    ensures Concat(Parts(message)) == message
    decreases |message|
  {
    if message != [] {
      var n := Min(PartSize, |message|);
      PartsUnfold(message);
      PartsConcat(message[n..]);
      assert message[..n] + message[n..] == message;
    }
  }
}
