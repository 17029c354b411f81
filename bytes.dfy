/** Bytes on the pump link, and the two-byte frame terminator 03 FA. */
module Bytes {

  /** One byte as read from the serial port. */
  type byte = x: int | 0 <= x < 256

  datatype Option<+T> = None | Some(value: T)

  /** The terminator pair 03 FA starts at position k of d. */
  predicate TerminatorAt(d: seq<byte>, k: int)
  {
    0 <= k && k + 1 < |d| && d[k] == 0x03 && d[k + 1] == 0xFA
  }

  /** No adjacent 03 FA pair anywhere in d. */
  predicate NoTerminator(d: seq<byte>)
  {
    forall k :: 0 <= k < |d| - 1 ==> !TerminatorAt(d, k)
  }

  /** d ends with 03 FA (Python: `len(d) >= 2 and d[-2:] == [0x03, 0xFA]`). */
  predicate EndsWithTerminator(d: seq<byte>)
  {
    |d| >= 2 && d[|d| - 2..] == [0x03, 0xFA]
  }

  /** A frame as the synchroniser emits it: it ends with the terminator and
      holds no other 03 FA pair. */
  predicate ProperFrame(f: seq<byte>)
  {
    EndsWithTerminator(f) && NoTerminator(f[..|f| - 1])
  }

  /** Two pair-free pieces joined where no 03 FA meets stay pair-free. */
  lemma NoTerminatorConcat(a: seq<byte>, c: seq<byte>)
    requires NoTerminator(a) && NoTerminator(c)
    requires a == [] || c == [] || a[|a| - 1] != 0x03 || c[0] != 0xFA
    ensures NoTerminator(a + c)
  {
    var d := a + c;
    forall k | 0 <= k < |d| - 1 ensures !TerminatorAt(d, k) {
      if k + 1 < |a| {
        assert d[k] == a[k] && d[k + 1] == a[k + 1];
        assert !TerminatorAt(a, k);
      } else if k + 1 == |a| {
        assert d[k] == a[|a| - 1] && d[k + 1] == c[0];
      } else {
        assert d[k] == c[k - |a|] && d[k + 1] == c[k - |a| + 1];
        assert !TerminatorAt(c, k - |a|);
      }
    }
  }
}
