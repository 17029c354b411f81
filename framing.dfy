/**
 * The frame synchroniser (extract_frames): removes 3-byte wrapper blocks
 * `50|51 XX FA` and cuts the remaining bytes into frames, each ending at
 * the first 03 FA pair after the previous frame. A trailing partial frame
 * is silently dropped.
 */
module Framing {
  import opened Bytes

  /** A wrapper block starts at i: three bytes remain, the first is 50 or 51
      and the third is FA. */
  predicate WrapperAt(s: seq<byte>, i: nat)
  {
    i + 2 < |s| && s[i + 2] == 0xFA && (s[i] == 0x50 || s[i] == 0x51)
  }

  /** What the scan produces: the emitted frames and the accumulator left at the end. */
  datatype Scanned = Scanned(frames: seq<seq<byte>>, pending: seq<byte>)

  /** The scan of extract_frames from index i with accumulator `current`. */
  function Scan(s: seq<byte>, i: nat, current: seq<byte>): Scanned
    requires i <= |s|
    decreases |s| - i
  {
    if i == |s| then Scanned([], current)
    else if WrapperAt(s, i) then Scan(s, i + 3, current)
    else
      var c := current + [s[i]];
      if EndsWithTerminator(c) then
        var rest := Scan(s, i + 1, []);
        Scanned([c] + rest.frames, rest.pending)
      else Scan(s, i + 1, c)
  }

  /** The frames extract_frames returns. */
  function Extract(s: seq<byte>): seq<seq<byte>>
  {
    Scan(s, 0, []).frames
  }

  /** The partial frame extract_frames drops at the end of its input. */
  function Dropped(s: seq<byte>): seq<byte>
  {
    Scan(s, 0, []).pending
  }

  /** extract_frames as the source writes it: a while loop over an index
      that skips wrapper blocks, accumulates bytes and emits at 03 FA. */
  method ExtractFrames(s: seq<byte>) returns (frames: seq<seq<byte>>)
    ensures frames == Extract(s)
  {
    frames := [];
    var current: seq<byte> := [];
    var i := 0;
    while i < |s|
      invariant i <= |s|
      invariant Scan(s, 0, []) ==
        Scanned(frames + Scan(s, i, current).frames, Scan(s, i, current).pending)
      decreases |s| - i
    {
      if i + 2 < |s| && s[i + 2] == 0xFA && (s[i] == 0x50 || s[i] == 0x51) {
        i := i + 3;
        continue;
      }
      ScanByte(s, i, current);
      current := current + [s[i]];
      if |current| >= 2 && current[|current| - 2..] == [0x03, 0xFA] {
        AppendFrame(frames, current, Scan(s, i + 1, []));
        frames := frames + [current];
        current := [];
      }
      i := i + 1;
    }
  }

  /** One byte outside a wrapper block: the scan either emits the extended
      accumulator or goes on with it. */
  lemma ScanByte(s: seq<byte>, i: nat, current: seq<byte>)
    requires i < |s| && !WrapperAt(s, i)
    ensures var c := current + [s[i]];
      Scan(s, i, current) ==
        if EndsWithTerminator(c) then Scanned([c] + Scan(s, i + 1, []).frames, Scan(s, i + 1, []).pending)
        else Scan(s, i + 1, c)
  {
  }

  lemma AppendFrame(frames: seq<seq<byte>>, c: seq<byte>, rest: Scanned)
    ensures Scanned(frames + ([c] + rest.frames), rest.pending) ==
            Scanned((frames + [c]) + rest.frames, rest.pending)
  {
    assert frames + ([c] + rest.frames) == (frames + [c]) + rest.frames;
  }

  /** No wrapper block starts anywhere in d. */
  predicate NoWrapper(d: seq<byte>)
  {
    forall j :: 0 <= j < |d| ==> !WrapperAt(d, j)
  }

  /** Bytes outside wrapper blocks that complete no 03 FA pair are only accumulated. */
  lemma {:induction false} ScanAccumulates(s: seq<byte>, i: nat, k: nat, current: seq<byte>)
    requires i + k <= |s|
    requires forall j :: i <= j < i + k ==> !WrapperAt(s, j)
    requires NoTerminator(current + s[i..i + k])
    ensures Scan(s, i, current) == Scan(s, i + k, current + s[i..i + k])
    decreases k
  {
    if k == 0 {
      assert current + s[i..i] == current;
    } else {
      var c := current + [s[i]];
      var big := current + s[i..i + k];
      if |c| >= 2 {
        assert !TerminatorAt(big, |c| - 2);
        assert c[|c| - 2] == big[|c| - 2] && c[|c| - 1] == big[|c| - 1];
      }
      assert c + s[i + 1..i + k] == big;
      ScanAccumulates(s, i + 1, k - 1, c);
    }
  }

  /** A frame whose 03 and FA are separated by a wrapper block `50|51 XX FA`
      is still emitted whole: the block is skipped and the FA after it
      completes the terminator. */
  lemma SplitFrameScan(s: seq<byte>, i: nat, f: seq<byte>)
    requires ProperFrame(f) && NoWrapper(f)
    requires i + |f| + 3 <= |s| && s[i..i + |f| - 1] == f[..|f| - 1]
    requires WrapperAt(s, i + |f| - 1) && s[i + |f| + 2] == 0xFA
    ensures Scan(s, i, []) == Scanned([f] + Scan(s, i + |f| + 3, []).frames, Scan(s, i + |f| + 3, []).pending)
  {
    var n := |f| - 1;
    var p := f[..n];
    assert f[n - 1] == f[|f| - 2..][0];
    forall j | i <= j < i + n ensures !WrapperAt(s, j) {
      if j + 2 < i + n {
        assert !WrapperAt(f, j - i);
        assert s[j] == p[j - i] && s[j + 2] == p[j - i + 2];
      } else if j + 1 == i + n {
        assert s[j] == p[n - 1];
      }
    }
    assert [] + s[i..i + n] == p;
    ScanAccumulates(s, i, n, []);
    assert f[n] == f[|f| - 2..][1];
    assert p + [s[i + n + 3]] == f;
  }

  /** The input with every wrapper block the scan meets removed, from index i on. */
  function StripFrom(s: seq<byte>, i: nat): seq<byte>
    requires i <= |s|
    decreases |s| - i
  {
    if i == |s| then []
    else if WrapperAt(s, i) then StripFrom(s, i + 3)
    else [s[i]] + StripFrom(s, i + 1)
  }

  /** The stripped stream: the input without its wrapper blocks. */
  function Stripped(s: seq<byte>): seq<byte>
  {
    StripFrom(s, 0)
  }

  function Flatten(fs: seq<seq<byte>>): seq<byte>
  {
    if fs == [] then [] else fs[0] + Flatten(fs[1..])
  }

  lemma FlattenCons(f: seq<byte>, fs: seq<seq<byte>>)
    ensures Flatten([f] + fs) == f + Flatten(fs)
  {
    assert ([f] + fs)[1..] == fs;
  }

  /** The frames followed by the pending accumulator are exactly the
      accumulator the scan started with followed by the stripped rest. */
  lemma {:induction false} ScanCovers(s: seq<byte>, i: nat, current: seq<byte>)
    requires i <= |s|
    ensures Flatten(Scan(s, i, current).frames) + Scan(s, i, current).pending
         == current + StripFrom(s, i)
    decreases |s| - i
  {
    if i == |s| {
    } else if WrapperAt(s, i) {
      ScanCovers(s, i + 3, current);
    } else {
      var c := current + [s[i]];
      if EndsWithTerminator(c) {
        var rest := Scan(s, i + 1, []);
        ScanCovers(s, i + 1, []);
        FlattenCons(c, rest.frames);
        calc {
          Flatten([c] + rest.frames) + rest.pending;
          c + (Flatten(rest.frames) + rest.pending);
          c + StripFrom(s, i + 1);
          current + ([s[i]] + StripFrom(s, i + 1));
        }
      } else {
        ScanCovers(s, i + 1, c);
      }
    }
  }

  /** Every frame the scan emits is proper and the pending bytes hold no
      terminator, provided the starting accumulator holds none. */
  lemma {:induction false} ScanFramesProper(s: seq<byte>, i: nat, current: seq<byte>)
    requires i <= |s|
    requires NoTerminator(current)
    ensures forall f :: f in Scan(s, i, current).frames ==> ProperFrame(f)
    ensures NoTerminator(Scan(s, i, current).pending)
    decreases |s| - i
  {
    if i == |s| {
    } else if WrapperAt(s, i) {
      ScanFramesProper(s, i + 3, current);
    } else {
      var c := current + [s[i]];
      if EndsWithTerminator(c) {
        assert c[..|c| - 1] == current;
        ScanFramesProper(s, i + 1, []);
      } else {
        assert NoTerminator(c) by {
          forall k | 0 <= k < |c| - 1 ensures !TerminatorAt(c, k) {
            if k < |c| - 2 {
              assert c[k] == current[k] && c[k + 1] == current[k + 1];
              assert !TerminatorAt(current, k);
            } else {
              assert c[|c| - 2..] == [c[k], c[k + 1]];
            }
          }
        }
        ScanFramesProper(s, i + 1, c);
      }
    }
  }

  /** Every emitted frame has length at least 2, ends with 03 FA and has no
      other 03 FA pair; the dropped tail holds no 03 FA pair either. */
  lemma ExtractedFramesProper(s: seq<byte>)
    ensures forall f :: f in Extract(s) ==> ProperFrame(f) && |f| >= 2
    ensures NoTerminator(Dropped(s))
  {
    ScanFramesProper(s, 0, []);
  }

  /** The emitted frames concatenate to a prefix of the stripped stream,
      and the dropped tail is the rest of it. */
  lemma ExtractCoversStripped(s: seq<byte>)
    ensures Flatten(Extract(s)) + Dropped(s) == Stripped(s)
    ensures Flatten(Extract(s)) == Stripped(s)[..|Flatten(Extract(s))|]
  {
    ScanCovers(s, 0, []);
  }

  /** A byte in one of the last two positions is never the start of a
      wrapper block, even a 50 or 51: the scan keeps it as data. */
  lemma {:induction false} LastTwoBytesKept(s: seq<byte>, i: nat)
    requires i <= |s| && |s| <= i + 2
    ensures StripFrom(s, i) == s[i..]
    decreases |s| - i
  {
    if i < |s| {
      assert !WrapperAt(s, i);
      LastTwoBytesKept(s, i + 1);
    }
  }

  /** A sequence of frames is a decomposition of the stripped stream d:
      each frame proper, followed by a terminator-free rest. */
  predicate FramesOf(fs: seq<seq<byte>>, rest: seq<byte>, d: seq<byte>)
  {
    (forall f :: f in fs ==> ProperFrame(f)) && NoTerminator(rest) && Flatten(fs) + rest == d
  }

  /** The terminator of a proper frame is found where that frame ends,
      whatever follows it. */
  lemma FrameEndIsTerminator(f: seq<byte>, x: seq<byte>)
    requires ProperFrame(f)
    ensures TerminatorAt(f + x, |f| - 2)
  {
    assert f[|f| - 2] == f[|f| - 2..][0] && f[|f| - 1] == f[|f| - 2..][1];
    assert (f + x)[|f| - 2] == f[|f| - 2] && (f + x)[|f| - 1] == f[|f| - 1];
  }

  /** A proper frame is never a strict prefix of another proper frame: its
      terminator would lie inside the longer one. */
  lemma ShorterFrameIsNoPrefix(f: seq<byte>, g: seq<byte>)
    requires ProperFrame(f) && ProperFrame(g)
    ensures |f| < |g| ==> g[..|f|] != f
  {
    if |f| < |g| && g[..|f|] == f {
      FrameEndIsTerminator(f, g[|f|..]);
      assert f + g[|f|..] == g;
      var h := g[..|g| - 1];
      assert h[|f| - 2] == g[|f| - 2] && h[|f| - 1] == g[|f| - 1];
      assert TerminatorAt(h, |f| - 2);
    }
  }

  /** Two proper frames that begin the same stream are equal. */
  lemma SameFirstFrame(f: seq<byte>, g: seq<byte>, x: seq<byte>, y: seq<byte>)
    requires ProperFrame(f) && ProperFrame(g) && f + x == g + y
    ensures f == g
  {
    var d := f + x;
    assert d[..|f|] == f;
    assert d[..|g|] == g;
    assert |f| < |g| ==> g[..|f|] == d[..|f|];
    assert |g| < |f| ==> f[..|g|] == d[..|g|];
    ShorterFrameIsNoPrefix(f, g);
    ShorterFrameIsNoPrefix(g, f);
  }

  /** The decomposition into proper frames and a terminator-free rest is unique. */
  lemma {:induction false} FramesOfUnique(fs: seq<seq<byte>>, r: seq<byte>,
                                          gs: seq<seq<byte>>, q: seq<byte>, d: seq<byte>)
    requires FramesOf(fs, r, d) && FramesOf(gs, q, d)
    ensures fs == gs && r == q
    decreases |fs|
  {
    if fs == [] && gs == [] {
      assert Flatten(fs) == [] && Flatten(gs) == [];
      assert Flatten(fs) + r == d;
      assert r == d;
    } else if fs == [] {
      assert Flatten(fs) == [];
      assert r == d;
      assert Flatten(gs) == gs[0] + Flatten(gs[1..]);
      assert r == gs[0] + (Flatten(gs[1..]) + q);
      FrameEndIsTerminator(gs[0], Flatten(gs[1..]) + q);
      assert false;
    } else if gs == [] {
      assert Flatten(gs) == [];
      assert q == d;
      assert Flatten(fs) == fs[0] + Flatten(fs[1..]);
      assert q == fs[0] + (Flatten(fs[1..]) + r);
      FrameEndIsTerminator(fs[0], Flatten(fs[1..]) + r);
      assert false;
    } else {
      assert Flatten(fs) == fs[0] + Flatten(fs[1..]);
      assert Flatten(gs) == gs[0] + Flatten(gs[1..]);
      assert d == fs[0] + (Flatten(fs[1..]) + r);
      assert d == gs[0] + (Flatten(gs[1..]) + q);
      SameFirstFrame(fs[0], gs[0], Flatten(fs[1..]) + r, Flatten(gs[1..]) + q);
      var d' := d[|fs[0]|..];
      assert Flatten(fs[1..]) + r == d';
      assert Flatten(gs[1..]) + q == d';
      assert forall f :: f in fs[1..] ==> f in fs;
      assert forall g :: g in gs[1..] ==> g in gs;
      FramesOfUnique(fs[1..], r, gs[1..], q, d');
    }
  }

  /** extract_frames is characterised by the stripped stream alone: its
      frames and dropped tail are the one decomposition of that stream into
      proper frames and a terminator-free rest. */
  lemma ExtractIsUniqueDecomposition(s: seq<byte>, fs: seq<seq<byte>>, rest: seq<byte>)
    requires FramesOf(fs, rest, Stripped(s))
    ensures fs == Extract(s) && rest == Dropped(s)
  {
    ExtractedFramesProper(s);
    ExtractCoversStripped(s);
    FramesOfUnique(fs, rest, Extract(s), Dropped(s), Stripped(s));
  }
}
