/**
 * The live sniffer: a byte buffer fed chunk by chunk (append, extract
 * frames, truncate) and the per-pump fueling session map that
 * decode_and_display_frame keeps. What the sniffer prints is modelled as
 * a Notice per frame.
 */
module Sniffer {
  import opened Bytes
  import opened Framing
  import opened Classifier

  /** fueling_sessions: pump number -> (last liters, last money), raw integers. */
  type Sessions = map<int, (int, int)>

  /** What decode_and_display_frame prints for one frame. */
  datatype Notice =
    | Silent
    | Started(pump: int, liters: int, money: int)
    | Progress(pump: int, liters: int, money: int, litersIncrement: int, moneyIncrement: int)
    | DecodeError

  datatype Observed = Observed(notice: Notice, sessions: Sessions)

  /** The session key of a pump byte (Python: `pump & 0x0F`). */
  function SessionKey(pump: byte): int { pump % 16 }

  predicate KeysArePumps(m: Sessions) { forall k :: k in m ==> 0 <= k < 16 }

  /** decode_and_display_frame on a session map: the notice it prints and
      the map it leaves. */
  function Observe(sessions: Sessions, f: seq<byte>): Observed
  {
    if IsHeartbeat(f) then Observed(Silent, sessions)
    else if IsFuelingWithExtra(f) then
      match DecodeFuelingWithExtra(f)
      case FuelingWithExtra(pump, _, liters, money, _, _, _, _) =>
        var key := SessionKey(pump);
        var notice :=
          if key in sessions then Progress(key, liters, money, liters - sessions[key].0, money - sessions[key].1)
          else Started(key, liters, money);
        Observed(notice, sessions[key := (liters, money)])
      // the raw record has no 'liters': the KeyError is caught and reported
      case _ => Observed(DecodeError, sessions)
    else if IsFueling(f) then
      var d := DecodeFueling(f);
      var key := SessionKey(d.pump);
      var notice :=
        if key in sessions then
          if d.litersRaw - sessions[key].0 > 0 then
            Progress(key, d.litersRaw, d.moneyRaw, d.litersRaw - sessions[key].0, d.moneyRaw - sessions[key].1)
          else Silent
        else if d.litersRaw > 0 || d.moneyRaw > 0 then Started(key, d.litersRaw, d.moneyRaw)
        else Silent;
      Observed(notice, sessions[key := (d.litersRaw, d.moneyRaw)])
    else Observed(Silent, sessions)
  }

  datatype Observations = Observations(notices: seq<Notice>, sessions: Sessions)

  /** The frames fs handled one after the other, in order. */
  function ObserveAll(sessions: Sessions, fs: seq<seq<byte>>): Observations
  {
    if fs == [] then Observations([], sessions)
    else
      var before := ObserveAll(sessions, fs[..|fs| - 1]);
      var o := Observe(before.sessions, fs[|fs| - 1]);
      Observations(before.notices + [o.notice], o.sessions)
  }

  /** One past the last adjacent 03 FA pair of b, or -1 when b has none. */
  function LastFrameEnd(b: seq<byte>): (e: int)
    ensures e == -1 || 2 <= e <= |b|
  {
    if |b| < 2 then -1
    else if TerminatorAt(b, |b| - 2) then |b|
    else LastFrameEnd(b[..|b| - 1])
  }

  /** The buffer kept after a step: the bytes after the last 03 FA pair;
      without such a pair, the last 500 bytes once there are more than 1000. */
  function Retained(b: seq<byte>): seq<byte>
  {
    var e := LastFrameEnd(b);
    if e > 0 then b[e..]
    else if |b| > 1000 then b[|b| - 500..]
    else b
  }

  /** The backward scan that finds last_frame_end: `for i in range(len - 1, 0, -1)`. */
  method FindLastFrameEnd(b: seq<byte>) returns (e: int)
    ensures e == LastFrameEnd(b)
  {
    e := -1;
    var i := |b| - 1;
    assert b[..|b|] == b;
    while i > 0
      invariant -1 <= i < |b|
      invariant LastFrameEnd(b) == LastFrameEnd(b[..i + 1])
    {
      if b[i - 1..i + 1] == [0x03, 0xFA] {
        assert TerminatorAt(b[..i + 1], i - 1);
        e := i + 1;
        return;
      }
      assert b[..i + 1][..i] == b[..i];
      i := i - 1;
    }
  }

  /** The search result is the end of the last pair: -1 exactly when there is
      no pair, otherwise a pair ends there and none starts after it. */
  lemma {:induction false} LastFrameEndIsLast(b: seq<byte>)
    ensures LastFrameEnd(b) == -1 <==> NoTerminator(b)
    ensures LastFrameEnd(b) != -1 ==>
      TerminatorAt(b, LastFrameEnd(b) - 2) &&
      forall k :: LastFrameEnd(b) - 2 < k < |b| - 1 ==> !TerminatorAt(b, k)
  {
    if |b| >= 2 && !TerminatorAt(b, |b| - 2) {
      var p := b[..|b| - 1];
      LastFrameEndIsLast(p);
      forall k | 0 <= k < |p| - 1 ensures TerminatorAt(p, k) == TerminatorAt(b, k) {}
    }
  }

  /** With a 03 FA pair in the buffer, exactly the bytes after the last pair are kept. */
  lemma RetainedAfterLastPair(b: seq<byte>)
    requires !NoTerminator(b)
    ensures var e := LastFrameEnd(b);
      2 <= e <= |b| && TerminatorAt(b, e - 2) && Retained(b) == b[e..] &&
      forall k :: e - 2 < k < |b| - 1 ==> !TerminatorAt(b, k)
  {
    LastFrameEndIsLast(b);
    var e := LastFrameEnd(b);
    assert e != -1;
    assert Retained(b) == b[e..];
  }

  /** Without a pair, more than 1000 bytes are cut to the last 500; otherwise
      the buffer stays as it is. */
  lemma RetainedWithoutPair(b: seq<byte>)
    requires NoTerminator(b)
    ensures |b| > 1000 ==> Retained(b) == b[|b| - 500..] && |Retained(b)| == 500
    ensures |b| <= 1000 ==> Retained(b) == b
  {
    LastFrameEndIsLast(b);
  }

  /** The kept buffer is a suffix of the buffer before truncation and holds no 03 FA pair. */
  lemma RetainedInvariants(b: seq<byte>)
    ensures |Retained(b)| <= |b| && Retained(b) == b[|b| - |Retained(b)|..]
    ensures NoTerminator(Retained(b))
  {
    LastFrameEndIsLast(b);
    var r := Retained(b);
    var o := |b| - |r|;
    assert r == b[o..];
    forall k | 0 <= k < |r| - 1 ensures !TerminatorAt(r, k) {
      assert r[k] == b[o + k] && r[k + 1] == b[o + k + 1];
      if LastFrameEnd(b) > 0 && k == 0 {
        assert b[o - 1] == 0xFA;
        assert !TerminatorAt(b, o - 1);
      }
      assert !TerminatorAt(b, o + k);
    }
  }

  /** 1500 bytes without a terminator fed into an empty buffer leave the last 500. */
  lemma LongRunKeepsLast500(data: seq<byte>)
    requires |data| == 1500 && NoTerminator(data)
    ensures Retained([] + data) == data[1000..] && |Retained([] + data)| == 500
  {
    assert [] + data == data;
    RetainedWithoutPair(data);
  }

  /** For a fueling frame the key `pump & 0x0F` gets the frame's liters and
      money, and every other key is left as it was. */
  lemma FuelingSetsOneKey(sessions: Sessions, f: seq<byte>)
    requires IsFueling(f)
    ensures var after := Observe(sessions, f).sessions; var key := SessionKey(f[0]);
      key in after && after[key] == (FrameLiters(f), FrameMoney(f)) &&
      forall k :: k != key ==> (k in after <==> k in sessions) && (k in sessions ==> after[k] == sessions[k])
  {
    NonHeartbeatShape(f, FuelingShape);
  }

  function FrameLiters(f: seq<byte>): nat requires |f| >= 12 { DecodeFueling(f).litersRaw }
  function FrameMoney(f: seq<byte>): nat requires |f| >= 12 { DecodeFueling(f).moneyRaw }

  /** What is printed for a fueling frame: an update only for a known pump
      whose liters grew, a start only for a new pump with liters or money
      above 0, and nothing otherwise. */
  lemma FuelingNotice(sessions: Sessions, f: seq<byte>)
    requires IsFueling(f)
    ensures var n := Observe(sessions, f).notice; var key := SessionKey(f[0]);
      (n.Progress? <==> key in sessions && FrameLiters(f) - sessions[key].0 > 0) &&
      (n.Started? <==> key !in sessions && (FrameLiters(f) > 0 || FrameMoney(f) > 0)) &&
      !n.DecodeError?
  {
    NonHeartbeatShape(f, FuelingShape);
  }

  /** Heartbeats and every frame that is neither fueling shape leave the map
      alone and print nothing. */
  lemma OtherFramesChangeNothing(sessions: Sessions, f: seq<byte>)
    requires IsHeartbeat(f) || !(IsFueling(f) || IsFuelingWithExtra(f))
    ensures Observe(sessions, f) == Observed(Silent, sessions)
  {
  }

  /** A fueling-with-extra frame always prints something: an update or a
      start when its head decodes, an error (and no change) otherwise. */
  lemma FuelingWithExtraNotice(sessions: Sessions, f: seq<byte>)
    requires IsFuelingWithExtra(f)
    ensures Observe(sessions, f).notice != Silent
    ensures !TerminatorAt(f, 14) ==> Observe(sessions, f) == Observed(DecodeError, sessions)
  {
    NonHeartbeatShape(f, FuelingWithExtraShape);
    FuelingWithExtraBranches(f);
  }

  /** Frames coming from the synchroniser never change the map through the
      fueling-with-extra branch: it always decodes to the raw record. */
  lemma ExtractedFuelingWithExtraChangesNothing(s: seq<byte>, f: seq<byte>, sessions: Sessions)
    requires f in Extract(s) && IsFuelingWithExtra(f)
    ensures Observe(sessions, f) == Observed(DecodeError, sessions)
  {
    ExtractedFramesProper(s);
    assert !TerminatorAt(f[..|f| - 1], 14);
    FuelingWithExtraNotice(sessions, f);
  }

  lemma {:induction false} ObserveAllKeepsKeys(sessions: Sessions, fs: seq<seq<byte>>)
    requires KeysArePumps(sessions)
    ensures KeysArePumps(ObserveAll(sessions, fs).sessions)
    ensures |ObserveAll(sessions, fs).notices| == |fs|
  {
    if fs != [] {
      ObserveAllKeepsKeys(sessions, fs[..|fs| - 1]);
    }
  }

  /** The stream 01 02 03 50 00 FA FA: 03 and FA of the frame end are split by
      the wrapper block 50 00 FA. */
  predicate SplitTerminatorStart(t: seq<byte>)
  {
    |t| >= 7 && t[0] == 0x01 && t[1] == 0x02 && t[2] == 0x03 && t[3] == 0x50 &&
    t[4] == 0x00 && t[5] == 0xFA && t[6] == 0xFA
  }

  /** Such a stream yields the frame 01 02 03 FA first, whatever follows. */
  lemma SplitTerminatorScan(t: seq<byte>)
    requires SplitTerminatorStart(t)
    ensures Scan(t, 0, []) == Scanned([[0x01, 0x02, 0x03, 0xFA]] + Scan(t, 7, []).frames, Scan(t, 7, []).pending)
  {
    var frame: seq<byte> := [0x01, 0x02, 0x03, 0xFA];
    assert EndsWithTerminator(frame);
    assert [0x01, 0x02, 0x03] + [t[6]] == frame;
    assert !WrapperAt(t, 6);
    assert Scan(t, 6, [0x01, 0x02, 0x03]) == Scanned([frame] + Scan(t, 7, []).frames, Scan(t, 7, []).pending);
    assert WrapperAt(t, 3);
    assert [0x01, 0x02] + [t[2]] == [0x01, 0x02, 0x03];
    assert Scan(t, 2, [0x01, 0x02]) == Scan(t, 3, [0x01, 0x02, 0x03]);
    assert [0x01] + [t[1]] == [0x01, 0x02];
    assert Scan(t, 1, [0x01]) == Scan(t, 2, [0x01, 0x02]);
    assert [] + [t[0]] == [0x01];
  }

  /** The truncation scan finds no adjacent 03 FA in those seven bytes. */
  lemma SplitTerminatorUnseen(b: seq<byte>)
    requires SplitTerminatorStart(b) && |b| == 7
    ensures LastFrameEnd(b) == -1
  {
    assert b == [0x01, 0x02, 0x03, 0x50, 0x00, 0xFA, 0xFA];
    assert LastFrameEnd([0x01]) == -1;
    assert LastFrameEnd([0x01, 0x02]) == -1;
    assert LastFrameEnd([0x01, 0x02, 0x03]) == -1;
    assert LastFrameEnd([0x01, 0x02, 0x03, 0x50]) == -1;
    assert [0x01, 0x02, 0x03, 0x50, 0x00][..4] == [0x01, 0x02, 0x03, 0x50];
    assert LastFrameEnd([0x01, 0x02, 0x03, 0x50, 0x00]) == -1;
    assert [0x01, 0x02, 0x03, 0x50, 0x00, 0xFA][..5] == [0x01, 0x02, 0x03, 0x50, 0x00];
    assert LastFrameEnd([0x01, 0x02, 0x03, 0x50, 0x00, 0xFA]) == -1;
    assert b[..6] == [0x01, 0x02, 0x03, 0x50, 0x00, 0xFA];
  }

  /** The seven-byte buffer 01 02 03 50 00 FA FA yields the frame 01 02 03 FA,
      yet holds no adjacent 03 FA and is under 1000 bytes, so the truncation
      keeps it whole and the next chunk extracts the same frame again. (That
      frame is shorter than 6 bytes, a heartbeat the sniffer ignores; the
      effect on fueling frames is `SplitFuelingUpdateRepeats`.) */
  lemma SplitTerminatorFrameIsHandledTwice(b: seq<byte>)
    requires SplitTerminatorStart(b) && |b| == 7
    ensures Extract(b) == [[0x01, 0x02, 0x03, 0xFA]] && Retained(b) == b
    ensures Extract(Retained(b) + [0x00]) == [[0x01, 0x02, 0x03, 0xFA]]
  {
    SplitTerminatorScan(b);
    SplitTerminatorUnseen(b);
    assert Scan(b, 7, []) == Scanned([], []);
    var c := b + [0x00];
    assert SplitTerminatorStart(c);
    SplitTerminatorScan(c);
    assert !WrapperAt(c, 7);
    assert Scan(c, 7, []) == Scanned([], [0x00]);
  }

  /** A wrapper block whose inner bytes are 03 FA looks like a terminator to
      the truncation scan: the partial frame 01 02 before it is thrown away
      although the synchroniser never ended a frame there. */
  lemma WrapperTerminatorDropsPartialFrame(b: seq<byte>)
    requires |b| == 5 && b[0] == 0x01 && b[1] == 0x02 && b[2] == 0x50 && b[3] == 0x03 && b[4] == 0xFA
    ensures Extract(b) == [] && Dropped(b) == [0x01, 0x02] && Retained(b) == []
  {
    assert WrapperAt(b, 2);
    assert Scan(b, 2, [0x01, 0x02]) == Scanned([], [0x01, 0x02]);
    assert [0x01] + [b[1]] == [0x01, 0x02];
    assert Scan(b, 1, [0x01]) == Scanned([], [0x01, 0x02]);
    assert [] + [b[0]] == [0x01];
    assert TerminatorAt(b, 3);
    assert LastFrameEnd(b) == 5;
  }

  /** The raw bytes of a frame whose 03 and FA are split by the wrapper
      block 50 00 FA: `... 03 50 00 FA FA`. */
  function SplitEnded(f: seq<byte>): (t: seq<byte>)
    requires |f| >= 1
    ensures |t| == |f| + 3 && t[..|f| - 1] == f[..|f| - 1]
  {
    f[..|f| - 1] + [0x50, 0x00, 0xFA, 0xFA]
  }

  /** Such raw bytes hold no adjacent 03 FA, yet the synchroniser emits the frame. */
  lemma SplitEndedScan(s: seq<byte>, i: nat, f: seq<byte>)
    requires ProperFrame(f) && NoWrapper(f)
    requires i + |f| + 3 <= |s| && s[i..i + |f| + 3] == SplitEnded(f)
    ensures NoTerminator(SplitEnded(f))
    ensures Scan(s, i, []) == Scanned([f] + Scan(s, i + |f| + 3, []).frames, Scan(s, i + |f| + 3, []).pending)
  {
    var t := SplitEnded(f);
    var p := f[..|f| - 1];
    assert p[|p| - 1] == f[|f| - 2..][0];
    NoTerminatorConcat(p, [0x50, 0x00, 0xFA, 0xFA]);
    assert s[i..i + |f| - 1] == t[..|f| - 1];
    assert s[i + |f| - 1] == t[|f| - 1] && s[i + |f| + 1] == t[|f| + 1] && s[i + |f| + 2] == t[|f| + 2];
    SplitFrameScan(s, i, f);
  }

  /** The notices of a longer run start with those of its prefix. */
  lemma {:induction false} ObserveAllPrefix(sessions: Sessions, a: seq<seq<byte>>, c: seq<seq<byte>>)
    ensures |ObserveAll(sessions, a + c).notices| >= |ObserveAll(sessions, a).notices|
    ensures ObserveAll(sessions, a + c).notices[..|ObserveAll(sessions, a).notices|] == ObserveAll(sessions, a).notices
    decreases |c|
  {
    if c == [] {
      assert a + c == a;
    } else {
      var c' := c[..|c| - 1];
      assert (a + c)[..|a + c| - 1] == a + c';
      ObserveAllPrefix(sessions, a, c');
    }
  }

  /** Two fueling frames of one pump with growing liters: whatever the map
      before, the second prints an update against the first. */
  lemma SecondFuelingUpdates(sessions: Sessions, f1: seq<byte>, f2: seq<byte>)
    requires IsFueling(f1) && IsFueling(f2)
    requires SessionKey(f1[0]) == SessionKey(f2[0]) && FrameLiters(f1) < FrameLiters(f2)
    ensures |ObserveAll(sessions, [f1, f2]).notices| == 2
    ensures ObserveAll(sessions, [f1, f2]).notices[1] ==
      Progress(SessionKey(f2[0]), FrameLiters(f2), FrameMoney(f2),
               FrameLiters(f2) - FrameLiters(f1), FrameMoney(f2) - FrameMoney(f1))
  {
    NonHeartbeatShape(f1, FuelingShape);
    NonHeartbeatShape(f2, FuelingShape);
    assert [f1, f2][..1] == [f1];
    assert [f1][..0] == [];
    var o1 := Observe(sessions, f1);
    assert ObserveAll(sessions, [f1]) == Observations([o1.notice], o1.sessions);
    FuelingSetsOneKey(sessions, f1);
    var o2 := Observe(o1.sessions, f2);
    assert ObserveAll(sessions, [f1, f2]) == Observations([o1.notice, o2.notice], o2.sessions);
  }

  /** Two frames sent with their terminators split, `... 03 50 00 FA FA`
      each: with any chunk after them they yield both frames first. */
  lemma SplitPairFrames(f1: seq<byte>, f2: seq<byte>, x: seq<byte>)
    requires |f1| == 16 && |f2| == 16 && ProperFrame(f1) && ProperFrame(f2)
    requires NoWrapper(f1) && NoWrapper(f2)
    ensures Extract(SplitEnded(f1) + SplitEnded(f2) + x) ==
      [f1, f2] + Scan(SplitEnded(f1) + SplitEnded(f2) + x, 38, []).frames
  {
    var t1, t2 := SplitEnded(f1), SplitEnded(f2);
    var bx := t1 + t2 + x;
    assert bx[0..19] == t1 && bx[19..38] == t2;
    SplitEndedScan(bx, 0, f1);
    SplitEndedScan(bx, 19, f2);
  }

  /** The 38 raw bytes of two such frames hold no 03 FA, so the truncation
      keeps them whole. */
  lemma SplitPairKept(f1: seq<byte>, f2: seq<byte>)
    requires |f1| == 16 && |f2| == 16 && ProperFrame(f1) && ProperFrame(f2)
    ensures NoTerminator(SplitEnded(f1) + SplitEnded(f2))
    ensures Retained(SplitEnded(f1) + SplitEnded(f2)) == SplitEnded(f1) + SplitEnded(f2)
  {
    var t1, t2 := SplitEnded(f1), SplitEnded(f2);
    var p1, p2 := f1[..15], f2[..15];
    assert p1[14] == f1[14..][0] && p2[14] == f2[14..][0];
    NoTerminatorConcat(p1, [0x50, 0x00, 0xFA, 0xFA]);
    NoTerminatorConcat(p2, [0x50, 0x00, 0xFA, 0xFA]);
    assert t1[|t1| - 1] == 0xFA;
    NoTerminatorConcat(t1, t2);
    RetainedWithoutPair(t1 + t2);
  }

  /** The split-terminator quirk on fueling frames. Two fueling frames of one
      pump, each sent as `... 03 50 00 FA FA`, leave no raw 03 FA in the
      buffer, so the buffer (38 bytes, below 1000) is kept whole. The next
      chunk, whatever it is, re-extracts both frames, and the second frame's
      update notice is printed again. */
  lemma SplitFuelingUpdateRepeats(sessions: Sessions, f1: seq<byte>, f2: seq<byte>, x: seq<byte>)
    requires IsFueling(f1) && IsFueling(f2) && ProperFrame(f1) && ProperFrame(f2)
    requires NoWrapper(f1) && NoWrapper(f2)
    requires SessionKey(f1[0]) == SessionKey(f2[0]) && FrameLiters(f1) < FrameLiters(f2)
    ensures var b := SplitEnded(f1) + SplitEnded(f2);
      Extract(b) == [f1, f2] && Retained(b) == b && |Extract(b + x)| >= 2 && Extract(b + x)[..2] == [f1, f2]
    ensures var b := SplitEnded(f1) + SplitEnded(f2);
      var first := ObserveAll(sessions, Extract(b));
      var again := ObserveAll(first.sessions, Extract(b + x));
      |first.notices| == 2 && |again.notices| >= 2 && again.notices[1] == first.notices[1] &&
      first.notices[1] == Progress(SessionKey(f2[0]), FrameLiters(f2), FrameMoney(f2),
                                   FrameLiters(f2) - FrameLiters(f1), FrameMoney(f2) - FrameMoney(f1))
  {
    var b := SplitEnded(f1) + SplitEnded(f2);
    SplitPairFrames(f1, f2, x);
    SplitPairFrames(f1, f2, []);
    assert b + [] == b;
    assert Scan(b, 38, []) == Scanned([], []);
    SplitPairKept(f1, f2);
    var rest := Scan(b + x, 38, []).frames;
    assert ([f1, f2] + rest)[..2] == [f1, f2];
    var first := ObserveAll(sessions, [f1, f2]);
    SecondFuelingUpdates(sessions, f1, f2);
    SecondFuelingUpdates(first.sessions, f1, f2);
    ObserveAllPrefix(first.sessions, [f1, f2], rest);
    var again := ObserveAll(first.sessions, [f1, f2] + rest);
    assert again.notices[..2][1] == again.notices[1];
  }

  /** The sniffer's state: the raw byte buffer and the fueling session map. */
  class Monitor {
    var buffer: seq<byte>
    var sessions: Sessions

    ghost predicate Valid()
      reads this
    {
      NoTerminator(buffer) && KeysArePumps(sessions)
    }

    constructor ()
      ensures Valid() && buffer == [] && sessions == map[]
    {
      buffer := [];
      sessions := map[];
    }

    /** decode_and_display_frame: updates the session map and returns what it prints. */
    method DecodeAndDisplayFrame(f: seq<byte>) returns (notice: Notice)
      modifies this
      ensures buffer == old(buffer)
      ensures KeysArePumps(old(sessions)) ==> KeysArePumps(sessions)
      ensures old(Valid()) ==> Valid()
      ensures Observed(notice, sessions) == Observe(old(sessions), f)
    {
      notice := Silent;
      if IsHeartbeat(f) {
        return;
      }
      if IsFuelingWithExtra(f) {
        var decoded := DecodeFuelingWithExtra(f);
        if !decoded.FuelingWithExtra? {
          notice := DecodeError;
          return;
        }
        var key := SessionKey(decoded.pump);
        var liters, money := decoded.litersRaw, decoded.moneyRaw;
        if key in sessions {
          var (prevLiters, prevMoney) := sessions[key];
          notice := Progress(key, liters, money, liters - prevLiters, money - prevMoney);
        } else {
          notice := Started(key, liters, money);
        }
        sessions := sessions[key := (liters, money)];
      } else if IsFueling(f) {
        var decoded := DecodeFueling(f);
        var key := SessionKey(decoded.pump);
        var liters, money := decoded.litersRaw, decoded.moneyRaw;
        if key in sessions {
          var (prevLiters, prevMoney) := sessions[key];
          if liters - prevLiters > 0 {
            notice := Progress(key, liters, money, liters - prevLiters, money - prevMoney);
          }
        } else if liters > 0 || money > 0 {
          notice := Started(key, liters, money);
        }
        sessions := sessions[key := (liters, money)];
      }
    }

    /** One chunk of input: append it, handle every frame the whole buffer
      yields, in order, then truncate the buffer. An empty chunk does nothing. */
    method Step(data: seq<byte>) returns (notices: seq<Notice>)
      requires Valid()
      modifies this
      ensures Valid()
      ensures data == [] ==> buffer == old(buffer) && sessions == old(sessions) && notices == []
      ensures data != [] ==>
        buffer == Retained(old(buffer) + data) &&
        ObserveAll(old(sessions), Extract(old(buffer) + data)) == Observations(notices, sessions)
    {
      notices := [];
      if data == [] {
        return;
      }
      buffer := buffer + data;
      ghost var start := sessions;
      var frames := ExtractFrames(buffer);
      for k := 0 to |frames|
        invariant buffer == old(buffer) + data
        invariant ObserveAll(start, frames[..k]) == Observations(notices, sessions)
      {
        assert frames[..k + 1][..k] == frames[..k];
        var notice := DecodeAndDisplayFrame(frames[k]);
        notices := notices + [notice];
      }
      assert frames[..|frames|] == frames;
      ObserveAllKeepsKeys(start, frames);
      var lastFrameEnd := FindLastFrameEnd(buffer);
      if lastFrameEnd > 0 {
        buffer := buffer[lastFrameEnd..];
      } else if |buffer| > 1000 {
        buffer := buffer[|buffer| - 500..];
      }
      RetainedInvariants(old(buffer) + data);
    }
  }
}
