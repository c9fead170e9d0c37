/** The loops that keep a sound device fed (programs/alsapcmpoll/alsapcmpoll.c:460-465, 579-974),
    against a device that answers as it likes. */
module PcmFeed {
  const FRAME_BYTES: nat := 4
  const EAGAIN: int := 11

  datatype Ready = Ready(error: bool, writable: bool)

  /** What the device has answered: an error, a state it has failed in, that it has to be waited for, that it has
      taken `n` bytes of all or of some it was offered, or anything else.  `Torn` is a write that took no whole
      number of frames, or failed. */
  datatype Answer = Fine | Fault | BadState | Wait | Took(n: nat, all: bool) | Torn(n: nat)

  /** `taken` is what the device has accepted, and `log` what it has answered. */
  class Device {
    var taken: seq<int>
    var log: seq<Answer>

    /** `poll`: a negative result is an error. */
    method Poll() returns (ret: int, ready: Ready)
      modifies this`log
      ensures log == old(log) + [if ret < 0 || ready.error then Fault else if ready.writable then Fine else Wait]
    {
      ret, ready := *, *;
      log := log + [if ret < 0 || ready.error then Fault else if ready.writable then Fine else Wait];
    }

    /** `SNDRV_PCM_IOCTL_STATUS`. */
    method Status() returns (ret: int, failed: bool)
      modifies this`log
      ensures log == old(log) + [if ret < 0 then Fault else if failed then BadState else Fine]
    {
      ret, failed := *, *;
      log := log + [if ret < 0 then Fault else if failed then BadState else Fine];
    }

    /** Any other call to the device. */
    method Control() returns (ret: int)
      modifies this`log
      ensures log == old(log) + [if ret < 0 then Fault else Fine]
    {
      ret := *;
      log := log + [if ret < 0 then Fault else Fine];
    }

    /** `write` never accepts more than it was offered. */
    method Write(bytes: seq<int>) returns (ret: int)
      modifies this
      ensures ret <= |bytes| && log == old(log) + [Written(ret, |bytes|)]
      ensures taken == old(taken) + bytes[..if ret > 0 then ret else 0]
    {
      ret := *;
      if ret > |bytes| {
        ret := |bytes|;
      }
      if ret > 0 {
        taken := taken + bytes[..ret];
      }
      log := log + [Written(ret, |bytes|)];
    }
  }

  /** What a write of `size` bytes that returns `ret` comes to. */
  function Written(ret: int, size: nat): Answer {
    if ret == -EAGAIN then Wait
    else if ret <= 0 then Torn(0)
    else if ret % FRAME_BYTES != 0 then Torn(ret)
    else Took(ret, ret == size)
  }

  /** No answer was an error. */
  predicate Errorless(log: seq<Answer>) {
    forall i :: 0 <= i < |log| ==> NoError(log[i])
  }

  predicate NoError(a: Answer) {
    a != Fault && !a.Torn?
  }

  /** The device was never in a failed state either. */
  predicate Healthy(log: seq<Answer>) {
    Errorless(log) && forall i :: 0 <= i < |log| ==> !IsBad(log[i])
  }

  predicate IsBad(a: Answer) {
    a == BadState
  }

  /** How often it has been waited for the device since it last took anything. */
  function Waits(log: seq<Answer>): nat {
    if log == [] || log[|log| - 1].Took? then 0
    else Waits(log[..|log| - 1]) + if log[|log| - 1].Wait? then 1 else 0
  }

  /** It was never waited for more than `n` times in a row. */
  predicate Patient(log: seq<Answer>, n: nat) {
    forall i :: 0 <= i <= |log| ==> Waits(log[..i]) <= n
  }

  /** The device works, and never has to be waited for more than 60 times in a row. */
  predicate Steady(log: seq<Answer>) {
    Healthy(log) && Patient(log, 60)
  }

  /** There is no error, the device takes all it is offered each time, and is waited for less than 1000 times. */
  predicate Eager(log: seq<Answer>) {
    Errorless(log) && Willing(log) && Count(log).0 < 1000
  }

  /** The bytes taken: each time some from the beginning of `audio`. */
  function Played(audio: seq<int>, log: seq<Answer>): seq<int> {
    if log == [] then []
    else Played(audio, log[..|log| - 1]) + Piece(audio, log[|log| - 1])
  }

  function Piece(audio: seq<int>, a: Answer): seq<int> {
    if (a.Took? || a.Torn?) && a.n <= |audio| then audio[..a.n] else []
  }

  /** How often the device was waited for, and how often it took something. */
  function Count(log: seq<Answer>): (c: (nat, nat)) {
    if log == [] then (0, 0)
    else
      var c, a := Count(log[..|log| - 1]), log[|log| - 1];
      (c.0 + if a.Wait? then 1 else 0, c.1 + if a.Took? then 1 else 0)
  }

  /** What was taken was always all that was offered. */
  predicate Willing(log: seq<Answer>) {
    forall i :: 0 <= i < |log| ==> TookAll(log[i])
  }

  predicate TookAll(a: Answer) {
    a.Took? ==> a.all
  }

  /** The answers since the log was `log0`. */
  function New(log0: seq<Answer>, log: seq<Answer>): seq<Answer>
    requires log0 <= log
  {
    log[|log0|..]
  }

  /** All of this at once: whether there was an error or a failed state, how often it was waited since something was
      taken, at most and in all, how often something was taken, and whether that was always all. */
  datatype Tally = Tally(error: bool, bad: bool, waits: nat, longest: nat, waited: nat, takes: nat, willing: bool) {
    function Next(a: Answer): Tally {
      var w := if a.Took? then 0 else waits + if a.Wait? then 1 else 0;
      Tally(error || !NoError(a), bad || IsBad(a), w, if w > longest then w else longest,
            waited + (if a.Wait? then 1 else 0), takes + (if a.Took? then 1 else 0), willing && TookAll(a))
    }
  }

  function TallyOf(log: seq<Answer>): Tally {
    if log == [] then Tally(false, false, 0, 0, 0, 0, true) else TallyOf(log[..|log| - 1]).Next(log[|log| - 1])
  }

  /** What the tally says of the log. */
  lemma {:induction false} TallyMeans(log: seq<Answer>, n: nat)
    ensures var t := TallyOf(log);
      && (t.error <==> !Errorless(log)) && (!t.error && !t.bad <==> Healthy(log)) && t.waits == Waits(log)
      && (t.longest <= n <==> Patient(log, n)) && Count(log) == (t.waited, t.takes) && (t.willing <==> Willing(log))
  {
    if log == [] {
      assert Waits(log[..0]) == 0;
    } else {
      var m := |log| - 1;
      TallyMeans(log[..m], n);
      assert log == log[..m] + [log[m]];
      Last(log[..m], log[m]);
      PatientMore(log[..m], log[m], n);
    }
  }

  /** Since `log0` the answers tally to `t`, and the device has taken what was played. */
  ghost predicate Heard(dev: Device, log0: seq<Answer>, before: seq<int>, audio: seq<int>, t: Tally)
    reads dev
  {
    && log0 <= dev.log && t == TallyOf(New(log0, dev.log))
    && dev.taken == before + Played(audio, New(log0, dev.log))
  }

  /** One more answer. */
  lemma OneMore(log0: seq<Answer>, log: seq<Answer>, a: Answer, audio: seq<int>)
    requires log0 <= log
    ensures log0 <= log + [a] && TallyOf(New(log0, log + [a])) == TallyOf(New(log0, log)).Next(a)
    ensures Played(audio, New(log0, log + [a])) == Played(audio, New(log0, log)) + Piece(audio, a)
  {
    var was, now := New(log0, log), New(log0, log + [a]);
    assert now == was + [a];
    assert now[..|now| - 1] == was;
  }

  lemma Last(log: seq<Answer>, a: Answer)
    ensures Waits(log + [a]) == if a.Took? then 0 else Waits(log) + if a.Wait? then 1 else 0
    ensures Errorless(log + [a]) <==> Errorless(log) && NoError(a)
    ensures Healthy(log + [a]) <==> Healthy(log) && NoError(a) && !IsBad(a)
    ensures Willing(log + [a]) <==> Willing(log) && TookAll(a)
    ensures Count(log + [a]) == (Count(log).0 + if a.Wait? then 1 else 0, Count(log).1 + if a.Took? then 1 else 0)
  {
    var all := log + [a];
    assert all[..|log|] == log && all[|log|] == a;
    assert forall i :: 0 <= i < |log| ==> all[i] == log[i];
  }

  lemma PatientMore(log: seq<Answer>, a: Answer, n: nat)
    ensures Patient(log + [a], n) <==> Patient(log, n) && Waits(log + [a]) <= n
  {
    var all := log + [a];
    assert all[..|log| + 1] == all;
    forall i | 0 <= i <= |log|
      ensures all[..i] == log[..i]
    {
    }
    if Patient(all, n) {
      forall i | 0 <= i <= |log|
        ensures Waits(log[..i]) <= n
      {
        assert Waits(all[..i]) <= n;
      }
    }
    if Patient(log, n) && Waits(all) <= n {
      forall i | 0 <= i <= |all|
        ensures Waits(all[..i]) <= n
      {
        assert i <= |log| ==> Waits(log[..i]) <= n;
      }
    }
  }

  /** The period to write: the device's own, if it has one no larger than requested
      (alsapcmpoll.c:460-465). */
  method ChoosePeriod(offered: nat, offeredBuffer: nat, requested: nat) returns (period: nat, buffer: nat)
    requires 0 < requested
    ensures 0 < period <= requested && (0 < offered <= requested ==> period == offered)
    ensures 0 < buffer && (offeredBuffer > 0 ==> buffer == offeredBuffer)
  {
    period, buffer := offered, offeredBuffer;
    if period == 0 || period > requested {
      period := requested;
    }
    if buffer == 0 {
      buffer := period * 4;
    }
  }

  /** `taken` grew by exactly `submitted` frames. */
  ghost predicate Accepted(before: seq<int>, taken: seq<int>, submitted: nat) {
    before <= taken && |taken| == |before| + submitted * FRAME_BYTES
  }

  /** The sustain loop: it submits never more than the target and reads never beyond the audio buffer; it
      ends after at most 61 polls for each frame and 61 more; without a failure the device has accepted
      exactly the target.  It fails only after an error, in a failed state, or if the device has to be waited for
      more than 60 times in a row; the first and the last are always a failure. */
  method Sustain(dev: Device, audio: seq<int>, period: nat, target: nat, ghost requested: nat)
    returns (submitted: nat, polls: nat, fail: bool)
    requires 0 < period <= requested && |audio| == requested * FRAME_BYTES
    modifies dev
    ensures submitted <= target && polls <= 61 * submitted + 61
    ensures old(dev.log) <= dev.log && dev.taken == old(dev.taken) + Played(audio, New(old(dev.log), dev.log))
    ensures |dev.taken| >= |old(dev.taken)| + submitted * FRAME_BYTES
    ensures !fail ==> submitted == target && Accepted(old(dev.taken), dev.taken, target)
    ensures fail ==> !Steady(New(old(dev.log), dev.log))
    ensures !fail ==> Errorless(New(old(dev.log), dev.log)) && Patient(New(old(dev.log), dev.log), 60)
  {
    submitted, polls, fail := 0, 0, false;
    var noProgress := 0;
    ghost var before, log0, t := dev.taken, dev.log, TallyOf([]);
    assert New(log0, log0) == [] && before + [] == before;
    while !fail && submitted < target
      invariant submitted <= target && noProgress <= 60 && polls <= 61 * submitted + noProgress
      invariant !fail && Heard(dev, log0, before, audio, t) && Accepted(before, dev.taken, submitted)
      invariant noProgress == t.waits && t.longest <= 60 && !t.error
      decreases target - submitted, 61 - noProgress
    {
      var frames := if target - submitted < period then target - submitted else period;
      var wrote, waited;
      wrote, waited, fail, t := Exchange(dev, audio, frames, log0, before, t, submitted);
      polls := polls + 1;
      submitted := submitted + wrote;
      if fail {
        break;
      }
      if waited {
        noProgress := noProgress + 1;
        if noProgress > 60 {
          fail := true;
          break;
        }
      } else {
        noProgress := 0;
      }
    }
    TallyMeans(New(log0, dev.log), 60);
  }

  /** One turn of the loop (alsapcmpoll.c:659-812): the device takes some frames, or has to be waited for. */
  method Exchange(dev: Device, audio: seq<int>, frames: nat, ghost log0: seq<Answer>, ghost before: seq<int>,
                  ghost t0: Tally, ghost submitted: nat)
    returns (wrote: nat, waited: bool, fail: bool, ghost t: Tally)
    requires 0 < frames && frames * FRAME_BYTES <= |audio| && Heard(dev, log0, before, audio, t0)
    requires Accepted(before, dev.taken, submitted)
    modifies dev
    ensures Heard(dev, log0, before, audio, t) && wrote <= frames && old(dev.log) <= dev.log
    ensures |dev.taken| >= |before| + (submitted + wrote) * FRAME_BYTES
    ensures fail ==> t.error || t.bad
    ensures !fail ==> Accepted(before, dev.taken, submitted + wrote) && t.error == t0.error
    ensures !fail ==> if waited then wrote == 0 && t.waits == t0.waits + 1 else wrote > 0 && t.waits == 0
    ensures !fail ==> t.longest == if t.waits > t0.longest then t.waits else t0.longest
  {
    ghost var log1 := dev.log;
    var ret, ready := dev.Poll();
    OneMore(log0, log1, dev.log[|log1|], audio);
    t := t0.Next(dev.log[|log1|]);
    ghost var log2 := dev.log;
    var statusRet, failed := dev.Status();
    OneMore(log0, log2, dev.log[|log2|], audio);
    t := t.Next(dev.log[|log2|]);
    assert Heard(dev, log0, before, audio, t);
    if statusRet < 0 || ret < 0 || ready.error || failed {
      return 0, false, true, t;
    }
    if !ready.writable {
      return 0, true, false, t;
    }
    wrote, waited, fail, t := WriteFrames(dev, audio, frames, log0, before, t, submitted);
  }

  method WriteFrames(dev: Device, audio: seq<int>, frames: nat, ghost log0: seq<Answer>, ghost before: seq<int>,
                     ghost t0: Tally, ghost submitted: nat)
    returns (wrote: nat, waited: bool, fail: bool, ghost t: Tally)
    requires 0 < frames && frames * FRAME_BYTES <= |audio| && Heard(dev, log0, before, audio, t0)
    requires Accepted(before, dev.taken, submitted)
    modifies dev
    ensures Heard(dev, log0, before, audio, t) && wrote <= frames && old(dev.log) <= dev.log
    ensures |dev.taken| >= |before| + (submitted + wrote) * FRAME_BYTES
    ensures fail ==> t.error || t.bad
    ensures !fail ==> Accepted(before, dev.taken, submitted + wrote) && t.error == t0.error
    ensures !fail ==> if waited then wrote == 0 && t.waits == t0.waits + 1 else wrote > 0 && t.waits == 0
    ensures !fail ==> t.longest == if t.waits > t0.longest then t.waits else t0.longest
  {
    var ret;
    ret, t := Offer(dev, audio, frames, log0, before, t0);
    ghost var log2 := dev.log;
    var statusRet, failed := dev.Status();
    OneMore(log0, log2, dev.log[|log2|], audio);
    t := t.Next(dev.log[|log2|]);
    if ret < 0 && -ret == EAGAIN {
      return 0, true, statusRet < 0, t;
    }
    if ret < FRAME_BYTES || ret % FRAME_BYTES != 0 {
      return 0, false, true, t;
    }
    return ret / FRAME_BYTES, false, statusRet < 0 || failed, t;
  }

  method Offer(dev: Device, audio: seq<int>, frames: nat, ghost log0: seq<Answer>, ghost before: seq<int>,
               ghost t0: Tally)
    returns (ret: int, ghost t: Tally)
    requires frames * FRAME_BYTES <= |audio| && Heard(dev, log0, before, audio, t0)
    modifies dev
    ensures Heard(dev, log0, before, audio, t) && t == t0.Next(Written(ret, frames * FRAME_BYTES))
    ensures old(dev.log) <= dev.log && ret <= frames * FRAME_BYTES
    ensures |dev.taken| == |old(dev.taken)| + (if ret > 0 then ret else 0) && old(dev.taken) <= dev.taken
  {
    ghost var log1 := dev.log;
    ret := dev.Write(audio[..frames * FRAME_BYTES]);
    OneMore(log0, log1, dev.log[|log1|], audio);
    PieceIsTaken(audio, frames * FRAME_BYTES, ret);
    t := t0.Next(dev.log[|log1|]);
  }

  /** What a write takes is a piece of the audio. */
  lemma PieceIsTaken(audio: seq<int>, size: nat, ret: int)
    requires size <= |audio| && ret <= size
    ensures Piece(audio, Written(ret, size)) == audio[..size][..if ret > 0 then ret else 0]
  {
  }

  const MAX_PERIOD: nat := 1200
  const TARGET: nat := 48000 * 6

  function Audio(frames: nat): seq<int> {
    seq(frames * FRAME_BYTES, i => Sample(i))
  }

  /** The test tone, a byte at a time (alsapcmpoll.c:393-402). */
  function Sample(i: int): int {
    var sample := i / 2 * 97 % 0x400 - 0x200;
    if i % 2 == 0 then sample % 0x100 else sample / 0x100 % 0x100
  }

  /** `configure_pcm`: the device may refuse, or offer any period and buffer. */
  method Configure(dev: Device, requested: nat) returns (ret: int, period: nat)
    requires 0 < requested
    modifies dev`log
    ensures 0 < period <= requested && Quiet(old(dev.log), dev.log)
    ensures ret < 0 ==> !Errorless(New(old(dev.log), dev.log))
  {
    ghost var log0 := dev.log;
    var offered: nat, offeredBuffer: nat := *, *;
    ret := dev.Control();
    ghost var log1 := dev.log;
    QuietMore(log0, log0, log1);
    var buffer;
    period, buffer := ChoosePeriod(offered, offeredBuffer, requested);
    if ret >= 0 {
      ret := dev.Control();
      QuietMore(log0, log1, dev.log);
    }
  }

  /** Since `log0` nothing was taken and the device was not waited for. */
  ghost predicate Quiet(log0: seq<Answer>, log: seq<Answer>) {
    log0 <= log && forall i :: 0 <= i < |New(log0, log)| ==> IsQuiet(New(log0, log)[i])
  }

  predicate IsQuiet(a: Answer) {
    a == Fine || a == Fault || a == BadState
  }

  lemma QuietMore(log0: seq<Answer>, log: seq<Answer>, log': seq<Answer>)
    requires Quiet(log0, log) && |log'| == |log| + 1 && log <= log' && IsQuiet(log'[|log|])
    ensures Quiet(log0, log')
    ensures Errorless(New(log0, log')) <==> Errorless(New(log0, log)) && NoError(log'[|log|])
    ensures Healthy(New(log0, log')) <==> Healthy(New(log0, log)) && NoError(log'[|log|]) && !IsBad(log'[|log|])
  {
    var a := log'[|log|];
    assert log' == log + [a];
    assert New(log0, log') == New(log0, log) + [a];
    Last(New(log0, log), a);
  }

  /** What quiet answers before and after some others change. */
  lemma {:induction false} QuietAround(a: seq<Answer>, b: seq<Answer>, audio: seq<int>)
    requires forall i :: 0 <= i < |a| ==> IsQuiet(a[i])
    ensures Waits(a + b) == Waits(b) && Played(audio, a + b) == Played(audio, b)
    decreases |a| + |b|
  {
    var all := a + b;
    if b != [] {
      assert all[..|all| - 1] == a + b[..|b| - 1];
      QuietAround(a, b[..|b| - 1], audio);
    } else if a != [] {
      var m := |a| - 1;
      assert all == a && a[..m] + [] == a[..m] && IsQuiet(a[m]);
      QuietAround(a[..m], [], audio);
    }
  }

  lemma {:induction false} QuietBehind(a: seq<Answer>, b: seq<Answer>, audio: seq<int>)
    requires forall i :: 0 <= i < |b| ==> IsQuiet(b[i])
    ensures Played(audio, a + b) == Played(audio, a)
    decreases |b|
  {
    if b == [] {
      assert a + b == a;
    } else {
      var m := |b| - 1;
      assert (a + b)[..|a + b| - 1] == a + b[..m] && IsQuiet(b[m]);
      QuietBehind(a, b[..m], audio);
    }
  }

  /** Draining, dropping and closing: whether anything went wrong (alsapcmpoll.c:819-859). */
  method Finish(dev: Device) returns (fail: bool)
    modifies dev`log
    ensures Quiet(old(dev.log), dev.log)
    ensures fail ==> !Healthy(New(old(dev.log), dev.log))
    ensures !fail ==> Errorless(New(old(dev.log), dev.log))
  {
    ghost var log0 := dev.log;
    var status0, failed0 := dev.Status();
    QuietMore(log0, log0, dev.log);
    ghost var log1 := dev.log;
    var drain := dev.Control();
    QuietMore(log0, log1, dev.log);
    ghost var log2 := dev.log;
    var status1, failed1 := dev.Status();
    QuietMore(log0, log2, dev.log);
    ghost var log3 := dev.log;
    var drop := dev.Control();
    QuietMore(log0, log3, dev.log);
    ghost var log4 := dev.log;
    var status2, failed2 := dev.Status();
    QuietMore(log0, log4, dev.log);
    ghost var log5 := dev.log;
    var close := dev.Control();
    QuietMore(log0, log5, dev.log);
    fail := status0 < 0 || drain < 0 || status1 < 0 || failed1 || drop < 0 || status2 < 0 || close < 0;
  }

  /** Success means that the device has accepted exactly six seconds of frames, each time from the beginning of the
      test tone; it is certain if the device never reports an error or a failed state, and need not be waited for
      more than 60 times in a row. */
  method RunSustain(dev: Device, requested: nat) returns (ret: int)
    modifies dev
    ensures (ret == 0 || ret == 1) && old(dev.taken) <= dev.taken && old(dev.log) <= dev.log
    ensures ret == 0 ==> 0 < requested <= MAX_PERIOD && Accepted(old(dev.taken), dev.taken, TARGET)
    ensures dev.taken == old(dev.taken) + Played(Audio(requested), New(old(dev.log), dev.log))
    ensures 0 < requested <= MAX_PERIOD && Steady(New(old(dev.log), dev.log)) ==> ret == 0
  {
    ghost var log0, audio := dev.log, Audio(requested);
    assert New(log0, log0) == [];
    if requested == 0 || requested > MAX_PERIOD {
      return 1;
    }
    var ready, period, fail;
    ready, period, fail := Prepare(dev, requested);
    ghost var log1 := dev.log;
    QuietAround(New(log0, log1), [], audio);
    assert New(log0, log1) + [] == New(log0, log1);
    if !ready {
      return 1;
    }
    if !fail {
      var submitted, polls;
      submitted, polls, fail := Sustain(dev, Audio(requested), period, TARGET, requested);
    }
    ghost var log2 := dev.log;
    var bad := Finish(dev);
    Sections(log0, log1, log2, dev.log, audio, 60);
    ret := if fail || bad then 1 else 0;
  }

  /** Configuring and preparing the device: not `ready` ends the program, `fail` goes on to the end of it. */
  method Prepare(dev: Device, requested: nat) returns (ready: bool, period: nat, fail: bool)
    requires 0 < requested
    modifies dev`log
    ensures 0 < period <= requested && Quiet(old(dev.log), dev.log)
    ensures !ready || fail ==> !Healthy(New(old(dev.log), dev.log))
  {
    ghost var log0 := dev.log;
    var config;
    config, period := Configure(dev, requested);
    if config < 0 {
      return false, period, false;
    }
    ghost var log1 := dev.log;
    var prepare := dev.Control();
    QuietMore(log0, log1, dev.log);
    if prepare < 0 {
      return false, period, false;
    }
    ghost var log2 := dev.log;
    var status, failed := dev.Status();
    QuietMore(log0, log2, dev.log);
    return true, period, status < 0;
  }

  /** The answers before, during and after the loop. */
  lemma Sections(log0: seq<Answer>, log1: seq<Answer>, log2: seq<Answer>, log3: seq<Answer>, audio: seq<int>, n: nat)
    requires Quiet(log0, log1) && log1 <= log2 && Quiet(log2, log3)
    ensures log0 <= log3 && Played(audio, New(log0, log3)) == Played(audio, New(log1, log2))
    ensures Healthy(New(log0, log3)) ==>
      Healthy(New(log0, log1)) && Healthy(New(log1, log2)) && Healthy(New(log2, log3))
    ensures Patient(New(log0, log3), n) ==> Patient(New(log1, log2), n)
  {
    var a, b, c, all := New(log0, log1), New(log1, log2), New(log2, log3), New(log0, log3);
    assert all == a + b + c;
    QuietBehind(a + b, c, audio);
    QuietAround(a, b, audio);
    if Healthy(all) {
      HealthyParts(a, b, c);
    }
    if Patient(all, n) {
      forall i | 0 <= i <= |b|
        ensures Waits(b[..i]) <= n
      {
        QuietAround(a, b[..i], audio);
        assert all[..|a| + i] == a + b[..i];
      }
    }
  }

  lemma HealthyParts(a: seq<Answer>, b: seq<Answer>, c: seq<Answer>)
    requires Healthy(a + b + c)
    ensures Healthy(a) && Healthy(b) && Healthy(c)
  {
    var all := a + b + c;
    forall i | 0 <= i < |a|
      ensures NoError(a[i]) && !IsBad(a[i])
    {
      assert all[i] == a[i];
    }
    forall i | 0 <= i < |b|
      ensures NoError(b[i]) && !IsBad(b[i])
    {
      assert all[|a| + i] == b[i];
    }
    forall i | 0 <= i < |c|
      ensures NoError(c[i]) && !IsBad(c[i])
    {
      assert all[|a + b| + i] == c[i];
    }
  }

  /** The pace loop: at most 1001 polls more than full periods are needed.  It succeeds if there is no error, the
      device takes all it is offered each time, and it has to be waited for less than 1000 times. */
  method Pace(dev: Device, audio: seq<int>, period: nat, target: nat) returns (submitted: nat, polls: nat, fail: bool)
    requires 0 < period && |audio| >= period * FRAME_BYTES
    modifies dev
    ensures submitted <= target && polls <= target / period + 1001
    ensures old(dev.log) <= dev.log && dev.taken == old(dev.taken) + Played(audio, New(old(dev.log), dev.log))
    ensures !fail ==> submitted == target && Accepted(old(dev.taken), dev.taken, target)
    ensures !fail ==> Errorless(New(old(dev.log), dev.log))
    ensures Eager(New(old(dev.log), dev.log)) ==> !fail
  {
    submitted, polls, fail := 0, 0, false;
    var limit := target / period + 1000;
    ghost var before, log0, t := dev.taken, dev.log, TallyOf([]);
    assert New(log0, log0) == [] && before + [] == before;
    while submitted < target
      invariant submitted <= target && polls <= limit && Accepted(before, dev.taken, submitted)
      invariant !fail && Heard(dev, log0, before, audio, t) && !t.error && polls == t.waited + t.takes
      invariant t.willing ==> submitted == target || submitted == t.takes * period
      decreases limit - polls
    {
      var frames := if target - submitted < period then target - submitted else period;
      FullPeriods(t.takes, period, target);
      var wrote;
      polls := polls + 1;
      wrote, fail, t := PaceTurn(dev, audio, frames, polls > limit, log0, before, t, submitted);
      if fail {
        break;
      }
      submitted := submitted + wrote;
    }
    TallyMeans(New(log0, dev.log), 0);
  }

  /** One turn of the loop (alsapcmpoll.c:927-957); `late` if there have been too many polls. */
  method PaceTurn(dev: Device, audio: seq<int>, frames: nat, late: bool, ghost log0: seq<Answer>,
                  ghost before: seq<int>, ghost t0: Tally, ghost submitted: nat)
    returns (wrote: nat, fail: bool, ghost t: Tally)
    requires 0 < frames && frames * FRAME_BYTES <= |audio| && Heard(dev, log0, before, audio, t0)
    requires Accepted(before, dev.taken, submitted)
    modifies dev
    ensures Heard(dev, log0, before, audio, t) && wrote <= frames && old(dev.log) <= dev.log
    ensures fail ==> t.error || late
    ensures !fail ==> !late && Accepted(before, dev.taken, submitted + wrote) && t.error == t0.error
    ensures !fail ==> t.waited + t.takes == t0.waited + t0.takes + 1 && (t.willing ==> t0.willing)
    ensures !fail ==> if t.takes == t0.takes then wrote == 0 else t.willing ==> wrote == frames
    ensures t.waited >= t0.waited && t.takes >= t0.takes && (t.willing ==> t0.willing)
  {
    ghost var log1 := dev.log;
    var ret, ready := dev.Poll();
    OneMore(log0, log1, dev.log[|log1|], audio);
    t := t0.Next(dev.log[|log1|]);
    wrote, fail := 0, false;
    if ret < 0 || ready.error || late {
      return 0, true, t;
    }
    if !ready.writable {
      return 0, false, t;
    }
    ghost var t1 := t;
    ret, t := Offer(dev, audio, frames, log0, before, t1);
    if ret < 0 && -ret == EAGAIN {
      return 0, false, t;
    }
    if ret <= 0 || ret % FRAME_BYTES != 0 {
      return 0, true, t;
    }
    return ret / FRAME_BYTES, false, t;
  }

  /** As long as the target is not reached there are not more full periods than it has. */
  lemma FullPeriods(c: nat, period: nat, target: nat)
    requires period > 0
    ensures c * period < target ==> c <= target / period
    ensures (c + 1) * period == c * period + period
  {
    var q := target / period;
    assert target == q * period + target % period;
    if c > q {
      MorePeriods(q + 1, c, period);
      assert (q + 1) * period == q * period + period;
    }
  }

  lemma MorePeriods(a: nat, b: nat, period: nat)
    requires a <= b
    ensures a * period <= b * period
  {
  }

  /** The same with the device configured before and closed behind it; dropping what is left may fail. */
  method RunPace(dev: Device) returns (ret: int)
    modifies dev
    ensures (ret == 0 || ret == 1) && old(dev.taken) <= dev.taken && old(dev.log) <= dev.log
    ensures ret == 0 ==> Accepted(old(dev.taken), dev.taken, TARGET)
    ensures dev.taken == old(dev.taken) + Played(Audio(MAX_PERIOD), New(old(dev.log), dev.log))
    ensures Eager(New(old(dev.log), dev.log)) ==> ret == 0
  {
    ghost var log0, audio := dev.log, Audio(MAX_PERIOD);
    var config, period := Configure(dev, MAX_PERIOD);
    ghost var log1 := dev.log;
    QuietAround(New(log0, log1), [], audio);
    assert New(log0, log1) + [] == New(log0, log1);
    if config < 0 {
      return 1;
    }
    var prepare := dev.Control();
    QuietMore(log0, log1, dev.log);
    ghost var log2 := dev.log;
    QuietAround(New(log0, log2), [], audio);
    assert New(log0, log2) + [] == New(log0, log2);
    if prepare < 0 {
      return 1;
    }
    var submitted, polls, fail := Pace(dev, Audio(MAX_PERIOD), period, TARGET);
    ghost var log3 := dev.log;
    var bad := Close(dev);
    PaceSections(log0, log2, log3, dev.log, audio);
    ret := if fail || bad then 1 else 0;
  }

  /** Draining, dropping and closing (alsapcmpoll.c:959-965). */
  method Close(dev: Device) returns (fail: bool)
    modifies dev`log
    ensures Quiet(old(dev.log), dev.log) && (fail ==> !Errorless(New(old(dev.log), dev.log)))
  {
    ghost var log0 := dev.log;
    var drain := dev.Control();
    QuietMore(log0, log0, dev.log);
    ghost var log1 := dev.log;
    var drop := dev.Control();
    QuietMore(log0, log1, dev.log);
    ghost var log2 := dev.log;
    var close := dev.Control();
    QuietMore(log0, log2, dev.log);
    fail := drain < 0 || close < 0;
  }

  lemma PaceSections(log0: seq<Answer>, log1: seq<Answer>, log2: seq<Answer>, log3: seq<Answer>, audio: seq<int>)
    requires Quiet(log0, log1) && log1 <= log2 && Quiet(log2, log3)
    ensures log0 <= log3 && Played(audio, New(log0, log3)) == Played(audio, New(log1, log2))
    ensures Errorless(New(log0, log3)) ==> Errorless(New(log1, log2)) && Errorless(New(log2, log3))
    ensures Willing(New(log0, log3)) ==> Willing(New(log1, log2))
    ensures Count(New(log1, log2)).0 <= Count(New(log0, log3)).0
  {
    var a, b, c, all := New(log0, log1), New(log1, log2), New(log2, log3), New(log0, log3);
    assert all == a + b + c;
    QuietBehind(a + b, c, audio);
    QuietAround(a, b, audio);
    CountParts(a, b);
    CountParts(a + b, c);
    if Errorless(all) {
      ErrorlessParts(a + b, c);
      ErrorlessParts(a, b);
    }
    if Willing(all) {
      WillingParts(a + b, c);
      WillingParts(a, b);
    }
  }

  lemma ErrorlessParts(a: seq<Answer>, b: seq<Answer>)
    requires Errorless(a + b)
    ensures Errorless(a) && Errorless(b)
  {
    forall i | 0 <= i < |a|
      ensures NoError(a[i])
    {
      assert (a + b)[i] == a[i];
    }
    forall i | 0 <= i < |b|
      ensures NoError(b[i])
    {
      assert (a + b)[|a| + i] == b[i];
    }
  }

  lemma WillingParts(a: seq<Answer>, b: seq<Answer>)
    requires Willing(a + b)
    ensures Willing(a) && Willing(b)
  {
    forall i | 0 <= i < |a|
      ensures TookAll(a[i])
    {
      assert (a + b)[i] == a[i];
    }
    forall i | 0 <= i < |b|
      ensures TookAll(b[i])
    {
      assert (a + b)[|a| + i] == b[i];
    }
  }

  lemma {:induction false} CountParts(a: seq<Answer>, b: seq<Answer>)
    ensures Count(a + b) == (Count(a).0 + Count(b).0, Count(a).1 + Count(b).1)
    decreases |b|
  {
    if b == [] {
      assert a + b == a;
    } else {
      assert (a + b)[..|a + b| - 1] == a + b[..|b| - 1];
      CountParts(a, b[..|b| - 1]);
    }
  }

  /** The test tone: sample `k` is `97 k` modulo 1024 less 512, in two bytes, the low one first. */
  lemma ToneSamples(frames: nat, k: nat)
    requires 2 * k + 1 < frames * FRAME_BYTES
    ensures var lo, hi := Audio(frames)[2 * k], Audio(frames)[2 * k + 1];
      && 0 <= lo < 256 && 0 <= hi < 256
      && var v := lo + 256 * hi; (if v < 0x8000 then v else v - 0x1_0000) == k * 97 % 1024 - 512
  {
    assert 2 * k / 2 == k && (2 * k + 1) / 2 == k;
  }
}
