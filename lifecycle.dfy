// The pause/shutdown control of the frame loop (src/main.cpp:20-42, 69,
// 90-138 and 246).
//
// The process keeps two global flags, `protonect_shutdown` and
// `protonect_paused`, and the device pointer `devtopause` that SIGUSR1 uses.
// SIGINT sets the shutdown flag; SIGUSR1 stops a running device or starts a
// paused one and flips the paused flag. Signals are modelled as ordinary calls
// made between the steps of the loop, not as asynchronous interruptions.

module Lifecycle {

  /** `(size_t)-1` on a 64-bit target: `framemax` set to it means "no limit". */
  const SizeMax: int := 0xFFFF_FFFF_FFFF_FFFF

  /** The values of a `size_t`. */
  type Size = n: int | 0 <= n <= SizeMax

  /** `n++` on a `size_t`, which wraps around to 0 past the largest value. */
  function Inc(n: Size): (m: Size)
    ensures m == (n + 1) % (SizeMax + 1)
  {
    if n == SizeMax then 0 else n + 1
  }

  /** The frame loop's guard: no shutdown requested, and either no frame limit or
      fewer frames handled than the limit. */
  predicate KeepStreaming(shutdown: bool, framecount: Size, framemax: Size)
    ensures KeepStreaming(shutdown, framecount, framemax) ==> !shutdown
    ensures KeepStreaming(shutdown, framecount, framemax) && framemax != SizeMax ==> framecount < framemax
  {
    !shutdown && (framemax == SizeMax || framecount < framemax)
  }

  /** With a finite limit the guard admits only counts below the limit, so the
      increment at the end of an iteration neither wraps nor passes the limit. */
  lemma GuardBoundsCount(shutdown: bool, framecount: Size, framemax: Size)
    requires framemax != SizeMax && KeepStreaming(shutdown, framecount, framemax)
    ensures !shutdown && Inc(framecount) == framecount + 1 <= framemax
  {
  }

  /** A call that the pause handler makes on the device. */
  datatype DeviceCall = Start | Stop

  /** A signal delivered to the process. */
  datatype Signal = Interrupt | PauseToggle

  /** How the frame loop ends: its guard failed (`return 0` after the loop), or
      no frame pair arrived within the timeout (`return -1`). */
  datatype Exit = Finished | Timeout

  /** The calls made by `n` pause toggles from a running device: stop, start,
      stop, start, ... */
  function Toggles(n: nat): (s: seq<DeviceCall>)
    ensures |s| == n
  {
    if n == 0 then [] else Toggles(n - 1) + [if n % 2 == 1 then Stop else Start]
  }

  /** The toggles alternate: every even position is a stop, every odd one a start. */
  lemma {:induction false} TogglesAlternate(n: nat, k: nat)
    requires k < n
    ensures Toggles(n)[k] == if k % 2 == 0 then Stop else Start
  {
    if k < n - 1 {
      TogglesAlternate(n - 1, k);
      assert Toggles(n)[k] == Toggles(n - 1)[k];
    }
  }

  /** The number of pause signals delivered over a run of frames. */
  function Pauses(frames: seq<seq<Signal>>): (n: nat)
    ensures frames == [] ==> n == 0
  {
    if frames == [] then 0
    else Pauses(frames[..|frames| - 1]) + multiset(frames[|frames| - 1])[PauseToggle]
  }

  /** The process-wide control state of the program. */
  class Protonect {
    /** `protonect_shutdown`. */
    var shutdown: bool
    /** `protonect_paused`. */
    var paused: bool
    /** Whether `devtopause` points at an opened device. */
    var hasDevice: bool
    /** The start/stop calls the pause handler has made on the device, in order. */
    var calls: seq<DeviceCall>

    /** The device is paused exactly when the handler has made an odd number of
        calls, which alternate stop and start; without a device none were made. */
    ghost predicate Valid()
      reads this
    {
      calls == Toggles(|calls|) &&
      (paused <==> |calls| % 2 == 1) &&
      (!hasDevice ==> calls == [])
    }

    /** The globals as the program starts: both flags false, no device yet. */
    constructor ()
      ensures Valid()
      ensures !shutdown && !paused && !hasDevice && calls == []
    {
      shutdown, paused, hasDevice, calls := false, false, false, [];
    }

    /** `devtopause = dev` once the device is open (src/main.cpp:84). */
    method SetDevice()
      requires Valid()
      modifies this`hasDevice
      ensures Valid() && hasDevice
    {
      hasDevice := true;
    }

    /** `sigint_handler`: request shutdown and nothing else. */
    method Sigint()
      requires Valid()
      modifies this`shutdown
      ensures Valid() && shutdown
    {
      shutdown := true;
    }

    /** `sigusr1_handler`: without a device do nothing; otherwise start a paused
        device or stop a running one, then flip the paused flag. */
    method Sigusr1()
      requires Valid()
      modifies this`paused, this`calls
      ensures Valid()
      ensures !hasDevice ==> paused == old(paused) && calls == old(calls)
      ensures hasDevice ==> paused == !old(paused) && calls == old(calls) + [if old(paused) then Start else Stop]
    {
      if !hasDevice {
        return;
      }
      if paused {
        calls := calls + [Start];
      } else {
        calls := calls + [Stop];
      }
      paused := !paused;
    }

    /** A pause signal followed by a resume signal leaves the device running after
        exactly one stop and one start. */
    method PauseThenResume()
      requires Valid() && hasDevice && !paused
      modifies this`paused, this`calls
      ensures Valid() && !paused
      ensures calls == old(calls) + [Stop, Start]
    {
      Sigusr1();
      Sigusr1();
    }

    /** Handles the signals delivered during one iteration, in order. */
    method Deliver(signals: seq<Signal>)
      requires Valid()
      modifies this`shutdown, this`paused, this`calls
      ensures Valid()
      ensures shutdown <==> old(shutdown) || Interrupt in signals
      ensures |calls| == |old(calls)| + (if hasDevice then multiset(signals)[PauseToggle] else 0)
    {
      for i := 0 to |signals|
        invariant Valid()
        invariant shutdown <==> old(shutdown) || Interrupt in signals[..i]
        invariant |calls| == |old(calls)| + (if hasDevice then multiset(signals[..i])[PauseToggle] else 0)
      {
        assert signals[..i + 1] == signals[..i] + [signals[i]];
        if signals[i] == Interrupt {
          Sigint();
        } else {
          Sigusr1();
        }
      }
      assert signals[..|signals|] == signals;
    }

    /** The frame loop (src/main.cpp:90-138, 246). `early` are the signals that
        arrive after the shutdown flag is reset and before the guard is first
        tested (while the device is set up and started); `frames[k]` stands for
        the k-th frame pair to arrive and the signals delivered while it is
        handled; when `frames` runs out, the wait for the next pair times out and
        `lastWait` are the signals delivered during that wait. `handled` is the
        number of iterations run. */
    method Stream(framemax: Size, early: seq<Signal>, frames: seq<seq<Signal>>, lastWait: seq<Signal>)
        returns (exit: Exit, framecount: Size, ghost handled: nat)
      requires Valid() && hasDevice
      modifies this`shutdown, this`paused, this`calls
      ensures Valid()
      ensures handled <= |frames|
      ensures handled <= SizeMax ==> framecount == handled
      ensures framemax != SizeMax ==> handled <= framemax
      ensures Interrupt in early ==> handled == 0 && exit == Finished
      ensures exit == Timeout ==> handled == |frames| && (framemax == SizeMax || framecount < framemax)
      ensures exit == Timeout ==> (shutdown <==> Interrupt in lastWait)
      ensures exit == Timeout ==> forall k :: 0 <= k < handled ==> Interrupt !in frames[k]
      ensures exit == Finished ==> !KeepStreaming(shutdown, framecount, framemax)
      ensures exit == Finished ==> (shutdown <==> Interrupt in early || (0 < handled && Interrupt in frames[handled - 1]))
      ensures forall k :: 0 <= k < handled - 1 ==> Interrupt !in frames[k]
      ensures |calls| == |old(calls)| + multiset(early)[PauseToggle] + Pauses(frames[..handled]) +
        (if exit == Timeout then multiset(lastWait)[PauseToggle] else 0)
    {
      shutdown := false;
      Deliver(early);
      framecount, handled := 0, 0;
      var next: nat := 0;  // position of the next frame pair in `frames`
      while KeepStreaming(shutdown, framecount, framemax)
        invariant Valid() && hasDevice
        invariant next == handled <= |frames|
        invariant handled <= SizeMax ==> framecount == handled
        invariant framemax != SizeMax ==> handled <= framemax
        invariant Interrupt in early ==> handled == 0 && shutdown
        invariant !shutdown ==> forall k :: 0 <= k < handled ==> Interrupt !in frames[k]
        invariant forall k :: 0 <= k < handled - 1 ==> Interrupt !in frames[k]
        invariant shutdown <==> Interrupt in early || (0 < handled && Interrupt in frames[handled - 1])
        invariant |calls| == |old(calls)| + multiset(early)[PauseToggle] + Pauses(frames[..handled])
        decreases |frames| - next
      {
        if next == |frames| {
          Deliver(lastWait);
          exit := Timeout;
          return;
        }
        assert frames[..next + 1][..next] == frames[..next];
        Deliver(frames[next]);
        framecount := Inc(framecount);
        next, handled := next + 1, handled + 1;
      }
      exit := Finished;
    }
  }
}
