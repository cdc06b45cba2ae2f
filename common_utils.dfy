/**
 * Helpers shared by every workload and checker: the big-endian u32 codec used
 * for keys, values and counters, the decision a crash-recovery parent takes on
 * each child's wait status, and the checker's command-line arguments.
 */
module CommonUtils {
  import opened Prelude

  /** `common_utils::SEGMENT_SIZE`, the sled segment size the workloads configure. */
  const SEGMENT_SIZE: nat := 1024

  // ---------------------------------------------------------------------------
  // Big-endian u32 codec
  // ---------------------------------------------------------------------------

  /** The unsigned value of four bytes read most significant first. */
  function BigEndian4(b0: Byte, b1: Byte, b2: Byte, b3: Byte): (u: U32)
  {
    ((b0 * 0x100 + b1) * 0x100 + b2) * 0x100 + b3
  }

  /** `u32_to_vec`: `u.to_be_bytes()` as a vector. */
  function U32ToVec(u: U32): (r: seq<Byte>)
    ensures |r| == 4
    ensures BigEndian4(r[0], r[1], r[2], r[3]) == u
  {
    var b0, rest0 := u / 0x100_0000, u % 0x100_0000;
    var b1, rest1 := rest0 / 0x1_0000, rest0 % 0x1_0000;
    var b2, b3 := rest1 / 0x100, rest1 % 0x100;
    [b0, b1, b2, b3]
  }

  /**
   * `slice_to_u32`: the big-endian u32 in the first four bytes. The source
   * copies `b[..4]` and so panics on a shorter slice; that case is `None`.
   */
  function SliceToU32(b: seq<Byte>): (r: Option<U32>)
    ensures r.Some? <==> |b| >= 4
    ensures r.Some? ==> U32ToVec(r.value) == b[..4]
  {
    if |b| < 4 then None
    else
      var u := BigEndian4(b[0], b[1], b[2], b[3]);
      BigEndianInjective(U32ToVec(u), b[..4]);
      Some(u)
  }

  lemma BigEndianInjective(x: seq<Byte>, y: seq<Byte>)
    requires |x| == 4 && |y| == 4
    requires BigEndian4(x[0], x[1], x[2], x[3]) == BigEndian4(y[0], y[1], y[2], y[3])
    ensures x == y
  {
    var mx: int, my: int := x[0] as int * 0x100 + x[1], y[0] as int * 0x100 + y[1];
    var hx: int, hy: int := mx * 0x100 + x[2], my * 0x100 + y[2];
    DigitSplit(hx, x[3], hy, y[3]);
    DigitSplit(mx, x[2], my, y[2]);
    DigitSplit(x[0], x[1], y[0], y[1]);
  }

  /** The last base-256 digit and the rest of a number are determined by it. */
  lemma DigitSplit(hx: int, lx: Byte, hy: int, ly: Byte)
    requires hx * 0x100 + lx == hy * 0x100 + ly
    ensures hx == hy && lx == ly
  {
  }

  /** Round trip: reading back an encoded u32 gives it back, whatever follows the four bytes. */
  lemma DecodeEncodeU32(u: U32, suffix: seq<Byte>)
    ensures SliceToU32(U32ToVec(u) + suffix) == Some(u)
  {
    var b := U32ToVec(u) + suffix;
    assert b[..4] == U32ToVec(u);
  }

  /** `slice_to_u32` reads only the first four bytes. */
  lemma SliceToU32Prefix(b: seq<Byte>, suffix: seq<Byte>)
    requires |b| >= 4
    ensures SliceToU32(b + suffix) == SliceToU32(b)
  {
    assert (b + suffix)[..4] == b[..4];
  }

  /** Distinct values have distinct encodings. */
  lemma U32ToVecInjective(u: U32, v: U32)
    requires U32ToVec(u) == U32ToVec(v)
    ensures u == v
  {
  }

  // ---------------------------------------------------------------------------
  // crash_recovery_loop
  // ---------------------------------------------------------------------------

  /** The four values the parent reads from `waitpid`'s status word. */
  datatype WaitStatus = WaitStatus(exited: bool, exitStatus: int, signaled: bool, termSig: int)

  /** What the parent does next: exit the whole process with a code, or fork a new child. */
  datatype Decision = Exit(code: int) | ForkAgain

  /** SIGKILL, the signal the workload's own kill timer raises. */
  const SIGKILL: int := 9

  /** The `match` on the child's status in `crash_recovery_loop`. */
  function ChildDecision(s: WaitStatus): (d: Decision)
    ensures d == Exit(0) <==> s.exited && s.exitStatus == 0
    ensures d == ForkAgain <==> !s.exited && s.signaled && s.termSig == SIGKILL
    ensures d.Exit? ==> d.code == 0 || d.code == 1
  {
    if s.exited && s.exitStatus == 0 then Exit(0)
    else if s.exited then Exit(1)
    else if s.signaled && s.termSig == SIGKILL then ForkAgain
    else Exit(1)
  }

  /** One round of the loop as seen by the parent: `fork` failed, `waitpid` failed, or the child was reaped. */
  datatype ForkOutcome = ForkFailed | WaitFailed | Reaped(status: WaitStatus)

  function RoundDecision(o: ForkOutcome): Decision
  {
    match o
    case ForkFailed => Exit(1)
    case WaitFailed => Exit(1)
    case Reaped(s) => ChildDecision(s)
  }

  /**
   * The exit code the crash-mode loop ends with when the rounds go as
   * `rounds` says, or None if every round so far asked for another fork.
   */
  function RecoveryExit(rounds: seq<ForkOutcome>): Option<int>
  {
    if rounds == [] then None
    else match RoundDecision(rounds[0])
      case Exit(code) => Some(code)
      case ForkAgain => RecoveryExit(rounds[1..])
  }

  /** A child killed by the kill timer, after which the parent forks again. */
  predicate Killed(o: ForkOutcome)
  {
    o.Reaped? && !o.status.exited && o.status.signaled && o.status.termSig == SIGKILL
  }

  /** The loop ends with exit code 0 exactly when some child exits normally with 0 after only killed ones. */
  lemma {:induction false} RecoverySucceedsIff(rounds: seq<ForkOutcome>)
    ensures RecoveryExit(rounds) == Some(0) <==>
      exists k | 0 <= k < |rounds| ::
        (forall j | 0 <= j < k :: Killed(rounds[j]))
        && rounds[k].Reaped? && rounds[k].status.exited && rounds[k].status.exitStatus == 0
  {
    if rounds != [] {
      RecoverySucceedsIff(rounds[1..]);
      var r := rounds[1..];
      if RoundDecision(rounds[0]) == ForkAgain {
        if RecoveryExit(rounds) == Some(0) {
          var k :| 0 <= k < |r| && (forall j | 0 <= j < k :: Killed(r[j]))
            && r[k].Reaped? && r[k].status.exited && r[k].status.exitStatus == 0;
          assert forall j | 0 <= j < k + 1 :: Killed(rounds[j]) by {
            forall j | 0 <= j < k + 1 ensures Killed(rounds[j]) {
              if j > 0 { assert rounds[j] == r[j - 1]; }
            }
          }
          assert rounds[k + 1] == r[k];
        } else {
          forall k | 0 <= k < |rounds| && (forall j | 0 <= j < k :: Killed(rounds[j]))
            ensures !(rounds[k].Reaped? && rounds[k].status.exited && rounds[k].status.exitStatus == 0)
          {
            if k > 0 {
              assert forall j | 0 <= j < k - 1 :: Killed(r[j]) by {
                forall j | 0 <= j < k - 1 ensures Killed(r[j]) { assert r[j] == rounds[j + 1]; }
              }
              assert rounds[k] == r[k - 1];
            }
          }
        }
      } else {
        if RecoveryExit(rounds) != Some(0) {
          forall k | 0 <= k < |rounds| && (forall j | 0 <= j < k :: Killed(rounds[j]))
            ensures !(rounds[k].Reaped? && rounds[k].status.exited && rounds[k].status.exitStatus == 0)
          {
          }
        }
      }
    }
  }

  /** Whatever decides the loop, the process exits with 0 or 1. */
  lemma {:induction false} RecoveryExitCode(rounds: seq<ForkOutcome>)
    ensures RecoveryExit(rounds).Some? ==> RecoveryExit(rounds).value == 0 || RecoveryExit(rounds).value == 1
  {
    if rounds != [] && RoundDecision(rounds[0]) == ForkAgain {
      RecoveryExitCode(rounds[1..]);
    }
  }

  /**
   * `crash_recovery_loop`. Without crash mode the workload function runs once
   * in-process with `crash = false` and its result decides the exit code. In
   * crash mode each round forks a child running the function with
   * `crash = true`; `rounds` says how each round went. The result is the exit
   * code and the number of rounds used, or None once `rounds` is used up
   * without a decision (the real loop would go on forking).
   */
  method CrashRecoveryLoop(run: bool -> bool, crash: bool, rounds: seq<ForkOutcome>)
    returns (exitCode: Option<int>, used: nat)
    ensures !crash ==> exitCode == Some(if run(false) then 0 else 1) && used == 0
    ensures crash ==> exitCode == RecoveryExit(rounds)
    ensures used <= |rounds|
    ensures crash && exitCode.Some? ==> RecoveryExit(rounds[..used]) == exitCode
    ensures crash ==> forall j | 0 <= j < used - 1 :: RoundDecision(rounds[j]) == ForkAgain
  {
    if !crash {
      exitCode := Some(if run(false) then 0 else 1);
      used := 0;
      return;
    }
    used := 0;
    while used < |rounds|
      invariant used <= |rounds|
      invariant RecoveryExit(rounds) == RecoveryExit(rounds[used..])
      invariant forall j | 0 <= j < used :: RoundDecision(rounds[j]) == ForkAgain
    {
      var decision := RoundDecision(rounds[used]);
      used := used + 1;
      match decision
      case Exit(code) =>
        assert rounds[used - 1..][1..] == rounds[used..];
        PrefixDecides(rounds, used);
        exitCode := Some(code);
        return;
      case ForkAgain =>
        assert rounds[used - 1..][1..] == rounds[used..];
    }
    exitCode := None;
  }

  lemma {:induction false} PrefixDecides(rounds: seq<ForkOutcome>, n: nat)
    requires 0 < n <= |rounds|
    requires forall j | 0 <= j < n - 1 :: RoundDecision(rounds[j]) == ForkAgain
    requires RoundDecision(rounds[n - 1]).Exit?
    ensures RecoveryExit(rounds[..n]) == RecoveryExit(rounds) == Some(RoundDecision(rounds[n - 1]).code)
  {
    if n > 1 {
      PrefixDecides(rounds[1..], n - 1);
      assert rounds[..n][1..] == rounds[1..][..n - 1];
    }
  }

  // ---------------------------------------------------------------------------
  // checker_arguments
  // ---------------------------------------------------------------------------

  /**
   * `checker_arguments`: the crashed-state directory and the workload's stdout
   * file, the first two arguments after the program name; missing ones make
   * `unwrap` panic, which is `None` here.
   */
  function CheckerArguments(args: seq<string>): (r: Option<(string, string)>)
    ensures r.Some? <==> |args| >= 3
    ensures r.Some? ==> r.value.0 == args[1] && r.value.1 == args[2]
  {
    if |args| < 3 then None else Some((args[1], args[2]))
  }
}
