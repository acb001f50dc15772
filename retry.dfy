/** Waiting for a file to become readable: BackupController's local
    TryOpenForRead(path, retries, delayMs) and its WaitForFileReady. Each
    attempt opens the file; an IOException (the file is locked) costs one
    fixed delay and another attempt, any other exception escapes. What
    the attempts find is an input: the file system's answers in order. */
module Retry {
  import opened Text

  /** What one File.Open attempt finds. */
  datatype OpenResult = Opened | Locked | OtherError

  /** The answer to attempt k; attempts past the recorded answers find the
      file still locked. */
  function AttemptAt(attempts: seq<OpenResult>, k: nat): OpenResult {
    if k < |attempts| then attempts[k] else Locked
  }

  /** How probing ended: opened at some attempt, every attempt locked, or
      an exception other than IOException at some attempt. */
  datatype Probe = Ready(attempt: nat) | TimedOut | Threw(attempt: nat)

  /** Probing from attempt k on, with attempts numbered below retries. */
  function ProbeFrom(attempts: seq<OpenResult>, retries: int, k: nat): (r: Probe)
    decreases retries - k
    ensures r.Ready? ==> (k <= r.attempt < retries && AttemptAt(attempts, r.attempt) == Opened
      && forall j :: k <= j < r.attempt ==> AttemptAt(attempts, j) == Locked)
    ensures r.Threw? ==> (k <= r.attempt < retries && AttemptAt(attempts, r.attempt) == OtherError
      && forall j :: k <= j < r.attempt ==> AttemptAt(attempts, j) == Locked)
    ensures r.TimedOut? ==> forall j :: k <= j < retries ==> AttemptAt(attempts, j) == Locked
  {
    if k >= retries then TimedOut
    else
      match AttemptAt(attempts, k)
      case Opened => Ready(k)
      case Locked => ProbeFrom(attempts, retries, k + 1)
      case OtherError => Threw(k)
  }

  function ProbeOpen(attempts: seq<OpenResult>, retries: int): Probe {
    ProbeFrom(attempts, retries, 0)
  }

  /** How many IOExceptions, and so how many delays, probing went through. */
  function Failures(p: Probe, retries: int): nat {
    match p
    case Ready(k) => k
    case Threw(k) => k
    case TimedOut => if retries < 0 then 0 else retries
  }

  /** Allowing more attempts never changes an outcome reached within the
      fewer ones. */
  lemma {:induction false} MoreRetriesAgree(attempts: seq<OpenResult>, r1: int, r2: int, k: nat)
    requires r1 <= r2
    requires !ProbeFrom(attempts, r1, k).TimedOut?
    ensures ProbeFrom(attempts, r2, k) == ProbeFrom(attempts, r1, k)
    decreases r1 - k
  {
    if k < r1 && AttemptAt(attempts, k) == Locked {
      MoreRetriesAgree(attempts, r1, r2, k + 1);
    }
  }

  /** A file locked throughout is given up on after exactly retries
      attempts. */
  lemma {:induction false} AlwaysLockedTimesOut(attempts: seq<OpenResult>, retries: int, k: nat)
    requires forall j :: 0 <= j < |attempts| ==> attempts[j] == Locked
    ensures ProbeFrom(attempts, retries, k) == TimedOut
    decreases retries - k
  {
    if k < retries {
      AlwaysLockedTimesOut(attempts, retries, k + 1);
    }
  }

  /** TryOpenForRead: true once an attempt opens the file, false after
      retries locked attempts, and any other exception escapes. Returns
      how probing ended and how long it waited in total: the same delay
      after every locked attempt, with no back-off. */
  method TryOpenForRead(attempts: seq<OpenResult>, retries: int, delayMs: nat) returns (r: Probe, waitedMs: nat)
    ensures r == ProbeOpen(attempts, retries)
    ensures waitedMs == delayMs * Failures(r, retries)
  {
    waitedMs := 0;
    var i := 0;
    while i < retries
      invariant 0 <= i && (retries >= 0 ==> i <= retries) && (retries < 0 ==> i == 0)
      invariant ProbeFrom(attempts, retries, i) == ProbeOpen(attempts, retries)
      invariant waitedMs == delayMs * i
    {
      var found := AttemptAt(attempts, i);
      if found == Opened {
        return Ready(i), waitedMs;
      } else if found == OtherError {
        return Threw(i), waitedMs;
      }
      waitedMs := waitedMs + delayMs;
      i := i + 1;
    }
    r := TimedOut;
  }

  /** How WaitForFileReady ends: normally, with the IOException it throws
      after the last locked attempt, or with another exception. */
  datatype Wait = FileReady | StillLocked(message: string) | OpenFailed

  /** The IOException message, with maxRetries written in decimal. */
  function StillLockedMessage(path: string, maxRetries: int): string {
    "Soubor " + path + " je stále uzamčen po " + IntToString(maxRetries) + " pokusech."
  }

  /** WaitForFileReady(path, maxRetries = 20, delayMs = 200), which no
      action calls: it returns once the file opens for shared reading and
      throws after maxRetries locked attempts. */
  method WaitForFileReady(path: string, attempts: seq<OpenResult>, maxRetries: int, delayMs: nat)
    returns (w: Wait, waitedMs: nat)
    ensures ProbeOpen(attempts, maxRetries).Ready? <==> w == FileReady
    ensures ProbeOpen(attempts, maxRetries).TimedOut? <==> w == StillLocked(StillLockedMessage(path, maxRetries))
    ensures ProbeOpen(attempts, maxRetries).Threw? <==> w == OpenFailed
    ensures waitedMs == delayMs * Failures(ProbeOpen(attempts, maxRetries), maxRetries)
  {
    waitedMs := 0;
    var i := 0;
    while i < maxRetries
      invariant 0 <= i && (maxRetries >= 0 ==> i <= maxRetries) && (maxRetries < 0 ==> i == 0)
      invariant ProbeFrom(attempts, maxRetries, i) == ProbeOpen(attempts, maxRetries)
      invariant waitedMs == delayMs * i
    {
      var found := AttemptAt(attempts, i);
      if found == Opened {
        return FileReady, waitedMs;
      } else if found == OtherError {
        return OpenFailed, waitedMs;
      }
      waitedMs := waitedMs + delayMs;
      i := i + 1;
    }
    w := StillLocked(StillLockedMessage(path, maxRetries));
  }
}
