/** What each file operation returns, given the commits, the handle's position and what the kernel decides. */
module FileOperations {
  import opened Common
  import opened Sequences
  import opened KernelHeap
  import opened DeviceLog
  import opened DeviceFile

  /**
   * What the kernel decides during a call: whether waiting for the mutex is interrupted, what
   * krealloc does, and how many bytes a user copy fails to copy.
   */
  datatype Env = Env(interrupted: bool, placement: Placement, uncopied: nat)

  /**
   * What a call does: it returns and has copied bytes to the user, or, in a read, it asks for bytes
   * outside the buffer of the entry it found. What the kernel does with that is not part of this model.
   */
  datatype CallResult = Returned(ret: Result<nat>, bytes: seq<byte>) | OutsideBuffer {

    /** How far the read moves its handle. */
    function Moved(): nat {
      if Returned? then |bytes| else 0
    }
  }

  /** aesd_write: how the call ends. */
  function WriteOutcome(buf: seq<byte>, env: Env): Result<nat> {
    if env.interrupted then Err(ERESTARTSYS)
    else if env.placement.Fails? then Err(ENOMEM)
    else if env.uncopied > 0 then Err(EFAULT)
    else Ok(|buf|)
  }

  /** aesd_read: a failing copy returns 0 like the end of the file; on an empty device only position 0 is served. */
  function ReadOutcome(log: Log, cap: nat, fPos: nat, count: nat, env: Env): (r: CallResult)
    ensures r.Returned? && r.ret.Ok? ==> r.ret.value == |r.bytes| <= count
    ensures r.Returned? && r.ret.Err? ==> r.bytes == []
  {
    if env.interrupted then Returned(Err(ERESTARTSYS), [])
    else if log.commits == [] && 0 < fPos && 0 < count then OutsideBuffer
    else
      var bytes := if env.uncopied > 0 then [] else ReadAt(log.Live(cap), fPos, count);
      Returned(Ok(|bytes|), bytes)
  }

  /** aesd_llseek: the new position, in loff_t arithmetic. */
  function LlseekOutcome(log: Log, cap: nat, fPos: int, off: int, whence: int, interrupted: bool): Result<nat> {
    var newpos :=
      if whence == 0 then off
      else if whence == 1 then WrapLoff(fPos + off)
      else WrapLoff(WrapInt(EndSum(Lengths(log.Live(cap)), cap <= |log.commits|) - 1) + off);
    if whence == 2 && interrupted then Err(ERESTARTSYS)
    else if !(0 <= whence <= 2) || newpos < 0 then Err(EINVAL)
    else Ok(newpos)
  }

  /** aesd_ioctl: what is added to the position; a failing copy of the request is env.uncopied > 0. */
  function IoctlOutcome(log: Log, cap: nat, isSeekTo: bool, cmd: nat, off: nat, env: Env): Result<int> {
    if !isSeekTo then Err(EINVAL)
    else if env.uncopied > 0 then Err(EFAULT)
    else if env.interrupted then Err(ERESTARTSYS)
    else
      match IoctlTarget(Lengths(log.Live(cap)), cap, cmd, off)
      case Some(target) => Ok(target)
      case None => Err(EINVAL)
  }

  /** Where the ioctl leaves the position. */
  function IoctlPosition(fPos: int, outcome: Result<int>): int {
    match outcome
    case Ok(target) => WrapLoff(fPos + target)
    case Err(_) => fPos
  }

  // ----- When they do what the interface suggests ---------------------------------------------

  /**
   * A read of some bytes asks for bytes outside any buffer exactly when nothing is committed and its
   * position is not 0. Otherwise it returns 0 at the end of the file, and also whenever its copy fails.
   */
  lemma ReadReturnsZero(log: Log, cap: nat, fPos: nat, count: nat, env: Env)
    requires 0 < count && !env.interrupted
    ensures
      var r := ReadOutcome(log, cap, fPos, count, env);
      && (r == OutsideBuffer <==> log.commits == [] && 0 < fPos)
      && (r.Returned? ==> (r.ret == Ok(0) <==> env.uncopied > 0 || |log.File(cap)| <= fPos))
  {
    ReadIsSlice(log.Live(cap), fPos, count);
  }

  /**
   * SEEK_SET goes to off if that is a position. SEEK_CUR goes off further on if that is one, and is
   * refused otherwise, exactly when the sum does not wrap from below; then it is accepted at a wrapped one.
   */
  lemma SeekMoves(log: Log, cap: nat, fPos: int, off: int, interrupted: bool)
    requires InLoff(fPos) && InLoff(off)
    ensures LlseekOutcome(log, cap, fPos, off, 0, interrupted) == if 0 <= off then Ok(off) else Err(EINVAL)
    ensures
      var r, sum := LlseekOutcome(log, cap, fPos, off, 1, interrupted), fPos + off;
      && (r == (if 0 <= sum <= LOFF_MAX then Ok(sum) else Err(EINVAL)) <==> -(LOFF_MAX + 1) <= sum)
      && (sum < -(LOFF_MAX + 1) ==> r == Ok(sum + SIZE_MAX + 1))
  {
  }

  /** The other ways in which llseek is refused: an unknown whence, and a SEEK_END that waits in vain. */
  lemma LlseekRefuses(log: Log, cap: nat, fPos: int, off: int, whence: int, interrupted: bool)
    ensures
      var r := LlseekOutcome(log, cap, fPos, off, whence, interrupted);
      && (whence < 0 || 2 < whence ==> r == Err(EINVAL))
      && (r == Err(ERESTARTSYS) <==> whence == 2 && interrupted)
      && (r.Err? ==> r == Err(EINVAL) || r == Err(ERESTARTSYS))
  {
  }

  /** Flattened, the live entries are empty only without any, for none of them is empty. */
  lemma FileIsEmpty(log: Log, cap: nat)
    requires 1 <= cap && log.Disciplined()
    ensures log.File(cap) == [] <==> log.commits == []
  {
    var live := log.Live(cap);
    if log.commits != [] {
      assert live[0] in log.commits;
      assert Flatten(live) == live[0] + Flatten(live[1..]);
    }
  }

  /**
   * SEEK_END goes off beyond the last byte exactly when the ring is not full, that byte's position
   * fits an int and the sum is a position; other sums are refused, unless they wrap from below. It
   * never goes off beyond the file's end. On a full ring it counts from -1.
   */
  lemma SeekEndLands(log: Log, cap: nat, fPos: int, off: int)
    requires InLoff(off) && |log.File(cap)| <= LOFF_MAX
    requires 1 <= cap && log.Disciplined()
    ensures
      var r, size := LlseekOutcome(log, cap, fPos, off, 2, false), |log.File(cap)|;
      && (r == Ok(size - 1 + off) <==>
            |log.commits| < cap && size - 1 <= INT_MAX && 0 <= size - 1 + off <= LOFF_MAX)
      && (|log.commits| < cap && size - 1 <= INT_MAX && -(LOFF_MAX + 1) <= size - 1 + off ==>
            r == if 0 <= size - 1 + off <= LOFF_MAX then Ok(size - 1 + off) else Err(EINVAL))
      && r != Ok(size + off)
      && (cap <= |log.commits| ==> r == if 0 <= WrapLoff(off - 1) then Ok(WrapLoff(off - 1)) else Err(EINVAL))
  {
    FileIsEmpty(log, cap);
    FlattenTotal(log.Live(cap));
  }

  /** So with offset 0 it is refused on every empty and every full device. */
  lemma SeekEndRefused(log: Log, cap: nat, fPos: int)
    requires 1 <= cap
    requires log.commits == [] || cap <= |log.commits|
    ensures LlseekOutcome(log, cap, fPos, 0, 2, false) == Err(EINVAL)
  {
  }

  /** From there exactly the last byte can be read. */
  lemma SeekEndReadsLastByte(log: Log, cap: nat, fPos: int, count: nat, env: Env)
    requires 1 <= cap && log.Disciplined() && 0 < count && !env.interrupted && env.uncopied == 0
    requires 0 < |log.commits| < cap && |log.File(cap)| - 1 <= INT_MAX
    ensures
      var r, file := LlseekOutcome(log, cap, fPos, 0, 2, false), log.File(cap);
      && file != [] && r == Ok(|file| - 1)
      && ReadOutcome(log, cap, |file| - 1, count, env) == Returned(Ok(1), [file[|file| - 1]])
  {
    FileIsEmpty(log, cap);
    SeekEndLands(log, cap, fPos, 0);
    LastElement(log.File(cap));
    ReadIsSlice(log.Live(cap), |log.File(cap)| - 1, count);
  }

  /**
   * The ioctl accepts just the bytes the interface promises, with two exceptions: command cap for the
   * bytes of command 0, and bytes of an entry so long that its size wraps.
   */
  lemma IoctlAcceptance(log: Log, cap: nat, cmd: nat, off: nat, env: Env)
    requires 1 <= cap && !env.interrupted && env.uncopied == 0
    ensures
      var live := log.Live(cap);
      var promised := cmd < |live| && off < |live[cmd]|;
      var aliased := cmd == cap && live != [] && off < WrapU32(|live[0]|);
      var wrapped := cmd < |live| && WrapU32(|live[cmd]|) <= off < |live[cmd]|;
      (IoctlOutcome(log, cap, true, cmd, off, env).Ok? <==> promised) <==> !aliased && !wrapped
  {
    if cmd < |log.Live(cap)| { WrapU32AtMost(|log.Live(cap)[cmd]|); }
  }

  /**
   * What it adds: the bytes of the entries before the command's and the offset, as an int. So from
   * any position it moves on by just as many, as long as neither wraps.
   */
  lemma IoctlLands(log: Log, cap: nat, fPos: int, cmd: nat, off: nat, env: Env)
    requires !env.interrupted && env.uncopied == 0
    requires cmd < |log.Live(cap)|
    ensures
      var live, r := log.Live(cap), IoctlOutcome(log, cap, true, cmd, off, env);
      var target := |Flatten(live[..cmd])| + off;
      && r == (if off < WrapU32(|live[cmd]|) then Ok(WrapInt(target)) else Err(EINVAL))
      && (r.Ok? && target <= INT_MAX && InLoff(fPos + target) ==> IoctlPosition(fPos, r) == fPos + target)
      && (r.Err? ==> IoctlPosition(fPos, r) == fPos)
  {
    FlattenLength(log.Live(cap), cmd);
  }

  /** r hands over the bytes of the entry from b on, up to count, and returns their number. */
  ghost predicate DeliversFrom(entry: seq<byte>, b: nat, count: nat, r: CallResult) {
    && b < |entry|
    && var n := Min(count, |entry| - b);
    r == Returned(Ok(n), entry[b..b + n])
  }

  /** A read at byte b of entry i returns the number of bytes it delivers: those of the entry from b on, up to count. */
  lemma ReadDelivers(log: Log, cap: nat, fPos: nat, count: nat, env: Env, i: nat, b: nat)
    requires !env.interrupted && env.uncopied == 0
    requires i < |log.Live(cap)| && b < |log.Live(cap)[i]| && fPos == |Flatten(log.Live(cap)[..i])| + b
    ensures
      DeliversFrom(log.Live(cap)[i], b, count, ReadOutcome(log, cap, fPos, count, env))
  {
    FlattenLength(log.Live(cap), i);
    ReadWithinEntry(log.Live(cap), fPos, count, i, b);
  }

  /** From position 0, a read after an ioctl delivers the command's entry from the offset on. */
  lemma IoctlThenRead(log: Log, cap: nat, cmd: nat, off: nat, count: nat, env: Env)
    requires !env.interrupted && env.uncopied == 0
    requires cmd < |log.Live(cap)| && off < WrapU32(|log.Live(cap)[cmd]|)
    requires |Flatten(log.Live(cap)[..cmd])| + off <= INT_MAX
    ensures
      var entry, p := log.Live(cap)[cmd], IoctlPosition(0, IoctlOutcome(log, cap, true, cmd, off, env));
      && p == |Flatten(log.Live(cap)[..cmd])| + off
      && DeliversFrom(entry, off, count, ReadOutcome(log, cap, p, count, env))
  {
    WrapU32AtMost(|log.Live(cap)[cmd]|);
    IoctlLands(log, cap, 0, cmd, off, env);
    ReadDelivers(log, cap, |Flatten(log.Live(cap)[..cmd])| + off, count, env, cmd, off);
  }

  /** Command cap does what command 0 does. */
  lemma LastCommandIsFirst(log: Log, cap: nat, off: nat, env: Env)
    requires 1 <= cap
    ensures IoctlOutcome(log, cap, true, cap, off, env) == IoctlOutcome(log, cap, true, 0, off, env)
  {
  }

  /** An accepted ioctl leaves the position at the target exactly when it was at 0. */
  lemma IoctlIsAbsolute(log: Log, cap: nat, fPos: int, cmd: nat, off: nat, env: Env)
    requires InLoff(fPos) && IoctlOutcome(log, cap, true, cmd, off, env).Ok?
    ensures
      var outcome := IoctlOutcome(log, cap, true, cmd, off, env);
      IoctlPosition(fPos, outcome) == outcome.value <==> fPos == 0
  {
  }
}
