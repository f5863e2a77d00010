/** The character device /dev/xoroshiro128p: a single session lock, a count
    of successful opens and the generator singleton, with the three file
    operations open, read and release.

    Each file operation is specified twice over: as a step function on a
    snapshot of the driver's globals (OpenStep, ReadStep, ReleaseStep), about
    which the lemmas below prove what the driver promises, and as a method of
    the class Device that updates the globals in place and is proved to
    follow its step function. */
module Driver {
  import opened LittleEndian
  import opened Xoroshiro

  /** Linux errno values returned, negated, by the file operations. */
  const EFAULT: int := 14
  const EBUSY: int := 16

  /** The fixed seed installed at module initialisation (pi and phi). */
  const SEED_S0: u64 := 314159265
  const SEED_S1: u64 := 1618033989

  datatype Lock = Free | Held

  /** The driver's globals: the mutex, n_opens and the generator state. */
  datatype Snapshot = Snapshot(lock: Lock, nOpens: int, gen: State)

  /** The globals right after module initialisation. */
  const INITIAL: Snapshot := Snapshot(Free, 0, State(SEED_S0, SEED_S1))

  /** At most one word is handed out per read. */
  function ReadLength(len: nat): (n: nat)
    ensures n <= len && n <= WORD_BYTES
    ensures n == len || n == WORD_BYTES
  {
    if len > WORD_BYTES then WORD_BYTES else len
  }

  // ---------------------------------------------------------------------
  // The file operations as functions of the globals.

  datatype Outcome = Outcome(ret: int, after: Snapshot)

  /** `dev_open`: a held lock fails at once; otherwise take the lock, jump
      the generator and count the open. */
  function OpenStep(alg: Algorithm, d: Snapshot): (r: Outcome)
    ensures r.after.lock == Held
    ensures r.ret == 0 || r.ret == -EBUSY
  {
    if d.lock == Held then Outcome(-EBUSY, d)
    else Outcome(0, Snapshot(Held, d.nOpens + 1, alg.leap(d.gen)))
  }

  datatype ReadOutcome = ReadOutcome(ret: int, delivered: seq<byte>, after: Snapshot)

  /** `dev_read` of len bytes when the copy to user space leaves notCopied of
      the ReadLength(len) bytes uncopied: one word is drawn in every case,
      the bytes that did arrive are a prefix of its encoding, and any
      shortfall is reported as -EFAULT. */
  function ReadStep(alg: Algorithm, d: Snapshot, len: nat, notCopied: nat): (r: ReadOutcome)
    requires notCopied <= ReadLength(len)
    ensures r.after.lock == d.lock && r.after.nOpens == d.nOpens
    ensures |r.delivered| == ReadLength(len) - notCopied
  {
    var n := ReadLength(len);
    var value := alg.output(d.gen);
    ReadOutcome(if notCopied != 0 then -EFAULT else n,
                Encode(value)[..n - notCopied],
                d.(gen := alg.advance(d.gen)))
  }

  /** `dev_release`: unlock, whoever holds the lock. */
  function ReleaseStep(d: Snapshot): (r: Outcome)
    ensures r.ret == 0 && r.after.lock == Free
  {
    Outcome(0, d.(lock := Free))
  }

  // ---------------------------------------------------------------------
  // What each operation promises.

  /** A second open while a session is held fails with -EBUSY and changes
      nothing: not the lock, not the count, not the generator. */
  lemma OpenBusy(alg: Algorithm, d: Snapshot)
    requires d.lock == Held
    ensures OpenStep(alg, d).ret == -EBUSY
    ensures OpenStep(alg, d).after == d
  {
  }

  /** An open of a free device succeeds, takes the lock, jumps exactly once
      and counts one more open. */
  lemma OpenFree(alg: Algorithm, d: Snapshot)
    requires d.lock == Free
    ensures OpenStep(alg, d).ret == 0
    ensures OpenStep(alg, d).after == Snapshot(Held, d.nOpens + 1, alg.leap(d.gen))
  {
  }

  /** Open succeeds exactly when the lock was free, and afterwards the lock
      is held either way. */
  lemma OpenResult(alg: Algorithm, d: Snapshot)
    ensures OpenStep(alg, d).ret == 0 <==> d.lock == Free
    ensures OpenStep(alg, d).ret == 0 || OpenStep(alg, d).ret == -EBUSY
    ensures OpenStep(alg, d).after.lock == Held
  {
  }

  /** The truncation law. A read consumes exactly one word whatever the
      requested length and whatever the outcome of the copy, leaves the lock
      and the count alone, and delivers a prefix of that word's little-endian
      encoding. It returns ReadLength(len) exactly when every byte was
      copied, -EFAULT otherwise; on success the delivered bytes reassemble to
      the word reduced to its low ReadLength(len) bytes. */
  lemma ReadSpec(alg: Algorithm, d: Snapshot, len: nat, notCopied: nat)
    requires notCopied <= ReadLength(len)
    ensures ReadStep(alg, d, len, notCopied).after == Snapshot(d.lock, d.nOpens, alg.advance(d.gen))
    ensures ReadStep(alg, d, len, notCopied).ret == ReadLength(len) <==> notCopied == 0
    ensures ReadStep(alg, d, len, notCopied).ret == -EFAULT <==> notCopied != 0
    ensures |ReadStep(alg, d, len, notCopied).delivered| == ReadLength(len) - notCopied
    ensures ReadStep(alg, d, len, notCopied).delivered == Encode(alg.output(d.gen))[..ReadLength(len) - notCopied]
    ensures notCopied == 0 ==>
      Decode(ReadStep(alg, d, len, notCopied).delivered) == alg.output(d.gen) & LowMask(ReadLength(len))
  {
    DecodeEncodePrefix(alg.output(d.gen), ReadLength(len));
  }

  /** Two reads of different lengths from the same state deliver the same
      bytes up to the shorter length: the length only selects a prefix. */
  lemma ReadPrefixes(alg: Algorithm, d: Snapshot, short: nat, long: nat)
    requires short <= long
    ensures ReadStep(alg, d, long, 0).delivered[..ReadLength(short)] == ReadStep(alg, d, short, 0).delivered
  {
  }

  /** Release always succeeds, frees the lock, and touches nothing else. */
  lemma ReleaseSpec(d: Snapshot)
    ensures ReleaseStep(d).ret == 0
    ensures ReleaseStep(d).after == Snapshot(Free, d.nOpens, d.gen)
  {
  }

  /** Open, release, open from a free device: both opens succeed, the count
      grows by two and the generator has jumped twice. */
  lemma OpenReleaseOpen(alg: Algorithm, d: Snapshot)
    requires d.lock == Free
    ensures OpenStep(alg, d).ret == 0
    ensures ReleaseStep(OpenStep(alg, d).after).ret == 0
    ensures OpenStep(alg, ReleaseStep(OpenStep(alg, d).after).after).ret == 0
    ensures OpenStep(alg, ReleaseStep(OpenStep(alg, d).after).after).after
         == Snapshot(Held, d.nOpens + 2, alg.leap(alg.leap(d.gen)))
  {
  }

  /** Initialisation leaves the generator in a usable state. */
  lemma InitialUsable()
    ensures NonZero(INITIAL.gen)
    ensures INITIAL.lock == Free && INITIAL.nOpens == 0
  {
  }

  // ---------------------------------------------------------------------
  // Any sequence of file operations.

  datatype Op = OpenOp | ReadOp(len: nat, notCopied: nat) | ReleaseOp

  /** The copy of a read never leaves more bytes uncopied than it was asked
      to copy. */
  predicate WellFormed(ops: seq<Op>)
  {
    forall i :: 0 <= i < |ops| && ops[i].ReadOp? ==> ops[i].notCopied <= ReadLength(ops[i].len)
  }

  function Step(alg: Algorithm, d: Snapshot, op: Op): Snapshot
    requires op.ReadOp? ==> op.notCopied <= ReadLength(op.len)
  {
    match op
    case OpenOp => OpenStep(alg, d).after
    case ReadOp(len, notCopied) => ReadStep(alg, d, len, notCopied).after
    case ReleaseOp => ReleaseStep(d).after
  }

  /** The globals after the operations ops, in order. */
  function Run(alg: Algorithm, d: Snapshot, ops: seq<Op>): Snapshot
    requires WellFormed(ops)
    decreases |ops|
  {
    if |ops| == 0 then d
    else Step(alg, Run(alg, d, ops[..|ops| - 1]), ops[|ops| - 1])
  }

  function CountOpens(ops: seq<Op>): nat
    decreases |ops|
  {
    if |ops| == 0 then 0
    else CountOpens(ops[..|ops| - 1]) + (if ops[|ops| - 1].OpenOp? then 1 else 0)
  }

  lemma WellFormedPrefix(ops: seq<Op>)
    requires WellFormed(ops) && |ops| > 0
    ensures WellFormed(ops[..|ops| - 1])
    ensures ops[|ops| - 1].ReadOp? ==> ops[|ops| - 1].notCopied <= ReadLength(ops[|ops| - 1].len)
  {
  }

  /** Every operation keeps a usable generator usable, so jump and next are
      never applied to the zero state. */
  lemma StepUsable(alg: Algorithm, d: Snapshot, op: Op)
    requires op.ReadOp? ==> op.notCopied <= ReadLength(op.len)
    requires Sound(alg) && NonZero(d.gen)
    ensures NonZero(Step(alg, d, op).gen)
  {
  }

  lemma {:induction false} RunUsable(alg: Algorithm, d: Snapshot, ops: seq<Op>)
    requires WellFormed(ops)
    requires Sound(alg) && NonZero(d.gen)
    ensures NonZero(Run(alg, d, ops).gen)
    decreases |ops|
  {
    if |ops| > 0 {
      WellFormedPrefix(ops);
      RunUsable(alg, d, ops[..|ops| - 1]);
      StepUsable(alg, Run(alg, d, ops[..|ops| - 1]), ops[|ops| - 1]);
    }
  }

  /** n_opens never decreases, and grows by at most one per open issued. */
  lemma {:induction false} RunCountsOpens(alg: Algorithm, d: Snapshot, ops: seq<Op>)
    requires WellFormed(ops)
    ensures d.nOpens <= Run(alg, d, ops).nOpens <= d.nOpens + CountOpens(ops)
    decreases |ops|
  {
    if |ops| > 0 {
      WellFormedPrefix(ops);
      RunCountsOpens(alg, d, ops[..|ops| - 1]);
    }
  }

  /** A run of reads and nothing else draws one word per read: the generator
      ends up k steps on and the lock and the count are untouched. */
  lemma {:induction false} ReadsAdvance(alg: Algorithm, d: Snapshot, ops: seq<Op>)
    requires WellFormed(ops)
    requires forall i :: 0 <= i < |ops| ==> ops[i].ReadOp?
    ensures Run(alg, d, ops) == Snapshot(d.lock, d.nOpens, Iterate(alg, d.gen, |ops|))
    decreases |ops|
  {
    if |ops| > 0 {
      WellFormedPrefix(ops);
      ReadsAdvance(alg, d, ops[..|ops| - 1]);
    }
  }

  // ---------------------------------------------------------------------
  // The driver's globals, updated in place.

  class Device {
    var lock: Lock
    var nOpens: int
    const prng: Generator

    /** The generator is usable and its algorithm never makes it unusable. */
    ghost predicate Valid()
      reads this, prng
    {
      NonZero(prng.state) && Sound(prng.alg)
    }

    function Snap(): Snapshot
      reads this, prng
    {
      Snapshot(lock, nOpens, prng.state)
    }

    /** `xoro_init`: the mutex starts free, no opens yet, and the generator
        is seeded with the fixed pair. */
    constructor Init(alg: Algorithm, initial: State)
      requires Sound(alg)
      ensures Valid()
      ensures fresh(prng) && prng.alg == alg
      ensures Snap() == INITIAL
    {
      lock := Free;
      nOpens := 0;
      var g := new Generator(alg, initial);
      prng := g;
      new;
      prng.Seed(SEED_S0, SEED_S1);
    }

    method Open() returns (ret: int)
      requires Valid()
      modifies this, prng
      ensures Valid()
      ensures ret == OpenStep(prng.alg, old(Snap())).ret
      ensures Snap() == OpenStep(prng.alg, old(Snap())).after
    {
      if lock == Held {
        return -EBUSY;
      }
      lock := Held;
      prng.Jump();
      nOpens := nOpens + 1;
      ret := 0;
    }

    /** A read whose copy to user space leaves notCopied bytes behind; the
        bytes the caller receives are returned as delivered. */
    method Read(len: nat, notCopied: nat) returns (ret: int, delivered: seq<byte>)
      requires Valid()
      requires notCopied <= ReadLength(len)
      modifies prng
      ensures Valid()
      ensures ret == ReadStep(prng.alg, old(Snap()), len, notCopied).ret
      ensures delivered == ReadStep(prng.alg, old(Snap()), len, notCopied).delivered
      ensures Snap() == ReadStep(prng.alg, old(Snap()), len, notCopied).after
    {
      var n := ReadLength(len);
      var value := prng.Next();
      delivered := Encode(value)[..n - notCopied];
      if notCopied != 0 {
        ret := -EFAULT;
      } else {
        ret := n;
      }
    }

    method Release() returns (ret: int)
      requires Valid()
      modifies this
      ensures Valid()
      ensures ret == ReleaseStep(old(Snap())).ret
      ensures Snap() == ReleaseStep(old(Snap())).after
    {
      lock := Free;
      ret := 0;
    }
  }

  /** The end-to-end session scenario: from a freshly initialised device,
      open, read 8 bytes, read 4 bytes, release, open again and read 8 bytes.
      Every call succeeds. The first session sees the words after one jump,
      in order; the second session starts one jump after where the first
      left off. */
  method TwoSessions(alg: Algorithm, initial: State)
    returns (rets: seq<int>, v1: seq<byte>, v2: seq<byte>, v3: seq<byte>, dev: Device)
    requires Sound(alg)
    ensures dev.Valid()
    ensures rets == [0, 8, 4, 0, 0, 8]
    ensures v1 == Encode(alg.output(alg.leap(INITIAL.gen)))
    ensures v2 == Encode(alg.output(Iterate(alg, alg.leap(INITIAL.gen), 1)))[..4]
    ensures v3 == Encode(alg.output(alg.leap(Iterate(alg, alg.leap(INITIAL.gen), 2))))
    ensures dev.Snap() == Snapshot(Held, 2, Iterate(alg, alg.leap(Iterate(alg, alg.leap(INITIAL.gen), 2)), 1))
  {
    dev := new Device.Init(alg, initial);
    var r1 := dev.Open();
    var r2, r3, r4, r5, r6;
    r2, v1 := dev.Read(8, 0);
    r3, v2 := dev.Read(4, 0);
    r4 := dev.Release();
    r5 := dev.Open();
    r6, v3 := dev.Read(8, 0);
    rets := [r1, r2, r3, r4, r5, r6];
    assert Encode(alg.output(alg.leap(INITIAL.gen)))[..8] == Encode(alg.output(alg.leap(INITIAL.gen)));
    assert Encode(alg.output(alg.leap(Iterate(alg, alg.leap(INITIAL.gen), 2))))[..8]
        == Encode(alg.output(alg.leap(Iterate(alg, alg.leap(INITIAL.gen), 2))));
  }
}
