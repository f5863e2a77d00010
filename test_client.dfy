/** The user-space exerciser: it opens the device once and issues reads of
    0 to 9 bytes into an 8-byte receive buffer, reassembling each reply into
    a 64-bit value, least significant byte first. */
module TestXoro {
  import opened LittleEndian
  import opened Xoroshiro
  import opened Driver

  /** The size of the receive buffer. */
  const MAX_BYTES_PER_READ: nat := 8

  /** The requested lengths run from 0 up to, but not including, READS. */
  const READS: nat := 10

  /** `zero_rx`: clear the receive buffer. */
  method ZeroRx(rx: array<byte>)
    requires rx.Length == MAX_BYTES_PER_READ
    modifies rx
    ensures rx[..] == Zeros(MAX_BYTES_PER_READ)
  {
    for i := 0 to rx.Length
      invariant forall k :: 0 <= k < i ==> rx[k] == 0
    {
      rx[i] := 0;
    }
    assert rx[..] == Zeros(MAX_BYTES_PER_READ);
  }

  /** The kernel's copy into the receive buffer: the delivered bytes land at
      its start and the rest of it is left as it was. */
  method Deliver(rx: array<byte>, bytes: seq<byte>)
    requires |bytes| <= rx.Length
    modifies rx
    ensures rx[..|bytes|] == bytes
    ensures rx[|bytes|..] == old(rx[|bytes|..])
  {
    forall i | 0 <= i < |bytes| {
      rx[i] := bytes[i];
    }
  }

  /** One byte shifted up to byte position idx. */
  method ShiftInto(b: byte, idx: nat) returns (w: u64)
    requires idx < MAX_BYTES_PER_READ
    ensures w == Lift(b, idx)
  {
    LiftIsShift(b, idx);
    w := (b as u64) << (8 * idx);
  }

  /** The reassembly loop: or-ing byte i in at bits 8i upward yields the
      little-endian value of the first nBytesRead bytes (Decode), so the
      bytes at or beyond nBytesRead play no part. */
  method Reassemble(rx: array<byte>, nBytesRead: nat) returns (value: u64)
    requires rx.Length == MAX_BYTES_PER_READ && nBytesRead <= MAX_BYTES_PER_READ
    ensures value == Decode(rx[..nBytesRead])
  {
    value := 0;
    var i := 0;
    while i < nBytesRead
      invariant 0 <= i <= nBytesRead
      invariant value == Decode(rx[..i])
    {
      DecodeSnocLift(rx[..i], rx[i]);
      assert rx[..i + 1] == rx[..i] + [rx[i]];
      var w := ShiftInto(rx[i], i);
      value := value | w;
      i := i + 1;
    }
  }

  /** The value the exerciser prints for the read of n bytes, the k-th read
      of a session whose generator started at `start`: the k-th word of that
      session reduced to its low ReadLength(n) bytes. */
  function Expected(alg: Algorithm, start: State, n: nat): u64
  {
    alg.output(Iterate(alg, start, n)) & LowMask(ReadLength(n))
  }

  /** The values the exerciser prints for its first n reads. */
  function Printed(alg: Algorithm, start: State, n: nat): (vs: seq<u64>)
    ensures |vs| == n
    decreases n
  {
    if n == 0 then [] else Printed(alg, start, n - 1) + [Expected(alg, start, n - 1)]
  }

  lemma {:induction false} PrintedAt(alg: Algorithm, start: State, n: nat, k: nat)
    requires k < n
    ensures Printed(alg, start, n)[k] == Expected(alg, start, k)
    decreases n
  {
    if k < n - 1 {
      PrintedAt(alg, start, n - 1, k);
    }
  }

  /** The printed value for a read of n bytes is the reassembly of the first
      ReadLength(n) bytes of the word's encoding. */
  lemma ExpectedDecodes(alg: Algorithm, start: State, n: nat)
    ensures Expected(alg, start, n) == Decode(Encode(alg.output(Iterate(alg, start, n)))[..ReadLength(n)])
  {
    DecodeEncodePrefix(alg.output(Iterate(alg, start, n)), ReadLength(n));
  }

  /** The empty read prints 0. */
  lemma ExpectedEmpty(alg: Algorithm, start: State)
    ensures Expected(alg, start, 0) == 0
  {
    AndZero(alg.output(Iterate(alg, start, 0)));
  }

  /** A read of 8 bytes or more prints the whole word. */
  lemma ExpectedFull(alg: Algorithm, start: State, n: nat)
    requires n >= WORD_BYTES
    ensures Expected(alg, start, n) == alg.output(Iterate(alg, start, n))
  {
    LowMaskEight();
    AndOnes(alg.output(Iterate(alg, start, n)));
  }

  /** A read of n bytes prints at most 2^(8 ReadLength(n)) - 1. */
  lemma ExpectedBound(alg: Algorithm, start: State, n: nat)
    ensures Expected(alg, start, n) <= LowMask(ReadLength(n))
  {
    AndBelow(alg.output(Iterate(alg, start, n)), LowMask(ReadLength(n)));
  }

  /** The first n copies to user space were complete. */
  predicate CopiedAll(notCopied: seq<nat>, n: nat)
    requires n <= |notCopied|
    decreases n
  {
    n == 0 || (CopiedAll(notCopied, n - 1) && notCopied[n - 1] == 0)
  }

  lemma {:induction false} CopiedAllMeans(notCopied: seq<nat>, n: nat)
    requires n <= |notCopied|
    ensures CopiedAll(notCopied, n) <==> forall k :: 0 <= k < n ==> notCopied[k] == 0
    decreases n
  {
    if n > 0 {
      CopiedAllMeans(notCopied, n - 1);
    }
  }

  /** A complete read of n bytes from the state after n words of a session
      delivers the bytes that reassemble to the printed value. */
  lemma ReadExpected(alg: Algorithm, start: State, d: Snapshot, n: nat, notCopied: nat)
    requires d.gen == Iterate(alg, start, n)
    requires notCopied <= ReadLength(n)
    ensures notCopied == 0 ==> Decode(ReadStep(alg, d, n, notCopied).delivered) == Expected(alg, start, n)
  {
    DecodeEncodePrefix(alg.output(d.gen), ReadLength(n));
  }

  /** One pass of the read loop: clear the buffer, read n bytes, and on
      success reassemble what arrived. The buffer ends up holding the
      delivered bytes followed by zeros. The word is drawn whatever happens;
      the read fails exactly when the copy fell short, and otherwise the
      value is the drawn word, word n of the session that started at start,
      reduced to its low ReadLength(n) bytes. */
  method ReadOnce(dev: Device, rx: array<byte>, n: nat, notCopied: nat, ghost start: State)
    returns (ok: bool, value: u64)
    requires dev.Valid()
    requires dev.prng.state == Iterate(dev.prng.alg, start, n)
    requires rx.Length == MAX_BYTES_PER_READ
    requires notCopied <= ReadLength(n)
    modifies dev.prng, rx
    ensures dev.Valid()
    ensures dev.Snap() == old(dev.Snap()).(gen := dev.prng.alg.advance(old(dev.prng.state)))
    ensures ok <==> notCopied == 0
    ensures ok ==> value == Expected(dev.prng.alg, start, n)
    ensures rx[..] == Pad(ReadStep(dev.prng.alg, old(dev.Snap()), n, notCopied).delivered)
  {
    ZeroRx(rx);
    ReadExpected(dev.prng.alg, start, dev.Snap(), n, notCopied);
    var ret, delivered := dev.Read(n, notCopied);
    Deliver(rx, delivered);
    assert rx[..] == rx[..|delivered|] + rx[|delivered|..];
    ok := ret >= 0;
    value := 0;
    if ok {
      value := Reassemble(rx, ret);
    }
  }

  /** `main`: one open, then reads of 0 to 9 bytes. The outcome of the k-th
      copy to user space is notCopied[k]. A busy device ends the run with
      EBUSY and no change; a failed copy ends it with EFAULT after the values
      read so far; otherwise all ten values are read. main never closes the
      file, so the lock is still held when main returns; the release at
      process exit is outside the model. */
  method TestMain(dev: Device, notCopied: seq<nat>) returns (status: int, values: seq<u64>)
    requires dev.Valid()
    requires |notCopied| == READS
    requires forall k :: 0 <= k < READS ==> notCopied[k] <= ReadLength(k)
    modifies dev, dev.prng
    ensures dev.Valid()
    ensures old(dev.lock) == Held ==> status == EBUSY && values == [] && dev.Snap() == old(dev.Snap())
    ensures old(dev.lock) == Free ==>
      && (status == 0 || status == EFAULT)
      && (status == 0 <==> forall k :: 0 <= k < READS ==> notCopied[k] == 0)
      && (status == 0 ==> |values| == READS)
      && (status == EFAULT ==> |values| < READS && notCopied[|values|] != 0)
      && (forall k :: 0 <= k < |values| ==> notCopied[k] == 0)
      && values == Printed(dev.prng.alg, dev.prng.alg.leap(old(dev.prng.state)), |values|)
      && dev.Snap() == Snapshot(Held, old(dev.nOpens) + 1,
           Iterate(dev.prng.alg, dev.prng.alg.leap(old(dev.prng.state)),
                   if status == 0 then READS else |values| + 1))
  {
    var alg := dev.prng.alg;
    var start := alg.leap(dev.prng.state);
    var opens := dev.nOpens;
    var rx := new byte[MAX_BYTES_PER_READ];
    values := [];
    var r := dev.Open();
    if r < 0 {
      status := -r;
      return;
    }
    var n := 0;
    while n < READS
      invariant 0 <= n <= READS && |values| == n
      invariant dev.Valid() && dev.prng.alg == alg
      invariant dev.Snap() == Snapshot(Held, opens + 1, Iterate(alg, start, n))
      invariant CopiedAll(notCopied, n)
      invariant values == Printed(alg, start, n)
    {
      var ok, value := ReadOnce(dev, rx, n, notCopied[n], start);
      if !ok {
        status := EFAULT;
        CopiedAllMeans(notCopied, n);
        return;
      }
      values := values + [value];
      n := n + 1;
    }
    status := 0;
    CopiedAllMeans(notCopied, READS);
  }
}
