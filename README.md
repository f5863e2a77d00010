# lkm_xoro in Dafny

lkm_xoro is a Linux loadable kernel module that exposes the xoroshiro128+
pseudorandom generator as the character device `/dev/xoroshiro128p`, plus a
small user-space program that reads from it.

- **Driver.**
  - At load time it seeds the generator with a fixed pair (pi and phi).
  - `open` takes a single mutex without blocking and fails with `-EBUSY` when the mutex is already held. On success it jumps the generator once, to give the session its own sub-stream, and counts the open.
  - `read` draws exactly one 64-bit word per call, whatever length was asked for. It copies the first `min(len, 8)` bytes of the word's in-memory (little-endian) layout to the caller and returns that count. It returns `-EFAULT` if the copy fell short; the word is consumed anyway.
  - `release` unlocks unconditionally.
- **Exerciser.** The program opens the device once. It then reads 0 to 9 bytes into a zeroed 8-byte buffer and reassembles each reply into a 64-bit value, least significant byte first.

The model has four modules:

- `LittleEndian` (little_endian.dfy): the byte layout of a word.
  - `Encode` and `EncodeN` give a word's bytes, least significant first.
  - `Decode` is the reassembly by Horner's rule.
  - `LowMask(n)` is the mask of the low n bytes.
  - Proved:
    - the round trip of encoding then decoding, in both directions;
    - injectivity;
    - the bound on a reassembled value;
    - `LowMask(n) = 2^(8n) - 1`;
    - the shape of the exerciser's loop, which or-s byte i in at bit 8i.
- `Xoroshiro` (xoroshiro.dfy): the generator, as a class with the 128-bit state that `seed`, `jump` and `next` update in place.
  - The mixing recurrence and the jump polynomial are compiled into an object file that is not part of this model. The algorithm is therefore a parameter: three functions on the state.
  - The one property assumed of it (`Sound`) is that neither `next` nor `jump` turns a nonzero state into the all-zero state.
- `Driver` (driver.dfy): the module's globals (the mutex, `n_opens` and the generator) as the class `Device`, whose methods are the three file operations.
  - Each method is proved to follow a step function on a snapshot of the globals (`OpenStep`, `ReadStep`, `ReleaseStep`).
  - The lemmas state the driver's promises about those functions:
    - exclusivity;
    - the truncation law;
    - one word per read;
    - open/release/open;
    - the generator never reaching the zero state over any sequence of operations;
    - how `n_opens` grows.
- `TestXoro` (test_client.dfy): the exerciser. `ZeroRx` clears the buffer, `Reassemble` is the byte loop and `TestMain` is the whole run. The outcome of each copy to user space is an input of `TestMain`.

## Model

| member | source | states |
|---|---|---|
| LittleEndian.EncodeN | lkm_xoro.c:175 | the first n bytes of the word's memory image, least significant first; exactly n of them |
| LittleEndian.Encode | lkm_xoro.c:175 | the eight bytes `(char*)&value` exposes on a little-endian host |
| LittleEndian.Decode | test_xoro.c:51-57 | reference definition of the reassembly: Horner's rule in base 256, least significant byte first (the loop is proved equal to it by `TestXoro.Reassemble`) |
| LittleEndian.DecodeEncodePrefix | test_xoro.c:51-57 | reassembling the first n ≤ 8 bytes of a word's in-memory encoding gives the word reduced to its low n bytes (`v & LowMask(n)`, that is v mod 2^(8n)) |
| LittleEndian.DecodeEncode | test_xoro.c:51-57 | reassembling all eight bytes gives the word back |
| LittleEndian.EncodeInjective | lkm_xoro.c:175 | distinct words have distinct byte layouts |
| LittleEndian.EncodeDecode | test_xoro.c:51-57 | reassembly is little-endian: byte i of the input is byte i of the value, and every byte at or beyond the input's length is zero |
| LittleEndian.DecodeInjective | test_xoro.c:51-57 | two byte strings of the same length that reassemble to the same value are equal |
| LittleEndian.DecodePad | test_xoro.c:41 | zero bytes after the received ones do not change the reassembled value |
| LittleEndian.DecodeBound | test_xoro.c:51-57 | n bytes set no bit at or above byte n, so the value is at most `LowMask(n)` |
| LittleEndian.LowMaskValue | test_xoro.c:54 | `LowMask(n)` is 2^(8n) - 1 for n ≤ 8 |
| LittleEndian.DecodeEncodeN | lkm_xoro.c:175 | decoding the n-byte encoding of v gives `v & LowMask(n)`, for any n |
| LittleEndian.EncodeNPrefix | lkm_xoro.c:175 | the first n bytes of a longer encoding are the n-byte encoding, so a shorter copy is a prefix of a longer one |
| LittleEndian.EncodeDecodeN | test_xoro.c:51-57 | encoding the reassembly of bs into k bytes, k at least the length of bs, gives bs followed by zeros |
| LittleEndian.EncodeAgree | lkm_xoro.c:175 | words that agree on their low n bytes have the same n-byte encoding |
| LittleEndian.LowMaskNested | test_xoro.c:54 | the mask of fewer bytes is contained in the mask of more bytes |
| LittleEndian.LiftIsShift | test_xoro.c:54 | the cast-and-shift `(uint64_t)b << (8*i)` puts b in byte position i |
| LittleEndian.DecodeSnocLift | test_xoro.c:52-56 | or-ing one more byte in at the next byte position extends the reassembly by that byte |
| Xoroshiro.Iterate | lkm_xoro.c:172 | the generator state after k successive `next` calls |
| Xoroshiro.IterateNonZero | lkm_xoro.c:172 | under `Sound`, any number of `next` calls keeps a nonzero state nonzero |
| Xoroshiro.Generator.constructor | lkm_xoro.c:41-44 | the generator starts from the object file's initial state with the given algorithm |
| Xoroshiro.Generator.Seed | lkm_xoro.c:42 | `seed(a, b)` sets the state to (a, b) |
| Xoroshiro.Generator.Jump | lkm_xoro.c:43 | `jump()` replaces the state by its jump image; requires a nonzero state |
| Xoroshiro.Generator.Next | lkm_xoro.c:44 | `next()` returns the output for the current state and advances the state once; requires a nonzero state |
| Driver.OpenStep | lkm_xoro.c:142-156 | `dev_open` on the globals: -EBUSY and no change when the lock is held, otherwise 0 with the lock taken, one jump and the count incremented; the lock is held afterwards either way |
| Driver.ReadStep | lkm_xoro.c:165-184 | `dev_read` on the globals: one word drawn, the uncopied tail dropped from the delivered prefix of its encoding, -EFAULT on a short copy and the length otherwise; lock and count untouched |
| Driver.ReleaseStep | lkm_xoro.c:190-196 | `dev_release` on the globals: returns 0 and frees the lock, whoever held it |
| Driver.ReadLength | lkm_xoro.c:170 | the length handed out is at most the request and at most 8, and equals one of them |
| Driver.OpenBusy | lkm_xoro.c:146-148 | an open while the lock is held returns -EBUSY and changes neither the lock, nor `n_opens`, nor the generator |
| Driver.OpenFree | lkm_xoro.c:146-155 | an open of a free device returns 0, takes the lock, jumps exactly once and increments `n_opens` |
| Driver.OpenResult | lkm_xoro.c:142-156 | open returns 0 exactly when the lock was free, otherwise -EBUSY, and leaves the lock held |
| Driver.ReadSpec | lkm_xoro.c:165-184 | a read advances the generator exactly once whatever the length and the copy's outcome. It leaves the lock and `n_opens` alone. It delivers the first ReadLength(len) − notCopied bytes of the word's encoding. It returns ReadLength(len) exactly when nothing was left uncopied, and -EFAULT exactly otherwise. On success the bytes reassemble to the word reduced to its low ReadLength(len) bytes |
| Driver.ReadPrefixes | lkm_xoro.c:170-175 | from the same state, a shorter complete read (nothing left uncopied) delivers a prefix of what a longer complete read delivers |
| Driver.ReleaseSpec | lkm_xoro.c:190-196 | release returns 0, frees the lock whoever held it, and changes nothing else |
| Driver.OpenReleaseOpen | lkm_xoro.c:142-196 | open, release, open from a free device: both opens return 0, `n_opens` grows by 2 and the generator has jumped twice |
| Driver.InitialUsable | lkm_xoro.c:110-112 | after initialisation the lock is free, `n_opens` is 0 and the seeded state is not all zero |
| Driver.StepUsable | lkm_xoro.c:142-196 | under `Sound`, each file operation keeps the generator state nonzero |
| Driver.RunUsable | lkm_xoro.c:142-196 | under `Sound`, any sequence of file operations keeps the generator state nonzero, so `jump` and `next` are never applied to the zero state |
| Driver.RunCountsOpens | lkm_xoro.c:153 | over any sequence of operations `n_opens` never decreases and grows by at most the number of opens issued |
| Driver.ReadsAdvance | lkm_xoro.c:172 | a sequence of k reads leaves the lock and `n_opens` alone and advances the generator exactly k steps |
| Driver.Device.Init | lkm_xoro.c:110-112 | initialisation leaves the lock free, `n_opens` 0, the state seeded with (314159265, 1618033989) and the device invariant established |
| Driver.Device.Open | lkm_xoro.c:142-156 | the in-place open returns and leaves the globals exactly as `OpenStep` says, keeping the generator usable |
| Driver.Device.Read | lkm_xoro.c:165-184 | the in-place read returns, delivers and leaves the globals exactly as `ReadStep` says, keeping the generator usable |
| Driver.Device.Release | lkm_xoro.c:190-196 | the in-place release returns and leaves the globals exactly as `ReleaseStep` says |
| Driver.TwoSessions | lkm_xoro.c:142-196 | from a freshly loaded module: open, read 8, read 4, release, open, read 8. The six calls return 0, 8, 4, 0, 0 and 8. The first read is the whole word after one jump, the second is the low 4 bytes of the next word, the third is the whole word one jump after where the first session stopped, and `n_opens` is 2 |
| TestXoro.ZeroRx | test_xoro.c:18-24 | every byte of the receive buffer is 0 afterwards |
| TestXoro.Deliver | test_xoro.c:43 | the delivered bytes land at the start of the buffer and the rest of it is unchanged |
| TestXoro.ShiftInto | test_xoro.c:54 | the shifted byte is the byte at position idx |
| TestXoro.Reassemble | test_xoro.c:51-57 | the loop computes the little-endian value of the first n bytes read |
| TestXoro.Expected | test_xoro.c:58-59 | the value printed for the read of n bytes: word n of the session reduced to its low ReadLength(n) bytes |
| TestXoro.Printed | test_xoro.c:58-59 | the values printed by the first n reads, in order; exactly n of them |
| TestXoro.PrintedAt | test_xoro.c:39-60 | the k-th printed value is the k-th word of the session reduced to its low ReadLength(k) bytes |
| TestXoro.ExpectedDecodes | test_xoro.c:51-57 | the printed value for a read of n bytes is the reassembly of the first ReadLength(n) bytes of the word's encoding |
| TestXoro.ExpectedEmpty | test_xoro.c:39 | the read of 0 bytes prints 0 |
| TestXoro.ExpectedFull | test_xoro.c:39 | reads of 8 and 9 bytes print the whole word |
| TestXoro.ExpectedBound | test_xoro.c:51-57 | the value printed for n bytes is at most 2^(8 ReadLength(n)) - 1 |
| TestXoro.CopiedAllMeans | test_xoro.c:45-48 | the loop's recursive "all copies so far were complete" is the quantified statement |
| TestXoro.ReadExpected | test_xoro.c:43-57 | a complete read from the state after n words of a session delivers bytes that reassemble to the printed value |
| TestXoro.ReadOnce | test_xoro.c:41-57 | one pass of the loop: the word is drawn in every case, the pass fails exactly when the copy fell short, and otherwise it yields the printed value; the buffer ends up holding the delivered bytes followed by zeros |
| TestXoro.TestMain | test_xoro.c:26-64 | a busy device ends the run with EBUSY and no change. Otherwise the run ends with 0 exactly when every copy was complete, and with EFAULT at the first incomplete one. The values so far are `Printed`, the words after the session's jump reduced to their requested lengths. main never closes the file, so when it returns the lock is still held (the release at process exit is outside the model), `n_opens` grew by 1, and the generator advanced once per read attempted |

## Left out

- The xoroshiro128+ mixing recurrence, the jump polynomial and the initial state are compiled into an object file that is not part of this model. The generator is a parameter, `Algorithm`. So the disjointness of jumped sub-streams, the non-identity of `jump` and the numerical output of the fixed seed are not modelled. The only assumption is `Sound`.
- Module registration and teardown (`xoro_init` apart from `mutex_init`/`seed`, and `xoro_exit`): these are calls into the kernel, with their error paths.
- `printk` diagnostics: output only.
- `mutex_trylock`/`mutex_unlock` are modelled as a two-valued lock with single-threaded semantics. Concurrency, mutex ownership and the kernel's behaviour on unlocking a free mutex are not modelled.
- `copy_to_user` is an input: the number of bytes it leaves uncopied, between 0 and the length. The bytes that do arrive are taken to be the first ones. On a fault the model delivers that partial prefix, as the code allows: the driver documents only that a negative value means an error (lkm_xoro.c:163) and says nothing about bytes copied before a fault.
- Driver.RunCountsOpens: `n_opens` is a C `int` whose overflow after 2^31 opens is not modelled; it is an unbounded integer here.
- The `offset` argument of `dev_read` is unused by the driver and is not modelled. The `buffer` argument is the `delivered` result.
- The exerciser's system calls and output (`open`, `read`, `perror`, `printf`, `errno`) are left out. The device is passed in, the first `open` failure is taken to be EBUSY and a failed read to be EFAULT, and the printed values are returned as a sequence.
- The host is taken to be little-endian (the byte order in which `(char*)&value` is read).
- LittleEndian.DecodeBound: the bound is stated in unsigned 64-bit order against `LowMask(n)`, with `LowMaskValue` equating `LowMask(n)` with 2^(8n) - 1. It is not a single integer inequality, because converting a symbolic 64-bit value to an integer is beyond what the verifier does cheaply.
