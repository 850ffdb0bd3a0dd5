# Enigma-style rotor cipher of `unlv_challenge.py`, in Dafny

The program reads a message hidden in the pixel bytes of a bitmap and runs it
through an Enigma-style machine. It takes the least significant bit of every
pixel byte and packs those bits eight to a byte, most significant first. It
drops four header bytes and cuts the rest at fixed offsets into a machine
setup:
- a static wheel;
- a reflector;
- three scrambled wheels;
- two notches;
- three rotor starts;
- a 39-byte message.

It then builds three `Rotor` objects and calls `enigma`. For each symbol,
`enigma` does four things:
- it checks the notches against the fronts of rotors 2 and 1 (stepping
  rotors 3 and 2 on a match);
- it always steps rotor 1;
- it sends the symbol out through rotors 1, 2 and 3;
- it reflects the symbol and sends it back through rotors 3, 2 and 1.

The project has six modules:

- `Wrappers` (`wrappers.dfy`): `Option` and `Result`. They stand for the
  exceptions the program can raise. `list.index` on an absent element raises
  ValueError. Indexing past the end raises IndexError.
- `PyLists` (`pylists.dfy`): the two list operations everything rests on:
  - `list.index`, which returns the first occurrence;
  - the slice rotation `s[k:] + s[:k]`.
- `Rotors` (`rotors.dfy`): the `Rotor` class. Its two wheels are sequence
  fields that `Step` reassigns. `code` and `step` are given as functions on
  rotor values (`CodeOf`, `StepOf`), and the methods are proved against them.
- `Cipher` (`machine.dfy`): `reflect`, and one iteration of `enigma` split
  into its stepping (`Advance`) and coding (`Encipher`) halves. `Run` is the
  whole pass as a function. The `Enigma` method mutates three `Rotor` objects
  and is proved to agree with `Run`. The lemmas about `Run` cover:
  - one output symbol per input symbol;
  - stepping that never depends on the symbols;
  - rotor 1 stepping exactly once per symbol;
  - reciprocity: the same setup deciphers what it enciphered.
- `Payload` (`payload.dfy`): LSB extraction, `bitarray.tobytes()` packing
  with its zero padding, the header drop and the field layout, with their
  round trips.
- `Challenge` (`challenge.dfy`): `main` from the pixel bytes to the
  decoded symbols. It is a `Decode` method proved against `DecodeSpec`, with
  lemmas on which inputs fail and how long the output is.

Symbols are unbounded integers. In the program they are `int`s taken from a
`bytearray`, so no wrap-around arises. Pixel and payload bytes use the
subset type `byte` (0 to 255).

Two things the payload code does may surprise a reader:
- **Short last bit group.** `tobytes()` pads a short last group of bits with
  zeros and emits it as a byte. `Payload.NineBits` shows that nine
  bits make two bytes. `Payload.PackRoundTrip` shows that no bit is lost.
- **Payload length.** Although the message slice ends at offset 514, lines
  168-172 index single bytes only up to offset 474, so only a payload
  shorter than 475 bytes (after the header) fails. The message slice at line 173 is an
  ordinary Python slice and silently shortens when the payload ends early.
  See `Payload.ParseLayout` and `Challenge.DecodeShortInputs`.

## Model

| member | source | states |
|---|---|---|
| `PyLists.IndexOf` | unlv_challenge.py:67-69 | `list.index` of a present element is the least position holding it |
| `PyLists.Find` | unlv_challenge.py:87 | `list.index` fails exactly when the element is absent; otherwise it gives the first position holding it |
| `PyLists.RotateLeft` | unlv_challenge.py:71 | `s[k:] + s[:k]` keeps the length and the multiset of elements; position `i` holds `s[i + k]`, wrapping round past the end |
| `PyLists.RotatePreservesDistinct` | unlv_challenge.py:71 | rotating a duplicate-free wheel keeps it duplicate-free |
| `Rotors.CodeOf` | unlv_challenge.py:53-60 | `code` succeeds exactly when the symbol is on the searched wheel and its first position exists on the other wheel; the result is a symbol of the other wheel |
| `Rotors.StepOf` | unlv_challenge.py:64-71 | `step` succeeds exactly when the target is present, or the wheel is non-empty for the default; the new wheel is a permutation of the old one that starts with the target, or with the old last element for the default |
| `Rotors.CodeRoundTrip` | unlv_challenge.py:53-60 | with equal-length wheels and a duplicate-free scrambled wheel, coding outbound then inbound gives the symbol back |
| `Rotors.CodeRoundTripInbound` | unlv_challenge.py:53-60 | with equal-length wheels and a duplicate-free static wheel, coding inbound then outbound gives the symbol back |
| `Rotors.StepDefaultRotatesByOne` | unlv_challenge.py:62-71 | on a duplicate-free wheel, `step()` moves the last element to the front and shifts the rest right by one |
| `Rotors.StepToTarget` | unlv_challenge.py:64-71 | `step(pos)` rotates left by the first index of `pos` and keeps a duplicate-free wheel duplicate-free |
| `Rotors.StepPreservesDistinct` | unlv_challenge.py:64-71 | any successful step keeps a duplicate-free wheel duplicate-free |
| `Rotors.Rotor.constructor` | unlv_challenge.py:34-40 | the rotor holds the given static wheel and the scrambled wheel stepped to `start`, which then comes first; with the default start the wheel is left as given |
| `Rotors.Rotor.SetStat` | unlv_challenge.py:43-44 | replaces the static wheel and nothing else |
| `Rotors.Rotor.SetScram` | unlv_challenge.py:47-48 | replaces the scrambled wheel and nothing else |
| `Rotors.Rotor.Code` | unlv_challenge.py:53-60 | the method's result is `CodeOf` of the rotor's wheels, and it changes neither wheel |
| `Rotors.Rotor.Step` | unlv_challenge.py:64-71 | on success the scrambled wheel becomes `StepOf` of the old one; on failure it is unchanged; the static wheel is never touched |
| `Rotors.SeparateRotors` | unlv_challenge.py:43-48 | two rotors built from the same list are independent: stepping one changes neither the other rotor nor the caller's list |
| `Cipher.Reflect` | unlv_challenge.py:85-88 | `reflect` fails on an absent symbol, and any result is a reflector symbol |
| `Cipher.ReflectAdjacent` | unlv_challenge.py:85-88 | on a duplicate-free reflector, an even position maps to the next element (failing at an odd-length end) and an odd position to the previous one |
| `Cipher.ReflectInvolution` | unlv_challenge.py:85-88 | on a duplicate-free, even-length reflector, reflection always succeeds, has no fixed point and undoes itself |
| `Cipher.Advance` | unlv_challenge.py:102-107 | the stepping fails exactly when a front it reads, or a wheel it steps, is empty; rotor 1's wheel always becomes `step()`'s result (`StepOf` with no target), its old last element coming to the front; rotor 2's wheel becomes `step()`'s result exactly when rotor 1's old front is `notch1` and is otherwise untouched; rotor 3 likewise with rotor 2's old front and `notch2`; static wheels and wheel lengths are kept |
| `Cipher.RunFailureIsFinal` | unlv_challenge.py:99-114 | once a prefix of the message fails, the whole pass fails |
| `Cipher.RunFollowsSchedule` | unlv_challenge.py:99-114 | a successful pass outputs one symbol per input symbol, and leaves the rotors where as many stepping iterations as the message has symbols leave them |
| `Cipher.RunSymbol` | unlv_challenge.py:99-112 | output symbol `i` is input symbol `i` coded with the rotors after `i + 1` stepping iterations, so the output is in order |
| `Cipher.StateIgnoresSymbols` | unlv_challenge.py:99-107 | two successful passes over messages of equal length leave the rotors in the same state |
| `Cipher.DefaultStepsRotate` | unlv_challenge.py:62-71 | `k` default steps of a duplicate-free wheel (`k` at most its length) move its last `k` elements to the front, in order |
| `Cipher.DefaultStepsPeriod` | unlv_challenge.py:62-71 | a full turn of default steps brings a duplicate-free wheel back to its start |
| `Cipher.Rotor1StepsEverySymbol` | unlv_challenge.py:107 | after `n` stepping iterations rotor 1's wheel is its start after exactly `n` default steps, whatever the notches |
| `Cipher.CodeWithin` | unlv_challenge.py:53-60 | on a permutation rotor, coding in either direction stays in the alphabet and the two directions undo each other |
| `Cipher.EncipherReciprocal` | unlv_challenge.py:110-112 | with permutation wheels and a valid reflector, the per-symbol map always succeeds, never fixes a symbol and undoes itself |
| `Cipher.AdvanceKeepsValid` | unlv_challenge.py:102-107 | stepping keeps every wheel a permutation of the alphabet and never fails on a non-empty alphabet |
| `Cipher.RunReciprocal` | unlv_challenge.py:96-116 | with permutation wheels and a valid reflector, a pass over reflector symbols succeeds and stays in the alphabet; a second pass from the same setup over its output returns the message and ends in the same rotor state |
| `Cipher.StepRotors` | unlv_challenge.py:102-107 | stepping the three rotor objects succeeds exactly when `Advance` does and leaves them in `Advance`'s state |
| `Cipher.EncipherSymbol` | unlv_challenge.py:110-112 | the coding pass over the rotor objects returns `Encipher` of their values |
| `Cipher.Enigma` | unlv_challenge.py:96-116 | `enigma` on three distinct rotors succeeds exactly when `Run` does; its output is `Run`'s output and the rotors end in `Run`'s final state |
| `Payload.FromToBits` | unlv_challenge.py:135 | reading back the bits of a number that fits gives the number |
| `Payload.ToFromBits` | unlv_challenge.py:135 | writing out the value of a bit string gives the bit string |
| `Payload.FirstBitIsMostSignificant` | unlv_challenge.py:149 | the first bit decides whether the value reaches the top half of the range (most significant bit first) |
| `Payload.LastBitIsLeastSignificant` | unlv_challenge.py:134-136 | `bits[7]` of `frombytes(byte)` is the byte's least significant bit |
| `Payload.Lsbs` | unlv_challenge.py:132-137 | one bit per pixel byte, in order, each the byte's least significant bit |
| `Payload.ExtractLsbs` | unlv_challenge.py:132-137 | the append loop collects exactly `Lsbs` of the bytes |
| `Payload.Pack` | unlv_challenge.py:149 | `tobytes()` emits one byte per whole or partial group of eight bits |
| `Payload.PadLengthCompletes` | unlv_challenge.py:149 | the zero padding is the least that completes a byte |
| `Payload.PackRoundTrip` | unlv_challenge.py:149 | unpacking the packed bytes gives the bits back followed by the zero padding; no bit is dropped |
| `Payload.UnpackRoundTrip` | unlv_challenge.py:149 | packing the bits of a byte string gives the byte string back |
| `Payload.PackEight` | unlv_challenge.py:149 | eight bits `b0..b7` pack to the single byte `128*b0 + 64*b1 + ... + b7` |
| `Payload.NineBits` | unlv_challenge.py:149 | nine bits pack to two bytes, the second being the ninth bit followed by seven zero bits |
| `Payload.DropHeader` | unlv_challenge.py:151-152 | four `del array[0]` succeed exactly on at least four bytes and leave the array without its first four |
| `Payload.ParseLayout` | unlv_challenge.py:163-173 | the layout is read exactly when the payload has at least 475 bytes; the wheels are 94 bytes long and the message is the slice `[475, min(len, 514))` |
| `Payload.ParseSerialize` | unlv_challenge.py:163-173 | every well-sized setup is read back from its payload |
| `Payload.SerializeParse` | unlv_challenge.py:163-173 | reading a setup uses exactly the payload up to the end of the message slice |
| `Challenge.Decode` | unlv_challenge.py:147-180 | `main` from the pixel bytes: the method's result is `DecodeSpec`, with each exception reported as its `Failure` |
| `Challenge.DecodeShortInputs` | unlv_challenge.py:149-172 | decoding fails for a missing header exactly below 25 pixel bytes, and for a too-short layout exactly from 25 up to 3824 pixel bytes |
| `Challenge.DecodeLength` | unlv_challenge.py:149-180 | a decoded message has one symbol per byte of the message slice, at most 39 |
| `Challenge.DecodeReciprocal` | unlv_challenge.py:159-180 | with a valid setup and a message of reflector symbols, decoding succeeds and the same setup turns the decoded text back into the hidden message |

## Left out

- File reading in `readFile` is not modelled: opening the bitmap, seeking to
  offset 54, reading byte by byte and closing (lines 123-140). Extraction
  works on the pixel bytes given as a sequence.
- Console output is not modelled: printing the decoded symbols as
  characters (line 183) and the `__main__` entry point (lines 190-191).
- The unreachable branch of `code` is left out. An unknown `mode` string
  leaves `index` unbound. `Mode` has only the two values the program passes.
- The mutable default arguments `static = []` and `scrambled = []` (line 34)
  are left out. Both lists are copied, and `main` always passes all three
  arguments. In the model the wheels are sequence values, so they are
  always copies.
- `Cipher.Enigma`: on failure, its contract does not say what state the
  rotors are left in. The exception ends the program, and which rotors had
  already stepped is never observed.
- `Rotors.Rotor.constructor`: requires `start` to be the default or on the
  wheel. The ValueError raised by `step(start)` for an absent start is
  modelled in `Challenge.Decode`, which reports `StartAbsent` before
  building that rotor.
- `Cipher.Enigma`: requires three distinct rotor objects. `main` builds
  three separate rotors, and aliased rotors are not modelled.
- `bitarray` is modelled only through what the program uses: `frombytes` of
  one byte (`ByteBits`), indexing bit 7, `append` and `tobytes()` (`Pack`).
  Its storage and endianness options are not modelled.
