/** `main` (unlv_challenge.py lines 147-180) from the pixel bytes on:
    collect the low bits, pack them, drop the header, read the setup, build
    the three rotors and run the machine over the hidden message. Each
    exception the program can raise on the way is a `Failure`. */
module Challenge {
  import opened Wrappers
  import opened Rotors
  import opened Cipher
  import opened Payload

  /** Why decoding stopped. */
  datatype Failure =
    | HeaderMissing          // `del array[0]` on an empty array (line 152)
    | LayoutTooShort         // a single-byte field past the end (lines 168-172)
    | StartAbsent(rotor: nat) // `step(start)` with a start not on the wheel (lines 176-178)
    | LookupFailed           // a stepping or coding failure inside `enigma`

  /** The payload bytes: the packed low bits of the pixel bytes. */
  function Packed(raw: seq<byte>): (bytes: seq<byte>)
    ensures |bytes| == (|raw| + 7) / 8
  {
    Pack(Lsbs(raw))
  }

  /** The rotors `main` builds from a setup whose starts are all on their
      wheels: the shared static wheel, each scrambled wheel stepped to its
      start. */
  function SetupMachine(l: Layout): (m: Machine)
    requires l.start1 in l.scram1 && l.start2 in l.scram2 && l.start3 in l.scram3
  {
    Machine(RotorState(l.stat, InitialWheel(l.scram1, l.start1)),
            RotorState(l.stat, InitialWheel(l.scram2, l.start2)),
            RotorState(l.stat, InitialWheel(l.scram3, l.start3)))
  }

  /** What a successful setup decodes to. */
  function DecodeLayout(l: Layout): (r: Result<seq<int>, Failure>) {
    if l.start1 !in l.scram1 then Failure(StartAbsent(1))
    else if l.start2 !in l.scram2 then Failure(StartAbsent(2))
    else if l.start3 !in l.scram3 then Failure(StartAbsent(3))
    else
      match Run(SetupMachine(l), l.reflector, l.notch1, l.notch2, l.message)
      case None => Failure(LookupFailed)
      case Some(o) => Success(o.output)
  }

  /** The whole program from the pixel bytes to the message symbols. */
  function DecodeSpec(raw: seq<byte>): (r: Result<seq<int>, Failure>) {
    var bytes := Packed(raw);
    if |bytes| < HeaderLength then Failure(HeaderMissing)
    else
      match ParseLayout(bytes[HeaderLength..])
      case None => Failure(LayoutTooShort)
      case Some(l) => DecodeLayout(l)
  }

  /** `main` without the file and the console: extract, pack, drop the
      header, slice, build the rotors in order and run `enigma`. */
  method Decode(raw: seq<byte>) returns (r: Result<seq<int>, Failure>)
    ensures r == DecodeSpec(raw)
  {
    var bits := ExtractLsbs(raw);
    var body := DropHeader(Pack(bits));
    if body.None? {
      return Failure(HeaderMissing);
    }
    var layout := ParseLayout(body.value);
    if layout.None? {
      return Failure(LayoutTooShort);
    }
    var l := layout.value;
    if l.start1 !in l.scram1 {
      return Failure(StartAbsent(1));
    }
    var rotor1 := new Rotor(l.stat, l.scram1, l.start1);
    if l.start2 !in l.scram2 {
      return Failure(StartAbsent(2));
    }
    var rotor2 := new Rotor(l.stat, l.scram2, l.start2);
    if l.start3 !in l.scram3 {
      return Failure(StartAbsent(3));
    }
    var rotor3 := new Rotor(l.stat, l.scram3, l.start3);
    assert MachineOf(rotor1, rotor2, rotor3) == SetupMachine(l);
    var msg := Enigma(l.message, rotor1, rotor2, rotor3, l.reflector, l.notch1, l.notch2);
    if msg.None? {
      return Failure(LookupFailed);
    }
    r := Success(msg.value);
  }

  /** Pixel bytes needed for the header to be present. */
  const MinHeaderPixels: nat := 8 * (HeaderLength - 1) + 1

  /** Pixel bytes needed for every field up to the last start. */
  const MinLayoutPixels: nat := 8 * (HeaderLength + MessageStart - 1) + 1

  /** Which inputs are too short: fewer than 25 pixel bytes leave no header
      to drop, and fewer than 3825 leave a single-byte field past the end.
      Both bounds count a padded last group as a whole byte. */
  lemma DecodeShortInputs(raw: seq<byte>)
    ensures DecodeSpec(raw) == Failure(HeaderMissing) <==> |raw| < MinHeaderPixels
    ensures DecodeSpec(raw) == Failure(LayoutTooShort) <==> MinHeaderPixels <= |raw| < MinLayoutPixels
  {
    var n := |Packed(raw)|;
    if |raw| >= MinHeaderPixels {
      assert n >= HeaderLength;
      if |raw| >= MinLayoutPixels {
        assert n - HeaderLength >= MessageStart;
        match ParseLayout(Packed(raw)[HeaderLength..])
        case Some(l) =>
          assert DecodeLayout(l) != Failure(HeaderMissing) && DecodeLayout(l) != Failure(LayoutTooShort);
      } else {
        assert n - HeaderLength < MessageStart;
      }
    } else {
      assert n < HeaderLength;
    }
  }

  /** A decoded message has one symbol per byte of the message slice: at
      most 39, fewer when the payload ends inside the slice. */
  lemma DecodeLength(raw: seq<byte>)
    requires DecodeSpec(raw).Success?
    ensures |DecodeSpec(raw).value| == Min(|Packed(raw)| - HeaderLength, MessageEnd) - MessageStart
    ensures |DecodeSpec(raw).value| <= MessageEnd - MessageStart
  {
    var l := ParseLayout(Packed(raw)[HeaderLength..]).value;
    RunFollowsSchedule(SetupMachine(l), l.reflector, l.notch1, l.notch2, l.message);
  }

  /** With permutation wheels over the reflector's symbols, a valid
      reflector and a message drawn from those symbols, decoding succeeds,
      and the same setup run over the decoded text gives the hidden message
      back. */
  lemma DecodeReciprocal(raw: seq<byte>, l: Layout)
    requires |Packed(raw)| >= HeaderLength
    requires ParseLayout(Packed(raw)[HeaderLength..]) == Some(l)
    requires l.start1 in l.scram1 && l.start2 in l.scram2 && l.start3 in l.scram3
    requires ValidMachine(SetupMachine(l), l.reflector)
    requires forall i :: 0 <= i < |l.message| ==> l.message[i] in l.reflector
    ensures DecodeSpec(raw).Success?
    ensures Run(SetupMachine(l), l.reflector, l.notch1, l.notch2, DecodeSpec(raw).value).Some?
    ensures Run(SetupMachine(l), l.reflector, l.notch1, l.notch2, DecodeSpec(raw).value).value.output == l.message
  {
    RunReciprocal(SetupMachine(l), l.reflector, l.notch1, l.notch2, l.message);
  }
}
