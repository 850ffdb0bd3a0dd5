/** The three-rotor machine: the reflector (`reflect`, unlv_challenge.py
    lines 85-88) and the per-symbol stepping and coding pass (`enigma`,
    lines 96-116), first as functions over rotor values, then as the method
    that drives three `Rotor` objects. */
module Cipher {
  import opened Wrappers
  import opened PyLists
  import opened Rotors

  /** `reflect(reflector, char)`: a symbol at an even position goes to the
      one after it, at an odd position to the one before it. Fails when the
      symbol is absent (ValueError) or sits at an even last position of an
      odd-length reflector (IndexError). */
  function Reflect(ref: seq<int>, c: int): (d: Option<int>)
    ensures c !in ref ==> d.None?
    ensures d.Some? ==> d.value in ref
  {
    match Find(ref, c)
    case None => None
    case Some(p) =>
      if p % 2 == 0 then
        if p + 1 < |ref| then Some(ref[p + 1]) else None
      else
        Some(ref[p - 1])
  }

  /** A reflector of adjacent pairs: even length, no symbol twice. */
  predicate ValidReflector(ref: seq<int>) {
    |ref| % 2 == 0 && Distinct(ref)
  }

  /** In a duplicate-free reflector, the symbol at an even position reflects
      to its right neighbour and the one at an odd position to its left. */
  lemma ReflectAdjacent(ref: seq<int>, i: int)
    requires Distinct(ref) && 0 <= i < |ref|
    ensures i % 2 == 0 ==> Reflect(ref, ref[i]) == if i + 1 < |ref| then Some(ref[i + 1]) else None
    ensures i % 2 == 1 ==> Reflect(ref, ref[i]) == Some(ref[i - 1])
  {
    IndexOfDistinct(ref, i);
  }

  /** Reflection on a valid reflector is an involution without fixed points. */
  lemma ReflectInvolution(ref: seq<int>, c: int)
    requires ValidReflector(ref) && c in ref
    ensures Reflect(ref, c).Some?
    ensures Reflect(ref, c).value != c
    ensures Reflect(ref, Reflect(ref, c).value) == Some(c)
  {
    var p := IndexOf(ref, c);
    if p % 2 == 0 {
      ReflectAdjacent(ref, p + 1);
    } else {
      ReflectAdjacent(ref, p - 1);
    }
  }

  /** The three rotors' values. */
  datatype Machine = Machine(r1: RotorState, r2: RotorState, r3: RotorState)

  /** The result of a pass: the output so far and the rotors after it. */
  datatype Outcome = Outcome(output: seq<int>, machine: Machine)

  /** The stepping at the head of each iteration of `enigma` (lines 102-107):
      rotor 3 steps when rotor 2's front is `notch2`, rotor 2 steps when
      rotor 1's front is `notch1`, both fronts read before any rotor of this
      iteration moves, and rotor 1 always steps. Reading the front of an
      empty wheel, or stepping one, fails. */
  function Advance(m: Machine, notch1: int, notch2: int): (r: Option<Machine>)
    ensures r.Some? <==> |m.r1.scram| > 0 && |m.r2.scram| > 0 && (m.r2.scram[0] == notch2 ==> |m.r3.scram| > 0)
    ensures r.Some? ==>
              |r.value.r1.scram| == |m.r1.scram| && |r.value.r2.scram| == |m.r2.scram| && |r.value.r3.scram| == |m.r3.scram|
    ensures r.Some? ==> r.value.r1.stat == m.r1.stat && r.value.r2.stat == m.r2.stat && r.value.r3.stat == m.r3.stat
    ensures r.Some? && |m.r1.scram| > 0 ==> r.value.r1.scram[0] == m.r1.scram[|m.r1.scram| - 1]
    ensures r.Some? && |m.r1.scram| > 0 ==> (r.value.r2 == m.r2 <== m.r1.scram[0] != notch1)
    ensures r.Some? && |m.r1.scram| > 0 && |m.r2.scram| > 0 && m.r1.scram[0] == notch1 ==>
              r.value.r2.scram[0] == m.r2.scram[|m.r2.scram| - 1]
    ensures r.Some? && |m.r2.scram| > 0 ==> (r.value.r3 == m.r3 <== m.r2.scram[0] != notch2)
    ensures r.Some? && |m.r2.scram| > 0 && |m.r3.scram| > 0 && m.r2.scram[0] == notch2 ==>
              r.value.r3.scram[0] == m.r3.scram[|m.r3.scram| - 1]
    ensures r.Some? ==> r.value.r1.scram == StepOf(m.r1.scram, NoPos).value
    ensures r.Some? ==>
              r.value.r2.scram == (if m.r1.scram[0] == notch1 then StepOf(m.r2.scram, NoPos).value else m.r2.scram)
    ensures r.Some? ==>
              r.value.r3.scram == (if m.r2.scram[0] == notch2 then StepOf(m.r3.scram, NoPos).value else m.r3.scram)
  {
    if |m.r2.scram| == 0 || |m.r1.scram| == 0 then None
    else
      var s3 := if m.r2.scram[0] == notch2 then StepOf(m.r3.scram, NoPos) else Some(m.r3.scram);
      var s2 := if m.r1.scram[0] == notch1 then StepOf(m.r2.scram, NoPos) else Some(m.r2.scram);
      var s1 := StepOf(m.r1.scram, NoPos);
      if s3.None? || s2.None? || s1.None? then None
      else Some(Machine(m.r1.(scram := s1.value), m.r2.(scram := s2.value), m.r3.(scram := s3.value)))
  }

  /** Lines 110-112: out through rotors 1, 2, 3, reflect, back through
      rotors 3, 2, 1. */
  function Encipher(m: Machine, ref: seq<int>, c: int): (d: Option<int>) {
    match CodeOf(m.r1, c, Outbound)
    case None => None
    case Some(a) =>
    match CodeOf(m.r2, a, Outbound)
    case None => None
    case Some(b) =>
    match CodeOf(m.r3, b, Outbound)
    case None => None
    case Some(x) =>
    match Reflect(ref, x)
    case None => None
    case Some(y) =>
    match CodeOf(m.r3, y, Inbound)
    case None => None
    case Some(e) =>
    match CodeOf(m.r2, e, Inbound)
    case None => None
    case Some(f) => CodeOf(m.r1, f, Inbound)
  }

  /** One iteration of `enigma`'s loop: step the rotors, code the symbol,
      append the result. */
  function Tick(prev: Outcome, ref: seq<int>, notch1: int, notch2: int, c: int): (r: Option<Outcome>) {
    match Advance(prev.machine, notch1, notch2)
    case None => None
    case Some(next) =>
    match Encipher(next, ref, c)
    case None => None
    case Some(d) => Some(Outcome(prev.output + [d], next))
  }

  /** `enigma` as a function: the loop over the message, one symbol at a
      time and in order; any failure aborts the pass. */
  function Run(m: Machine, ref: seq<int>, notch1: int, notch2: int, msg: seq<int>): (r: Option<Outcome>)
    decreases |msg|
  {
    if msg == [] then Some(Outcome([], m))
    else
      match Run(m, ref, notch1, notch2, msg[..|msg| - 1])
      case None => None
      case Some(prev) => Tick(prev, ref, notch1, notch2, msg[|msg| - 1])
  }

  /** The rotors after `n` iterations of the stepping alone. */
  function AdvanceN(m: Machine, notch1: int, notch2: int, n: nat): (r: Option<Machine>) {
    if n == 0 then Some(m)
    else
      match AdvanceN(m, notch1, notch2, n - 1)
      case None => None
      case Some(prev) => Advance(prev, notch1, notch2)
  }

  /** One more iteration of the stepping alone. */
  lemma AdvanceNSucc(m: Machine, notch1: int, notch2: int, n: nat)
    ensures AdvanceN(m, notch1, notch2, n + 1) ==
      match AdvanceN(m, notch1, notch2, n)
      case None => None
      case Some(prev) => Advance(prev, notch1, notch2)
  {
  }

  /** The pass over `init + [c]` is the pass over `init` followed by one
      more iteration. */
  lemma RunSnoc(m: Machine, ref: seq<int>, notch1: int, notch2: int, init: seq<int>, c: int)
    ensures Run(m, ref, notch1, notch2, init + [c]) ==
      match Run(m, ref, notch1, notch2, init)
      case None => None
      case Some(prev) => Tick(prev, ref, notch1, notch2, c)
  {
    assert (init + [c])[..|init|] == init;
  }

  /** A successful iteration is one whose stepping and coding both
      succeed. */
  lemma TickSucceeds(prev: Outcome, ref: seq<int>, notch1: int, notch2: int, c: int)
    requires Tick(prev, ref, notch1, notch2, c).Some?
    ensures Advance(prev.machine, notch1, notch2).Some?
    ensures Encipher(Advance(prev.machine, notch1, notch2).value, ref, c).Some?
    ensures Tick(prev, ref, notch1, notch2, c) ==
      Some(Outcome(prev.output + [Encipher(Advance(prev.machine, notch1, notch2).value, ref, c).value],
                   Advance(prev.machine, notch1, notch2).value))
  {
  }

  /** An iteration whose stepping and coding both succeed appends the coded
      symbol. */
  lemma TickThrough(prev: Outcome, ref: seq<int>, notch1: int, notch2: int, c: int, next: Machine, d: int)
    requires Advance(prev.machine, notch1, notch2) == Some(next)
    requires Encipher(next, ref, c) == Some(d)
    ensures Tick(prev, ref, notch1, notch2, c) == Some(Outcome(prev.output + [d], next))
  {
  }

  /** Once a prefix of the message fails, the whole pass fails. */
  lemma {:induction false} RunFailureIsFinal(m: Machine, ref: seq<int>, notch1: int, notch2: int, msg: seq<int>, k: nat)
    requires k <= |msg| && Run(m, ref, notch1, notch2, msg[..k]).None?
    ensures Run(m, ref, notch1, notch2, msg).None?
    decreases |msg| - k
  {
    if k == |msg| {
      assert msg[..k] == msg;
    } else {
      var init := msg[..|msg| - 1];
      assert init[..k] == msg[..k];
      RunFailureIsFinal(m, ref, notch1, notch2, init, k);
    }
  }

  /** A successful pass yields one symbol per input symbol, and its rotors
      end where `|msg|` iterations of the stepping alone leave them. */
  lemma {:induction false} RunFollowsSchedule(m: Machine, ref: seq<int>, notch1: int, notch2: int, msg: seq<int>)
    requires Run(m, ref, notch1, notch2, msg).Some?
    ensures |Run(m, ref, notch1, notch2, msg).value.output| == |msg|
    ensures AdvanceN(m, notch1, notch2, |msg|) == Some(Run(m, ref, notch1, notch2, msg).value.machine)
    decreases |msg|
  {
    if msg != [] {
      var init, c := msg[..|msg| - 1], msg[|msg| - 1];
      RunFollowsSchedule(m, ref, notch1, notch2, init);
      TickSucceeds(Run(m, ref, notch1, notch2, init).value, ref, notch1, notch2, c);
      AdvanceNSucc(m, notch1, notch2, |init|);
      assert |init| + 1 == |msg|;
    }
  }

  /** Stepping never reads the message: symbol `i` of a successful pass is
      symbol `i` of the input coded with the rotors left by `i + 1`
      iterations of the stepping alone, in order. */
  lemma {:induction false} RunSymbol(m: Machine, ref: seq<int>, notch1: int, notch2: int, msg: seq<int>, i: nat)
    requires Run(m, ref, notch1, notch2, msg).Some? && i < |msg|
    ensures i < |Run(m, ref, notch1, notch2, msg).value.output|
    ensures AdvanceN(m, notch1, notch2, i + 1).Some?
    ensures Encipher(AdvanceN(m, notch1, notch2, i + 1).value, ref, msg[i])
              == Some(Run(m, ref, notch1, notch2, msg).value.output[i])
    decreases |msg|
  {
    if i + 1 < |msg| {
      var init, c := msg[..|msg| - 1], msg[|msg| - 1];
      var p := Run(m, ref, notch1, notch2, init).value;
      TickSucceeds(p, ref, notch1, notch2, c);
      RunSymbol(m, ref, notch1, notch2, init, i);
      assert init[i] == msg[i];
    } else {
      RunLast(m, ref, notch1, notch2, msg);
    }
  }

  /** The last symbol of a successful pass is coded with the rotors the
      whole pass leaves. */
  lemma RunLast(m: Machine, ref: seq<int>, notch1: int, notch2: int, msg: seq<int>)
    requires Run(m, ref, notch1, notch2, msg).Some? && msg != []
    ensures |Run(m, ref, notch1, notch2, msg).value.output| == |msg|
    ensures AdvanceN(m, notch1, notch2, |msg|).Some?
    ensures Encipher(AdvanceN(m, notch1, notch2, |msg|).value, ref, msg[|msg| - 1])
              == Some(Run(m, ref, notch1, notch2, msg).value.output[|msg| - 1])
  {
    var init, c := msg[..|msg| - 1], msg[|msg| - 1];
    var p := Run(m, ref, notch1, notch2, init).value;
    TickSucceeds(p, ref, notch1, notch2, c);
    RunFollowsSchedule(m, ref, notch1, notch2, init);
  }

  /** Two successful passes over messages of the same length leave the rotors
      in the same state, whatever the symbols. */
  lemma StateIgnoresSymbols(m: Machine, ref: seq<int>, notch1: int, notch2: int, msg: seq<int>, msg': seq<int>)
    requires |msg| == |msg'|
    requires Run(m, ref, notch1, notch2, msg).Some? && Run(m, ref, notch1, notch2, msg').Some?
    ensures Run(m, ref, notch1, notch2, msg).value.machine == Run(m, ref, notch1, notch2, msg').value.machine
  {
    RunFollowsSchedule(m, ref, notch1, notch2, msg);
    RunFollowsSchedule(m, ref, notch1, notch2, msg');
  }

  /** The wheel after `n` default steps (`step()` with no argument). */
  function DefaultSteps(w: seq<int>, n: nat): (r: seq<int>)
    ensures |r| == |w|
  {
    if n == 0 || |w| == 0 then w else StepOf(DefaultSteps(w, n - 1), NoPos).value
  }

  /** One more default step. */
  lemma DefaultStepsSucc(w: seq<int>, n: nat)
    ensures DefaultSteps(w, n + 1) == if |w| == 0 then w else StepOf(DefaultSteps(w, n), NoPos).value
  {
  }

  /** The wheel rotated right by `k`: its last `k` elements moved to the
      front, in order. */
  function RotateRight(w: seq<int>, k: nat): (r: seq<int>)
    requires k <= |w|
  {
    w[|w| - k..] + w[..|w| - k]
  }

  /** Rotating by nothing leaves the wheel as it is. */
  lemma RotateRightZero(w: seq<int>)
    ensures RotateRight(w, 0) == w
  {
    assert w[|w|..] + w[..|w|] == w;
  }

  /** Rotation keeps a wheel duplicate-free. */
  lemma RotateRightDistinct(w: seq<int>, k: nat)
    requires Distinct(w) && k <= |w|
    ensures Distinct(RotateRight(w, k))
  {
    assert RotateRight(w, k) == RotateLeft(w, |w| - k);
    RotatePreservesDistinct(w, |w| - k);
  }

  /** Moving the last element of a right rotation by `k - 1` to the front
      gives the right rotation by `k`. */
  lemma RotateRightShift(w: seq<int>, k: nat)
    requires 0 < k <= |w|
    ensures var t := RotateRight(w, k - 1);
      [t[|w| - 1]] + t[..|w| - 1] == RotateRight(w, k)
  {
    var L := |w|;
    var t := RotateRight(w, k - 1);
    assert t[L - 1] == w[L - k];
    assert t[..L - 1] == w[L - k + 1..] + w[..L - k];
    assert [w[L - k]] + w[L - k + 1..] == w[L - k..];
  }

  /** One default step after a right rotation by `k - 1` is a right
      rotation by `k`. */
  lemma RotateRightOnce(w: seq<int>, k: nat)
    requires Distinct(w) && 0 < k <= |w|
    ensures StepOf(RotateRight(w, k - 1), NoPos) == Some(RotateRight(w, k))
  {
    RotateRightDistinct(w, k - 1);
    StepDefaultRotatesByOne(RotateRight(w, k - 1));
    RotateRightShift(w, k);
  }

  /** On a duplicate-free wheel, `k` default steps (at most one turn) move
      the last `k` elements to the front, in order. */
  lemma {:induction false} DefaultStepsRotate(w: seq<int>, k: nat)
    requires Distinct(w) && k <= |w|
    ensures DefaultSteps(w, k) == RotateRight(w, k)
  {
    if k == 0 {
      RotateRightZero(w);
    } else {
      DefaultStepsRotate(w, k - 1);
      RotateRightOnce(w, k);
    }
  }

  /** A whole turn of default steps brings a duplicate-free wheel back to
      where it started. */
  lemma DefaultStepsPeriod(w: seq<int>)
    requires Distinct(w)
    ensures DefaultSteps(w, |w|) == w
  {
    DefaultStepsRotate(w, |w|);
    assert w[0..] + w[..0] == w;
  }

  /** Rotor 1 steps exactly once per symbol: after `n` iterations of the
      stepping, its scrambled wheel is the starting one after `n` default
      steps, whatever the notches and the other rotors. */
  lemma {:induction false} Rotor1StepsEverySymbol(m: Machine, notch1: int, notch2: int, n: nat)
    requires AdvanceN(m, notch1, notch2, n).Some?
    ensures AdvanceN(m, notch1, notch2, n).value.r1.scram == DefaultSteps(m.r1.scram, n)
  {
    if n > 0 {
      var k: nat := n - 1;
      AdvanceNSucc(m, notch1, notch2, k);
      Rotor1StepsEverySymbol(m, notch1, notch2, k);
      DefaultStepsSucc(m.r1.scram, k);
    }
  }

  /** Each rotor's wheels are duplicate-free arrangements of `alphabet`. */
  predicate RotorOver(r: RotorState, alphabet: multiset<int>) {
    Distinct(r.stat) && Distinct(r.scram) && multiset(r.stat) == alphabet && multiset(r.scram) == alphabet
  }

  /** Permutation wheels over the reflector's symbols, and a valid reflector. */
  predicate ValidMachine(m: Machine, ref: seq<int>) {
    ValidReflector(ref) &&
    RotorOver(m.r1, multiset(ref)) && RotorOver(m.r2, multiset(ref)) && RotorOver(m.r3, multiset(ref))
  }

  /** On a permutation rotor, coding in either direction stays inside the
      alphabet and the two directions undo each other. */
  lemma CodeWithin(r: RotorState, alphabet: multiset<int>, c: int)
    requires RotorOver(r, alphabet) && c in alphabet
    ensures CodeOf(r, c, Outbound).Some? && CodeOf(r, c, Outbound).value in alphabet
    ensures CodeOf(r, c, Inbound).Some? && CodeOf(r, c, Inbound).value in alphabet
    ensures CodeOf(r, CodeOf(r, c, Outbound).value, Inbound) == Some(c)
    ensures CodeOf(r, CodeOf(r, c, Inbound).value, Outbound) == Some(c)
  {
    assert c in r.stat && c in r.scram;
    CodeRoundTrip(r, c);
    CodeRoundTripInbound(r, c);
    assert CodeOf(r, c, Outbound).value in r.scram;
    assert CodeOf(r, c, Inbound).value in r.stat;
  }

  /** The coding pass of one symbol, given each intermediate symbol. */
  lemma EncipherThrough(m: Machine, ref: seq<int>, c: int, a: int, b: int, x: int, y: int, e: int, f: int, d: int)
    requires CodeOf(m.r1, c, Outbound) == Some(a) && CodeOf(m.r2, a, Outbound) == Some(b)
    requires CodeOf(m.r3, b, Outbound) == Some(x) && Reflect(ref, x) == Some(y)
    requires CodeOf(m.r3, y, Inbound) == Some(e) && CodeOf(m.r2, e, Inbound) == Some(f)
    requires CodeOf(m.r1, f, Inbound) == Some(d)
    ensures Encipher(m, ref, c) == Some(d)
  {
  }

  /** With permutation wheels and a valid reflector the per-symbol map is a
      conjugate of the reflection: coding twice gives the symbol back, and
      no symbol codes to itself. */
  lemma EncipherReciprocal(m: Machine, ref: seq<int>, c: int)
    requires ValidMachine(m, ref) && c in ref
    ensures Encipher(m, ref, c).Some?
    ensures Encipher(m, ref, c).value in ref
    ensures Encipher(m, ref, c).value != c
    ensures Encipher(m, ref, Encipher(m, ref, c).value) == Some(c)
  {
    var A := multiset(ref);
    CodeWithin(m.r1, A, c);
    var a := CodeOf(m.r1, c, Outbound).value;
    CodeWithin(m.r2, A, a);
    var b := CodeOf(m.r2, a, Outbound).value;
    CodeWithin(m.r3, A, b);
    var x := CodeOf(m.r3, b, Outbound).value;
    ReflectInvolution(ref, x);
    var y := Reflect(ref, x).value;
    CodeWithin(m.r3, A, y);
    var e := CodeOf(m.r3, y, Inbound).value;
    CodeWithin(m.r2, A, e);
    var f := CodeOf(m.r2, e, Inbound).value;
    CodeWithin(m.r1, A, f);
    var d := CodeOf(m.r1, f, Inbound).value;
    EncipherThrough(m, ref, c, a, b, x, y, e, f, d);
    // Back through the machine: the outbound pass retraces the inbound one.
    EncipherThrough(m, ref, d, f, e, y, x, b, a, c);
    // d != c: were they equal, rotor 1 would send c out to both a and f, so
    // a == f, b == e and x == y, a fixed point of the reflection.
  }

  /** Stepping keeps every wheel a permutation of the alphabet and, on a
      non-empty alphabet, always succeeds. */
  lemma AdvanceKeepsValid(m: Machine, ref: seq<int>, notch1: int, notch2: int)
    requires ValidMachine(m, ref) && |ref| > 0
    ensures Advance(m, notch1, notch2).Some?
    ensures ValidMachine(Advance(m, notch1, notch2).value, ref)
  {
    var A := multiset(ref);
    assert |m.r1.scram| == |ref| && |m.r2.scram| == |ref| && |m.r3.scram| == |ref| by {
      assert |multiset(m.r1.scram)| == |m.r1.scram|;
    }
    StepPreservesDistinct(m.r1.scram, NoPos);
    StepPreservesDistinct(m.r2.scram, NoPos);
    StepPreservesDistinct(m.r3.scram, NoPos);
    var r := Advance(m, notch1, notch2).value;
    assert RotorOver(r.r1, A) && RotorOver(r.r2, A) && RotorOver(r.r3, A);
  }

  /** Running the machine on its own output, from the same starting rotors,
      gives back the original message: the same setup both enciphers and
      deciphers (lines 159-161). */
  lemma {:induction false} RunReciprocal(m: Machine, ref: seq<int>, notch1: int, notch2: int, msg: seq<int>)
    requires ValidMachine(m, ref)
    requires forall i :: 0 <= i < |msg| ==> msg[i] in ref
    ensures Run(m, ref, notch1, notch2, msg).Some?
    ensures ValidMachine(Run(m, ref, notch1, notch2, msg).value.machine, ref)
    ensures forall i :: 0 <= i < |Run(m, ref, notch1, notch2, msg).value.output| ==>
              Run(m, ref, notch1, notch2, msg).value.output[i] in ref
    ensures Run(m, ref, notch1, notch2, Run(m, ref, notch1, notch2, msg).value.output)
              == Some(Outcome(msg, Run(m, ref, notch1, notch2, msg).value.machine))
    decreases |msg|
  {
    if msg != [] {
      var init, c := msg[..|msg| - 1], msg[|msg| - 1];
      assert msg == init + [c];
      RunReciprocal(m, ref, notch1, notch2, init);
      var p := Run(m, ref, notch1, notch2, init).value;
      AdvanceKeepsValid(p.machine, ref, notch1, notch2);
      var next := Advance(p.machine, notch1, notch2).value;
      EncipherReciprocal(next, ref, c);
      var d := Encipher(next, ref, c).value;
      var out := p.output + [d];
      // Enciphering appends d ...
      TickThrough(p, ref, notch1, notch2, c, next, d);
      RunSnoc(m, ref, notch1, notch2, init, c);
      forall i | 0 <= i < |out| ensures out[i] in ref {
        if i < |p.output| {
          assert out[i] == p.output[i];
        }
      }
      // ... and deciphering, through the same steps, turns d back into c.
      TickThrough(Outcome(init, p.machine), ref, notch1, notch2, d, next, c);
      RunSnoc(m, ref, notch1, notch2, p.output, d);
    }
  }

  /** The rotors' values as a machine. */
  function MachineOf(rot1: Rotor, rot2: Rotor, rot3: Rotor): (m: Machine)
    reads rot1, rot2, rot3
  {
    Machine(rot1.State(), rot2.State(), rot3.State())
  }

  /** Lines 102-107 on the rotor objects: read rotor 2's front, maybe step
      rotor 3, read rotor 1's front, maybe step rotor 2, step rotor 1. On
      success the rotors hold what `Advance` computes; `false` stands for
      the IndexError of an empty wheel. */
  method StepRotors(rot1: Rotor, rot2: Rotor, rot3: Rotor, notch1: int, notch2: int) returns (ok: bool)
    requires rot1 != rot2 && rot1 != rot3 && rot2 != rot3
    modifies rot1, rot2, rot3
    ensures ok == Advance(old(MachineOf(rot1, rot2, rot3)), notch1, notch2).Some?
    ensures ok ==> MachineOf(rot1, rot2, rot3) == Advance(old(MachineOf(rot1, rot2, rot3)), notch1, notch2).value
  {
    if |rot2.scramwheel| == 0 {
      return false;
    }
    ok := true;
    if rot2.scramwheel[0] == notch2 {
      ok := rot3.Step(NoPos);
      if !ok {
        return;
      }
    }
    if |rot1.scramwheel| == 0 {
      return false;
    }
    if rot1.scramwheel[0] == notch1 {
      ok := rot2.Step(NoPos);
      if !ok {
        return;
      }
    }
    ok := rot1.Step(NoPos);
  }

  /** Lines 110-112 on the rotor objects: the coding pass of one symbol,
      which changes no rotor. */
  method EncipherSymbol(rot1: Rotor, rot2: Rotor, rot3: Rotor, ref: seq<int>, symbol: int) returns (d: Option<int>)
    ensures d == Encipher(MachineOf(rot1, rot2, rot3), ref, symbol)
  {
    d := None;
    var a := rot1.Code(symbol, Outbound);
    if a.None? { return; }
    var b := rot2.Code(a.value, Outbound);
    if b.None? { return; }
    var outChar := rot3.Code(b.value, Outbound);
    if outChar.None? { return; }
    var refChar := Reflect(ref, outChar.value);
    if refChar.None? { return; }
    var e := rot3.Code(refChar.value, Inbound);
    if e.None? { return; }
    var f := rot2.Code(e.value, Inbound);
    if f.None? { return; }
    d := rot1.Code(f.value, Inbound);
  }

  /** The pass over the first `i + 1` symbols is the pass over the first `i`
      followed by one more iteration. */
  lemma RunPrefix(m: Machine, ref: seq<int>, notch1: int, notch2: int, msg: seq<int>, i: nat)
    requires i < |msg|
    ensures Run(m, ref, notch1, notch2, msg[..i + 1]) ==
      match Run(m, ref, notch1, notch2, msg[..i])
      case None => None
      case Some(prev) => Tick(prev, ref, notch1, notch2, msg[i])
  {
    assert msg[..i + 1] == msg[..i] + [msg[i]];
    RunSnoc(m, ref, notch1, notch2, msg[..i], msg[i]);
  }

  /** `enigma(hidden, rot1, rot2, rot3, ref, notch1, notch2)`: steps and codes
      each symbol in turn, mutating the three rotors in place. On success it
      returns the pass's output and leaves the rotors as the pass does; on
      failure (the Python exception) it returns `None`. */
  method Enigma(hidden: seq<int>, rot1: Rotor, rot2: Rotor, rot3: Rotor, ref: seq<int>, notch1: int, notch2: int)
    returns (r: Option<seq<int>>)
    requires rot1 != rot2 && rot1 != rot3 && rot2 != rot3
    modifies rot1, rot2, rot3
    ensures var spec := Run(old(MachineOf(rot1, rot2, rot3)), ref, notch1, notch2, hidden);
      r.Some? == spec.Some? &&
      (r.Some? ==> r.value == spec.value.output && MachineOf(rot1, rot2, rot3) == spec.value.machine)
  {
    ghost var m0 := MachineOf(rot1, rot2, rot3);
    var newMsg := [];
    var i := 0;
    while i < |hidden|
      invariant 0 <= i <= |hidden|
      invariant Run(m0, ref, notch1, notch2, hidden[..i]) == Some(Outcome(newMsg, MachineOf(rot1, rot2, rot3)))
    {
      ghost var prev := Outcome(newMsg, MachineOf(rot1, rot2, rot3));
      RunPrefix(m0, ref, notch1, notch2, hidden, i);
      var ok := StepRotors(rot1, rot2, rot3, notch1, notch2);
      if !ok {
        RunFailureIsFinal(m0, ref, notch1, notch2, hidden, i + 1);
        return None;
      }
      var inChar := EncipherSymbol(rot1, rot2, rot3, ref, hidden[i]);
      if inChar.None? {
        RunFailureIsFinal(m0, ref, notch1, notch2, hidden, i + 1);
        return None;
      }
      TickThrough(prev, ref, notch1, notch2, hidden[i], MachineOf(rot1, rot2, rot3), inChar.value);
      newMsg := newMsg + [inChar.value];
      i := i + 1;
    }
    assert hidden[..i] == hidden;
    r := Some(newMsg);
  }
}
