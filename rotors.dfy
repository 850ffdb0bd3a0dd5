/** One rotor of the machine (class `Rotor`, unlv_challenge.py lines 32-71):
    a static wheel and a scrambled wheel of symbols, a two-way lookup
    between them, and a step that rotates the scrambled wheel. */
module Rotors {
  import opened Wrappers
  import opened PyLists

  /** The direction a symbol travels through a rotor. */
  datatype Mode = Outbound | Inbound

  /** The value of a rotor: its two wheels. */
  datatype RotorState = RotorState(stat: seq<int>, scram: seq<int>)

  /** The default argument of `step` and of the constructor's `start`:
      "no target symbol". */
  const NoPos: int := -1

  /** The wheel `code` searches in each direction. */
  function Source(r: RotorState, mode: Mode): (w: seq<int>) {
    if mode == Outbound then r.stat else r.scram
  }

  /** The wheel `code` reads the answer from in each direction. */
  function Target(r: RotorState, mode: Mode): (w: seq<int>) {
    if mode == Outbound then r.scram else r.stat
  }

  /** `code(char, mode)`: find `c` in one wheel and read the other wheel at
      that position. It fails (ValueError) when `c` is absent and
      (IndexError) when the other wheel is too short. */
  function CodeOf(r: RotorState, c: int, mode: Mode): (d: Option<int>)
    ensures d.Some? <==> c in Source(r, mode) && IndexOf(Source(r, mode), c) < |Target(r, mode)|
    ensures d.Some? ==> d.value in Target(r, mode)
  {
    match Find(Source(r, mode), c)
    case None => None
    case Some(i) => if i < |Target(r, mode)| then Some(Target(r, mode)[i]) else None
  }

  /** `step(pos)`: rotate the wheel left so that the first occurrence of the
      target comes first. The target is `pos`, or with the default argument
      the wheel's last element. Fails on an absent `pos` (ValueError) and,
      with the default argument, on an empty wheel (IndexError). */
  function StepOf(w: seq<int>, pos: int): (r: Option<seq<int>>)
    ensures r.Some? <==> if pos == NoPos then |w| > 0 else pos in w
    ensures r.Some? ==> |r.value| == |w| && multiset(r.value) == multiset(w)
    ensures r.Some? ==> r.value[0] == if pos == NoPos then w[|w| - 1] else pos
  {
    if pos == NoPos then
      if |w| == 0 then None else Some(RotateLeft(w, IndexOf(w, w[|w| - 1])))
    else
      match Find(w, pos)
      case None => None
      case Some(k) => Some(RotateLeft(w, k))
  }

  /** The scrambled wheel a new rotor starts with. */
  function InitialWheel(scrambled: seq<int>, start: int): (w: seq<int>)
    requires start == NoPos || start in scrambled
  {
    if start == NoPos then scrambled else StepOf(scrambled, start).value
  }

  /** Code outbound then inbound gives the symbol back, when the wheels have
      equal length and the scrambled wheel has no duplicates. */
  lemma CodeRoundTrip(r: RotorState, c: int)
    requires c in r.stat && |r.stat| == |r.scram| && Distinct(r.scram)
    ensures CodeOf(r, c, Outbound).Some?
    ensures CodeOf(r, CodeOf(r, c, Outbound).value, Inbound) == Some(c)
  {
    var i := IndexOf(r.stat, c);
    IndexOfDistinct(r.scram, i);
  }

  /** Code inbound then outbound gives the symbol back, when the wheels have
      equal length and the static wheel has no duplicates. */
  lemma CodeRoundTripInbound(r: RotorState, d: int)
    requires d in r.scram && |r.stat| == |r.scram| && Distinct(r.stat)
    ensures CodeOf(r, d, Inbound).Some?
    ensures CodeOf(r, CodeOf(r, d, Inbound).value, Outbound) == Some(d)
  {
    var i := IndexOf(r.scram, d);
    IndexOfDistinct(r.stat, i);
  }

  /** On a duplicate-free wheel the default step moves the last element to
      the front and shifts every other element one place right. */
  lemma StepDefaultRotatesByOne(w: seq<int>)
    requires |w| > 0 && Distinct(w)
    ensures StepOf(w, NoPos) == Some([w[|w| - 1]] + w[..|w| - 1])
  {
    IndexOfDistinct(w, |w| - 1);
    assert RotateLeft(w, |w| - 1) == [w[|w| - 1]] + w[..|w| - 1];
  }

  /** Stepping to a present target rotates left by the target's first
      position and keeps a duplicate-free wheel duplicate-free. */
  lemma StepToTarget(w: seq<int>, pos: int)
    requires pos != NoPos && pos in w
    ensures StepOf(w, pos) == Some(RotateLeft(w, IndexOf(w, pos)))
    ensures Distinct(w) ==> Distinct(StepOf(w, pos).value)
  {
    if Distinct(w) {
      RotatePreservesDistinct(w, IndexOf(w, pos));
    }
  }

  /** Any successful step keeps a duplicate-free wheel duplicate-free. */
  lemma StepPreservesDistinct(w: seq<int>, pos: int)
    requires Distinct(w) && StepOf(w, pos).Some?
    ensures Distinct(StepOf(w, pos).value)
  {
    if pos == NoPos {
      RotatePreservesDistinct(w, IndexOf(w, w[|w| - 1]));
    } else {
      RotatePreservesDistinct(w, IndexOf(w, pos));
    }
  }

  /** A rotor object: both wheels are owned sequence values, so a rotor never
      shares a mutable list with its caller or with another rotor. */
  class Rotor {
    var statwheel: seq<int>
    var scramwheel: seq<int>

    /** The abstract value of this rotor. */
    function State(): (s: RotorState)
      reads this
    {
      RotorState(statwheel, scramwheel)
    }

    /** `__init__(stat, scrambled, start)`: store both wheels, then step
        to `start` unless it is the default. */
    constructor (stat: seq<int>, scrambled: seq<int>, start: int)
      requires start == NoPos || start in scrambled
      ensures statwheel == stat
      ensures scramwheel == InitialWheel(scrambled, start)
      ensures start != NoPos ==> scramwheel[0] == start
    {
      new;
      SetStat(stat);
      SetScram(scrambled);
      if start != NoPos {
        var ok := Step(start);
      }
    }

    /** `setStat`: replace the static wheel. */
    method SetStat(stat: seq<int>)
      modifies this`statwheel
      ensures statwheel == stat
    {
      statwheel := stat;
    }

    /** `setScram`: replace the scrambled wheel. */
    method SetScram(scrambled: seq<int>)
      modifies this`scramwheel
      ensures scramwheel == scrambled
    {
      scramwheel := scrambled;
    }

    /** `code`: a lookup that changes neither wheel. */
    method Code(c: int, mode: Mode) returns (d: Option<int>)
      ensures d == CodeOf(State(), c, mode)
    {
      var from, to := statwheel, scramwheel;
      if mode == Inbound {
        from, to := scramwheel, statwheel;
      }
      var index := Find(from, c);
      if index.Some? && index.value < |to| {
        d := Some(to[index.value]);
      } else {
        d := None;
      }
    }

    /** `step`: on success the scrambled wheel is the stepped one; on failure
        the exception leaves it as it was. The static wheel never changes. */
    method Step(pos: int) returns (ok: bool)
      modifies this`scramwheel
      ensures ok <==> StepOf(old(scramwheel), pos).Some?
      ensures scramwheel == if ok then StepOf(old(scramwheel), pos).value else old(scramwheel)
    {
      var temp: nat;
      if pos == NoPos {
        if |scramwheel| == 0 {
          return false;
        }
        temp := IndexOf(scramwheel, scramwheel[|scramwheel| - 1]);
      } else {
        var found := Find(scramwheel, pos);
        if found.None? {
          return false;
        }
        temp := found.value;
      }
      scramwheel := scramwheel[temp..] + scramwheel[..temp];
      ok := true;
    }
  }

  /** Two rotors built from the same lists are independent: stepping one
      leaves the other, and the caller's list, as they were. */
  method SeparateRotors(stat: seq<int>, scrambled: seq<int>) returns (stepped: seq<int>, other: seq<int>)
    requires |scrambled| > 0
    ensures other == scrambled
    ensures stepped == StepOf(scrambled, NoPos).value && stepped[0] == scrambled[|scrambled| - 1]
  {
    var first := new Rotor(stat, scrambled, NoPos);
    var second := new Rotor(stat, scrambled, NoPos);
    var ok := first.Step(NoPos);
    stepped, other := first.scramwheel, second.scramwheel;
  }
}
