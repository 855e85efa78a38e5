/** What the phases of PhasedSquare change, in the locations of TwoThread: a phase method leaves everything
  * alone that the operations of its phase may not write. */
module PhaseFrames {
  import opened Interleaving
  import opened GcdStream
  import PartialXgcd
  import opened PhasedSquare
  import TwoThread

  datatype Content = Numbers(s: seq<int>) | Published(e: Entry) | Local

  function Truth(b: bool): int { if b then 1 else 0 }

  function Slot(s: seq<int>, n: nat): Content { if n < |s| then Numbers([s[n]]) else Local }

  function PublishedAt(es: seq<Entry>, n: nat): Content { if n < |es| then Published(es[n]) else Local }

  /** What a location holds. Numbers that a phase keeps to itself are no fields of the state. */
  function Holds(s: SquareState, l: Loc): Content
    reads s
  {
    match l
    case ASlot(n) => Slot(s.aSlots, n)
    case BSlot(n) => Slot(s.bSlots, n)
    case AbIndex => Numbers([s.abIndex])
    case Higher => Numbers([Truth(s.higher)])
    case NumValid => Numbers([s.numValidIterations])
    case Gcd10 => Numbers([s.gcd10A, s.gcd10B])
    case Entry10(n) => PublishedAt(s.gcd10, n)
    case GcdST => Numbers([s.s, s.t])
    case EntryST(n) => PublishedAt(s.gcdST, n)
    case Validation => Numbers([Truth(s.corruption)])
    case C => Numbers([s.c])
    case KIndex => Numbers([s.k])
    case V01 => Numbers([s.v0, s.v1])
    case H => Numbers([s.h, s.v1h])
    case TTS => Numbers([s.ttS])
    case V02 => Numbers([s.v02])
    case A2 => Numbers([s.A2])
    case E => Numbers([s.e])
    case Cofactors | CV1 | BT | STV0 | V02H | F => Local
  }

  method Phase0Master(s: SquareState, t: TwoThread.Iter, plan: seq<nat>) returns (ok: bool)
    requires s.Ready()
    modifies s
    ensures forall l :: !TwoThread.MayWrite(TwoThread.M0, t, l) ==> Holds(s, l) == old(Holds(s, l))
  {
    ok := s.Phase0Master(plan);
  }

  method Phase0Slave(s: SquareState, t: TwoThread.Iter) returns (ok: bool)
    requires s.Slots() && s.a() != 0
    requires WellTerminated(s.gcd10) && Streams(s.gcd10, PartialXgcd.Start(s.Big(), s.Small()), s.steps10)
    modifies s
    ensures forall l :: !TwoThread.MayWrite(TwoThread.S0, t, l) ==> Holds(s, l) == old(Holds(s, l))
  {
    ok := s.Phase0Slave();
  }

  method Phase1Slave(s: SquareState, t: TwoThread.Iter, plan: seq<nat>) returns (ok: bool)
    requires s.Slots() && s.a() > s.L && 0 <= s.k < s.a()
    modifies s
    ensures forall l :: !TwoThread.MayWrite(TwoThread.S1, t, l) ==> Holds(s, l) == old(Holds(s, l))
  {
    ok := s.Phase1Slave(plan);
  }

  method Phase1Master(s: SquareState, t: TwoThread.Iter)
    requires s.Slots() && WellTerminated(s.gcdST) && Streams(s.gcdST, PartialXgcd.Start(s.a(), s.k), s.stepsST)
    modifies s
    ensures forall l :: !TwoThread.MayWrite(TwoThread.M1, t, l) ==> Holds(s, l) == old(Holds(s, l))
  {
    s.Phase1Master();
  }

  method Phase2Master(s: SquareState, t: TwoThread.Iter)
    requires s.Slots() && s.a() > 0
    modifies s
    ensures forall l :: !TwoThread.MayWrite(TwoThread.M2a, t, l) && !TwoThread.MayWrite(TwoThread.M2b, t, l)
              ==> Holds(s, l) == old(Holds(s, l))
  {
    s.Phase2Master();
  }

  method Phase2Slave(s: SquareState, t: TwoThread.Iter)
    modifies s
    ensures forall l :: !TwoThread.MayWrite(TwoThread.S2a, t, l) && !TwoThread.MayWrite(TwoThread.S2b, t, l)
              ==> Holds(s, l) == old(Holds(s, l))
  {
    s.Phase2Slave();
  }

  method Phase3Master(s: SquareState, t: TwoThread.Iter)
    requires s.Slots() && s.abIndex == t.Cur()
    modifies s
    ensures forall l :: !TwoThread.MayWrite(TwoThread.M3, t, l) ==> Holds(s, l) == old(Holds(s, l))
  {
    s.Phase3Master();
  }

  method Phase3Slave(s: SquareState, t: TwoThread.Iter)
    requires s.Slots()
    modifies s
    ensures forall l :: !TwoThread.MayWrite(TwoThread.S3, t, l) ==> Holds(s, l) == old(Holds(s, l))
  {
    s.Phase3Slave();
  }

  method Phase4Master(s: SquareState, t: TwoThread.Iter) returns (ok: bool)
    requires s.Slots() && s.abIndex == t.Cur()
    requires s.A2 == 2 * s.aSlots[1 - s.abIndex] && (s.gcd10A == 1 && s.gcd10B == 0 ==> s.A2 != 0)
    modifies s
    ensures forall l :: !TwoThread.MayWrite(TwoThread.M4a, t, l) && !TwoThread.MayWrite(TwoThread.M4b, t, l)
              ==> Holds(s, l) == old(Holds(s, l))
  {
    ok := s.Phase4Master();
  }
}
