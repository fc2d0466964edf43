/**
 * What becomes of the events handed to publish, over every interleaving of single steps
 * (include/ShmRingBuffer.h): retries lose nothing and repeat nothing. All counts are of one event e.
 */
module PublishLedger {
  import opened Common
  import opened ShmRing
  import opened RingSteps

  /** The producer has taken the event over and neither claimed a slot for it nor given it back. */
  ghost function Held<T>(pc: Producer<T>, e: T): nat {
    if (pc.Trying? || pc.Loaded? || pc.Checked?) && pc.event == e then 1 else 0
  }

  ghost function InHand<T>(ps: seq<Producer<T>>, e: T): nat {
    if ps == [] then 0 else Held(ps[0], e) + InHand(ps[1..], e)
  }

  /** How often publish was called with the event. */
  ghost function Begun<T>(acts: seq<Action<T>>, e: T): nat {
    if acts == [] then 0 else (if acts[0].Begin? && acts[0].event == e then 1 else 0) + Begun(acts[1..], e)
  }

  /** The event is given back because the slot after the loaded index is the one to be read next. */
  ghost function RefusedAt<T>(s: State<T>, a: Action<T>, e: T): nat
    requires 0 < s.capacity && Enabled(s, a)
  {
    if a.CheckFull? && s.producers[a.p].event == e
       && (s.producers[a.p].index + 1) % UINT32_RANGE % s.capacity == s.readIndex then 1 else 0
  }

  ghost function Refused<T>(s: State<T>, acts: seq<Action<T>>, e: T): nat
    requires 0 < s.capacity == |s.slots| && Runs(s, acts, false, false)
    decreases |acts|
  {
    if acts == [] then 0 else RefusedAt(s, acts[0], e) + Refused(Step(s, acts[0]), acts[1..], e)
  }

  lemma {:induction false} InHandAfterMove<T>(ps: seq<Producer<T>>, p: nat, pc: Producer<T>, e: T)
    requires p < |ps|
    ensures InHand(ps[p := pc], e) + Held(ps[p], e) == InHand(ps, e) + Held(pc, e)
  {
    if p == 0 {
      assert ps[p := pc][1..] == ps[1..];
    } else {
      InHandAfterMove(ps[1..], p - 1, pc, e);
      assert ps[p := pc][1..] == ps[1..][p - 1 := pc];
    }
  }

  lemma OneMoreClaim<T>(claims: seq<T>, x: T, e: T)
    ensures multiset(claims + [x])[e] == multiset(claims)[e] + if x == e then 1 else 0
  {
  }

  lemma ClaimBalances<T>(s: State<T>, a: Action<T>, e: T)
    requires 0 < s.capacity == |s.slots| && Enabled(s, a) && a.Claim?
    ensures multiset(Step(s, a).claims)[e] + InHand(Step(s, a).producers, e) == multiset(s.claims)[e] + InHand(s.producers, e)
  {
    InHandAfterMove(s.producers, a.p, Step(s, a).producers[a.p], e);
    OneMoreClaim(s.claims, s.producers[a.p].event, e);
  }

  lemma StepBalances<T>(s: State<T>, a: Action<T>, e: T)
    requires 0 < s.capacity == |s.slots| && Enabled(s, a)
    ensures multiset(Step(s, a).claims)[e] + InHand(Step(s, a).producers, e) + RefusedAt(s, a, e)
         == multiset(s.claims)[e] + InHand(s.producers, e) + (if a.Begin? && a.event == e then 1 else 0)
  {
    if a.Claim? {
      ClaimBalances(s, a, e);
    } else if ByProducer(a) {
      assert Step(s, a).claims == s.claims;
      InHandAfterMove(s.producers, a.p, Step(s, a).producers[a.p], e);
    } else {
      assert Step(s, a).claims == s.claims && Step(s, a).producers == s.producers;
    }
  }

  /**
   * In every run, whatever the interleaving and however often swaps fail: the events claimed, in hand and
   * refused at the end are together exactly those claimed and in hand at the beginning and those publish
   * was called with, each as often.
   */
  lemma {:induction false} NothingLostOrRepeated<T>(s: State<T>, acts: seq<Action<T>>, e: T)
    requires 0 < s.capacity == |s.slots| && Runs(s, acts, false, false)
    ensures multiset(Run(s, acts).claims)[e] + InHand(Run(s, acts).producers, e) + Refused(s, acts, e)
         == multiset(s.claims)[e] + InHand(s.producers, e) + Begun(acts, e)
    decreases |acts|
  {
    if acts == [] {
    } else {
      StepBalances(s, acts[0], e);
      NothingLostOrRepeated(Step(s, acts[0]), acts[1..], e);
    }
  }
}
