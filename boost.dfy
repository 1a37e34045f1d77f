/** The expedite (boost) control of the head: `onExpediteStart` and
    `onExpediteEnd`. */
module Boost {

  /** The head's speed before any boost and after every release. */
  const BaseSpeed: int := 200

  /** What one press of the expedite button adds to the speed. */
  const BoostStep: int := 50

  datatype Throttle = Throttle(expediting: bool, speed: int)

  /** A press: the flag is set and the speed rises by one step, whatever the
      flag was before. */
  function ExpediteStart(t: Throttle): Throttle
  {
    Throttle(true, t.speed + BoostStep)
  }

  /** A release: speed back to the base value and flag cleared, but only when
      the flag is set. */
  function ExpediteEnd(t: Throttle): Throttle
  {
    if t.expediting then Throttle(false, BaseSpeed) else t
  }

  /** `k` presses in a row without a release. */
  function Presses(t: Throttle, k: nat): Throttle
    decreases k
  {
    if k == 0 then t else ExpediteStart(Presses(t, k - 1))
  }

  /** Presses compound: each one adds a step. */
  lemma {:induction false} PressesCompound(t: Throttle, k: nat)
    ensures Presses(t, k).speed == t.speed + BoostStep * k
    ensures Presses(t, k).expediting == (k > 0 || t.expediting)
    decreases k
  {
    if k > 0 {
      PressesCompound(t, k - 1);
    }
  }

  /** A release after any number of presses restores exactly the base speed. */
  lemma ReleaseRestores(t: Throttle, k: nat)
    requires k >= 1
    ensures ExpediteEnd(Presses(t, k)) == Throttle(false, BaseSpeed)
  {
  }

  /** A release without a pending press changes nothing, so releases are
      idempotent. */
  lemma ReleaseIdempotent(t: Throttle)
    ensures !t.expediting ==> ExpediteEnd(t) == t
    ensures ExpediteEnd(ExpediteEnd(t)) == ExpediteEnd(t)
    ensures !ExpediteEnd(t).expediting
  {
  }
}
