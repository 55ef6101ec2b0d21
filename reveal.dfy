/** The scroll-driven visual rules: the staggered reveal of the project
    cards and the header's shadow. */
module Reveal {

  /** Delay, in milliseconds, after which the card at position `idx` is
      revealed. */
  const StaggerStep: nat := 120

  function StaggerDelay(idx: nat): (d: nat)
    ensures d % StaggerStep == 0 && d / StaggerStep == idx
  {
    idx * StaggerStep
  }

  /** Later cards are revealed strictly later, by at least one step per
      position. */
  lemma {:induction false} StaggerStrictlyIncreasing(i: nat, j: nat)
    requires i < j
    ensures StaggerDelay(i) + StaggerStep * (j - i) == StaggerDelay(j)
    ensures StaggerDelay(i) < StaggerDelay(j)
  {
  }

  /** The trigger's loop over the cards: one timer per card, in card order.
      The delays start at 0, grow by exactly one step from card to card, and
      so reveal the cards in increasing index order. */
  method ScheduleCardReveals(cardCount: nat) returns (delays: seq<nat>)
    ensures |delays| == cardCount
    ensures forall i :: 0 <= i < cardCount ==> delays[i] == StaggerDelay(i)
    ensures cardCount > 0 ==> delays[0] == 0
    ensures forall i :: 0 < i < cardCount ==> delays[i] == delays[i - 1] + StaggerStep
    ensures forall i, j :: 0 <= i < j < cardCount ==> delays[i] < delays[j]
  {
    delays := [];
    var idx := 0;
    while idx < cardCount
      invariant 0 <= idx <= cardCount && |delays| == idx
      invariant forall i :: 0 <= i < idx ==> delays[i] == StaggerDelay(i)
    {
      delays := delays + [StaggerDelay(idx)];
      idx := idx + 1;
    }
  }

  /** The header gets its shadow when the page is scrolled more than this
      many units. */
  const ShadowThreshold: int := 20

  const ShadowStyle: string := "0 8px 28px rgba(18,28,43,0.06)"

  /** The header's `box-shadow` after a scroll event: the shadow exactly
      when the page is scrolled past the threshold, `none` otherwise. */
  function HeaderShadow(scrollY: int): (style: string)
    ensures style == ShadowStyle || style == "none"
    ensures style == ShadowStyle <==> scrollY > ShadowThreshold
  {
    if scrollY > ShadowThreshold then ShadowStyle else "none"
  }

  /** Scrolling further down never removes the shadow, and the threshold
      itself is the last position without it. */
  lemma {:induction false} ShadowMonotone(y: int, z: int)
    requires y <= z && HeaderShadow(y) == ShadowStyle
    ensures HeaderShadow(z) == ShadowStyle
    ensures HeaderShadow(ShadowThreshold) == "none" && HeaderShadow(ShadowThreshold + 1) == ShadowStyle
  {
  }
}
