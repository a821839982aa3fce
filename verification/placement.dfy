/**
 * `useDropdownPosition` (hook/useDropdownPosition.ts): when the menu opens, the
 * panel goes below the trigger if there is room for the full height or at least
 * as much room as above, otherwise above; its maximum height is the room on the
 * chosen side less a margin, clamped into [200, 600]. Pixels are integers here.
 */
module Placement {
  import opened Options

  const MinHeight: int := 200
  const MaxHeightLimit: int := 600
  const Padding: int := 20
  const InitialHeight: int := 300

  datatype Side = Bottom | Top

  datatype Position = Position(side: Side, maxHeight: int)

  /** The viewport height and the trigger's bounding box (`top`, `bottom`). */
  datatype Geometry = Geometry(viewportHeight: int, triggerTop: int, triggerBottom: int)

  function SpaceBelow(g: Geometry): int {
    g.viewportHeight - g.triggerBottom
  }

  function SpaceAbove(g: Geometry): int {
    g.triggerTop
  }

  /** The state before the first measurement: below, 300 pixels. */
  const Initial: Position := Position(Bottom, InitialHeight)

  /** `Math.min(600, Math.max(200, space - 20))`. */
  function HeightFor(space: int): (h: int)
    ensures MinHeight <= h <= MaxHeightLimit
    ensures MinHeight <= space - Padding <= MaxHeightLimit ==> h == space - Padding
    ensures space - Padding < MinHeight ==> h == MinHeight
    ensures space - Padding > MaxHeightLimit ==> h == MaxHeightLimit
  {
    var wanted := space - Padding;
    var atLeast := if wanted < MinHeight then MinHeight else wanted;
    if atLeast < MaxHeightLimit then atLeast else MaxHeightLimit
  }

  /** The side the menu opens on and the room it gets there. */
  function Compute(g: Geometry): (p: Position)
    ensures p.side == Bottom <==> SpaceBelow(g) >= MaxHeightLimit || SpaceBelow(g) >= SpaceAbove(g)
    ensures p.side == Top ==> SpaceAbove(g) > SpaceBelow(g)
    ensures MinHeight <= p.maxHeight <= MaxHeightLimit
    ensures p.maxHeight == HeightFor(if p.side == Bottom then SpaceBelow(g) else SpaceAbove(g))
    ensures var room := if p.side == Bottom then SpaceBelow(g) else SpaceAbove(g);
      room - Padding >= MinHeight ==> p.maxHeight <= room - Padding
  {
    var below := SpaceBelow(g);
    var above := SpaceAbove(g);
    if below >= MaxHeightLimit || below >= above then Position(Bottom, HeightFor(below))
    else Position(Top, HeightFor(above))
  }

  /**
   * The layout effect after a render: it measures only when the menu is open
   * and the container is mounted (`geometry` is the measurement, if any);
   * otherwise the last position is kept.
   */
  function OnRender(pos: Position, isOpen: bool, geometry: Option<Geometry>): (p: Position)
    ensures !isOpen || geometry.None? ==> p == pos
    ensures isOpen && geometry.Some? ==> p == Compute(geometry.value)
  {
    if isOpen && geometry.Some? then Compute(geometry.value) else pos
  }

  /** One render in which `isOpen` changed, with the measurement taken then. */
  datatype Render = Render(isOpen: bool, geometry: Option<Geometry>)

  function Run(pos: Position, renders: seq<Render>): Position
    decreases |renders|
  {
    if |renders| == 0 then pos
    else Run(OnRender(pos, renders[0].isOpen, renders[0].geometry), renders[1..])
  }

  predicate InRange(p: Position) {
    MinHeight <= p.maxHeight <= MaxHeightLimit
  }

  /** Once within [200, 600], the maximum height stays there whatever renders follow. */
  lemma {:induction false} HeightAlwaysInRange(pos: Position, renders: seq<Render>)
    requires InRange(pos)
    ensures InRange(Run(pos, renders))
    decreases |renders|
  {
    if |renders| > 0 {
      HeightAlwaysInRange(OnRender(pos, renders[0].isOpen, renders[0].geometry), renders[1..]);
    }
  }

  /** Starting below at 300 pixels, every later maximum height lies in [200, 600]. */
  lemma FromInitialInRange(renders: seq<Render>)
    ensures InRange(Run(Initial, renders))
  {
    HeightAlwaysInRange(Initial, renders);
  }

  /** While the menu never opens, nothing is measured and the initial position stays. */
  lemma {:induction false} ClosedKeepsPosition(pos: Position, renders: seq<Render>)
    requires forall k | 0 <= k < |renders| :: !renders[k].isOpen
    ensures Run(pos, renders) == pos
    decreases |renders|
  {
    if |renders| > 0 {
      ClosedKeepsPosition(pos, renders[1..]);
    }
  }
}
