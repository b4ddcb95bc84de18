/** The pure layout rules of the deck: where a card's spring is sent, how a
    drag is read, which label is raised, how tall the container is, and which
    cards are shown in which order. */
module Layout {

  /** The side a card leaves by. */
  datatype Side = Left | Right

  /** Every restack in the component uses -30 for the depth step, whatever
      `translateZ` is configured to. */
  const StackZ: int := -30

  /** `jumpToCardIndex` uses 13 for the vertical step, whatever `shiftY` is. */
  const JumpShiftY: int := 13

  /** How far beyond the viewport's width a dismissed card is parked. */
  const Margin: int := 200

  /** Rotation, in degrees, of a card leaving to the left. */
  const LeaveRot: int := 70

  /** A spring update.  `Move` sets only `x` and `rot`; `Stack` sets `x` and
      `rot` to 0 and places the card at the given `y` and `z`. */
  datatype Target = Move(x: int, rot: int) | Stack(y: int, z: int)

  /** The full spring state of one card. */
  datatype Spring = Spring(x: int, y: int, z: int, rot: int)

  /** The spring state after an update has been applied to it. */
  function Apply(s: Spring, t: Target): (r: Spring)
    ensures t.Move? ==> r.x == t.x && r.rot == t.rot && r.y == s.y && r.z == s.z
    ensures t.Stack? ==> r.x == 0 && r.rot == 0 && r.y == t.y && r.z == t.z
  {
    match t
    case Move(x, rot) => s.(x := x, rot := rot)
    case Stack(y, z) => Spring(0, y, z, 0)
  }

  /** The restack target of a card at stack depth `depth`. */
  function StackAt(depth: nat, shiftY: int): Target {
    Stack(depth * shiftY, depth * StackZ)
  }

  /** `to`: the initial spring of card `i` (the animation delay is left out):
      unmoved and unrotated, `i` steps down the pile; with the default
      `translateZ` it is exactly where a restack puts a card at depth `i`. */
  function To(i: nat, shiftY: int, translateZ: int): (r: Spring)
    ensures r.x == 0 && r.rot == 0
    ensures r.y == i * shiftY && r.z == i * translateZ
    ensures translateZ == StackZ ==> Apply(r, StackAt(i, shiftY)) == r
  {
    Spring(0, i * shiftY, i * translateZ, 0)
  }

  /** `getX`: the horizontal position that parks a card off screen on the
      side given by `dir` (-1 left, 1 right). */
  function GetX(dir: int, viewportWidth: nat): (x: int)
    requires dir == -1 || dir == 1
    ensures x * dir == Margin + viewportWidth
    ensures x < 0 <==> dir < 0
  {
    (Margin + viewportWidth) * dir
  }

  function Dir(side: Side): int {
    if side == Left then -1 else 1
  }

  /** The target of a card dismissed to `side`: parked off screen, rotated
      70 degrees when leaving left and -70 degrees when leaving right. */
  function Fling(side: Side, viewportWidth: nat): (t: Target)
    ensures t.Move?
    ensures side == Left ==> t.x == -(Margin + viewportWidth) && t.rot == LeaveRot
    ensures side == Right ==> t.x == Margin + viewportWidth && t.rot == -LeaveRot
  {
    Move(GetX(Dir(side), viewportWidth), if side == Left then LeaveRot else -LeaveRot)
  }

  /** The side a drag points to: left for a negative movement, right otherwise. */
  function SideOf(mx: int): (side: Side)
    ensures mx != 0 ==> Dir(side) * mx > 0
    ensures mx == 0 ==> side == Right
  {
    if mx < 0 then Left else Right
  }

  function Abs(x: int): nat {
    if x < 0 then -x else x
  }

  /** The commit predicate of a released drag: far enough, and the last
      movement direction `xDir` agrees with the side of the movement. */
  predicate ReadyToLeave(mx: int, xDir: int, trashhold: int)
    ensures ReadyToLeave(mx, xDir, trashhold) ==> Abs(mx) >= trashhold
    ensures mx < 0 && xDir > 0 ==> !ReadyToLeave(mx, xDir, trashhold)
    ensures mx >= 0 && xDir < 0 ==> !ReadyToLeave(mx, xDir, trashhold)
    ensures Abs(mx) >= trashhold && mx < 0 && xDir <= 0 ==> ReadyToLeave(mx, xDir, trashhold)
    ensures Abs(mx) >= trashhold && mx >= 0 && xDir >= 0 ==> ReadyToLeave(mx, xDir, trashhold)
  {
    Abs(mx) >= trashhold && ((xDir <= 0 && SideOf(mx) == Left) || (xDir >= 0 && SideOf(mx) == Right))
  }

  /** The rotation of a held card, `-Math.floor(mx / 10)`: for a positive
      divisor Dafny's `/` rounds down, as `Math.floor` does. */
  function HeldRot(mx: int): (rot: int)
    ensures 10 * -rot <= mx < 10 * -rot + 10
  {
    -(mx / 10)
  }

  /** The target of the dragged card when no commit happens: it follows the
      pointer while held and snaps back when released. */
  function DragMove(down: bool, mx: int): (t: Target)
    ensures down ==> t == Move(mx, HeldRot(mx))
    ensures !down ==> t == Move(0, 0)
  {
    Move(if down then mx else 0, if down then HeldRot(mx) else 0)
  }

  /** The swipe label shown on the front card. */
  datatype Label = NoLabel | LeftLabel | RightLabel

  /** `changeLabel`: a label is raised while the card is held past the threshold. */
  function LabelFor(mx: int, down: bool, trashhold: int): (l: Label)
    ensures l != NoLabel <==> down && Abs(mx) >= trashhold
    ensures l == LeftLabel ==> mx < 0
    ensures l == RightLabel ==> mx >= 0
  {
    if down && Abs(mx) >= trashhold then (if mx < 0 then LeftLabel else RightLabel) else NoLabel
  }

  /** Height of the container: the tallest content plus room for the stack
      below it, one `shiftY` per stacked card up to `maxVisibleStack`, and no
      room at all for a single card. */
  function ContainerHeight(height: int, n: nat, maxVisibleStack: nat, shiftY: int): (r: int)
    ensures shiftY >= 0 ==> height <= r <= height + maxVisibleStack * shiftY
    ensures n <= 1 ==> r == height
    ensures 2 <= n <= maxVisibleStack ==> r == height + n * shiftY
    ensures 2 <= n && maxVisibleStack < n ==> r == height + maxVisibleStack * shiftY
  {
    height + (if n == 1 then 0 else if n <= maxVisibleStack then n * shiftY else maxVisibleStack * shiftY)
  }

  /** A card is hidden when it is in front of the current card or more than
      `maxVisibleStack` cards behind it: the current card is always shown. */
  predicate Hidden(i: nat, current: nat, maxVisibleStack: nat)
    ensures i == current ==> !Hidden(i, current, maxVisibleStack)
    ensures !Hidden(i, current, maxVisibleStack) ==> current <= i && i - current <= maxVisibleStack
    ensures current <= i <= current + maxVisibleStack ==> !Hidden(i, current, maxVisibleStack)
  {
    i > current + maxVisibleStack || i < current
  }

  /** The stacking order of card `i`: 0 for the current card and the cards in
      front of it, `-i` for the cards behind it. */
  function ZIndex(i: nat, current: nat): (z: int)
    ensures z <= 0
    ensures z == 0 <==> i <= current
  {
    if i == current then 0 else if i > current then -(i as int) else 0
  }

  /** The number of shown cards among the first `n`. */
  function CountShown(n: nat, current: nat, maxVisibleStack: nat): nat {
    if n == 0 then 0
    else CountShown(n - 1, current, maxVisibleStack) + (if Hidden(n - 1, current, maxVisibleStack) then 0 else 1)
  }

  /** `Math.max` of the measured content heights. */
  function MaxOf(heights: seq<nat>): (m: nat)
    requires |heights| > 0
    ensures m in heights
    ensures forall h :: h in heights ==> h <= m
  {
    if |heights| == 1 then heights[0]
    else
      var rest := MaxOf(heights[1..]);
      assert forall h :: h in heights ==> h == heights[0] || h in heights[1..];
      if heights[0] >= rest then heights[0] else rest
  }

  // ---------------------------------------------------------------------
  // Lemmas

  /** With the default threshold of 70, a release 80 to the left commits left
      when the last movement was leftward and cancels after a flick back. */
  lemma DefaultThresholdExample()
    ensures ReadyToLeave(-80, -1, 70) && SideOf(-80) == Left
    ensures !ReadyToLeave(-80, 1, 70)
    ensures !ReadyToLeave(-60, -1, 70)
  {
  }

  /** A raised label announces the side a release at the same point commits
      to, unless the direction then disagrees. */
  lemma LabelAnnouncesCommit(mx: int, xDir: int, trashhold: int)
    requires LabelFor(mx, true, trashhold) != NoLabel
    ensures LabelFor(mx, true, trashhold) == LeftLabel && xDir <= 0 ==> ReadyToLeave(mx, xDir, trashhold) && SideOf(mx) == Left
    ensures LabelFor(mx, true, trashhold) == RightLabel && xDir >= 0 ==> ReadyToLeave(mx, xDir, trashhold) && SideOf(mx) == Right
    ensures LabelFor(mx, false, trashhold) == NoLabel
  {
  }

  /** The shown cards are the current one and the `maxVisibleStack` cards
      behind it that exist: `min(n - current, maxVisibleStack + 1)` of them. */
  lemma {:induction false} ShownWindow(n: nat, current: nat, maxVisibleStack: nat)
    ensures CountShown(n, current, maxVisibleStack) ==
      if n <= current then 0
      else if n - current <= maxVisibleStack + 1 then n - current
      else maxVisibleStack + 1
  {
    if n > 0 {
      ShownWindow(n - 1, current, maxVisibleStack);
    }
  }

  /** The current card lies above every other shown card, and the cards
      behind it lie in deck order. */
  lemma FrontOnTop(current: nat, maxVisibleStack: nat, i: nat, j: nat)
    ensures !Hidden(i, current, maxVisibleStack) && i != current ==> ZIndex(i, current) < ZIndex(current, current)
    ensures current <= i < j ==> ZIndex(j, current) < ZIndex(i, current)
  {
  }
}
