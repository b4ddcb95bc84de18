/** The deck component's state machine: the item list, the ordered set of
    dismissed indices, the current index, the "a card was swiped" flag, the
    swipe label and the measured content height, with the operations of its
    imperative handle, the drag handler and the item-list reset.

    Every `setSprings(i => ...)` call is a pass over all card indices that
    yields an optional spring update per card; the operations return those
    updates as a sequence indexed by card (`None` where the spring is left
    alone) instead of handing them to an animation library. */
module DeckState {
  import opened Wrappers
  import opened Indexes
  import opened Layout

  /** The `{ item, index }` object returned by the swipe operations; `NoCard`
      is the empty object `{}`. */
  datatype Card<T> = NoCard | Card(item: Option<T>, index: nat)

  /** Calls of the caller's drag callbacks, in the order they happen. */
  datatype Event<T> =
    | SwipeStart(side: Side)
    | Dismissed(side: Side, item: T, index: nat)
    | SwipeEnd(side: Side)

  /** `deck[i]`: the item, or `undefined` past the end. */
  function ItemAt<T>(deck: seq<T>, i: nat): Option<T> {
    if i < |deck| then Some(deck[i]) else None
  }

  /** The index a programmatic swipe acts on: the given one when it is not
      negative, else the current index. */
  function SwipeIndex(index: Option<int>, current: nat): (t: nat)
    ensures index.Some? && index.value >= 0 ==> t == index.value
    ensures index.None? || index.value < 0 ==> t == current
  {
    if index.Some? && index.value >= 0 then index.value else current
  }

  /** Number of undismissed cards in front of card `i`: its stack depth. */
  function Depth(i: nat, gone: seq<nat>): nat {
    |Ungone(i, gone)|
  }

  /** The restack update of card `i`: none for a dismissed card, else its
      place at the depth it has among the cards not in `depthGone`. */
  function RestackTarget(i: nat, gone: seq<nat>, depthGone: seq<nat>, shiftY: int): Option<Target> {
    if i in gone then None else Some(StackAt(Depth(i, depthGone), shiftY))
  }

  /** The update `jumpToCardIndex(k)` gives card `i`: a card before `k` that
      was not yet gone is parked to the left, every card from `k` on is
      stacked at depth `i - k`. */
  function JumpTarget(i: nat, k: nat, gone: seq<nat>, viewportWidth: nat): Option<Target> {
    if i < k then (if i in gone then None else Some(Fling(Left, viewportWidth)))
    else Some(StackAt(i - k, JumpShiftY))
  }

  /** The restack callback for card `i`, given the ungone list computed from
      `depthGone`. */
  method RestackSpring(i: nat, ungone: seq<nat>, gone: seq<nat>, depthGone: seq<nat>, shiftY: int, ghost n: nat)
    returns (target: Option<Target>)
    requires forall x {:trigger x in depthGone} :: x in depthGone ==> x in gone
    requires i < n && ungone == Ungone(n, depthGone)
    ensures target == RestackTarget(i, gone, depthGone, shiftY)
  {
    target := None;
    if i !in gone {
      assert i !in depthGone;
      DepthInUngone(n, depthGone, i);
      var depth := IndexOf(ungone, i);
      target := Some(Stack(depth * shiftY, depth * StackZ));
    }
  }

  /** The restack pass of the swipe, swipe-back and drag-commit paths: every
      card not in `gone` goes to `x = 0`, `rot = 0` at its position in the
      ungone list computed from `depthGone` (which the drag commit takes
      from before the dismissed card was added). */
  method Restack(n: nat, depthGone: seq<nat>, gone: seq<nat>, shiftY: int) returns (targets: seq<Option<Target>>)
    requires forall x {:trigger x in depthGone} :: x in depthGone ==> x in gone
    ensures |targets| == n
    ensures forall i :: 0 <= i < n ==> targets[i] == RestackTarget(i, gone, depthGone, shiftY)
  {
    var ungone := Ungone(n, depthGone);
    targets := [];
    var i := 0;
    while i < n
      invariant 0 <= i <= n
      invariant |targets| == i
      invariant forall j :: 0 <= j < i ==> targets[j] == RestackTarget(j, gone, depthGone, shiftY)
    {
      var target := RestackSpring(i, ungone, gone, depthGone, shiftY, n);
      targets := targets + [target];
      i := i + 1;
    }
  }

  class Deck<T> {
    var deck: seq<T>
    var gone: seq<nat>
    var currentIndex: nat
    var isCardSwiped: bool
    var swipeLabel: Label
    var height: nat
    const shiftY: int
    const translateZ: int
    const trashhold: int
    const maxVisibleStack: nat

    /** `gone` behaves as a `Set`. */
    predicate Valid()
      reads this
    {
      NoDups(gone)
    }

    /** The initial springs, placed by `to`. */
    function InitialSprings(): (springs: seq<Spring>)
      reads this
      ensures |springs| == |deck|
      ensures forall i :: 0 <= i < |deck| ==>
        && springs[i].x == 0 && springs[i].rot == 0
        && springs[i].y == i * shiftY && springs[i].z == i * translateZ
    {
      seq(|deck|, (i: int) requires 0 <= i => To(i, shiftY, translateZ))
    }

    /** The height of the container around the deck. */
    function ContainerHeightNow(): (h: int)
      reads this
      ensures shiftY >= 0 ==> height <= h <= height + maxVisibleStack * shiftY
      ensures |deck| <= 1 ==> h == height
      ensures 2 <= |deck| <= maxVisibleStack ==> h == height + |deck| * shiftY
      ensures 2 <= |deck| && maxVisibleStack < |deck| ==> h == height + maxVisibleStack * shiftY
    {
      ContainerHeight(height, |deck|, maxVisibleStack, shiftY)
    }

    constructor (items: seq<T>, shiftY: int, translateZ: int, trashhold: int, maxVisibleStack: nat)
      ensures Valid()
      ensures deck == items && gone == [] && currentIndex == 0 && !isCardSwiped
      ensures swipeLabel == NoLabel && height == 0
      ensures this.shiftY == shiftY && this.translateZ == translateZ
      ensures this.trashhold == trashhold && this.maxVisibleStack == maxVisibleStack
    {
      deck := items;
      gone := [];
      currentIndex := 0;
      isCardSwiped := false;
      swipeLabel := NoLabel;
      height := 0;
      this.shiftY := shiftY;
      this.translateZ := translateZ;
      this.trashhold := trashhold;
      this.maxVisibleStack := maxVisibleStack;
    }

    /** The reset run when the item list is replaced by a different one. */
    method Replace(items: seq<T>)
      modifies this
      ensures Valid()
      ensures deck == items && gone == [] && currentIndex == 0 && !isCardSwiped && height == 0
      ensures swipeLabel == old(swipeLabel)
    {
      gone := [];
      height := 0;
      deck := items;
      currentIndex := 0;
      isCardSwiped := false;
    }

    /** `updateCard(k, cb)`: the item at `k` is replaced by what `cb` returns
        for it, unless `k` is not a card or `cb` returns nothing. */
    method UpdateCard(k: int, cb: T -> Option<T>)
      modifies this
      ensures |deck| == |old(deck)|
      ensures 0 <= k < |deck| && cb(old(deck)[k]).Some? ==> deck == old(deck)[k := cb(old(deck)[k]).value]
      ensures !(0 <= k < |deck| && cb(old(deck)[k]).Some?) ==> deck == old(deck)
      ensures gone == old(gone) && currentIndex == old(currentIndex) && isCardSwiped == old(isCardSwiped)
      ensures swipeLabel == old(swipeLabel) && height == old(height)
    {
      if 0 <= k < |deck| {
        var updated := cb(deck[k]);
        if updated.Some? {
          deck := deck[k := updated.value];
        }
      }
    }

    /** `swipeLeft(index)` and `swipeRight(index)`: the card at `index`, or at
        the current index when none is given, is dismissed to `side`.  No range
        check is made: an index past the end is added to `gone` all the same
        and is returned with no item. */
    method Swipe(side: Side, index: Option<int>, viewportWidth: nat) returns (card: Card<T>, targets: seq<Option<Target>>)
      requires Valid()
      modifies this
      ensures Valid()
      ensures var t := SwipeIndex(index, old(currentIndex));
        && gone == Add(old(gone), t)
        && currentIndex == (if t == old(currentIndex) then old(currentIndex) + 1 else old(currentIndex))
        && card == Card(ItemAt(deck, t), t)
        && |targets| == |deck|
        && (t < |deck| ==> targets[t] == Some(Fling(side, viewportWidth)))
        && (forall i :: 0 <= i < |deck| && i != t ==> targets[i] == RestackTarget(i, gone, gone, shiftY))
      ensures isCardSwiped
      ensures deck == old(deck) && swipeLabel == old(swipeLabel) && height == old(height)
    {
      var t := SwipeIndex(index, currentIndex);
      gone := Add(gone, t);
      targets := Restack(|deck|, gone, gone, shiftY);
      if t < |deck| {
        targets := targets[t := Some(Fling(side, viewportWidth))];
      }
      if t == currentIndex {
        currentIndex := currentIndex + 1;
      }
      isCardSwiped := true;
      card := Card(ItemAt(deck, t), t);
    }

    /** `swipeBack()`: the most recently dismissed card comes back, provided it
        is a card of the deck; otherwise `{}` is returned and nothing changes. */
    method SwipeBack() returns (card: Card<T>, targets: seq<Option<Target>>)
      requires Valid()
      modifies this
      ensures Valid()
      ensures deck == old(deck) && swipeLabel == old(swipeLabel) && height == old(height)
      ensures var g := old(gone);
        if |g| > 0 && g[|g| - 1] < |deck| then
          && gone == g[..|g| - 1]
          && currentIndex == (if old(currentIndex) == 0 then 0 else old(currentIndex) - 1)
          && isCardSwiped == (|gone| > 0 && old(isCardSwiped))
          && card == Card(Some(deck[g[|g| - 1]]), g[|g| - 1])
          && |targets| == |deck|
          && (forall i :: 0 <= i < |deck| ==> targets[i] == RestackTarget(i, gone, gone, shiftY))
        else
          && gone == g && currentIndex == old(currentIndex) && isCardSwiped == old(isCardSwiped)
          && card == NoCard && targets == []
    {
      if |gone| > 0 && gone[|gone| - 1] < |deck| {
        var index := gone[|gone| - 1];
        DeleteNewest(gone);
        DropNoDups(gone, index, index + 1);
        gone := Delete(gone, index);
        targets := Restack(|deck|, gone, gone, shiftY);
        currentIndex := if currentIndex == 0 then currentIndex else currentIndex - 1;
        if |gone| == 0 {
          isCardSwiped := false;
        }
        card := Card(Some(deck[index]), index);
      } else {
        card := NoCard;
        targets := [];
      }
    }

    /** `jumpToCardIndex(k)`: every card before `k` is dismissed, every card
        from `k` on is brought back and stacked from depth 0, and `k` becomes
        the current index.  An index that is not a card changes nothing. */
    method JumpToCardIndex(k: int, viewportWidth: nat) returns (targets: seq<Option<Target>>)
      requires Valid()
      modifies this
      ensures Valid()
      ensures deck == old(deck) && isCardSwiped == old(isCardSwiped)
      ensures swipeLabel == old(swipeLabel) && height == old(height)
      ensures 0 <= k < |deck| ==>
        && gone == JumpGone(old(gone), k, |deck|)
        && currentIndex == k
        && |targets| == |deck|
        && (forall i :: 0 <= i < |deck| ==> targets[i] == JumpTarget(i, k, old(gone), viewportWidth))
      ensures !(0 <= k < |deck|) ==> gone == old(gone) && currentIndex == old(currentIndex) && targets == []
    {
      targets := [];
      if 0 <= k < |deck| {
        var n := |deck|;
        var ungone := NextCardsIndexes(n, k);
        ghost var g := gone;
        assert JumpGoneAfter(g, k, 0) == g by {
          DropNone(g, k, 0);
        }
        var i := 0;
        while i < n
          invariant 0 <= i <= n
          invariant deck == old(deck) && isCardSwiped == old(isCardSwiped) && currentIndex == old(currentIndex)
          invariant swipeLabel == old(swipeLabel) && height == old(height) && g == old(gone)
          invariant gone == JumpGoneAfter(g, k, i)
          invariant |targets| == i
          invariant forall j :: 0 <= j < i ==> targets[j] == JumpTarget(j, k, g, viewportWidth)
        {
          var target := JumpSpring(i, k, ungone, viewportWidth, g);
          targets := targets + [target];
          i := i + 1;
        }
        assert gone == JumpGone(g, k, n);
        currentIndex := k;
      }
    }

    /** The `setSprings` callback of `jumpToCardIndex(k)` for card `i`: a card
        before `k` is parked, a card from `k` on is stacked. */
    method JumpSpring(i: nat, k: nat, ungone: seq<nat>, viewportWidth: nat, ghost g: seq<nat>) returns (target: Option<Target>)
      requires k < |deck| && i < |deck| && ungone == NextCardsIndexes(|deck|, k)
      requires gone == JumpGoneAfter(g, k, i)
      modifies this`gone
      ensures gone == JumpGoneAfter(g, k, i + 1)
      ensures target == JumpTarget(i, k, g, viewportWidth)
    {
      if i < k {
        target := JumpPark(i, k, viewportWidth, g);
      } else {
        target := JumpStack(i, k, ungone, g);
      }
    }

    /** A card before `k` is added to `gone` and flung to the left unless it
        is gone already, in which case its spring is left alone. */
    method JumpPark(i: nat, k: nat, viewportWidth: nat, ghost g: seq<nat>) returns (target: Option<Target>)
      requires i < k && gone == JumpGoneAfter(g, k, i)
      modifies this`gone
      ensures gone == JumpGoneAfter(g, k, i + 1)
      ensures target == JumpTarget(i, k, g, viewportWidth)
    {
      ghost var next := JumpGoneAfter(g, k, i + 1);
      assert (i in gone <==> i in g) && (i !in gone ==> gone + [i] == next) && (i in gone ==> gone == next) by {
        JumpAddStep(g, k, i);
      }
      if i in gone {
        target := None;
      } else {
        gone := gone + [i];
        target := Some(Move(GetX(-1, viewportWidth), LeaveRot));
      }
    }

    /** A card from `k` on is deleted from `gone` and stacked at its position
        in `ungone`, the cards from `k` on. */
    method JumpStack(i: nat, k: nat, ungone: seq<nat>, ghost g: seq<nat>) returns (target: Option<Target>)
      requires k <= i && ungone == NextCardsIndexes(|deck|, k) && i < |deck|
      requires gone == JumpGoneAfter(g, k, i)
      modifies this`gone
      ensures gone == JumpGoneAfter(g, k, i + 1)
      ensures target == Some(StackAt(i - k, JumpShiftY))
    {
      var depth := IndexOf(ungone, i);
      assert depth == i - k by {
        NextCardsDepth(|deck|, k, i);
      }
      JumpDeleteStep(g, k, i);
      if i in gone {
        gone := Delete(gone, i);
      }
      target := Some(Stack(depth * JumpShiftY, depth * StackZ));
    }

    /** One sample of the drag handler for card `i`: movement `mx`, last
        direction `xDir`, pointer `down` or released.  A release past the
        threshold in an agreeing direction dismisses the card; any other
        sample moves it with the pointer or snaps it back. */
    method Drag(i: nat, down: bool, mx: int, xDir: int, viewportWidth: nat) returns (targets: seq<Option<Target>>, events: seq<Event<T>>)
      requires Valid() && i < |deck|
      modifies this
      ensures Valid()
      ensures deck == old(deck) && height == old(height)
      ensures swipeLabel == LabelFor(mx, down, trashhold)
      ensures |targets| == |deck|
      ensures var side := SideOf(mx);
        if !down && ReadyToLeave(mx, xDir, trashhold) then
          && gone == Add(old(gone), i)
          && currentIndex == i + 1
          && isCardSwiped
          && targets[i] == Some(Fling(side, viewportWidth))
          && (forall j :: 0 <= j < |deck| && j != i ==> targets[j] == RestackTarget(j, gone, old(gone), shiftY))
          && events == [SwipeStart(side), Dismissed(side, deck[i], i), SwipeEnd(side)]
        else
          && gone == old(gone) && currentIndex == old(currentIndex) && isCardSwiped == old(isCardSwiped)
          && targets[i] == Some(DragMove(down, mx))
          && (forall j :: 0 <= j < |deck| && j != i ==> targets[j] == None)
          && events == [SwipeStart(side), SwipeEnd(side)]
    {
      var side := SideOf(mx);
      events := [SwipeStart(side)];
      var ready := ReadyToLeave(mx, xDir, trashhold);
      swipeLabel := LabelFor(mx, down, trashhold);
      if !down && ready {
        var before := gone;
        gone := Add(gone, i);
        targets := Restack(|deck|, before, gone, shiftY);
        targets := targets[i := Some(Fling(side, viewportWidth))];
        currentIndex := i + 1;
        isCardSwiped := true;
        swipeLabel := NoLabel;
        events := events + [Dismissed(side, deck[i], i)];
      } else {
        targets := seq(|deck|, j => if j == i then Some(DragMove(down, mx)) else None);
      }
      events := events + [SwipeEnd(side)];
    }

    /** The height rule: the container takes the tallest measured content
        height, and reports a change only when that differs from the last. */
    method CalcMax(contentHeights: seq<nat>) returns (changed: bool)
      requires |contentHeights| > 0
      modifies this
      ensures height == MaxOf(contentHeights)
      ensures changed <==> old(height) != height
      ensures deck == old(deck) && gone == old(gone) && currentIndex == old(currentIndex)
      ensures isCardSwiped == old(isCardSwiped) && swipeLabel == old(swipeLabel)
    {
      var max := MaxOf(contentHeights);
      changed := max != height;
      if changed {
        height := max;
      }
    }
  }

  /** The drag commit computes depths before adding the dismissed card `i` to
      `gone`: every card behind `i` is restacked one place deeper than its
      position in the new ungone list, while the programmatic swipes, which
      compute depths afterwards, move it up by one. */
  lemma DragCommitDepth(g: seq<nat>, i: nat, j: nat)
    requires i !in g && i < j
    ensures Depth(j, g) == Depth(j, Add(g, i)) + 1
  {
    UngoneAfterAdd(j, g, i);
  }

  /** On an untouched deck, a card's stack depth is its index. */
  lemma {:induction false} DepthEmpty(i: nat)
    ensures Depth(i, []) == i
  {
    if i > 0 {
      DepthEmpty(i - 1);
    }
  }

  /** With the default `translateZ`, restacking an untouched deck leaves
      every card where `to` put it. */
  lemma InitialIsStacked(i: nat, shiftY: int)
    ensures RestackTarget(i, [], [], shiftY).Some?
    ensures Apply(To(i, shiftY, StackZ), RestackTarget(i, [], [], shiftY).value) == To(i, shiftY, StackZ)
  {
    DepthEmpty(i);
  }

  /** `swipeLeft()` followed by `swipeBack()` on an undismissed current card
      returns that card twice and restores `gone`, its order included, and
      the current index. */
  method SwipeLeftThenBack<T>(d: Deck<T>, viewportWidth: nat) returns (first: Card<T>, second: Card<T>)
    requires d.Valid()
    requires d.currentIndex < |d.deck| && d.currentIndex !in d.gone
    modifies d
    ensures d.Valid()
    ensures d.gone == old(d.gone) && d.currentIndex == old(d.currentIndex) && d.deck == old(d.deck)
    ensures d.isCardSwiped == (|old(d.gone)| > 0)
    ensures first == second == Card(Some(old(d.deck)[old(d.currentIndex)]), old(d.currentIndex))
  {
    ghost var g, c := d.gone, d.currentIndex;
    var targets;
    first, targets := d.Swipe(Left, None, viewportWidth);
    AddThenDeleteNewest(g, c);
    second, targets := d.SwipeBack();
  }

  /** Swiping at the current index when it is already past the last card is
      not refused: the index past the end is added to `gone` and the current
      index moves further past the end. */
  method SwipePastEnd<T>(d: Deck<T>, viewportWidth: nat) returns (card: Card<T>)
    requires d.Valid() && d.currentIndex == |d.deck| && d.currentIndex !in d.gone
    modifies d
    ensures d.currentIndex == |d.deck| + 1
    ensures d.gone == old(d.gone) + [|d.deck|]
    ensures card == Card(None, |d.deck|)
  {
    var targets;
    card, targets := d.Swipe(Right, None, viewportWidth);
  }

  /** Jumping to the same card twice leaves the state of one jump. */
  method JumpTwice<T>(d: Deck<T>, k: int, viewportWidth: nat)
    requires d.Valid()
    modifies d
    ensures d.Valid()
    ensures 0 <= k < |d.deck| ==> d.gone == JumpGone(old(d.gone), k, |d.deck|) && d.currentIndex == k
    ensures !(0 <= k < |d.deck|) ==> d.gone == old(d.gone) && d.currentIndex == old(d.currentIndex)
    ensures d.deck == old(d.deck) && d.isCardSwiped == old(d.isCardSwiped)
  {
    var targets := d.JumpToCardIndex(k, viewportWidth);
    targets := d.JumpToCardIndex(k, viewportWidth);
    if 0 <= k < |d.deck| {
      JumpGoneIdempotent(old(d.gone), k, |d.deck|);
    }
  }
}
