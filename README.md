# Deck bookkeeping model

A Dafny model of the state kept by the swipeable card deck component
(`src/Deck/Deck.jsx`). The component shows a list of items as a stack of
cards. The user drags the front card off to the left or right, or the caller
drives the deck through an imperative handle:

- `swipeLeft`
- `swipeRight`
- `swipeBack`
- `jumpToCardIndex`
- `updateCard`

The model keeps the component's state as the fields of class
`DeckState.Deck`:

- the item list (`deck`);
- the set of dismissed card indices (`gone`);
- the current index (`currentIndex`);
- the "a card was swiped" flag (`isCardSwiped`);
- the swipe label (`swipeLabel`);
- the measured content height (`height`).

Each operation of the handle, the drag handler, the reset on a new item list
and the height rule is a method that updates those fields.

`gone` is a JavaScript `Set`. `swipeBack` depends on its iteration order,
which is insertion order. The model therefore keeps `gone` as a duplicate-free
sequence:

- `Indexes.Add` appends an absent index.
- `Indexes.Delete` removes one index and keeps the others in order.

Every `setSprings(i => …)` call visits all card indices and gives each card
either a spring update or nothing. The methods return these updates as a
sequence `seq<Option<Target>>` indexed by card, where:

- `Move(x, rot)` sets the horizontal position and the rotation;
- `Stack(y, z)` puts the card back in the pile, with `x` and `rot` set to 0.

The modules are:

- `Wrappers`: the `Option` type.
- `Indexes`: the index lists.
  - the dismissed set and its `Set` operations;
  - `getUngoneIndexes`;
  - `getNextCardsIndexes`;
  - `indexOf`;
  - the state of `gone` after a jump.
- `Layout`: the pure layout rules.
  - `to`, `getX`;
  - the commit predicate of a released drag;
  - the rotation of a held card;
  - `changeLabel`;
  - the container height;
  - visibility and stacking order;
  - `Math.max` of the content heights.
- `DeckState`: the `Deck` class and the restack pass. It also holds three
  client methods that chain operations:
  - swipe then swipe back;
  - a swipe past the end;
  - jumping twice.

The model follows the code. A caller of the handle might expect a range
check on swipes, an initial index to start from, the swipe callbacks to fire
on every dismissal and a jump to reset the whole dismissed set. The code does
none of these:

- Swiping takes no range check. An index past the end is added to `gone`,
  the current index may pass the end of the deck, and `{ item: undefined,
  index }` is returned. `DeckState.SwipePastEnd` states this.
- There is no initial index. A new deck, and a new item list, start at card
  0 with nothing dismissed.
- `swipeLeft` and `swipeRight` from the handle call neither `onSwipeLeft`
  nor `onSwipeRight`. Only the drag handler does.
- A jump deletes only the in-range indices from `k` on. Out-of-range
  members of `gone` stay.
- `swipeBack` does nothing when the newest member of `gone` is not a card of
  the deck, even if older members are.

These quirks of the code are kept:

- A drag commit sets the current index to the dragged index plus one.
- A drag commit computes the restack depths before the dragged card is added
  to `gone` (`DeckState.DragCommitDepth`). The swipes compute them after.
- A jump stacks with the fixed steps 13 and -30, whatever `shiftY` and
  `translateZ` are.
- Every restack uses -30 for `z`, whatever `translateZ` is.
- A jump leaves `isCardSwiped` as it was.

## Model

| member | source | states |
|---|---|---|
| Indexes.Add | src/Deck/Deck.jsx:213 | `gone.add`: members are the old ones plus `x`; the old order is a prefix; an absent `x` becomes the newest member; no duplicates arise |
| Indexes.Delete | src/Deck/Deck.jsx:194 | `gone.delete`: exactly `x` stops being a member |
| Indexes.Drop | src/Deck/Deck.jsx:181 | deleting every index in `[lo, hi)`: members are those outside the range, and the sequence never grows |
| Indexes.DropNoDups | src/Deck/Deck.jsx:181 | deleting keeps `gone` free of duplicates |
| Indexes.DropNone | src/Deck/Deck.jsx:181 | deleting indices that are not members changes nothing, order included |
| Indexes.DropThenDelete | src/Deck/Deck.jsx:181 | the jump's successive deletions of `k, …, i` equal deleting the range `[k, i + 1)` |
| Indexes.Ungone | src/Deck/Deck.jsx:154-156 | `getUngoneIndexes`: exactly the card indices not in `gone`, all below the deck length |
| Indexes.UngoneAscending | src/Deck/Deck.jsx:155 | the ungone list is in strictly ascending deck order |
| Indexes.UngonePrefix | src/Deck/Deck.jsx:155 | the ungone list of a shorter deck is a prefix of that of a longer one |
| Indexes.UngoneCount | src/Deck/Deck.jsx:154-156 | ungone cards plus in-range dismissed indices make up the whole deck |
| Indexes.UngoneSize | src/Deck/Deck.jsx:154-156 | when every dismissed index is a card, `n - gone.size` cards are ungone |
| Indexes.UngoneNone | src/Deck/Deck.jsx:154-156 | no card is ungone once every card is dismissed |
| Indexes.UngoneAfterAdd | src/Deck/Deck.jsx:256-257 | dismissing card `i` removes exactly one ungone card before `n` when `i < n`, and none otherwise |
| Indexes.IndexOf | src/Deck/Deck.jsx:217 | `indexOf`: -1 exactly when absent, else the first position holding the value |
| Indexes.DepthInUngone | src/Deck/Deck.jsx:217 | the position of an ungone card in the ungone list is the number of ungone cards in front of it |
| Indexes.NextCardsIndexes | src/Deck/Deck.jsx:150-152 | `getNextCardsIndexes(c)`: the indices `c, c + 1, …, n - 1`, or none when `c` is not a card |
| Indexes.NextCardsDepth | src/Deck/Deck.jsx:182 | in the jump's list, card `i` sits at position `i - k` |
| Indexes.JumpGone | src/Deck/Deck.jsx:174-184 | after a jump to `k`, the cards below `k` are dismissed and the cards from `k` on are not; out-of-range members stay; no duplicates arise |
| Indexes.JumpAddStep | src/Deck/Deck.jsx:175-179 | the jump's visit of a card before `k` adds it exactly when it was not gone before the jump |
| Indexes.JumpDeleteStep | src/Deck/Deck.jsx:180-181 | the jump's visit of a card from `k` on deletes it when present |
| Indexes.JumpGoneIdempotent | src/Deck/Deck.jsx:170-187 | a second jump to the same card leaves `gone` as the first jump left it |
| Indexes.DeleteBeforeAbsent | src/Deck/Deck.jsx:194 | deleting an index that the later members do not hold leaves those members, in order, after the remaining earlier ones |
| Indexes.DeleteKeepsOrder | src/Deck/Deck.jsx:194 | deleting a member from anywhere in `gone` keeps every other member in its insertion order |
| Indexes.DeleteNewest | src/Deck/Deck.jsx:189-194 | deleting the newest member of `gone` removes the last element and keeps the rest in order |
| Indexes.AddThenDeleteNewest | src/Deck/Deck.jsx:189-213 | an index that was added last is the one `swipeBack` finds and deleting it restores `gone` with its order |
| Layout.To | src/Deck/Deck.jsx:10 | `to(i)`: unmoved and unrotated, `i` steps of `shiftY` and `translateZ` down the pile; with `translateZ` -30 it is the spring a restack at depth `i` leaves unchanged |
| Layout.Apply | src/Deck/Deck.jsx:216-217 | a `Move` update changes only `x` and `rot`; a `Stack` update zeroes `x` and `rot` and sets `y` and `z` |
| Layout.GetX | src/Deck/Deck.jsx:158-160 | `getX(dir)`: the card is parked `200 + width` away on the side of `dir` |
| Layout.Fling | src/Deck/Deck.jsx:258-259 | a dismissed card goes left rotated 70 degrees or right rotated -70 degrees |
| Layout.SideOf | src/Deck/Deck.jsx:242 | `humanDir`: the side points the way the card moved, and a zero movement counts as right |
| Layout.ReadyToLeave | src/Deck/Deck.jsx:252 | a release commits only at or past the threshold and with a direction that does not oppose the movement, and always then |
| Layout.DefaultThresholdExample | src/Deck/Deck.jsx:252 | with threshold 70, -80 moving left commits left, while -80 flicked right and -60 do not |
| Layout.HeldRot | src/Deck/Deck.jsx:251 | the held card turns by `-floor(mx / 10)` degrees |
| Layout.DragMove | src/Deck/Deck.jsx:250-254 | a held card follows the pointer with that rotation; an uncommitted release snaps back to 0, 0 |
| Layout.LabelFor | src/Deck/Deck.jsx:162-168 | a label is raised exactly while the card is held at or past the threshold, on the side of the movement |
| Layout.LabelAnnouncesCommit | src/Deck/Deck.jsx:252-253 | a raised label names the side that a release at the same point commits to, unless the direction turns |
| Layout.ContainerHeight | src/Deck/Deck.jsx:50 | the content height plus one `shiftY` per card for a deck of 2 up to `maxVisibleStack` cards, `maxVisibleStack` steps for a larger deck and none for 0 or 1 card; never more than `maxVisibleStack` steps of room |
| Layout.Hidden | src/Deck/Deck.jsx:294 | a card is shown exactly when it is the current one or at most `maxVisibleStack` cards behind it |
| Layout.ZIndex | src/Deck/Deck.jsx:295 | the stacking order is never above 0, and is 0 exactly for the current card and the cards in front of it |
| Layout.ShownWindow | src/Deck/Deck.jsx:294 | the shown cards are the current one and up to `maxVisibleStack` behind it that exist |
| Layout.FrontOnTop | src/Deck/Deck.jsx:294-295 | the current card lies above every other shown card; the cards behind it lie in deck order |
| Layout.MaxOf | src/Deck/Deck.jsx:89 | `Math.max`: one of the heights and no smaller than any of them |
| DeckState.SwipeIndex | src/Deck/Deck.jsx:210 | `cardIndexToSwipe`: the given index when it is not negative, else the current index |
| DeckState.DepthEmpty | src/Deck/Deck.jsx:154-156 | with nothing dismissed, a card's stack depth is its index |
| DeckState.InitialIsStacked | src/Deck/Deck.jsx:10 | with `translateZ` -30, a restack of an untouched deck gives every card a target that leaves the spring `to` gave it |
| DeckState.RestackSpring | src/Deck/Deck.jsx:217 | one card of the restack pass: nothing for a dismissed card, else its stack depth |
| DeckState.Restack | src/Deck/Deck.jsx:196-200 | the restack pass gives each card not in `gone` its place at the depth it has among the ungone cards |
| DeckState.Deck.InitialSprings | src/Deck/Deck.jsx:49 | one spring per card, card `i` unmoved and unrotated at `y = i * shiftY`, `z = i * translateZ` |
| DeckState.Deck.ContainerHeightNow | src/Deck/Deck.jsx:50 | the height reported for the current deck: the content height alone for 0 or 1 card, plus one step per card while the deck fits the visible stack, plus `maxVisibleStack` steps beyond that |
| DeckState.Deck.constructor | src/Deck/Deck.jsx:42-48 | a new deck holds the items, nothing dismissed, current index 0, flag and label cleared, height 0 |
| DeckState.Deck.Replace | src/Deck/Deck.jsx:111-122 | a new item list clears `gone`, the height, the current index and the flag |
| DeckState.Deck.UpdateCard | src/Deck/Deck.jsx:139-148 | the item at `k` is replaced by the callback's result; nothing changes for an index that is not a card or an empty result |
| DeckState.Deck.Swipe | src/Deck/Deck.jsx:209-237 | the given or current index is added to `gone` and flung to `side`; the others are restacked; the current index advances exactly when it was the swiped one; the flag is set; `{ item, index }` is returned |
| DeckState.Deck.SwipeBack | src/Deck/Deck.jsx:189-207 | the newest dismissed card, if it is a card, is removed from the end of `gone`, the current index drops by one down to 0, the flag clears when `gone` empties, the others are restacked and the card is returned; else `{}` and no change |
| DeckState.Deck.JumpToCardIndex | src/Deck/Deck.jsx:170-187 | for a card `k`, `gone` becomes `JumpGone`, the current index becomes `k`, cards before `k` not yet gone are parked and cards from `k` on are stacked at `i - k`; otherwise nothing changes |
| DeckState.Deck.JumpSpring | src/Deck/Deck.jsx:174-184 | one visit of the jump's callback moves `gone` one step on and gives the card its jump target |
| DeckState.Deck.JumpPark | src/Deck/Deck.jsx:175-179 | a card before `k` is added and parked left unless it was gone |
| DeckState.Deck.JumpStack | src/Deck/Deck.jsx:180-183 | a card from `k` on is deleted from `gone` and stacked at depth `i - k` with steps 13 and -30 |
| DeckState.Deck.Drag | src/Deck/Deck.jsx:239-276 | a committed release dismisses card `i`, flings it, restacks the rest by depths taken before the add, sets the current index to `i + 1` and reports start, dismissal and end; any other sample moves only card `i` and reports start and end |
| DeckState.DragCommitDepth | src/Deck/Deck.jsx:256-263 | the drag commit places each card behind the dismissed one one step deeper than the swipes would |
| DeckState.Deck.CalcMax | src/Deck/Deck.jsx:89-93 | the height becomes the tallest content height, and a change is reported exactly when it differs from the last |
| DeckState.SwipeLeftThenBack | src/Deck/Deck.jsx:189-222 | swiping the undismissed current card and swiping back returns the same card twice and restores `gone`, its order and the current index |
| DeckState.SwipePastEnd | src/Deck/Deck.jsx:224-237 | swiping when the current index is the deck length adds that index to `gone`, moves past it and returns no item |
| DeckState.JumpTwice | src/Deck/Deck.jsx:170-187 | two jumps to the same card leave the state of one |

## Left out

- Rendering is not modelled. This covers the React hooks and the markup, the
  debug log panel and `console.log`, CSS transforms, the `from` helper, the
  spring `delay`, `config` and `onRest` values, and the animation itself.
- The measurement registry is not modelled: the measuring ref callback, the
  `resize` counter, the window resize listener and its debounce. `CalcMax`
  takes the measured heights as a parameter, and the `adaptiveHeight` gate
  in front of it is left out.
- The `onDeckHeightChange` effect is left out. The value it reports is
  `ContainerHeightNow`.
- `Replace` is called whenever the item list changes. The comparison through
  `JSON.stringify` and the reference check on the previous items are not
  modelled.
- Every handle call sees the state the previous call left. In the component,
  `currentIndex` and `isCardSwiped` are React state captured when the deck
  was last rendered, while `gone` is a mutable `Set` that changes at once.
  Two calls within one render therefore read the same current index: two
  `swipeLeft()` calls both act on the same card. The model does not capture
  this.
- The caller's callbacks are not called. The drag handler returns them as
  `Event` values. `onSwipeLeft` and `onSwipeRight` are called whether or not
  they were given; the model does not capture the error an absent one raises.
- Items are assumed to be truthy, so "`deck[i]` is set" means "`i` is a card
  of the deck".
- Numeric coercion of the index arguments (`+index`, a non-integer index)
  is not modelled. Indices are integers.
- The drag gesture is one sample: integer movement, last direction and
  pointer state. Tap filtering and fractional movement are left out.
- The viewport width is a parameter.
- `shiftY`, `translateZ` and `trashhold` are integers. The component takes
  any number for them, so a fractional `shiftY` gives fractional positions,
  which the model does not capture.
- Defaults are not modelled; the caller passes every value. This covers the
  defaults 13, -30 and 70 for `shiftY`, `translateZ` and `trashhold`,
  `jumpToCardIndex`'s default index 0 and `updateCard`'s default callback,
  which returns nothing and so changes nothing.
- `maxVisibleStack` is a number. An absent `maxVisibleStack` is not modelled.
- DeckState.Deck.Drag: requires that `i` is a card of the deck, because the
  handler is only bound to rendered cards.
