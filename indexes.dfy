/** Index bookkeeping of the deck.

    The set of dismissed ("gone") card indices is a JavaScript `Set`, whose
    iteration order is insertion order; `swipeBack` relies on that order.  It
    is modelled as a sequence without duplicates: `Add` appends an absent
    index, `Delete` removes one and keeps the order of the rest. */
module Indexes {

  /** No index occurs twice: what makes a sequence behave as a `Set`. */
  predicate NoDups(s: seq<nat>) {
    forall a, b :: 0 <= a < b < |s| ==> s[a] != s[b]
  }

  /** Strictly ascending, hence also without duplicates. */
  predicate Ascending(s: seq<nat>) {
    forall a, b :: 0 <= a < b < |s| ==> s[a] < s[b]
  }

  /** `Set.prototype.add`: an absent index becomes the newest member. */
  function Add(s: seq<nat>, x: nat): (r: seq<nat>)
    ensures forall y: nat {:trigger y in r} :: y in r <==> y in s || y == x
    ensures |s| <= |r| && r[..|s|] == s
    ensures x !in s ==> |r| == |s| + 1 && r[|s|] == x
    ensures NoDups(s) ==> NoDups(r)
  {
    if x in s then s else s + [x]
  }

  /** The members of `s` outside `[lo, hi)`, in their original order. */
  function Drop(s: seq<nat>, lo: nat, hi: nat): (r: seq<nat>)
    ensures forall y: nat {:trigger y in r} :: y in r <==> y in s && !(lo <= y < hi)
    ensures |r| <= |s|
  {
    if s == [] then []
    else
      var init, last := s[..|s| - 1], s[|s| - 1];
      assert forall y :: y in s <==> y in init || y == last;
      Drop(init, lo, hi) + (if lo <= last < hi then [] else [last])
  }

  /** `Set.prototype.delete`: `x` is no longer a member, the rest keep their order. */
  function Delete(s: seq<nat>, x: nat): (r: seq<nat>)
    ensures forall y: nat {:trigger y in r} :: y in r <==> y in s && y != x
  {
    Drop(s, x, x + 1)
  }

  /** `getUngoneIndexes` over a deck of `n` cards: the card indices that are
      not in `gone`, in deck order. */
  function Ungone(n: nat, gone: seq<nat>): (r: seq<nat>)
    ensures forall x: nat {:trigger x in r} :: x in r <==> x < n && x !in gone
    ensures forall j :: 0 <= j < |r| ==> r[j] < n
  {
    if n == 0 then []
    else Ungone(n - 1, gone) + (if n - 1 in gone then [] else [n - 1])
  }

  /** `Array.prototype.indexOf`: the first position of `x`, or -1. */
  function IndexOf(s: seq<nat>, x: nat): (r: int)
    ensures -1 <= r < |s|
    ensures r == -1 <==> x !in s
    ensures 0 <= r ==> s[r] == x && x !in s[..r]
  {
    if s == [] then -1
    else if s[0] == x then 0
    else
      var k := IndexOf(s[1..], x);
      if k < 0 then -1 else k + 1
  }

  /** `getNextCardsIndexes(c)`: the indices of the deck from card `c` to the
      end, or none when `c` is not a card of the deck. */
  function NextCardsIndexes(n: nat, c: int): (r: seq<nat>)
    ensures |r| == if 0 <= c < n then n - c else 0
    ensures forall j :: 0 <= j < |r| ==> r[j] == c + j
  {
    if 0 <= c < n then seq(n, (i: int) requires 0 <= i => i as nat)[c..] else []
  }

  /** The state of `gone` after `jumpToCardIndex(k)` on a deck of `n` cards:
      members in `[k, n)` deleted, then every absent index below `k`
      appended in ascending order. */
  function JumpGone(gone: seq<nat>, k: nat, n: nat): (r: seq<nat>)
    requires k <= n
    ensures forall x: nat :: x < n ==> (x in r <==> x < k)
    ensures forall x: nat :: n <= x ==> (x in r <==> x in gone)
    ensures NoDups(gone) ==> NoDups(r)
  {
    var kept, added := Drop(gone, k, n), Ungone(k, gone);
    assert NoDups(gone) ==> NoDups(kept + added) by {
      if NoDups(gone) {
        UngoneAscending(k, gone);
        DropNoDups(gone, k, n);
        NoDupsConcat(kept, added);
      }
    }
    kept + added
  }

  /** The in-range members of `gone`. */
  function InRange(gone: seq<nat>, n: nat): set<nat> {
    set x | x in gone && x < n
  }

  /** The distinct members of `s`. */
  function Members(s: seq<nat>): set<nat> {
    set x | x in s
  }

  // ---------------------------------------------------------------------
  // Lemmas

  /** Appending keeps each part free of duplicates when the parts are disjoint. */
  lemma NoDupsConcat(a: seq<nat>, b: seq<nat>)
    requires NoDups(a) && NoDups(b)
    requires forall x :: x in a ==> x !in b
    ensures NoDups(a + b)
  {
    forall i, j | 0 <= i < j < |a + b| ensures (a + b)[i] != (a + b)[j] {
      if j >= |a| && i < |a| {
        assert (a + b)[i] in a;
        assert (a + b)[j] == b[j - |a|];
      }
    }
  }

  /** Dropping members keeps a duplicate-free sequence duplicate-free. */
  lemma {:induction false} DropNoDups(s: seq<nat>, lo: nat, hi: nat)
    requires NoDups(s)
    ensures NoDups(Drop(s, lo, hi))
  {
    if s != [] {
      var init, last := s[..|s| - 1], s[|s| - 1];
      DropNoDups(init, lo, hi);
      assert last !in init;
      NoDupsConcat(Drop(init, lo, hi), if lo <= last < hi then [] else [last]);
    }
  }

  lemma {:induction false} DropNone(s: seq<nat>, lo: nat, hi: nat)
    requires forall x :: x in s ==> !(lo <= x < hi)
    ensures Drop(s, lo, hi) == s
  {
    if s != [] {
      var init := s[..|s| - 1];
      assert forall x :: x in init ==> x in s;
      assert s[|s| - 1] in s;
      DropNone(init, lo, hi);
      assert s == init + [s[|s| - 1]];
    }
  }

  lemma {:induction false} DropConcat(a: seq<nat>, b: seq<nat>, lo: nat, hi: nat)
    ensures Drop(a + b, lo, hi) == Drop(a, lo, hi) + Drop(b, lo, hi)
  {
    if b == [] {
      assert a + b == a;
    } else {
      var init := b[..|b| - 1];
      assert (a + b)[..|a + b| - 1] == a + init;
      DropConcat(a, init, lo, hi);
    }
  }

  lemma DropSingle(x: nat, lo: nat, hi: nat)
    ensures Drop([x], lo, hi) == if lo <= x < hi then [] else [x]
  {
  }

  /** Deleting the indices `[k, i)` and then `i` deletes `[k, i + 1)`. */
  lemma {:induction false} DropThenDelete(s: seq<nat>, k: nat, i: nat)
    requires k <= i
    ensures Delete(Drop(s, k, i), i) == Drop(s, k, i + 1)
  {
    if s != [] {
      var init, last := s[..|s| - 1], s[|s| - 1];
      DropThenDelete(init, k, i);
      var tail := if k <= last < i then [] else [last];
      assert Drop(s, k, i) == Drop(init, k, i) + tail;
      assert Drop(s, k, i + 1) == Drop(init, k, i + 1) + (if k <= last < i + 1 then [] else [last]);
      DropConcat(Drop(init, k, i), tail, i, i + 1);
      DropSingle(last, i, i + 1);
    }
  }

  /** Deleting an index that the tail does not hold only touches the head. */
  lemma DeleteBeforeAbsent(a: seq<nat>, b: seq<nat>, x: nat)
    requires x !in b
    ensures Delete(a + b, x) == Delete(a, x) + b
    ensures x !in a ==> Delete(a + b, x) == a + b
  {
    DropConcat(a, b, x, x + 1);
    DropNone(b, x, x + 1);
    if x !in a {
      DropNone(a, x, x + 1);
    }
  }

  /** Deleting a member keeps every other member where it was in the order. */
  lemma DeleteKeepsOrder(a: seq<nat>, x: nat, b: seq<nat>)
    requires x !in a && x !in b
    ensures Delete(a + [x] + b, x) == a + b
  {
    var lo, hi := x, x + 1;
    calc {
      Delete(a + [x] + b, x);
      Drop(a + [x] + b, lo, hi);
      { DropConcat(a + [x], b, lo, hi); }
      Drop(a + [x], lo, hi) + Drop(b, lo, hi);
      { DropConcat(a, [x], lo, hi); }
      Drop(a, lo, hi) + Drop([x], lo, hi) + Drop(b, lo, hi);
      { DropSingle(x, lo, hi); DropNone(a, lo, hi); DropNone(b, lo, hi); }
      a + [] + b;
    }
    assert a + [] + b == a + b;
  }

  /** The newest member of a duplicate-free `gone` is removed from the end. */
  lemma DeleteNewest(s: seq<nat>)
    requires NoDups(s) && |s| > 0
    ensures Delete(s, s[|s| - 1]) == s[..|s| - 1]
  {
    var init, last := s[..|s| - 1], s[|s| - 1];
    assert last !in init;
    DropNone(init, last, last + 1);
    assert Drop(s, last, last + 1) == Drop(init, last, last + 1);
  }

  /** Adding an absent index and then deleting the newest member restores `gone`,
      order included. */
  lemma AddThenDeleteNewest(s: seq<nat>, x: nat)
    requires NoDups(s) && x !in s
    ensures var t := Add(s, x); |t| > 0 && t[|t| - 1] == x && Delete(t, x) == s
  {
    var t := Add(s, x);
    DeleteNewest(t);
    assert t[..|t| - 1] == s;
  }

  /** The ungone list is in deck order, hence without duplicates. */
  lemma {:induction false} UngoneAscending(n: nat, gone: seq<nat>)
    ensures Ascending(Ungone(n, gone))
  {
    if n > 0 {
      UngoneAscending(n - 1, gone);
    }
  }

  /** A shorter deck's ungone list is a prefix of a longer deck's. */
  lemma {:induction false} UngonePrefix(m: nat, n: nat, gone: seq<nat>)
    requires m <= n
    ensures |Ungone(m, gone)| <= |Ungone(n, gone)|
    ensures Ungone(n, gone)[..|Ungone(m, gone)|] == Ungone(m, gone)
  {
    if m < n {
      UngonePrefix(m, n - 1, gone);
      var a, c := Ungone(n - 1, gone), Ungone(m, gone);
      var tail := if n - 1 in gone then [] else [n - 1];
      assert Ungone(n, gone) == a + tail;
      assert (a + tail)[..|c|] == a[..|c|];
    }
  }

  /** In an ascending list, the position of an element is where it is found. */
  lemma IndexOfAscending(s: seq<nat>, d: nat)
    requires Ascending(s) && d < |s|
    ensures IndexOf(s, s[d]) == d
  {
  }

  /** The depth of an ungone card, its position in the ungone list, is the
      number of ungone cards in front of it. */
  lemma DepthInUngone(n: nat, gone: seq<nat>, i: nat)
    requires i < n && i !in gone
    ensures IndexOf(Ungone(n, gone), i) == |Ungone(i, gone)|
  {
    var u, front := Ungone(n, gone), Ungone(i, gone);
    var d := |front|;
    UngonePrefix(i + 1, n, gone);
    assert Ungone(i + 1, gone) == front + [i];
    assert u[..d + 1] == front + [i];
    assert u[..d + 1][d] == i;
    UngoneAscending(n, gone);
    IndexOfAscending(u, d);
  }

  /** In the list of cards from `k` on, card `i` sits at position `i - k`. */
  lemma NextCardsDepth(n: nat, k: nat, i: nat)
    requires k <= i < n
    ensures IndexOf(NextCardsIndexes(n, k), i) == i - k
  {
    var s := NextCardsIndexes(n, k);
    var r := IndexOf(s, i);
    assert s[i - k] == i;
  }

  /** The ungone list and the in-range members of `gone` partition the deck. */
  lemma {:induction false} UngoneCount(n: nat, gone: seq<nat>)
    ensures |Ungone(n, gone)| + |InRange(gone, n)| == n
  {
    if n > 0 {
      UngoneCount(n - 1, gone);
      if n - 1 in gone {
        assert InRange(gone, n) == InRange(gone, n - 1) + {n - 1};
      } else {
        assert InRange(gone, n) == InRange(gone, n - 1);
      }
    }
  }

  /** A sequence without duplicates has as many members as elements. */
  lemma {:induction false} MembersOfNoDups(s: seq<nat>)
    requires NoDups(s)
    ensures |Members(s)| == |s|
  {
    if s != [] {
      var init, last := s[..|s| - 1], s[|s| - 1];
      assert s == init + [last];
      MembersOfNoDups(init);
      assert last !in init;
      assert Members(s) == Members(init) + {last};
    }
  }

  /** When every dismissed index is a card of the deck, the ungone list has
      `n - |gone|` entries. */
  lemma UngoneSize(n: nat, gone: seq<nat>)
    requires NoDups(gone)
    requires forall x :: x in gone ==> x < n
    ensures |Ungone(n, gone)| == n - |gone|
  {
    UngoneCount(n, gone);
    MembersOfNoDups(gone);
    assert InRange(gone, n) == Members(gone);
  }

  /** No card is ungone when every index below `n` is gone. */
  lemma UngoneNone(n: nat, gone: seq<nat>)
    requires forall x: nat :: x < n ==> x in gone
    ensures Ungone(n, gone) == []
  {
  }

  /** The state of `gone` once the jump to `k` has visited the cards before
      `i`: the visited members from `k` on are deleted (none while `i <= k`)
      and the absent indices below `min(i, k)` are appended. */
  ghost function JumpGoneAfter(g: seq<nat>, k: nat, i: nat): seq<nat> {
    Drop(g, k, i) + Ungone(if i < k then i else k, g)
  }

  /** A step of the jump over a card `i` before `k`: the card is added
      unless it was gone before the jump. */
  lemma JumpAddStep(g: seq<nat>, k: nat, i: nat)
    requires i < k
    ensures var cur, next := JumpGoneAfter(g, k, i), JumpGoneAfter(g, k, i + 1);
      && (i in cur <==> i in g)
      && (i !in cur ==> cur + [i] == next)
      && (i in cur ==> cur == next)
  {
    var u, u1 := Ungone(i, g), Ungone(i + 1, g);
    assert JumpGoneAfter(g, k, i) == g + u by {
      DropNone(g, k, i);
    }
    assert JumpGoneAfter(g, k, i + 1) == g + u1 by {
      DropNone(g, k, i + 1);
    }
    assert u1 == u + (if i in g then [] else [i]);
    assert i !in u;
    if i !in g {
      assert (g + u) + [i] == g + (u + [i]);
    }
  }

  /** A step of the jump over a card `i` from `k` on: the card is deleted
      from `gone` if present. */
  lemma JumpDeleteStep(g: seq<nat>, k: nat, i: nat)
    requires k <= i
    ensures var cur, next := JumpGoneAfter(g, k, i), JumpGoneAfter(g, k, i + 1);
      && (i in cur ==> Delete(cur, i) == next)
      && (i !in cur ==> cur == next)
  {
    var kept, added, next := Drop(g, k, i), Ungone(k, g), Drop(g, k, i + 1);
    assert JumpGoneAfter(g, k, i) == kept + added;
    assert JumpGoneAfter(g, k, i + 1) == next + added;
    assert Delete(kept, i) == next by {
      DropThenDelete(g, k, i);
    }
    assert i !in added;
    DeleteBeforeAbsent(kept, added, i);
  }

  /** Dismissing one more card shortens the ungone prefix before `n` by one
      exactly when that card lies before `n`. */
  lemma {:induction false} UngoneAfterAdd(n: nat, g: seq<nat>, i: nat)
    requires i !in g
    ensures |Ungone(n, g)| == |Ungone(n, Add(g, i))| + (if i < n then 1 else 0)
  {
    if n > 0 {
      UngoneAfterAdd(n - 1, g, i);
      assert n - 1 in Add(g, i) <==> n - 1 in g || n - 1 == i;
    }
  }

  /** Jumping twice to the same card leaves `gone` as one jump does. */
  lemma JumpGoneIdempotent(gone: seq<nat>, k: nat, n: nat)
    requires k <= n
    ensures JumpGone(JumpGone(gone, k, n), k, n) == JumpGone(gone, k, n)
  {
    var kept, added := Drop(gone, k, n), Ungone(k, gone);
    var r := kept + added;
    assert r == JumpGone(gone, k, n);
    DropConcat(kept, added, k, n);
    DropNone(kept, k, n);
    DropNone(added, k, n);
    UngoneNone(k, r);
  }
}
