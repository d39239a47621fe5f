/** Cards and the operations on whole decks: splitting a deck by whether a
    card's word has been played, choosing a new set from the catalog, and
    reordering a deck by a caller-supplied permutation (which stands for
    the `Math.random` comparator sort).
 */
module Deck {

  /** A word and the image shown with it. */
  datatype Card = Card(word: string, image: string)

  /** Number of cards in a set drawn by New Set. */
  const SetSize: nat := 10

  function Min(a: nat, b: nat): nat {
    if a <= b then a else b
  }

  // ---------------------------------------------------------------------
  // Splitting by played words
  // ---------------------------------------------------------------------

  /** The cards whose word is (`wanted`) or is not (`!wanted`) in `played`,
      in their original order. */
  function Keep(cards: seq<Card>, played: set<string>, wanted: bool): (r: seq<Card>)
    ensures |r| <= |cards|
    ensures forall c :: c in r ==> (c.word in played) == wanted
  {
    if cards == [] then []
    else
      var rest := Keep(cards[1..], played, wanted);
      if (cards[0].word in played) == wanted then [cards[0]] + rest else rest
  }

  /** The cards whose word is not in `played`, in deck order. */
  function Unplayed(cards: seq<Card>, played: set<string>): (r: seq<Card>)
    ensures |r| <= |cards|
    ensures forall c :: c in r ==> c.word !in played
  {
    Keep(cards, played, false)
  }

  /** The cards whose word is in `played`, in deck order. */
  function AlreadyPlayed(cards: seq<Card>, played: set<string>): (r: seq<Card>)
    ensures |r| <= |cards|
    ensures forall c :: c in r ==> c.word in played
  {
    Keep(cards, played, true)
  }

  /** Filtering distributes over concatenation, so it keeps the order of
      the cards it retains. */
  lemma {:induction false} KeepAppend(a: seq<Card>, b: seq<Card>, played: set<string>, wanted: bool)
    ensures Keep(a + b, played, wanted) == Keep(a, played, wanted) + Keep(b, played, wanted)
  {
    if a == [] {
      assert a + b == b;
    } else {
      var ab := a + b;
      assert ab[0] == a[0];
      assert ab[1..] == a[1..] + b;
      KeepAppend(a[1..], b, played, wanted);
      var rest := Keep(a[1..], played, wanted) + Keep(b, played, wanted);
      if (a[0].word in played) == wanted {
        calc {
          Keep(ab, played, wanted);
          [a[0]] + Keep(ab[1..], played, wanted);
          [a[0]] + rest;
          Keep(a, played, wanted) + Keep(b, played, wanted);
        }
      } else {
        calc {
          Keep(ab, played, wanted);
          Keep(ab[1..], played, wanted);
          rest;
          Keep(a, played, wanted) + Keep(b, played, wanted);
        }
      }
    }
  }

  /** A card is kept exactly when it occurs in the deck and its word's
      membership in `played` is the one asked for. */
  lemma {:induction false} KeepMembers(cards: seq<Card>, played: set<string>, wanted: bool, c: Card)
    ensures c in Keep(cards, played, wanted) <==> c in cards && (c.word in played) == wanted
  {
    if cards != [] {
      KeepMembers(cards[1..], played, wanted, c);
      assert c in cards <==> c == cards[0] || c in cards[1..];
    }
  }

  /** The two filters split a deck: unplayed followed by played is a
      rearrangement of the deck, so no card is lost or duplicated. */
  lemma {:induction false} SplitIsRearrangement(cards: seq<Card>, played: set<string>)
    ensures multiset(Unplayed(cards, played) + AlreadyPlayed(cards, played)) == multiset(cards)
    ensures |Unplayed(cards, played)| + |AlreadyPlayed(cards, played)| == |cards|
  {
    var u, p := Unplayed(cards, played), AlreadyPlayed(cards, played);
    if cards != [] {
      var c, rest := cards[0], cards[1..];
      var u', p' := Unplayed(rest, played), AlreadyPlayed(rest, played);
      SplitIsRearrangement(rest, played);
      assert multiset(cards) == multiset{c} + multiset(rest) by {
        assert cards == [c] + rest;
      }
      if c.word in played {
        assert u == u' && p == [c] + p';
      } else {
        assert u == [c] + u' && p == p';
      }
      assert multiset(u + p) == multiset(u) + multiset(p);
      assert multiset(u' + p') == multiset(u') + multiset(p');
    }
    assert |multiset(u + p)| == |u + p|;
  }

  // ---------------------------------------------------------------------
  // New Set selection
  // ---------------------------------------------------------------------

  /** The cards of a new set: the first `SetSize` unplayed cards of the
      catalog when there are that many, otherwise every unplayed card
      followed by played ones, cut to `SetSize`. */
  function ChooseSet(catalog: seq<Card>, played: set<string>): (r: seq<Card>)
    ensures |r| <= SetSize
  {
    var unplayedCards := Unplayed(catalog, played);
    if |unplayedCards| >= SetSize then unplayedCards[..SetSize]
    else
      var all := unplayedCards + AlreadyPlayed(catalog, played);
      all[..Min(SetSize, |all|)]
  }

  /** A new set has `SetSize` cards, or the whole catalog's worth when the
      catalog is smaller, and every one of them comes from the catalog. */
  lemma ChooseSetSize(catalog: seq<Card>, played: set<string>)
    ensures |ChooseSet(catalog, played)| == Min(SetSize, |catalog|)
    ensures multiset(ChooseSet(catalog, played)) <= multiset(catalog)
  {
    var unplayedCards := Unplayed(catalog, played);
    SplitIsRearrangement(catalog, played);
    if |unplayedCards| >= SetSize {
      PrefixSubMultiset(unplayedCards, SetSize);
    } else {
      var all := unplayedCards + AlreadyPlayed(catalog, played);
      PrefixSubMultiset(all, Min(SetSize, |all|));
    }
  }

  /** Which cards a new set holds: the first `SetSize` unplayed cards when
      there are enough; otherwise all unplayed cards, then played cards in
      catalog order. */
  lemma ChooseSetOrder(catalog: seq<Card>, played: set<string>)
    ensures var r := ChooseSet(catalog, played);
            var unplayedCards := Unplayed(catalog, played);
            && (|unplayedCards| >= SetSize ==> r == unplayedCards[..SetSize])
            && (|unplayedCards| < SetSize ==>
                  && unplayedCards <= r
                  && r[|unplayedCards|..] <= AlreadyPlayed(catalog, played))
  {
    var r := ChooseSet(catalog, played);
    var unplayedCards := Unplayed(catalog, played);
    var playedCards := AlreadyPlayed(catalog, played);
    if |unplayedCards| < SetSize {
      var all := unplayedCards + playedCards;
      assert r == all[..Min(SetSize, |all|)];
      assert |unplayedCards| <= |r|;
      assert r[..|unplayedCards|] == unplayedCards;
      assert r[|unplayedCards|..] == playedCards[..|r| - |unplayedCards|];
    }
  }

  /** Unplayed words have priority: a new set holds a played card only if
      it holds every unplayed card of the catalog. */
  lemma ChooseSetPrefersUnplayed(catalog: seq<Card>, played: set<string>, i: nat)
    requires i < |ChooseSet(catalog, played)|
    requires ChooseSet(catalog, played)[i].word in played
    ensures Unplayed(catalog, played) <= ChooseSet(catalog, played)
  {
    ChooseSetOrder(catalog, played);
  }

  lemma PrefixSubMultiset<T>(s: seq<T>, k: nat)
    requires k <= |s|
    ensures multiset(s[..k]) <= multiset(s)
  {
    assert s == s[..k] + s[k..];
  }

  // ---------------------------------------------------------------------
  // Reordering by a permutation
  // ---------------------------------------------------------------------

  /** The indices 0, 1, ..., n - 1 in order. */
  function Range(n: nat): (r: seq<nat>)
    ensures |r| == n
    ensures forall i :: 0 <= i < n ==> r[i] == i
  {
    seq(n, i requires 0 <= i => i)
  }

  /** `order` lists each of 0, ..., n - 1 exactly once. */
  predicate IsPermutation(order: seq<nat>, n: nat) {
    multiset(order) == multiset(Range(n))
  }

  /** A permutation of 0 .. n-1 has length n and holds only valid indices. */
  lemma PermutationIndices(order: seq<nat>, n: nat)
    requires IsPermutation(order, n)
    ensures |order| == n
    ensures forall i :: 0 <= i < |order| ==> order[i] < n
  {
    assert |multiset(order)| == |multiset(Range(n))|;
    forall i | 0 <= i < |order|
      ensures order[i] < n
    {
      assert order[i] in multiset(order);
      assert order[i] in Range(n);
    }
  }

  /** The deck whose i-th card is `xs[order[i]]`. */
  function Reorder<T>(xs: seq<T>, order: seq<nat>): (r: seq<T>)
    requires forall i :: 0 <= i < |order| ==> order[i] < |xs|
    ensures |r| == |order|
  {
    seq(|order|, i requires 0 <= i < |order| => xs[order[i]])
  }

  /** Dropping the largest index from a permutation leaves a permutation
      of the smaller range. */
  lemma DropLargest(order: seq<nat>, n: nat, j: nat)
    requires IsPermutation(order, n + 1)
    requires j < |order| && order[j] == n
    ensures IsPermutation(order[..j] + order[j + 1..], n)
  {
    var rest := order[..j] + order[j + 1..];
    assert Range(n + 1) == Range(n) + [n];
    assert multiset(Range(n + 1)) == multiset(Range(n)) + multiset{n};
    assert order == order[..j] + [order[j]] + order[j + 1..];
    assert multiset(order) == multiset(rest) + multiset{n};
    assert forall x :: multiset(rest)[x] == multiset(Range(n))[x] by {
      forall x
        ensures multiset(rest)[x] == multiset(Range(n))[x]
      {
        assert multiset(order)[x] == multiset(Range(n + 1))[x];
      }
    }
  }

  /** Reordering `xs` by `order` places the last element of `xs` where
      `order` holds its index, and the rest as the shortened order says. */
  lemma ReorderSplit<T>(xs: seq<T>, order: seq<nat>, j: nat)
    requires |xs| > 0
    requires j < |order| && order[j] == |xs| - 1
    requires forall i :: 0 <= i < |order| ==> order[i] < |xs|
    requires var rest := order[..j] + order[j + 1..];
             forall i :: 0 <= i < |rest| ==> rest[i] < |xs| - 1
    ensures var a := Reorder(xs[..|xs| - 1], order[..j] + order[j + 1..]);
            Reorder(xs, order) == a[..j] + [xs[|xs| - 1]] + a[j..]
  {
    var rest := order[..j] + order[j + 1..];
    var a := Reorder(xs[..|xs| - 1], rest);
    var b := Reorder(xs, order);
    assert forall i :: 0 <= i < j ==> b[i] == a[i];
    assert forall i :: j < i < |b| ==> b[i] == a[i - 1];
  }

  lemma MultisetInsert<T>(a: seq<T>, j: nat, x: T)
    requires j <= |a|
    ensures multiset(a[..j] + [x] + a[j..]) == multiset(a) + multiset{x}
  {
    assert a == a[..j] + a[j..];
  }

  /** Reordering by a permutation keeps every element with its
      multiplicity. */
  lemma {:induction false} ReorderKeepsMultiset<T>(xs: seq<T>, order: seq<nat>)
    requires IsPermutation(order, |xs|)
    ensures forall i :: 0 <= i < |order| ==> order[i] < |xs|
    ensures multiset(Reorder(xs, order)) == multiset(xs)
  {
    PermutationIndices(order, |xs|);
    if xs != [] {
      var n := |xs| - 1;
      assert n in multiset(Range(n + 1)) by {
        assert Range(n + 1)[n] == n;
      }
      assert n in order;
      var j :| 0 <= j < |order| && order[j] == n;
      var rest := order[..j] + order[j + 1..];
      DropLargest(order, n, j);
      PermutationIndices(rest, n);
      var init := xs[..n];
      ReorderKeepsMultiset(init, rest);
      ReorderSplit(xs, order, j);
      MultisetInsert(Reorder(init, rest), j, xs[n]);
      assert xs == init + [xs[n]];
    }
  }
}
