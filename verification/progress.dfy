/** Properties of whole runs of the session controller: the state
    invariant across every event, the "Words learned" counter and the
    completion trigger, and walking the deck with Next.
 */
module Progress {
  import opened Deck
  import opened Session

  /** The indices of a deck of `n` cards. */
  function Indices(n: nat): (r: set<nat>)
    ensures forall i: nat :: i in r <==> i < n
    ensures |r| == n
  {
    if n == 0 then {} else Indices(n - 1) + {n - 1}
  }

  /** While `visited` holds only indices of the deck, the "Words learned"
      counter never exceeds the number of cards, and the completion trigger
      fires exactly when every card has been visited. */
  lemma CompletedIffAllVisited(s: Session)
    requires InDeck(s.visited, |s.deck|)
    ensures Learned(s) <= |s.deck|
    ensures Completed(s) <==> forall i :: 0 <= i < |s.deck| ==> i in s.visited
  {
    var all := Indices(|s.deck|);
    assert s.visited <= all;
    assert |all - s.visited| == |all| - |s.visited|;
    if Completed(s) {
      assert all - s.visited == {};
      forall i | 0 <= i < |s.deck|
        ensures i in s.visited
      {
        assert i in all;
      }
    }
    if forall i :: 0 <= i < |s.deck| ==> i in s.visited {
      assert all <= s.visited;
    }
  }

  /** Every event keeps the state invariant. */
  lemma StepPreservesValid(s: Session, catalog: seq<Card>, e: Event)
    requires Valid(s) && Enabled(s, catalog, e)
    ensures Valid(Step(s, catalog, e).session)
  {
  }

  /** Every timer keeps the state invariant. */
  lemma FirePreservesValid(s: Session, catalog: seq<Card>, p: Pending)
    requires Valid(s) && CanFire(s, catalog, p)
    ensures Valid(Fire(s, catalog, p).session)
  {
  }

  /** Between deck replacements the deck stays put and `visited` only
      grows; Shuffle and New Set restart it at the first card. Played words
      are never forgotten. */
  lemma StepVisited(s: Session, catalog: seq<Card>, e: Event)
    requires Enabled(s, catalog, e)
    ensures var r := Step(s, catalog, e).session;
            && s.played <= r.played
            && (e.Reshuffle? || e.DrawNewSet? ==> r.pos == 0 && r.visited == {0} && Learned(r) == 1)
            && (!e.Reshuffle? && !e.DrawNewSet? ==> r.deck == s.deck && s.visited <= r.visited)
  {
  }

  // ---------------------------------------------------------------------
  // Walking the deck with Next
  // ---------------------------------------------------------------------

  /** `k` successive Next steps. */
  function Walk(s: Session, k: nat): (r: Session)
    requires |s.deck| > 0
    ensures r.deck == s.deck
    ensures s.visited <= r.visited && s.played <= r.played
  {
    if k == 0 then s else Next(Walk(s, k - 1))
  }

  /** The index `j` places after `p` round a deck of `n` cards, for
      `p < n` and `j <= n`: that is, `(p + j) % n`. */
  function Offset(p: nat, j: nat, n: nat): (r: nat)
    requires p < n && j <= n
    ensures r < n
  {
    if p + j < n then p + j else p + j - n
  }

  /** After `k` Next steps the card on screen is `k` places further round
      the deck. */
  lemma {:induction false} WalkPosition(s: Session, k: nat)
    requires s.pos < |s.deck| && k <= |s.deck|
    ensures Walk(s, k).pos == Offset(s.pos, k, |s.deck|)
  {
    if k > 0 {
      WalkPosition(s, k - 1);
    }
  }

  /** `n` Next steps on a deck of `n` cards come back to the start. */
  lemma WalkRoundTrip(s: Session)
    requires s.pos < |s.deck|
    ensures Walk(s, |s.deck|).pos == s.pos
  {
    WalkPosition(s, |s.deck|);
  }

  /** Each of the `k` cards passed on the way is visited. */
  lemma {:induction false} WalkVisits(s: Session, k: nat)
    requires s.pos < |s.deck| && k <= |s.deck|
    ensures forall j :: 0 < j <= k ==> Offset(s.pos, j, |s.deck|) in Walk(s, k).visited
  {
    if k > 0 {
      WalkVisits(s, k - 1);
      WalkPosition(s, k);
    }
  }

  /** From a valid state, `n - 1` Next steps visit every card of a deck of
      `n`, so the completion trigger fires. */
  lemma WalkCompletes(s: Session)
    requires Valid(s)
    ensures Completed(Walk(s, |s.deck| - 1))
  {
    var k := |s.deck| - 1;
    var r := Walk(s, k);
    WalkVisitsAll(s, k);
    WalkStaysInDeck(s, k);
    CoversAll(r);
  }

  /** A state that visited every index of its deck, and nothing else, is
      completed. */
  lemma CoversAll(r: Session)
    requires InDeck(r.visited, |r.deck|)
    requires forall i :: 0 <= i < |r.deck| ==> i in r.visited
    ensures Completed(r)
  {
    CompletedIffAllVisited(r);
  }

  /** Every card other than the starting one is some number of Next steps
      away, fewer than the deck size. */
  lemma WalkVisitsAll(s: Session, k: nat)
    requires Valid(s) && k == |s.deck| - 1
    ensures forall i :: 0 <= i <= k ==> i in Walk(s, k).visited
  {
    var n := |s.deck|;
    var r := Walk(s, k);
    WalkVisits(s, k);
    forall i | 0 <= i < n
      ensures i in r.visited
    {
      if i > s.pos {
        assert Offset(s.pos, i - s.pos, n) == i;
      } else if i < s.pos {
        assert Offset(s.pos, n - s.pos + i, n) == i;
      }
    }
  }

  lemma {:induction false} WalkStaysInDeck(s: Session, k: nat)
    requires |s.deck| > 0 && InDeck(s.visited, |s.deck|)
    ensures InDeck(Walk(s, k).visited, |s.deck|)
  {
    if k > 0 {
      WalkStaysInDeck(s, k - 1);
    }
  }
}
