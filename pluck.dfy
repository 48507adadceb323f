/** The discrete part of the flower page's pluck logic, on values.

    A flower is an ordered list of petal lifecycle states (creation order is
    angular order), the counter of petals still attached, and the flag that
    closes the click gate once the last petal has been plucked. This module
    gives the reference definitions the imperative model in FlowerPage is
    proved against, and the lemmas about a whole round of plucking. */
module Pluck {

  datatype Option<T> = None | Some(value: T)

  /** A petal is either still on the flower or has been plucked. There is no
      transition back except by rebuilding the flower. */
  datatype PetalState = Attached | Falling

  /** The two phrases a plucked petal can show. */
  const Phrases: seq<string> := ["Loves me", "Loves me not"]

  /** The petal count the page is configured with. */
  const DefaultPetalCount: nat := 11

  /** The phrase index given to the petal created at position `i`. */
  function PhraseIndexFor(i: nat): (r: nat)
    ensures r < |Phrases|
  {
    i % 2
  }

  /** Number of attached petals. */
  function CountAttached(s: seq<PetalState>): (n: nat)
    ensures n <= |s|
    ensures n == 0 <==> forall i :: 0 <= i < |s| ==> s[i] == Falling
  {
    if s == [] then 0
    else
      var rest := CountAttached(s[1..]);
      assert forall i :: 1 <= i < |s| ==> s[i] == s[1..][i - 1];
      (if s[0] == Attached then 1 else 0) + rest
  }

  /** The position of the first attached petal in creation order, as the
      page's linear search finds it; None when every petal is falling. */
  function FirstAttached(s: seq<PetalState>): (r: Option<nat>)
    ensures r.Some? ==> r.value < |s| && s[r.value] == Attached
    ensures r.Some? ==> forall j :: 0 <= j < r.value ==> s[j] == Falling
    ensures r.None? <==> forall j :: 0 <= j < |s| ==> s[j] == Falling
  {
    if s == [] then None
    else if s[0] == Attached then Some(0)
    else
      match FirstAttached(s[1..])
      case None =>
        assert s[0] == Falling;
        assert forall j :: 1 <= j < |s| ==> s[j] == s[1..][j - 1];
        None
      case Some(k) =>
        assert forall j :: 1 <= j <= k + 1 ==> s[j] == s[1..][j - 1];
        Some(k + 1)
  }

  /** The flower after `k` of its `n` petals have been plucked in creation
      order: the first `k` are falling, the rest attached. */
  function Layout(n: nat, k: nat): seq<PetalState>
  {
    seq(n, i => if i < k then Falling else Attached)
  }

  /** The page's animation state, petals reduced to their lifecycle. */
  datatype FlowerState = FlowerState(states: seq<PetalState>, activePetals: int, resultShown: bool)

  /** The state the initialiser builds for `n` petals. */
  function Initial(n: nat): (f: FlowerState)
    ensures |f.states| == n && forall i :: 0 <= i < n ==> f.states[i] == Attached
    ensures f.activePetals == n && !f.resultShown
  {
    FlowerState(Layout(n, 0), n, false)
  }

  /** The click gate: a click is accepted only while petals remain and the
      final result has not been shown. */
  predicate Accepts(f: FlowerState): (b: bool)
    ensures Consistent(f) ==> (b <==> !f.resultShown && FirstAttached(f.states).Some?)
  {
    f.activePetals > 0 && !f.resultShown
  }

  /** The petal a click plucks, if the click is accepted and one is found. */
  function Plucked(f: FlowerState): (r: Option<nat>)
    ensures r.Some? ==> Accepts(f) && r.value < |f.states| && f.states[r.value] == Attached
    ensures r.Some? ==> forall j :: 0 <= j < r.value ==> f.states[j] == Falling
  {
    if Accepts(f) then FirstAttached(f.states) else None
  }

  /** The state after one click. */
  function AfterClick(f: FlowerState): (g: FlowerState)
    ensures |g.states| == |f.states|
    ensures Plucked(f).None? ==> g == f
    ensures Plucked(f).Some? ==>
      && g.states == f.states[Plucked(f).value := Falling]
      && g.activePetals == f.activePetals - 1
      && (g.resultShown <==> g.activePetals == 0 || f.resultShown)
  {
    match Plucked(f)
    case None => f
    case Some(k) =>
      var active := f.activePetals - 1;
      FlowerState(f.states[k := Falling], active, if active == 0 then true else f.resultShown)
  }

  /** The state after `m` further clicks. */
  function Clicks(f: FlowerState, m: nat): FlowerState
    decreases m
  {
    if m == 0 then f else Clicks(AfterClick(f), m - 1)
  }

  /** The counter agrees with the petals and the flag is only set once no
      petal is left. */
  predicate Consistent(f: FlowerState)
  {
    f.activePetals == CountAttached(f.states) && (f.resultShown ==> f.activePetals == 0)
  }

  /** The states a round can be in: some prefix of the `n` petals has been
      plucked, the counter says how many are left, and the flag is set
      exactly when the last one is gone. */
  predicate InRound(f: FlowerState, n: nat)
  {
    && 0 <= f.activePetals <= n
    && f.states == Layout(n, n - f.activePetals)
    && (f.resultShown <==> n > 0 && f.activePetals == 0)
  }

  /** Plucking one attached petal lowers the attached count by exactly one. */
  lemma {:induction false} CountAfterPluck(s: seq<PetalState>, k: nat)
    requires k < |s| && s[k] == Attached
    ensures CountAttached(s[k := Falling]) == CountAttached(s) - 1
  {
    if k > 0 {
      assert s[k := Falling][1..] == s[1..][k - 1 := Falling];
      CountAfterPluck(s[1..], k - 1);
    } else {
      assert s[k := Falling][1..] == s[1..];
    }
  }

  /** Of the petals in a layout with `k` plucked, `n - k` are attached. */
  lemma {:induction false} CountLayout(n: nat, k: nat)
    requires k <= n
    ensures CountAttached(Layout(n, k)) == n - k
  {
    if n > 0 {
      if k > 0 {
        assert Layout(n, k)[1..] == Layout(n - 1, k - 1);
        CountLayout(n - 1, k - 1);
      } else {
        assert Layout(n, k)[1..] == Layout(n - 1, 0);
        CountLayout(n - 1, 0);
      }
    }
  }

  /** The state the initialiser builds is the start of a round, and its
      counter agrees with the petals. */
  lemma InitialStartsRound(n: nat)
    ensures InRound(Initial(n), n) && Consistent(Initial(n))
  {
    CountLayout(n, 0);
  }

  /** Every state of a round keeps the counter equal to the number of
      attached petals, so the counter is never negative. */
  lemma InRoundIsConsistent(f: FlowerState, n: nat)
    requires InRound(f, n)
    ensures Consistent(f) && f.activePetals >= 0
  {
    CountLayout(n, n - f.activePetals);
  }

  /** A click on a closed gate changes nothing. */
  lemma ClosedGateIgnoresClick(f: FlowerState)
    requires !Accepts(f)
    ensures AfterClick(f) == f && Plucked(f) == None
  {
  }

  /** On a consistent state, an accepted click plucks the lowest-index
      attached petal and only it, and lowers the counter by exactly one. */
  lemma AcceptedClickPlucksFirst(f: FlowerState)
    requires Consistent(f) && Accepts(f)
    ensures Plucked(f).Some?
    ensures var k := Plucked(f).value;
      && f.states[k] == Attached
      && (forall j :: 0 <= j < k ==> f.states[j] == Falling)
      && AfterClick(f).states == f.states[k := Falling]
      && AfterClick(f).activePetals == f.activePetals - 1
      && (AfterClick(f).resultShown <==> AfterClick(f).activePetals == 0)
  {
  }

  /** The lifecycle is one-way: a click never puts a falling petal back. */
  lemma ClickNeverReattaches(f: FlowerState)
    ensures forall i :: 0 <= i < |f.states| && f.states[i] == Falling ==> AfterClick(f).states[i] == Falling
    ensures CountAttached(AfterClick(f).states) <= CountAttached(f.states)
  {
    match Plucked(f)
    case None =>
    case Some(k) => CountAfterPluck(f.states, k);
  }

  /** Clicking keeps the counter consistent with the petals. */
  lemma ClickPreservesConsistent(f: FlowerState)
    requires Consistent(f)
    ensures Consistent(AfterClick(f))
  {
    match Plucked(f)
    case None =>
    case Some(k) => CountAfterPluck(f.states, k);
  }

  /** A click in a round plucks petal `n - activePetals`, the next one in
      creation order, and leaves the flower in the round. */
  lemma ClickStaysInRound(f: FlowerState, n: nat)
    requires InRound(f, n)
    ensures Accepts(f) ==> Plucked(f) == Some(n - f.activePetals)
    ensures InRound(AfterClick(f), n)
  {
    if Accepts(f) {
      var k := n - f.activePetals;
      assert f.states[k] == Attached;
      assert Plucked(f) == Some(k);
      assert f.states[k := Falling] == Layout(n, k + 1);
    } else {
      InRoundIsConsistent(f, n);
    }
  }

  /** From a freshly built flower of `n` petals, the first `m` clicks pluck
      petals 0, 1, ..., m - 1 in that order, and the result flag is set
      exactly when all `n` are gone. */
  lemma {:induction false} RoundFromInitial(n: nat, m: nat)
    requires m <= n
    ensures Clicks(Initial(n), m) == FlowerState(Layout(n, m), n - m, n > 0 && m == n)
    ensures m < n ==> Plucked(Clicks(Initial(n), m)) == Some(m)
  {
    if m > 0 {
      RoundFromInitial(n, m - 1);
      var f := Clicks(Initial(n), m - 1);
      ClickStaysInRound(f, n);
      assert AfterClick(f).states == Layout(n, m);
      ClicksSplit(Initial(n), m - 1);
    }
    ClickStaysInRound(Clicks(Initial(n), m), n);
  }

  /** `m + 1` clicks are `m` clicks followed by one more. */
  lemma {:induction false} ClicksSplit(f: FlowerState, m: nat)
    ensures Clicks(f, m + 1) == AfterClick(Clicks(f, m))
    decreases m
  {
    if m > 0 {
      ClicksSplit(AfterClick(f), m - 1);
    }
  }

  /** The phrases the clicks of one round show, in order, for its first
      `m` clicks. */
  function RoundPhrases(m: nat): seq<string>
  {
    if m == 0 then [] else RoundPhrases(m - 1) + [Phrases[PhraseIndexFor(m - 1)]]
  }

  /** The phrases of a round alternate, starting with "Loves me". */
  lemma {:induction false} RoundPhrasesAlternate(m: nat)
    ensures |RoundPhrases(m)| == m
    ensures forall i :: 0 <= i < m ==> RoundPhrases(m)[i] == Phrases[i % 2]
    ensures forall i :: 0 <= i < m ==> RoundPhrases(m)[i] == (if i % 2 == 0 then "Loves me" else "Loves me not")
  {
    if m > 0 {
      RoundPhrasesAlternate(m - 1);
    }
  }

  /** The text revealed at the end of a round of `n` petals: the last
      petal's phrase with an exclamation mark. */
  function FinalText(n: nat): (r: string)
    requires n > 0
    ensures r == if n % 2 == 1 then "Loves me!" else "Loves me not!"
  {
    Phrases[PhraseIndexFor(n - 1)] + "!"
  }

  /** The last click of a round plucks petal `n - 1` and closes the gate,
      and the revealed text repeats the phrase that click showed. */
  lemma LastClickOfRound(n: nat)
    requires n > 0
    ensures Plucked(Clicks(Initial(n), n - 1)) == Some(n - 1)
    ensures Clicks(Initial(n), n).resultShown && !Accepts(Clicks(Initial(n), n))
    ensures |RoundPhrases(n)| == n && FinalText(n) == RoundPhrases(n)[n - 1] + "!"
  {
    RoundFromInitial(n, n - 1);
    RoundFromInitial(n, n);
    RoundPhrasesAlternate(n);
  }

  /** With the configured eleven petals the round always ends on "Loves me!". */
  lemma DefaultRoundEndsLovesMe()
    ensures FinalText(DefaultPetalCount) == "Loves me!"
  {
  }
}
