/** The flower page's mutable state and its click handler, as objects.

    `Petal` objects carry their lifecycle field and are updated in place;
    `Flower` holds what the page keeps in module-level variables (the petal
    list, the attached counter, the result flag), the text element's
    properties the handler sets, and the callbacks it has scheduled with a
    delay and that have not run yet. Running one of those is an explicit
    step, `Fire`. */
module FlowerPage {
  import opened Pluck

  const NeutralColor: string := "#4a4a4a"
  const AccentColor: string := "#FF69B4"

  /** The properties of the text element the page writes. */
  datatype Display = Display(content: string, opacity: string, transform: string, color: string)

  class Petal {
    /** Position in creation order; the petal's base angle is
        `slot * 2 * pi / petalCount`. */
    const slot: nat
    /** Which phrase this petal shows when plucked. */
    const phraseIndex: nat
    var state: PetalState

    constructor (slot: nat, phraseIndex: nat)
      ensures this.slot == slot && this.phraseIndex == phraseIndex
      ensures state == Attached
    {
      this.slot := slot;
      this.phraseIndex := phraseIndex;
      new;
      Reset();
    }

    /** Puts the petal back on the flower. */
    method Reset()
      modifies this
      ensures state == Attached
    {
      state := Attached;
    }

    /** Detaches the petal; it falls from now on. */
    method Pluck()
      modifies this
      ensures state == Falling
    {
      state := Falling;
    }
  }

  /** A callback scheduled with a delay: hiding the text (800 ms after a
      pluck), revealing the final result (500 ms after the last pluck; it
      holds the petal plucked last), rebuilding the flower (1500 ms after the
      reveal). */
  datatype Deferred = HideText | RevealResult(petal: Petal) | Reinit

  /** `s` without its element at `k`. */
  function RemoveAt<T>(s: seq<T>, k: nat): (r: seq<T>)
    requires k < |s|
    ensures |r| == |s| - 1
    ensures forall i :: 0 <= i < k ==> r[i] == s[i]
    ensures forall i :: k <= i < |r| ==> r[i] == s[i + 1]
  {
    s[..k] + s[k + 1..]
  }

  /** The lifecycle states of a list of petals, in order. */
  ghost function StatesOf(ps: seq<Petal>): (r: seq<PetalState>)
    reads ps
    ensures |r| == |ps|
    ensures forall i :: 0 <= i < |ps| ==> r[i] == ps[i].state
  {
    seq(|ps|, i reads ps requires 0 <= i < |ps| => ps[i].state)
  }

  class Flower {
    const petalCount: nat
    var petals: seq<Petal>
    var activePetals: int
    var resultShown: bool
    var display: Display
    var pending: seq<Deferred>

    /** The page state reduced to petal lifecycles. */
    ghost function Abstract(): FlowerState
      reads this, petals
    {
      FlowerState(StatesOf(petals), activePetals, resultShown)
    }

    ghost predicate Valid()
      reads this, petals
    {
      && |petals| == petalCount
      && (forall i, j :: 0 <= i < j < |petals| ==> petals[i] != petals[j])
      && (forall i :: 0 <= i < |petals| ==> petals[i].slot == i && petals[i].phraseIndex == PhraseIndexFor(i))
      && 0 <= activePetals <= petalCount
      // petals are plucked in creation order
      && (forall i :: 0 <= i < |petals| ==> petals[i].state == if i < petalCount - activePetals then Falling else Attached)
      && (resultShown <==> petalCount > 0 && activePetals == 0)
      // only the last pluck schedules anything but a hide, and it closes the gate
      && (forall d :: d in pending && !d.HideText? ==> resultShown)
      && (forall d :: d in pending && d.RevealResult? ==> petalCount > 0 && d.petal == petals[petalCount - 1])
      && (forall i, j :: 0 <= i < j < |pending| ==> pending[i].HideText? || pending[j].HideText?)
    }

    /** Every valid page state is a state of the round. */
    lemma ValidIsInRound()
      requires Valid()
      ensures InRound(Abstract(), petalCount)
    {
      assert StatesOf(petals) == Layout(petalCount, petalCount - activePetals);
    }

    /** Page load: the state variables get their initial values, then the
        flower is built. */
    constructor (petalCount: nat, initial: Display)
      ensures Valid()
      ensures this.petalCount == petalCount
      ensures Abstract() == Initial(petalCount)
      ensures forall i :: 0 <= i < |petals| ==> fresh(petals[i])
      ensures display == initial.(color := NeutralColor) && pending == []
    {
      this.petalCount := petalCount;
      petals := [];
      activePetals := petalCount;
      resultShown := false;
      display := initial;
      pending := [];
      new;
      InitFlower();
    }

    /** Rebuilds the petal list with fresh attached petals whose phrase
        indices alternate from 0, fills the counter and clears the flag. */
    method InitFlower()
      requires forall d :: d in pending ==> d.HideText?
      modifies this
      ensures Valid()
      ensures Abstract() == Initial(petalCount)
      ensures forall i :: 0 <= i < |petals| ==> fresh(petals[i])
      ensures display == old(display).(color := NeutralColor) && pending == old(pending)
    {
      petals := [];
      var i := 0;
      while i < petalCount
        invariant 0 <= i <= petalCount && |petals| == i
        invariant forall j :: 0 <= j < i ==> fresh(petals[j])
        invariant forall j, k :: 0 <= j < k < i ==> petals[j] != petals[k]
        invariant forall j :: 0 <= j < i ==> petals[j].state == Attached
        invariant forall j :: 0 <= j < i ==> petals[j].slot == j && petals[j].phraseIndex == PhraseIndexFor(j)
        invariant display == old(display) && pending == old(pending)
      {
        var p := new Petal(i, PhraseIndexFor(i));
        petals := petals + [p];
        i := i + 1;
      }
      activePetals := petalCount;
      resultShown := false;
      display := display.(color := NeutralColor);
      assert StatesOf(petals) == Layout(petalCount, 0);
    }

    /** The linear search for the first attached petal. */
    method FindNext() returns (r: Option<nat>)
      ensures r == FirstAttached(StatesOf(petals))
      ensures r.Some? ==> r.value < |petals| && petals[r.value].state == Attached
      ensures r.Some? ==> forall j :: 0 <= j < r.value ==> petals[j].state == Falling
      ensures r.None? ==> forall j :: 0 <= j < |petals| ==> petals[j].state == Falling
    {
      var i := 0;
      while i < |petals|
        invariant 0 <= i <= |petals|
        invariant forall j :: 0 <= j < i ==> petals[j].state == Falling
      {
        if petals[i].state == Attached {
          return Some(i);
        }
        i := i + 1;
      }
      return None;
    }

    /** The click handler: an accepted click finds the first attached
        petal and plucks it. Returns the phrase shown, if any. */
    method Click() returns (shown: Option<string>)
      requires Valid()
      modifies this, petals
      ensures Valid()
      ensures petals == old(petals)
      ensures Abstract() == AfterClick(old(Abstract()))
      ensures !old(activePetals > 0 && !resultShown) ==> shown == None && unchanged(this) && unchanged(petals)
      ensures old(activePetals > 0 && !resultShown) ==>
        var k := petalCount - old(activePetals);
        var phrase := Phrases[PhraseIndexFor(k)];
        && old(Plucked(Abstract())) == Some(k)
        && shown == Some(phrase)
        && activePetals == old(activePetals) - 1 && (resultShown <==> activePetals == 0)
        && display == old(display).(content := phrase, opacity := "1", transform := "translateY(0)")
        && pending == old(pending) + [HideText] + (if activePetals == 0 then [RevealResult(petals[k])] else [])
    {
      shown := None;
      ghost var before := Abstract();
      ValidIsInRound();
      ClickStaysInRound(before, petalCount);
      if activePetals > 0 && !resultShown {
        var next := FindNext();
        if next.Some? {
          shown := PluckAt(next.value);
          assert StatesOf(petals) == before.states[next.value := Falling];
        }
      }
    }

    /** What an accepted click does with the petal it found: plucks it,
        lowers the counter, shows the petal's phrase and schedules the hide;
        when no petal is left it also closes the gate and schedules the
        reveal. */
    method PluckAt(k: nat) returns (shown: Option<string>)
      requires Valid() && activePetals > 0 && !resultShown
      requires k < |petals| && petals[k].state == Attached
      requires forall j :: 0 <= j < k ==> petals[j].state == Falling
      modifies this, petals
      ensures Valid()
      ensures petals == old(petals) && k == petalCount - old(activePetals)
      ensures petals[k].state == Falling
      ensures forall i :: 0 <= i < |petals| && i != k ==> petals[i].state == old(petals[i].state)
      ensures activePetals == old(activePetals) - 1 && (resultShown <==> activePetals == 0)
      ensures shown == Some(Phrases[PhraseIndexFor(k)])
      ensures display == old(display).(content := Phrases[PhraseIndexFor(k)], opacity := "1", transform := "translateY(0)")
      ensures pending == old(pending) + [HideText] + (if activePetals == 0 then [RevealResult(petals[k])] else [])
    {
      assert petals[petalCount - activePetals].state == Attached;
      var p := petals[k];
      p.Pluck();
      activePetals := activePetals - 1;
      var phrase := Phrases[p.phraseIndex];
      display := display.(content := phrase, opacity := "1", transform := "translateY(0)");
      shown := Some(phrase);
      if activePetals == 0 {
        resultShown := true;
        pending := pending + [HideText] + [RevealResult(p)];
      } else {
        pending := pending + [HideText];
      }
    }

    /** Runs the scheduled callback at position `k` of the pending list and
        removes it from the list. */
    method Fire(k: nat)
      requires Valid() && k < |pending|
      modifies this, petals
      ensures Valid()
      ensures old(pending[k]).HideText? ==>
        && petals == old(petals) && Abstract() == old(Abstract())
        && display == old(display).(opacity := "0", transform := "translateY(15px)")
        && pending == RemoveAt(old(pending), k)
      ensures old(pending[k]).RevealResult? ==>
        && petalCount > 0
        && petals == old(petals) && Abstract() == old(Abstract())
        && display == old(display).(content := FinalText(petalCount), opacity := "1",
                                    color := AccentColor, transform := "scale(1.15)")
        && pending == RemoveAt(old(pending), k) + [Reinit]
      ensures old(pending[k]).Reinit? ==>
        && Abstract() == Initial(petalCount)
        && (forall i :: 0 <= i < |petals| ==> fresh(petals[i]))
        && display == old(display).(color := NeutralColor)
        && pending == RemoveAt(old(pending), k)
    {
      var d := pending[k];
      var rest := RemoveAt(pending, k);
      assert forall e :: e in rest ==> e in pending;
      match d
      case HideText =>
        display := display.(opacity := "0", transform := "translateY(15px)");
        pending := rest;
      case RevealResult(p) =>
        display := display.(content := Phrases[p.phraseIndex] + "!", opacity := "1",
                            color := AccentColor, transform := "scale(1.15)");
        assert forall e :: e in rest ==> e.HideText? by {
          forall i | 0 <= i < |rest| ensures rest[i].HideText? {
            if i < k { assert pending[i] == rest[i]; } else { assert pending[i + 1] == rest[i]; }
          }
        }
        pending := rest + [Reinit];
      case Reinit =>
        assert forall e :: e in rest ==> e.HideText? by {
          forall i | 0 <= i < |rest| ensures rest[i].HideText? {
            if i < k { assert pending[i] == rest[i]; } else { assert pending[i + 1] == rest[i]; }
          }
        }
        pending := rest;
        InitFlower();
    }
  }

  /** A full round on a fresh page with `n` petals: `n` clicks, each shown
      phrase in turn, then the reveal. The phrases alternate starting with
      "Loves me", and the final text is the last phrase with "!". */
  method Round(n: nat) returns (shown: seq<string>, finalText: string)
    requires n > 0
    ensures shown == RoundPhrases(n)
    ensures finalText == FinalText(n)
  {
    var f := new Flower(n, Display("", "0", "translateY(15px)", NeutralColor));
    shown := [];
    ghost var petals := f.petals;
    while |shown| < n - 1
      invariant |shown| <= n - 1
      invariant f.Valid() && f.petalCount == n && f.petals == petals
      invariant f.activePetals == n - |shown|
      invariant forall d :: d in f.pending ==> d.HideText?
      invariant shown == RoundPhrases(|shown|)
    {
      var s := f.Click();
      shown := shown + [s.value];
    }
    var s := f.Click();
    shown := shown + [s.value];
    f.Fire(|f.pending| - 1);
    finalText := f.display.content;
  }
}
