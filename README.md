# Flower pluck state machine

A model of the interactive core of the "loves me, loves me not" flower page
(`js/script.js`). The page draws a flower of `petalCount` petals (11 by
default). Each accepted click plucks the first petal still attached, in
creation order, and shows that petal's phrase. Petal phrases alternate
between "Loves me" and "Loves me not", starting with "Loves me". The click
that plucks the last petal closes the click gate. Half a second later it
reveals the same phrase with "!" in an accent colour, and 1.5 seconds after
that the flower is rebuilt.

The project has two modules:

- `Pluck` (`pluck.dfy`) is the reference definition on values. It holds the
  petal lifecycle (`Attached` / `Falling`), the page state reduced to
  petal states plus the counter and the flag (`FlowerState`), the click
  transition `AfterClick`, and the lemmas about one click and about whole
  rounds.
- `FlowerPage` (`flower_page.dfy`) is the imperative model. `Petal` objects
  carry a `state` field that `Reset` and `Pluck` overwrite in place.
  `Flower` holds what the page keeps in module-level variables: the petal
  list, `activePetals` and `resultShown`. It also holds the text element's
  properties (`display`) and the delayed callbacks that have been scheduled
  but have not run yet (`pending`). `InitFlower` rebuilds the list with a
  loop of fresh petals. `Click` is the click handler; its linear search
  for the first attached petal is the loop in `FindNext`. `Fire(k)` runs
  one pending callback. `Click` ties the new state to
  `Pluck.AfterClick` of the old one through `Abstract()`; `InitFlower`, the
  constructor and the rebuild step of `Fire` tie it to `Pluck.Initial`; the
  hide and reveal steps of `Fire` leave `Abstract()` unchanged. `PluckAt`,
  the body of an accepted click, states the new petal states, counter and
  flag field by field. Every `Flower` method ends in `Valid()`. The
  `Petal` methods only state the petal's new lifecycle state.

Timing becomes explicit steps. A `setTimeout` callback is a `Deferred`
value appended to `pending`: `HideText` (800 ms after every pluck),
`RevealResult(petal)` (500 ms after the last pluck; it holds the plucked
petal, as the page's closure does), and `Reinit` (1500 ms after the
reveal). `Fire` may run any pending callback. The model therefore admits
every order the event loop could produce, and more.

The hide callbacks are never cancelled. That includes the one scheduled by
the last pluck, which the page runs 300 ms after the reveal. The model
keeps this behaviour: `Fire` on that `HideText` sets the final text's
opacity back to `"0"`.

`petalCount` is a parameter of `Flower`'s constructor. The page's value is
`Pluck.DefaultPetalCount` (11).

## Model

| member | source | states |
|---|---|---|
| `Pluck.PhraseIndexFor` | js/script.js:107-108 | the phrase index given to the petal created at position `i` is always a valid index into the two-phrase table |
| `Pluck.CountAttached` | js/script.js:110 | the attached count never exceeds the number of petals, and it is zero exactly when every petal is falling |
| `Pluck.FirstAttached` | js/script.js:163 | reference definition of the search: the result is an attached petal with only falling petals before it, and it is None exactly when no petal is attached |
| `Pluck.Plucked` | js/script.js:162-163 | a click plucks a petal only when the gate is open (`activePetals > 0` and `!resultShown`), and that petal is the first attached one |
| `Pluck.AfterClick` | js/script.js:162-166 | a click keeps the number of petals; with nothing to pluck it changes nothing; otherwise exactly the plucked petal becomes falling, the counter drops by one and the flag is set iff the counter reached zero |
| `Pluck.Initial` | js/script.js:104-111 | the state the initialiser builds for `n` petals: exactly `n` petals, all attached, a counter of `n` and a clear flag |
| `Pluck.Accepts` | js/script.js:162-163 | the click gate `activePetals > 0 && !resultShown`; on a consistent state it is open exactly when the result is not shown and the search for an attached petal succeeds, so an accepted click always finds a petal |
| `Pluck.CountAfterPluck` | js/script.js:165-166 | turning one attached petal to falling lowers the attached count by exactly one |
| `Pluck.CountLayout` | js/script.js:107-110 | after `k` of `n` petals are plucked in creation order, exactly `n - k` are attached |
| `Pluck.InitialStartsRound` | js/script.js:104-111 | the state the initialiser builds is the start of a round, and its counter equals the number of attached petals |
| `Pluck.InRoundIsConsistent` | js/script.js:110-111 | in every state of a round the counter equals the number of attached petals and is never negative, and the flag implies a zero counter |
| `Pluck.ClosedGateIgnoresClick` | js/script.js:162 | a click with a zero counter or with the result shown changes no petal, counter or flag and plucks nothing |
| `Pluck.AcceptedClickPlucksFirst` | js/script.js:162-166 | on a consistent state an accepted click always finds a petal, plucks the lowest-index attached one and only it, and decrements the counter by one |
| `Pluck.ClickNeverReattaches` | js/script.js:49-53 | a click never turns a falling petal back to attached and never raises the attached count |
| `Pluck.ClickPreservesConsistent` | js/script.js:162-166 | a click preserves the invariant that the counter equals the number of attached petals |
| `Pluck.ClickStaysInRound` | js/script.js:162-179 | in a round, an accepted click plucks petal `n - activePetals`, and the next state is again in the round |
| `Pluck.RoundFromInitial` | js/script.js:104-111 | from a fresh flower, click number `m` plucks petal `m`; after `m` clicks the first `m` petals are falling, the counter is `n - m`, and the flag is set exactly when `m == n` |
| `Pluck.RoundPhrasesAlternate` | js/script.js:169 | the phrases shown over a round are `phrases[i % 2]`: "Loves me", "Loves me not", and so on |
| `Pluck.FinalText` | js/script.js:181 | the revealed text of a round of `n` petals, the last petal's phrase with "!", is "Loves me!" for odd `n` and "Loves me not!" for even `n` |
| `Pluck.LastClickOfRound` | js/script.js:178-181 | the last click of a round plucks petal `n - 1`, sets the flag and closes the gate, and the revealed text is the phrase that click showed followed by "!" |
| `Pluck.DefaultRoundEndsLovesMe` | js/script.js:17 | with the configured 11 petals the final text is "Loves me!" |
| `FlowerPage.Petal.constructor` | js/script.js:33-37 | a new petal keeps its creation slot and phrase index and starts attached |
| `FlowerPage.Petal.Reset` | js/script.js:39-50 | reset puts the petal in the attached state |
| `FlowerPage.Petal.Pluck` | js/script.js:52-53 | pluck puts the petal in the falling state |
| `FlowerPage.Flower.ValidIsInRound` | js/script.js:26-30 | every valid page state, reduced to petal states, is a state of a round |
| `FlowerPage.Flower.constructor` | js/script.js:26-30 | page load sets up the state variables and builds the flower (the `initFlower()` call at js/script.js:192): valid, all `petalCount` petals fresh and attached, counter full, flag clear, neutral text colour, nothing scheduled |
| `FlowerPage.Flower.InitFlower` | js/script.js:104-113 | rebuilds the list with `petalCount` fresh attached petals; petal `i` has slot `i` and phrase index `i % 2`; the counter is full, the flag clear and the text colour neutral; the state is `Initial(petalCount)` |
| `FlowerPage.Flower.FindNext` | js/script.js:163 | the loop returns the index of the first attached petal (only falling ones before it), or None when none is attached, in agreement with `FirstAttached` |
| `FlowerPage.Flower.Click` | js/script.js:161-190 | the new abstract state is `AfterClick` of the old one; with the gate closed nothing changes and nothing is shown; otherwise petal `petalCount - activePetals` is plucked, its phrase is shown and returned, the counter drops by one, the flag is set iff it reached zero, a hide is scheduled, and the reveal of that petal too when it was the last |
| `FlowerPage.Flower.PluckAt` | js/script.js:164-187 | the body of an accepted click on the petal found: that petal alone becomes falling, the counter decrements, the display shows `phrases[phraseIndex]`, and the hide (plus the reveal when none is left) is scheduled |
| `FlowerPage.Flower.Fire` | js/script.js:172-186 | running a hide clears the text's opacity and changes nothing else; running the reveal shows `FinalText(petalCount)` in the accent colour at full opacity and schedules the rebuild; running the rebuild brings back all petals fresh and attached with the counter full; the invariant holds in each case |
| `FlowerPage.Round` | js/script.js:161-190 | a whole round on a fresh page of `n` petals through the imperative model: the `n` clicks show `RoundPhrases(n)` in order, and the reveal shows `FinalText(n)` |

## Left out

- Canvas rendering (`Petal.draw`, `drawCenter`, `drawStem` and the draw order in `animate`): these only draw on a 2D context and hold no state the click logic reads.
- Petal physics. The velocity set in `pluck`, and `update`'s gravity, drag, rotation, scale floor and alpha fade, are floating-point arithmetic that also calls `Math.random`. `update` never touches the lifecycle state, so it is omitted.
- Petal geometry in `reset` (position and rotation from `Math.cos`/`Math.sin`) and the viewport-derived flower centre. The base angle appears only through `Petal.slot`, its position in creation order.
- `animate`'s endless `requestAnimationFrame` loop: it does not change the lifecycle state.
- Wall-clock timing of the `setTimeout` callbacks. `Flower.Fire` may run any pending callback in any order. The page's real order (hides in click order, the rebuild after the reveal) is one of the orders the model allows.
- FlowerPage.Flower.Fire: does not promise that callbacks run in delay order, because the model holds no clock.
- The text element's initial content and style before the first click come from the page's HTML, which is not part of this model. They are a constructor parameter.
- The transitions' easing and duration on the text element: they belong to the browser's style engine.
- `resizeCanvas` and the event-listener wiring: browser input and output.
