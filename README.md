# Polygon lesson: game-session model

A Dafny model of the game logic in `script.js` of a children's lesson on polygons.
The lesson is a three-step wizard with a progress bar. Step 2 is an identification
game: the child clicks the shapes that are polygons. Step 3 is a classification
game: the child drags shapes onto zones labelled by side count. A restart button
puts everything back.

The script keeps its state in module-level globals (`currentStep`,
`identificationScore`, `classificationScore`) and in CSS classes on page elements
(`correct`/`incorrect` on clickable shapes, `active`/`completed` on progress
steps). The model turns these into typed state:

- `wizard.dfy`, module `Wizard`. The progress-step status rule (`ProgressStatus`)
  is a pure comparison of a step's 1-based position with the current step.
  `Bar` is a whole refreshed progress bar. The lemmas count the statuses on a bar.
- `rules.dfy`, module `GameRules`. The session as a value (`Session`), the events
  the page reacts to (`Event`), one function per event, `Apply`/`Run` to replay
  events, and the invariant `Inv` every reachable session keeps.
- `properties.dfy`, module `SessionProperties`. The promises of the script, proved
  about `Apply` and `Run`: step bounds, exactly one active step, at-most-once
  scoring per polygon, what a drop scores, and what a restart restores.
- `script.dfy`, module `Script`. The class `Game` holds the globals as fields, the
  clickable shapes as a `map`, the draggable pool and the drop areas as `seq`s,
  and the progress bar as an `array<Status>` that is updated in place.
  Each event handler is a method whose new state is proved to be `Apply` of the
  old state, and which keeps `Valid()`.

The clickable shapes, which of them are polygons, and the draggables present at
page load all come from the page markup, which is not part of this model. They are
parameters of `Game`'s constructor and of `GameRules.Initial`. The 1000 ms timer
that removes an "incorrect" mark is the explicit event `ClearIncorrect`.

Two behaviours of the script shape the model:

- The code does not lock a wrongly clicked shape for good. Its "incorrect" mark is
  removed again after the timer, and the shape can then be clicked again.
- The completion check and its celebration run again after every handled click or
  scoring drop once the threshold is reached, not only once.

## Model

| member | source | states |
|---|---|---|
| `Wizard.ProgressStatus` | script.js:44-55 | A progress step is completed exactly when its position is below the current step, active exactly when equal, pending exactly when above; the three cases exclude each other |
| `GameRules.Initial` | script.js:1-18 | Page load: step 1, both scores 0, every clickable shape of the markup present with its polygon flag and unmarked, the markup's draggables, empty drop areas, and the invariant holds |
| `GameRules.AfterNextStep` | script.js:21-39 | Below step 3 the step rises by exactly 1; at step 3 nothing changes; only the step and the progress bar ever change; the invariant is kept, so the step stays in [1, 3] |
| `GameRules.AfterClick` | script.js:63-86 | A click on a marked or non-clickable shape changes nothing; a handled click leaves the shape marked, keeps its polygon flag and touches no other shape; the set of correct marks grows by the shape exactly when it is a polygon, and the score changes by exactly as much as that set; only marks and score change; the invariant is kept |
| `GameRules.AfterClearIncorrect` | script.js:79-81 | The timed clear touches no other shape, keeps the cleared shape's polygon flag, never changes the correct marks, and leaves the shape clickable again exactly when it was not marked correct; only marks change; the invariant is kept |
| `GameRules.AfterDrop` | script.js:166-201 | The score and the drop areas each grow by exactly 1 when the side string equals the category and by 0 otherwise; a matching drop appends its side string to the drop areas; nothing else changes; the invariant is kept |
| `GameRules.AfterRestart` | script.js:234-294 | From any session: step 1, both scores 0, the same clickable shapes all unmarked with no correct mark left, the first progress step active and all others pending, two 3-sided and two 4-sided draggables, empty drop areas, and the invariant for a three-step bar |
| `Wizard.BarCensus` | script.js:42-56 | For any bar length and current step, the refreshed bar has exactly `current - 1` completed steps (clamped to the bar), one active step when `current` lies on the bar, and the rest pending |
| `Wizard.ExactlyOneActive` | script.js:42-56 | While 1 ≤ current ≤ n, exactly one step is active: the one at position `current`. There are `current - 1` completed steps and `n - current` pending ones |
| `Wizard.CompletedIsMonotone` | script.js:42-56 | Moving the current step forward never un-completes a progress step |
| `SessionProperties.InitialInv` | script.js:1-18 | The session at page load (step 1, both scores 0, no marks, bar refreshed) satisfies the invariant, whatever the markup |
| `SessionProperties.ApplyKeepsShapes` | script.js:21-294 | No event (next step 21-39, click 62-86, drop 166-201, restart 234-294) adds or removes a clickable shape or changes whether it is a polygon |
| `SessionProperties.ApplyPreservesInv` | script.js:21-294 | Every event (next step 21-39, click 62-86, drop 166-201, restart 234-294) keeps the invariant: step in [1, 3], bar matches the step, correct marks only on polygons, incorrect marks only on non-polygons, identification score = number of correct marks, classification score = number of matching drops recorded |
| `SessionProperties.RunPreservesInv` | script.js:21-294 | Every sequence of events keeps the invariant |
| `SessionProperties.Reachable` | script.js:21-103 | Every session reachable from page load has step in [1, 3], exactly one active progress step, and 0 ≤ identification score ≤ number of polygons on the page |
| `SessionProperties.ScoreAtMostPolygons` | script.js:68-72 | The identification score never exceeds the number of polygons, because only polygons get a correct mark, each one at most once |
| `SessionProperties.CompletionNeedsEnoughPolygons` | script.js:96-103 | The identification "continue" condition can only hold on a page with at least four polygons |
| `SessionProperties.ClickOnMarkedShapeIgnored` | script.js:64-66 | A click on a shape already marked correct or incorrect changes nothing |
| `SessionProperties.ClickOnPolygon` | script.js:68-72 | A click on an unmarked polygon marks it correct, adds exactly one point and changes nothing else |
| `SessionProperties.IncorrectClickUndone` | script.js:73-82 | A click on an unmarked non-polygon marks it incorrect and scores nothing. The timed clear then restores the session exactly, so the shape can be clicked again |
| `SessionProperties.ClearKeepsCorrect` | script.js:79-81 | The timed clear never changes the score or any correct mark |
| `SessionProperties.ClickIdempotent` | script.js:63-86 | Two clicks in a row on the same shape act as one |
| `SessionProperties.ClickingPolygonsScores` | script.js:68-72 | Clicking k distinct unmarked polygons raises the score by exactly k and leaves all of them marked correct |
| `SessionProperties.MarksStay` | script.js:68-82 | Until a restart, a correct mark stays correct whatever events follow |
| `SessionProperties.NextStepBounds` | script.js:21-39 | "Next" raises the step by exactly 1 below step 3 and changes nothing at step 3. The step stays in [1, 3] |
| `SessionProperties.NextStepsSaturate` | script.js:21-39 | After k presses of "next", the step is min(step + k, 3) |
| `SessionProperties.NoRestartMonotone` | script.js:21-201 | Until a restart, the step, both scores, every completed progress step and every correct mark only stay or grow |
| `SessionProperties.CompletionStaysUntilRestart` | script.js:96-217 | Once the identification or classification completion condition holds, it keeps holding after any events up to the next restart |
| `SessionProperties.DropScoresOnMatch` | script.js:166-201 | A drop adds one point exactly when the shape's side string equals the zone's category. Any other drop changes nothing |
| `SessionProperties.DropsScoreMatches` | script.js:166-201 | Over any run of drops, the classification score rises by exactly the number of matching drops. Only the drop areas change besides |
| `SessionProperties.RestartResets` | script.js:234-294 | From any session with the three-step bar, a restart leaves step 1 as the only active step, both scores 0, the same clickable shapes all unmarked, two 3-sided and two 4-sided draggables, empty drop areas, and the invariant |
| `SessionProperties.RestoredCensus` | script.js:266-285 | The restored draggables are two three-sided and two four-sided shapes |
| `SessionProperties.RestartIdempotent` | script.js:234-294 | Restarting twice equals restarting once |
| `SessionProperties.FourPolygonsComplete` | script.js:96-103 | Right after a restart, clicking any four distinct polygons meets the identification completion condition |
| `SessionProperties.DropsCompleteIff` | script.js:210-217 | Right after a restart, a run of drops meets the classification completion condition exactly when at least four of them matched |
| `Script.Game.constructor` | script.js:1-18 | Page load: the globals take their initial values, the bar is refreshed, and the object is valid and equals `Initial` |
| `Script.Game.UpdateProgressBar` | script.js:42-56 | Updates the bar array in place so that step k+1 shows `ProgressStatus(k + 1, currentStep)` |
| `Script.Game.NextStep` | script.js:21-39 | Completes the current step, advances it and refreshes the bar, only below step 3. The new state is `Apply(old, NextStep)` and stays valid |
| `Script.Game.Click` | script.js:63-103 | Models the click handler and `checkIdentificationComplete`. The new state is `Apply(old, Click(id))`. It reports a scheduled "continue" reveal exactly when the click was handled and the score has reached 4 |
| `Script.Game.ClearIncorrect` | script.js:79-81 | The new state is `Apply(old, ClearIncorrect(id))` and stays valid |
| `Script.Game.Drop` | script.js:160-217 | Models `handleDrop` and `checkClassificationComplete`. The new state is `Apply(old, Drop(sides, category))`. It reports a scheduled "finish" reveal exactly when the drop scored and the score has reached 4 |
| `Script.Game.ResetProgressBar` | script.js:250-253 | Clears every progress step and marks the first active, leaving the bar refreshed for step 1 |
| `Script.Game.Restart` | script.js:234-294 | The new state is `Apply(old, Restart)`, which is valid whatever came before |

## Left out

- Page output is not modelled: score texts, the success message, the display of
  the "continue" and "finish" buttons, and the `active` class of the step panels
  (script.js:24, 34, 244-247). The panel shown always matches `currentStep`. A
  scheduled button reveal is reported as the `revealScheduled` result of `Click`
  and `Drop`.
- Timing is not modelled. The `setTimeout` calls become events that may happen at
  any later time (`ClearIncorrect`) or are not modelled at all (button reveals,
  celebration removal, drop-zone shake). A reveal scheduled just before a restart
  still fires after it in the script. The model does not capture that.
- `celebrateSuccess`, `confetti`, `createConfettiPiece`, `finishGame`,
  `animateIncorrectDrop`, `playCorrectSound` and `playIncorrectSound` are left out.
  They are visual or console effects, use randomness and timers, and change no
  game state.
- The drag handlers and the `dataTransfer` payload are left out. A drop is given
  the dragged shape's side string and the zone's category directly.
- Script.Game.Drop: does not remove a shape from the draggable pool. After a
  matching drop the script removes the first page element that carries the same
  side count. Which element that is depends on the page markup, which is not part
  of this model. The model records the drop only in the score and the drop areas.
- `placed` records the copy of each matching drop that script.js:184 appends to a
  drop area. The copy is made from the dragged shape's markup, so it carries the
  same `data-sides` attribute. The removal at script.js:187-190 runs after the
  append and may take that copy back out when the drop zones come before the
  draggable shapes in the markup. The drop area then ends unchanged while the
  score rose. The model does not capture this, since it depends on markup order.
- The progress bar has exactly three steps, matching the bound in `nextStep`.
  `Script.Game.Restart` requires that length, since the script assumes the bar's
  first step exists.
- The totals (`totalPolygons`, `totalClassifications`) are constants, because the
  script never reassigns them. So a restart leaves them unchanged by construction.
