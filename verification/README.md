# Travel planner: floating bubbles and questionnaire, in Dafny

This project models the two pieces of logic in the travel planner's front end.

**The floating-bubble option picker** (`components/FloatingBubbles.tsx`) has two parts.

Placement puts one bubble per option in the container:
- it draws a size in [80, 120);
- it retries random positions, up to 100 times, until the candidate does not crowd an already placed bubble;
- it gives the bubble a random velocity in [-0.4, 0.4) on each axis.

Every animation frame then updates the bubbles in place. Each bubble in turn:
- drifts by its velocity;
- bounces off the four walls;
- visits every other bubble.

A visit to a bubble whose centre is closer than `minDistance`, and not at the same point, does three things:
- it pushes the two apart along the contact normal;
- it clamps both back into the container;
- it applies a damped, equal and opposite impulse if the two are approaching.

**The travel questionnaire** (`components/Questionnaire.tsx`) is a four-step form. One step is multiple-choice: the list of interests, where a click toggles an option. The other three are single-choice: travel style, budget and duration. The questionnaire has:
- a per-step validity test;
- a "selected" marker on each option;
- next and back buttons. On the last step, "next" hands the answers over.

Files:
- `wrappers.dfy`: an `Option` type.
- `geometry.dfy`: `Math.abs`, `Math.min` and `Math.max`, plus the facts about square roots and lengths that the physics uses.
- `floating_bubbles.dfy`:
  - placement (`DrawPosition`, `DrawBubble`, `Place`), tied draw by draw to the random stream;
  - the pair physics as functions;
  - a whole frame as the specification functions `PairAt`, `Sweep`, `Turn`, `FrameUpTo` and `Frame`;
  - the in-place methods `Advance`, `Collide`, `CollideAll` and `Animate` on an `array<Bubble>`, proved equal to those functions.
- `questionnaire.dfy`:
  - the question table;
  - the selection, validity and selected-marker logic as functions;
  - the component state as the class `Questionnaire`, whose methods are the click handlers.

Numbers are `real`. The model does not use `Math.sqrt` or `Math.random` directly:
- The square root is a parameter `sqrt: real -> real`. Facts that need it to be exact require `IsSqrt(sqrt)`: for every non-negative `a`, `sqrt(a)` is non-negative and squares back to `a`.
- Random numbers come from a caller-supplied stream `random: nat -> real`. Every draw is in [0, 1), and the draws are used in the component's order: the size, then x and y for each attempt, then vx and vy.

## Model

| member | source | states |
|---|---|---|
| Geometry.Abs | components/FloatingBubbles.tsx:91-95 | `Math.abs` is non-negative and is the number or its negation |
| Geometry.Min | components/FloatingBubbles.tsx:133-136 | `Math.min` is below both arguments and is one of them |
| Geometry.Max | components/FloatingBubbles.tsx:133-136 | `Math.max` is above both arguments and is one of them |
| Geometry.HypotCompare | components/FloatingBubbles.tsx:31-34 | with an exact root, `distance < m` (for m > 0) iff `dx²+dy² < m²`, and `distance > 0` iff the offset is not zero |
| FloatingBubbles.CrowdsBySquares | components/FloatingBubbles.tsx:29-34 | with an exact root, a candidate crowds a placed bubble (`Crowds`: centre distance below half the summed sizes + 10) iff the squared centre distance is below the squared gap |
| FloatingBubbles.HasOverlapCrowds | components/FloatingBubbles.tsx:27-39 | the overlap test `HasOverlap` is true iff some placed bubble is crowded; it is false on an empty list |
| FloatingBubbles.HasOverlapBySquares | components/FloatingBubbles.tsx:27-39 | with an exact root and non-negative sizes, the overlap test is the squared-distance comparison against (half the summed sizes + 10)² |
| FloatingBubbles.ScaledDraw | components/FloatingBubbles.tsx:63-64 | `Math.random() * span` lies in [0, span) for span > 0, is 0 for span 0, and lies in (span, 0] for span < 0 |
| FloatingBubbles.SizeDraw | components/FloatingBubbles.tsx:56 | the drawn size is in [80, 120) |
| FloatingBubbles.SpeedDraw | components/FloatingBubbles.tsx:72-73 | each drawn velocity component is in [-0.4, 0.4) |
| FloatingBubbles.DrawPosition | components/FloatingBubbles.tsx:57-66 | the do-while makes 1 to 100 attempts, each from the next two draws; it keeps the last attempt's position; every earlier attempt overlapped the placed bubbles; the kept one does not unless all 100 were spent |
| FloatingBubbles.DrawBubble | components/FloatingBubbles.tsx:55-77 | the bubble takes the option's value and texts; its size is `80 + 40·random(draw)`; its corner is the last attempt's draws times `width - size` and `height - size`; its velocity is `(r - 0.5)·0.8` of the two draws after the attempts; every rejected attempt overlapped; the values lie in their ranges; 2 draws per attempt plus 3 are used |
| FloatingBubbles.PlacedFromAppend | components/FloatingBubbles.tsx:55-78 | placing one more bubble, drawn against all earlier ones from where their draws stopped, extends a placement |
| FloatingBubbles.PlacedEach | components/FloatingBubbles.tsx:55-78 | every bubble of a placement is in its ranges and drawn exactly as `DrawBubble` states, against the bubbles before it; each made 1 to 100 attempts, and under 100 means no overlap with any earlier bubble |
| FloatingBubbles.Place | components/FloatingBubbles.tsx:53-78 | one bubble per option, in option order; bubble k is drawn as `DrawBubble` states against bubbles 0..k-1, from draw 0 for the first and from where the previous one stopped for the others; each made 1 to 100 attempts; under 100 means no overlap with any earlier bubble |
| FloatingBubbles.Drift | components/FloatingBubbles.tsx:85-86 | the position advances by exactly the velocity; nothing else changes |
| FloatingBubbles.BounceWalls | components/FloatingBubbles.tsx:88-104 | a bubble strictly inside is untouched; at or past the left/top wall it is put at 0 with a non-negative speed; at or past the right/bottom wall (tested after the left/top fix) it is put at `width - size` with a non-positive speed; speed magnitudes are kept; a bubble that fits ends in bounds |
| FloatingBubbles.Advance | components/FloatingBubbles.tsx:84-104 | in place: bubble i becomes the wall-bounced drift of itself; every other bubble is unchanged |
| FloatingBubbles.Touch | components/FloatingBubbles.tsx:110-121 | a contact is reported only with a positive overlap |
| FloatingBubbles.TouchBySquares | components/FloatingBubbles.tsx:110-115 | with an exact root, two bubbles collide iff their centres differ and their squared distance is below minDistance² |
| FloatingBubbles.ContactNormal | components/FloatingBubbles.tsx:112-121 | with an exact root, the contact normal is a unit vector that, scaled by the distance, is the centre offset, and the overlap is minDistance minus the distance |
| FloatingBubbles.Separate | components/FloatingBubbles.tsx:123-130 | separation moves only positions, in opposite directions, keeping the midpoint of the two corners |
| FloatingBubbles.SeparateShift | components/FloatingBubbles.tsx:123-130 | separation grows the centre offset by twice the push `overlap/2 + 0.5` along the normal |
| FloatingBubbles.SeparateAlongNormal | components/FloatingBubbles.tsx:117-130 | after separation the centre offset is (minDistance + 1) times the normal |
| FloatingBubbles.SeparatedGap | components/FloatingBubbles.tsx:123-130 | for a unit normal, a centre offset of minDistance + 1 times the normal puts the centres exactly minDistance + 1 apart |
| FloatingBubbles.SeparationRestoresGap | components/FloatingBubbles.tsx:110-130 | for every colliding pair, separation before clamping leaves the centres exactly minDistance + 1 apart |
| FloatingBubbles.Clamp | components/FloatingBubbles.tsx:132-136 | clamping moves only positions; a bubble that fits ends in bounds; a bubble already in bounds is unchanged |
| FloatingBubbles.Impulse | components/FloatingBubbles.tsx:138-154 | the impulse leaves positions alone and conserves the summed velocity; when `dvn >= 0` the pair is unchanged |
| FloatingBubbles.ImpulseAlongNormal | components/FloatingBubbles.tsx:146-154 | for `dvn < 0`, the impulse `0.9·dvn` is taken off the bubble's velocity along the normal and added to the other's |
| FloatingBubbles.ImpulseKeepsTangential | components/FloatingBubbles.tsx:138-154 | the impulse never changes the relative velocity across the normal |
| FloatingBubbles.ImpulseSeparatesFrom | components/FloatingBubbles.tsx:138-154 | the impulse on a pair that moves with the velocities of another pair turns that pair's `dvn < 0` into `-0.8·dvn > 0` |
| FloatingBubbles.ImpulseSeparates | components/FloatingBubbles.tsx:139-154 | with a unit normal and `dvn < 0`, the new relative normal velocity is `-0.8·dvn`, which is positive |
| FloatingBubbles.Respond | components/FloatingBubbles.tsx:123-154 | the response keeps ids, sizes and texts and the summed velocity; when both bubbles fit the container, both end in bounds |
| FloatingBubbles.RespondSeparates | components/FloatingBubbles.tsx:117-154 | separation and clamping leave velocities alone, so the full response also turns `dvn < 0` into `-0.8·dvn > 0` |
| FloatingBubbles.CollisionSeparates | components/FloatingBubbles.tsx:110-154 | with an exact root, a colliding pair that approaches along its normal leaves the visit separating at `-0.8·dvn` |
| FloatingBubbles.PairStep | components/FloatingBubbles.tsx:110-155 | a visit keeps ids, sizes and the summed velocity; a pair at zero distance or at least minDistance apart is unchanged; after a collision both bubbles that fit are in bounds |
| FloatingBubbles.PhysicsKeeps | components/FloatingBubbles.tsx:110-155 | the visit rule, for every pair, keeps bodies, keeps fitting in-bounds bubbles in bounds, and conserves momentum |
| FloatingBubbles.PairAt | components/FloatingBubbles.tsx:107-108 | a visit between equal ids (in particular a bubble and itself) changes nothing; otherwise only the two visited bubbles change |
| FloatingBubbles.Sweep | components/FloatingBubbles.tsx:107-156 | bubble i's visits to bubbles 0..j-1 keep the number of bubbles |
| FloatingBubbles.Turn | components/FloatingBubbles.tsx:84-156 | a bubble's turn keeps the number of bubbles |
| FloatingBubbles.FrameUpTo | components/FloatingBubbles.tsx:83-163 | the first n turns of a frame keep the number of bubbles |
| FloatingBubbles.Frame | components/FloatingBubbles.tsx:83-163 | a frame keeps the number of bubbles and the id, size and texts of each |
| FloatingBubbles.SweepKeepsBodies | components/FloatingBubbles.tsx:107-156 | a bubble's visits never change any id, size or text |
| FloatingBubbles.FrameUpToKeepsBodies | components/FloatingBubbles.tsx:83-163 | the turns of a frame never change any id, size or text |
| FloatingBubbles.SweepKeepsBounds | components/FloatingBubbles.tsx:107-156 | when every bubble fits, a bubble's visits keep every in-bounds bubble in bounds |
| FloatingBubbles.TurnKeepsBounds | components/FloatingBubbles.tsx:84-156 | when every bubble fits, after its turn the bubble is in bounds, and so is every bubble that was in bounds |
| FloatingBubbles.FrameUpToInBounds | components/FloatingBubbles.tsx:83-163 | when every bubble fits, after n turns bubbles 0..n-1 are in bounds |
| FloatingBubbles.FrameInBounds | components/FloatingBubbles.tsx:83-163 | frame invariant: when the container is at least as large as every bubble, every bubble is in bounds after a frame, wherever it started |
| FloatingBubbles.MomentumUpdate | components/FloatingBubbles.tsx:150-153 | replacing one bubble changes the total momentum by the difference of the two velocities |
| FloatingBubbles.ReplacePairKeepsMomentum | components/FloatingBubbles.tsx:150-153 | replacing two bubbles by two with the same summed velocity keeps the total momentum |
| FloatingBubbles.PairAtConservesMomentum | components/FloatingBubbles.tsx:107-155 | a visit conserves the momentum of the whole system |
| FloatingBubbles.SweepConservesMomentum | components/FloatingBubbles.tsx:107-156 | the visits of one turn conserve the momentum of the whole system |
| FloatingBubbles.CollisionsConserveMomentum | components/FloatingBubbles.tsx:107-156 | the collision pass of any bubble's turn conserves the total momentum |
| FloatingBubbles.Collide | components/FloatingBubbles.tsx:107-155 | in place: bubble i's visit to bubble j is exactly `PairAt` of the previous state |
| FloatingBubbles.CollideAll | components/FloatingBubbles.tsx:107-156 | in place: the inner loop of a turn is exactly `Sweep` over all bubbles |
| FloatingBubbles.Animate | components/FloatingBubbles.tsx:80-166 | in place: the array becomes `Frame` of the old array; no id, size or text changes; if every bubble fits, every bubble ends in bounds |
| QuestionnaireSteps.QuestionTable | components/Questionnaire.tsx:16-61 | four questions with distinct ids; only the first, `interests`, is multiple-choice; the other three are the single-choice ids; each offers at least two distinct option values |
| QuestionnaireSteps.AnswerFor | components/Questionnaire.tsx:72-83 | only the three single-choice ids have a stored answer |
| QuestionnaireSteps.RemoveAll | components/Questionnaire.tsx:69 | the filter removes every occurrence of the value, never grows the list, and keeps every other value's count |
| QuestionnaireSteps.RemoveAllAppend | components/Questionnaire.tsx:69 | filtering a concatenation filters each part |
| QuestionnaireSteps.RemoveAllAbsent | components/Questionnaire.tsx:69 | filtering out an absent value leaves the list as it is |
| QuestionnaireSteps.Toggle | components/Questionnaire.tsx:67-71 | after the toggle the value is present iff it was absent; an absent value is appended at the end; other values keep their counts |
| QuestionnaireSteps.ToggleTwiceRestores | components/Questionnaire.tsx:67-71 | toggling an absent value twice restores the original list |
| QuestionnaireSteps.RemoveAllKeepsDistinct | components/Questionnaire.tsx:69 | filtering keeps a duplicate-free list duplicate-free |
| QuestionnaireSteps.TogglePreservesDistinct | components/Questionnaire.tsx:67-71 | the toggle keeps the list of interests duplicate-free |
| QuestionnaireSteps.Select | components/Questionnaire.tsx:65-85 | on the multiple-choice question a click toggles the value in the interests; on a single-choice question it sets that question's answer only, leaving the interests and the other answers unchanged; an unknown id changes nothing |
| QuestionnaireSteps.StepValid | components/Questionnaire.tsx:101-114 | the interests step is valid iff the list is non-empty; a single-choice step is valid iff its answer is not ""; an unknown id is never valid |
| QuestionnaireSteps.IsSelected | components/Questionnaire.tsx:151-155 | on the multiple-choice question an option shows as selected iff it is in the interests; on a single-choice question, iff it equals the stored answer of that question |
| QuestionnaireSteps.AtMostOneSelected | components/Questionnaire.tsx:151-155 | a single-choice question shows at most one option as selected |
| QuestionnaireSteps.SelectShowsSelected | components/Questionnaire.tsx:65-85 | on every question of the table a click shows the option as selected, except for a click that deselects an interest |
| QuestionnaireSteps.SelectMakesStepValid | components/Questionnaire.tsx:65-114 | on every question of the table, picking a non-empty option that was not selected makes the step valid |
| QuestionnaireSteps.Questionnaire.constructor | components/Questionnaire.tsx:10-14 | the form starts on step 0 with nothing answered |
| QuestionnaireSteps.Questionnaire.SelectOption | components/Questionnaire.tsx:65-85 | the click handler replaces the answers by `Select` of the current question and the old answers, and nothing else changes (the step is not in its modifies set) |
| QuestionnaireSteps.Questionnaire.Next | components/Questionnaire.tsx:87-93 | below the last step it advances by one and completes nothing; on the last step it stays and completes with the collected answers; the step stays in [0, 3] |
| QuestionnaireSteps.Questionnaire.Back | components/Questionnaire.tsx:95-99 | moves back one step when above 0, otherwise stays; the step stays in [0, 3] |

## Left out

- DOM and frame scheduling are not modelled. This covers `getBoundingClientRect` (the container's width and height are parameters), `querySelector` and the `style.transform` write, and `requestAnimationFrame`/`cancelAnimationFrame`. The JSX render of both components is also left out; it holds only display and event wiring.
- IEEE-754 rounding is not modelled: all numbers are real.
- `Math.sqrt` is not modelled: it is the parameter `sqrt`, and facts that depend on it being exact require `IsSqrt`.
- `Math.random` is not modelled: it is the caller-supplied stream `random`.
- The bubbles are modelled as records in an `array<Bubble>`. The code instead mutates objects through the shared array. A pair visit is computed as a function of the two records and written back to both slots, which is the same effect, since no two slots hold the same object.
- The bubble field `label` is named `caption` in the model, because `label` is a Dafny keyword.
- Placement starts with `bubblesRef.current = []` and pushes onto it. `Place` builds and returns a sequence instead.
- `Place` states the corner range as `InDrawRange(x, width - size)`: `0 <= x < width - size` when the bubble is narrower than the container, `x == 0` when it is exactly as wide, and `width - size < x <= 0` when it is wider. The strict upper bound cannot hold when the width equals the size.
- `Animate` states no momentum property for the whole frame. The wall bounces change velocities and so do not conserve it; only the collision passes do, as `CollisionsConserveMomentum` states.
- There is no convergence property, such as "the bubbles end up not overlapping": the code does not promise one.
- Titles, icons, option labels and descriptions of the question table are display text. A question keeps only its id, whether it is multiple-choice, and its option values.
- Questionnaire.Next: it does not check `StepValid`. In the component, the "next" button is disabled through the JSX attribute `disabled={!isStepValid()}`, which is not part of the handler.
- Questionnaire.Back: likewise, the "back" button is disabled on step 0 through JSX. The handler's own `currentStep > 0` test is what is modelled.
- React state batching and re-rendering are not modelled: each handler call is one atomic state change.
- The completed answers are modelled as the four fields the component passes to `onComplete`. The `TravelPreferences` type it is declared with in `App.tsx` has different fields (city, route name, days, wishes and others). App.tsx is not part of this model.
