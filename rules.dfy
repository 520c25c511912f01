/**
  The rules of one game session, as values: the state the page's globals and
  class lists hold, the events the page reacts to, and what each event does.
  The class in module Script is proved to follow these rules step by step.
 */
module GameRules {
  import opened Wizard

  /** Polygons to find before the identification game reveals its "continue" button. */
  const TotalPolygons := 4
  /** Correct drops before the classification game reveals its "finish" button. */
  const TotalClassifications := 4

  /** A clickable shape of the identification game, by its position on the page. */
  type ShapeId = nat

  /** What a click has left on a clickable shape. */
  datatype Mark = Unmarked | Correct | Incorrect

  /** A clickable shape: whether the page marks it as a polygon, and its current mark. */
  datatype Shape = Shape(polygon: bool, mark: Mark)

  /** Everything the game changes while it is played. */
  datatype Session = Session(
    step: int,                        // the step being shown, 1-based
    identificationScore: int,
    classificationScore: int,
    shapes: map<ShapeId, Shape>,      // the clickable shapes of the identification game
    progress: seq<Status>,            // the progress bar, one status per step
    draggables: seq<string>,          // side counts of the draggables as page load or the
                                      // last restart left them; drops do not shrink it
    placed: seq<string>)              // side counts of the matching drops, in the order
                                      // their copies were appended to a drop area

  /** What the page reacts to; ClearIncorrect is the timer that removes an "incorrect" mark. */
  datatype Event =
    | NextStep
    | Click(id: ShapeId)
    | ClearIncorrect(id: ShapeId)
    | Drop(sides: string, category: string)
    | Restart

  /** The side counts of the four shapes a restart puts back for dragging, in page order. */
  const RestoredDraggables: seq<string> := ["3", "4", "4", "3"]

  /** The session when the page has loaded, given the clickable shapes and draggables of its markup. */
  function Initial(polygonFlags: map<ShapeId, bool>, markupDraggables: seq<string>): (s: Session)
    ensures s.step == 1 && s.identificationScore == 0 && s.classificationScore == 0
    ensures s.shapes.Keys == polygonFlags.Keys
    ensures forall id | id in s.shapes :: s.shapes[id].polygon == polygonFlags[id] && Accepted(s, id)
    ensures s.draggables == markupDraggables && s.placed == []
    ensures Inv(s)
  {
    assert CorrectIds(map id | id in polygonFlags :: Shape(polygonFlags[id], Unmarked)) == {};
    Session(1, 0, 0,
            map id | id in polygonFlags :: Shape(polygonFlags[id], Unmarked),
            Bar(MaxStep, 1), markupDraggables, [])
  }

  function CorrectIds(shapes: map<ShapeId, Shape>): set<ShapeId>
  {
    set id | id in shapes && shapes[id].mark == Correct
  }

  function PolygonIds(shapes: map<ShapeId, Shape>): set<ShapeId>
  {
    set id | id in shapes && shapes[id].polygon
  }

  /** A click on `id` is handled: the shape is clickable and carries no mark yet. */
  predicate Accepted(s: Session, id: ShapeId)
  {
    id in s.shapes && s.shapes[id].mark == Unmarked
  }

  /** The test that schedules the reveal of the identification game's "continue" button. */
  predicate IdentificationComplete(s: Session)
  {
    s.identificationScore >= TotalPolygons
  }

  /** The test that schedules the reveal of the classification game's "finish" button. */
  predicate ClassificationComplete(s: Session)
  {
    s.classificationScore >= TotalClassifications
  }

  // ---- One function per event -------------------------------------------------

  /** Advance while below the last step, then refresh the whole progress bar. */
  function AfterNextStep(s: Session): (t: Session)
    ensures s.step < MaxStep ==> t.step == s.step + 1
    ensures s.step >= MaxStep ==> t == s
    ensures t.(step := s.step, progress := s.progress) == s
    ensures Inv(s) ==> Inv(t) && 1 <= t.step <= MaxStep
  {
    if s.step < MaxStep then s.(step := s.step + 1, progress := Bar(|s.progress|, s.step + 1))
    else s
  }

  function AfterClick(s: Session, id: ShapeId): (t: Session)
    ensures !Accepted(s, id) ==> t == s
    ensures t.shapes.Keys == s.shapes.Keys
    ensures Accepted(s, id) ==> t.shapes[id].mark != Unmarked
    ensures id in s.shapes ==> t.shapes[id].polygon == s.shapes[id].polygon
    ensures forall other | other in s.shapes && other != id :: t.shapes[other] == s.shapes[other]
    ensures CorrectIds(t.shapes)
         == if Accepted(s, id) && s.shapes[id].polygon then CorrectIds(s.shapes) + {id} else CorrectIds(s.shapes)
    ensures t.identificationScore - s.identificationScore == |CorrectIds(t.shapes)| - |CorrectIds(s.shapes)|
    ensures t.(shapes := s.shapes, identificationScore := s.identificationScore) == s
    ensures Inv(s) ==> Inv(t)
  {
    assert Accepted(s, id) ==> id !in CorrectIds(s.shapes);
    assert Accepted(s, id) && s.shapes[id].polygon ==>
      CorrectIds(s.shapes[id := s.shapes[id].(mark := Correct)]) == CorrectIds(s.shapes) + {id};
    assert Accepted(s, id) && !s.shapes[id].polygon ==>
      CorrectIds(s.shapes[id := s.shapes[id].(mark := Incorrect)]) == CorrectIds(s.shapes);
    if !Accepted(s, id) then s
    else if s.shapes[id].polygon then
      s.(shapes := s.shapes[id := s.shapes[id].(mark := Correct)],
         identificationScore := s.identificationScore + 1)
    else
      s.(shapes := s.shapes[id := s.shapes[id].(mark := Incorrect)])
  }

  /** The delayed removal of an "incorrect" mark; any other mark stays. */
  function AfterClearIncorrect(s: Session, id: ShapeId): (t: Session)
    ensures t.shapes.Keys == s.shapes.Keys
    ensures forall other | other in s.shapes && other != id :: t.shapes[other] == s.shapes[other]
    ensures id in s.shapes ==> t.shapes[id].polygon == s.shapes[id].polygon
    ensures id in s.shapes ==> (Accepted(t, id) <==> s.shapes[id].mark != Correct)
    ensures CorrectIds(t.shapes) == CorrectIds(s.shapes)
    ensures t.(shapes := s.shapes) == s
    ensures Inv(s) ==> Inv(t)
  {
    assert id in s.shapes && s.shapes[id].mark == Incorrect ==>
      CorrectIds(s.shapes[id := s.shapes[id].(mark := Unmarked)]) == CorrectIds(s.shapes);
    if id in s.shapes && s.shapes[id].mark == Incorrect then
      s.(shapes := s.shapes[id := s.shapes[id].(mark := Unmarked)])
    else s
  }

  /** A drop scores only when the dragged shape's side count names the zone's category. */
  function AfterDrop(s: Session, sides: string, category: string): (t: Session)
    ensures t.classificationScore - s.classificationScore == |t.placed| - |s.placed|
         == if sides == category then 1 else 0
    ensures t.placed == if sides == category then s.placed + [sides] else s.placed
    ensures t.(classificationScore := s.classificationScore, placed := s.placed) == s
    ensures Inv(s) ==> Inv(t)
  {
    if sides == category then
      s.(classificationScore := s.classificationScore + 1, placed := s.placed + [sides])
    else s
  }

  function AfterRestart(s: Session): (t: Session)
    ensures t.step == 1 && t.identificationScore == 0 && t.classificationScore == 0
    ensures t.shapes.Keys == s.shapes.Keys
    ensures forall id | id in t.shapes :: t.shapes[id] == Shape(s.shapes[id].polygon, Unmarked)
    ensures CorrectIds(t.shapes) == {}
    ensures |t.progress| == |s.progress| && (|t.progress| > 0 ==> t.progress[0] == Active)
    ensures forall k | 1 <= k < |t.progress| :: t.progress[k] == Pending
    ensures multiset(t.draggables) == multiset{"3", "3", "4", "4"} && t.placed == []
    ensures |s.progress| == MaxStep ==> Inv(t)
  {
    assert RestoredDraggables == ["3"] + ["4"] + ["4"] + ["3"];
    Session(1, 0, 0,
            map id | id in s.shapes :: s.shapes[id].(mark := Unmarked),
            Bar(|s.progress|, 1), RestoredDraggables, [])
  }

  function Apply(s: Session, e: Event): Session
  {
    match e
    case NextStep => AfterNextStep(s)
    case Click(id) => AfterClick(s, id)
    case ClearIncorrect(id) => AfterClearIncorrect(s, id)
    case Drop(sides, category) => AfterDrop(s, sides, category)
    case Restart => AfterRestart(s)
  }

  /** The session after the events `es`, in order. */
  function Run(s: Session, es: seq<Event>): Session
    decreases |es|
  {
    if es == [] then s else Run(Apply(s, es[0]), es[1..])
  }

  // ---- The invariant every reachable session keeps ---------------------------

  /** A mark agrees with the shape: only polygons are ever correct, only non-polygons incorrect. */
  predicate MarkAgrees(sh: Shape)
  {
    (sh.mark == Correct ==> sh.polygon) && (sh.mark == Incorrect ==> !sh.polygon)
  }

  predicate Inv(s: Session)
  {
    && 1 <= s.step <= MaxStep
    && s.progress == Bar(MaxStep, s.step)
    && (forall id | id in s.shapes :: MarkAgrees(s.shapes[id]))
    && s.identificationScore == |CorrectIds(s.shapes)|
    && s.classificationScore == |s.placed|
  }
}
