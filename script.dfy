/**
  The page script's game state: the module-level globals become the fields of
  one `Game` object, the progress bar is a fixed array of step statuses updated
  in place, and each event handler is a method proved to follow `GameRules.Apply`.
 */
module Script {
  import opened Wizard
  import opened GameRules
  import SessionProperties

  class Game {
    var currentStep: int
    var identificationScore: int
    var classificationScore: int
    /** The clickable shapes of the identification game and their marks. */
    var shapes: map<ShapeId, Shape>
    /** Side counts of the draggable shapes as page load or the last restart left them; drops do not shrink it. */
    var draggables: seq<string>
    /** Side counts of the matching drops, in the order their copies were appended to a drop area. */
    var placed: seq<string>
    /** The progress bar: one status per step of the lesson. */
    const progress: array<Status>

    function State(): Session
      reads this, progress
    {
      Session(currentStep, identificationScore, classificationScore, shapes,
              progress[..], draggables, placed)
    }

    ghost predicate Valid()
      reads this, progress
    {
      progress.Length == MaxStep && Inv(State())
    }

    /** Loads the page: the globals take their initial values and the progress bar is refreshed. */
    constructor (polygonFlags: map<ShapeId, bool>, markupDraggables: seq<string>)
      ensures Valid() && fresh(progress)
      ensures State() == Initial(polygonFlags, markupDraggables)
    {
      currentStep := 1;
      identificationScore := 0;
      classificationScore := 0;
      shapes := map id | id in polygonFlags :: Shape(polygonFlags[id], Unmarked);
      draggables := markupDraggables;
      placed := [];
      progress := new Status[MaxStep](_ => Pending);
      new;
      UpdateProgressBar();
      SessionProperties.InitialInv(polygonFlags, markupDraggables);
    }

    /** Gives every progress step the status its position and the current step call for. */
    method UpdateProgressBar()
      modifies progress
      ensures progress[..] == Bar(progress.Length, currentStep)
    {
      var k := 0;
      while k < progress.Length
        invariant 0 <= k <= progress.Length
        invariant forall j | 0 <= j < k :: progress[j] == ProgressStatus(j + 1, currentStep)
      {
        progress[k] := ProgressStatus(k + 1, currentStep);
        k := k + 1;
      }
      assert progress[..] == Bar(progress.Length, currentStep);
    }

    /** Moves to the next step of the lesson, unless the last one is shown. */
    method NextStep()
      requires Valid()
      modifies this, progress
      ensures Valid()
      ensures State() == Apply(old(State()), Event.NextStep)
      ensures currentStep == if old(currentStep) < MaxStep then old(currentStep) + 1 else old(currentStep)
    {
      if currentStep < MaxStep {
        progress[currentStep - 1] := Completed;
        currentStep := currentStep + 1;
        progress[currentStep - 1] := Active;
        UpdateProgressBar();
      }
      SessionProperties.ApplyPreservesInv(old(State()), Event.NextStep);
    }

    /**
      A click on the clickable shape `id`. `revealScheduled` tells whether the
      click was handled with the identification game complete, which schedules
      the reveal of its "continue" button.
     */
    method Click(id: ShapeId) returns (revealScheduled: bool)
      requires Valid()
      modifies this
      ensures Valid()
      ensures State() == Apply(old(State()), Event.Click(id))
      ensures revealScheduled <==> Accepted(old(State()), id) && IdentificationComplete(State())
    {
      if id !in shapes || shapes[id].mark != Unmarked {
        // Not a clickable shape, or already clicked.
        SessionProperties.ApplyPreservesInv(old(State()), Event.Click(id));
        return false;
      }
      if shapes[id].polygon {
        shapes := shapes[id := shapes[id].(mark := Correct)];
        identificationScore := identificationScore + 1;
      } else {
        shapes := shapes[id := shapes[id].(mark := Incorrect)];
      }
      revealScheduled := identificationScore >= TotalPolygons;
      SessionProperties.ApplyPreservesInv(old(State()), Event.Click(id));
    }

    /** The timer that takes the "incorrect" mark off shape `id` again. */
    method ClearIncorrect(id: ShapeId)
      requires Valid()
      modifies this
      ensures Valid()
      ensures State() == Apply(old(State()), Event.ClearIncorrect(id))
    {
      if id in shapes && shapes[id].mark == Incorrect {
        shapes := shapes[id := shapes[id].(mark := Unmarked)];
      }
      SessionProperties.ApplyPreservesInv(old(State()), Event.ClearIncorrect(id));
    }

    /**
      A shape with side count `sides` dropped on a zone of category `category`.
      `revealScheduled` tells whether the drop scored with the classification game
      complete, which schedules the reveal of the "finish" button.
     */
    method Drop(sides: string, category: string) returns (revealScheduled: bool)
      requires Valid()
      modifies this
      ensures Valid()
      ensures State() == Apply(old(State()), Event.Drop(sides, category))
      ensures revealScheduled <==> sides == category && ClassificationComplete(State())
    {
      revealScheduled := false;
      if sides == category {
        placed := placed + [sides];
        classificationScore := classificationScore + 1;
        revealScheduled := classificationScore >= TotalClassifications;
      }
      SessionProperties.ApplyPreservesInv(old(State()), Event.Drop(sides, category));
    }

    /** Clears every progress step, then marks the first one active. */
    method ResetProgressBar()
      requires progress.Length >= 1
      modifies progress
      ensures progress[..] == Bar(progress.Length, 1)
    {
      var k := 0;
      while k < progress.Length
        invariant 0 <= k <= progress.Length
        invariant forall j | 0 <= j < k :: progress[j] == Pending
      {
        progress[k] := Pending;
        k := k + 1;
      }
      progress[0] := Active;
      assert progress[..] == Bar(progress.Length, 1);
    }

    /** Starts the lesson over. */
    method Restart()
      requires progress.Length == MaxStep
      modifies this, progress
      ensures Valid()
      ensures State() == Apply(old(State()), Event.Restart)
    {
      ghost var before := State();
      currentStep := 1;
      identificationScore := 0;
      classificationScore := 0;
      ResetProgressBar();
      shapes := map id | id in shapes :: shapes[id].(mark := Unmarked);
      draggables := RestoredDraggables;
      placed := [];
      assert State() == AfterRestart(before);
      SessionProperties.RestartResets(before);
    }
  }
}
