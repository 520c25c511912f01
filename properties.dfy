/**
  What the game rules promise: the invariant every reachable session keeps,
  what each event does to scores, marks and steps, and what a restart restores.
 */
module SessionProperties {
  import opened Wizard
  import opened GameRules

  lemma {:induction false} SubsetCardinality<T>(a: set<T>, b: set<T>)
    requires a <= b
    ensures |a| <= |b|
  {
    if a != {} {
      var x :| x in a;
      SubsetCardinality(a - {x}, b - {x});
    }
  }

  // ---- The invariant ----------------------------------------------------------

  /** A freshly loaded page, whatever its markup, satisfies the invariant. */
  lemma InitialInv(polygonFlags: map<ShapeId, bool>, markupDraggables: seq<string>)
    ensures Inv(Initial(polygonFlags, markupDraggables))
    ensures Initial(polygonFlags, markupDraggables).shapes.Keys == polygonFlags.Keys
  {
  }

  /** No event adds, removes or re-kinds a clickable shape. */
  lemma ApplyKeepsShapes(s: Session, e: Event)
    ensures Apply(s, e).shapes.Keys == s.shapes.Keys
    ensures forall id | id in s.shapes :: Apply(s, e).shapes[id].polygon == s.shapes[id].polygon
  {
  }

  lemma {:induction false} RunKeepsShapes(s: Session, es: seq<Event>)
    ensures Run(s, es).shapes.Keys == s.shapes.Keys
    ensures forall id | id in s.shapes :: Run(s, es).shapes[id].polygon == s.shapes[id].polygon
    decreases |es|
  {
    if es != [] {
      ApplyKeepsShapes(s, es[0]);
      RunKeepsShapes(Apply(s, es[0]), es[1..]);
    }
  }

  /** Every event keeps the invariant. */
  lemma ApplyPreservesInv(s: Session, e: Event)
    requires Inv(s)
    ensures Inv(Apply(s, e))
  {
    match e
    case NextStep =>
    case Click(id) =>
      if Accepted(s, id) && s.shapes[id].polygon {
        assert CorrectIds(AfterClick(s, id).shapes) == CorrectIds(s.shapes) + {id};
      } else if Accepted(s, id) {
        assert CorrectIds(AfterClick(s, id).shapes) == CorrectIds(s.shapes);
      }
    case ClearIncorrect(id) =>
      if id in s.shapes && s.shapes[id].mark == Incorrect {
        assert CorrectIds(AfterClearIncorrect(s, id).shapes) == CorrectIds(s.shapes);
      }
    case Drop(sides, category) =>
    case Restart =>
      RestartResets(s);
  }

  lemma {:induction false} RunPreservesInv(s: Session, es: seq<Event>)
    requires Inv(s)
    ensures Inv(Run(s, es))
    decreases |es|
  {
    if es != [] {
      ApplyPreservesInv(s, es[0]);
      RunPreservesInv(Apply(s, es[0]), es[1..]);
    }
  }

  /**
    Every session the page can reach shows a step in [1, 3] with exactly that step
    active on the progress bar, and an identification score that never exceeds the
    number of polygons on the page.
   */
  lemma Reachable(polygonFlags: map<ShapeId, bool>, markupDraggables: seq<string>, es: seq<Event>)
    ensures var t := Run(Initial(polygonFlags, markupDraggables), es);
      && Inv(t)
      && 1 <= t.step <= MaxStep
      && CountStatus(t.progress, Active) == 1
      && 0 <= t.identificationScore <= |PolygonIds(t.shapes)|
      && t.shapes.Keys == polygonFlags.Keys
  {
    var s := Initial(polygonFlags, markupDraggables);
    InitialInv(polygonFlags, markupDraggables);
    RunPreservesInv(s, es);
    RunKeepsShapes(s, es);
    var t := Run(s, es);
    ExactlyOneActive(MaxStep, t.step);
    ScoreAtMostPolygons(t);
  }

  // ---- Identification game ------------------------------------------------------

  /** Only polygons are ever marked correct, so the score is bounded by the polygons on the page. */
  lemma ScoreAtMostPolygons(s: Session)
    requires Inv(s)
    ensures 0 <= s.identificationScore <= |PolygonIds(s.shapes)|
  {
    assert CorrectIds(s.shapes) <= PolygonIds(s.shapes) by {
      forall id | id in CorrectIds(s.shapes) ensures id in PolygonIds(s.shapes) {
        assert MarkAgrees(s.shapes[id]);
      }
    }
    SubsetCardinality(CorrectIds(s.shapes), PolygonIds(s.shapes));
  }

  /** The "continue" condition can only ever hold on a page with at least four polygons. */
  lemma CompletionNeedsEnoughPolygons(s: Session)
    requires Inv(s) && IdentificationComplete(s)
    ensures |PolygonIds(s.shapes)| >= TotalPolygons
  {
    ScoreAtMostPolygons(s);
  }

  /** A click on a shape that already carries a mark changes nothing at all. */
  lemma ClickOnMarkedShapeIgnored(s: Session, id: ShapeId)
    requires id in s.shapes && s.shapes[id].mark != Unmarked
    ensures Apply(s, Click(id)) == s
  {
  }

  /** A click on an unmarked polygon marks it correct and adds exactly one point; nothing else changes. */
  lemma ClickOnPolygon(s: Session, id: ShapeId)
    requires Accepted(s, id) && s.shapes[id].polygon
    ensures var t := Apply(s, Click(id));
      && t.shapes == s.shapes[id := Shape(true, Correct)]
      && t.identificationScore == s.identificationScore + 1
      && t.(shapes := s.shapes, identificationScore := s.identificationScore) == s
  {
  }

  /**
    A click on an unmarked non-polygon marks it incorrect and scores nothing, and the
    timed clear that follows puts the session back exactly as it was, so the shape
    can be clicked again.
   */
  lemma IncorrectClickUndone(s: Session, id: ShapeId)
    requires Accepted(s, id) && !s.shapes[id].polygon
    ensures Apply(s, Click(id)).shapes[id].mark == Incorrect
    ensures Apply(s, Click(id)).identificationScore == s.identificationScore
    ensures Apply(Apply(s, Click(id)), ClearIncorrect(id)) == s
  {
  }

  /** The timed clear never touches a correct mark or a score. */
  lemma ClearKeepsCorrect(s: Session, id: ShapeId)
    ensures var t := Apply(s, ClearIncorrect(id));
      && t.identificationScore == s.identificationScore
      && CorrectIds(t.shapes) == CorrectIds(s.shapes)
  {
  }

  /** Clicking the same shape twice in a row is the same as clicking it once. */
  lemma ClickIdempotent(s: Session, id: ShapeId)
    ensures Apply(Apply(s, Click(id)), Click(id)) == Apply(s, Click(id))
  {
  }

  /** A click on each shape of `ids`, in order. */
  function Clicks(ids: seq<ShapeId>): (es: seq<Event>)
    ensures |es| == |ids|
    ensures forall k | 0 <= k < |ids| :: es[k] == Click(ids[k])
  {
    if ids == [] then [] else [Click(ids[0])] + Clicks(ids[1..])
  }

  /**
    Clicking distinct unmarked polygons scores one point each: a polygon scores once,
    and no later click on another shape takes that point away.
   */
  lemma {:induction false} ClickingPolygonsScores(s: Session, ids: seq<ShapeId>)
    requires forall k | 0 <= k < |ids| :: Accepted(s, ids[k]) && s.shapes[ids[k]].polygon
    requires forall j, k | 0 <= j < k < |ids| :: ids[j] != ids[k]
    ensures Run(s, Clicks(ids)).identificationScore == s.identificationScore + |ids|
    ensures forall k | 0 <= k < |ids| ::
      ids[k] in Run(s, Clicks(ids)).shapes && Run(s, Clicks(ids)).shapes[ids[k]].mark == Correct
    decreases |ids|
  {
    if ids != [] {
      var t := Apply(s, Click(ids[0]));
      assert Clicks(ids)[1..] == Clicks(ids[1..]);
      forall k | 0 <= k < |ids[1..]|
        ensures Accepted(t, ids[1..][k]) && t.shapes[ids[1..][k]].polygon
      {
        assert ids[1..][k] == ids[k + 1] != ids[0];
      }
      ClickingPolygonsScores(t, ids[1..]);
      var u := Run(t, Clicks(ids[1..]));
      forall k | 0 <= k < |ids| ensures ids[k] in u.shapes && u.shapes[ids[k]].mark == Correct {
        if k == 0 {
          MarksStay(t, Clicks(ids[1..]), ids[0]);
        } else {
          assert ids[k] == ids[1..][k - 1];
        }
      }
    }
  }

  /** Without a restart, a correct mark stays correct whatever else happens. */
  lemma {:induction false} MarksStay(s: Session, es: seq<Event>, id: ShapeId)
    requires id in s.shapes && s.shapes[id].mark == Correct
    requires forall k | 0 <= k < |es| :: !es[k].Restart?
    ensures id in Run(s, es).shapes && Run(s, es).shapes[id].mark == Correct
    decreases |es|
  {
    if es != [] {
      MarksStay(Apply(s, es[0]), es[1..], id);
    }
  }

  // ---- Wizard -------------------------------------------------------------------

  /** NextStep raises the step by exactly one below the last step, and does nothing on it. */
  lemma NextStepBounds(s: Session)
    requires Inv(s)
    ensures var t := Apply(s, NextStep);
      && t.step == (if s.step < MaxStep then s.step + 1 else s.step)
      && 1 <= t.step <= MaxStep
      && (s.step == MaxStep ==> t == s)
  {
  }

  /** `k` presses of "next". */
  function NextSteps(k: nat): (es: seq<Event>)
    ensures |es| == k
  {
    if k == 0 then [] else [NextStep] + NextSteps(k - 1)
  }

  /** After `k` presses of "next" the wizard shows step min(step + k, 3). */
  lemma {:induction false} NextStepsSaturate(s: Session, k: nat)
    requires Inv(s)
    ensures Run(s, NextSteps(k)).step == (if s.step + k <= MaxStep then s.step + k else MaxStep)
    decreases k
  {
    if k > 0 {
      assert NextSteps(k)[1..] == NextSteps(k - 1);
      ApplyPreservesInv(s, NextStep);
      NextStepsSaturate(Apply(s, NextStep), k - 1);
    }
  }

  /**
    Until the next restart, the step, both scores, every completed progress step
    and every correct mark only ever stay or grow.
   */
  lemma {:induction false} NoRestartMonotone(s: Session, es: seq<Event>)
    requires Inv(s)
    requires forall k | 0 <= k < |es| :: !es[k].Restart?
    ensures var t := Run(s, es);
      && Inv(t)
      && s.step <= t.step
      && s.identificationScore <= t.identificationScore
      && s.classificationScore <= t.classificationScore
      && (forall k | 0 <= k < MaxStep && s.progress[k] == Completed :: t.progress[k] == Completed)
      && (forall id | id in s.shapes && s.shapes[id].mark == Correct ::
            id in t.shapes && t.shapes[id].mark == Correct)
    decreases |es|
  {
    forall id | id in s.shapes && s.shapes[id].mark == Correct
      ensures id in Run(s, es).shapes && Run(s, es).shapes[id].mark == Correct
    {
      MarksStay(s, es, id);
    }
    if es != [] {
      ApplyPreservesInv(s, es[0]);
      var m := Apply(s, es[0]);
      assert s.step <= m.step && s.identificationScore <= m.identificationScore
          && s.classificationScore <= m.classificationScore;
      NoRestartMonotone(m, es[1..]);
      RunPreservesInv(m, es[1..]);
      CompletedIsMonotone(MaxStep, s.step, Run(m, es[1..]).step);
    }
  }

  /**
    Once a completion condition holds, it keeps holding until a restart: no click,
    timed clear, drop or "next" ever lowers a score.
   */
  lemma CompletionStaysUntilRestart(s: Session, es: seq<Event>)
    requires Inv(s)
    requires forall k | 0 <= k < |es| :: !es[k].Restart?
    ensures IdentificationComplete(s) ==> IdentificationComplete(Run(s, es))
    ensures ClassificationComplete(s) ==> ClassificationComplete(Run(s, es))
  {
    NoRestartMonotone(s, es);
  }

  // ---- Classification game -------------------------------------------------------

  /** How many drops of `es` name the category of their zone. */
  function Matching(es: seq<Event>): (n: nat)
    requires forall k | 0 <= k < |es| :: es[k].Drop?
    ensures n <= |es|
  {
    if es == [] then 0
    else (if es[0].sides == es[0].category then 1 else 0) + Matching(es[1..])
  }

  /**
    Over any run of drops the classification score rises by exactly the number of
    drops whose side count matched the zone, and nothing else of the session changes
    but the drop areas.
   */
  lemma {:induction false} DropsScoreMatches(s: Session, es: seq<Event>)
    requires forall k | 0 <= k < |es| :: es[k].Drop?
    ensures var t := Run(s, es);
      && t.classificationScore == s.classificationScore + Matching(es)
      && |t.placed| == |s.placed| + Matching(es)
      && t.(classificationScore := s.classificationScore, placed := s.placed) == s
    decreases |es|
  {
    if es != [] {
      DropsScoreMatches(Apply(s, es[0]), es[1..]);
    }
  }

  /** A single drop: one point exactly when the side count equals the category, none otherwise. */
  lemma DropScoresOnMatch(s: Session, sides: string, category: string)
    ensures Apply(s, Drop(sides, category)).classificationScore
         == if sides == category then s.classificationScore + 1 else s.classificationScore
    ensures sides != category ==> Apply(s, Drop(sides, category)) == s
  {
  }

  // ---- Restart --------------------------------------------------------------------

  /**
    A restart, from any session, leaves step 1 shown and alone active, both scores
    at zero, every clickable shape unmarked (and still the same shapes), two
    three-sided and two four-sided shapes to drag, empty drop areas, and a session
    that satisfies the invariant.
   */
  lemma RestartResets(s: Session)
    requires |s.progress| == MaxStep
    ensures var t := Apply(s, Restart);
      && t.step == 1 && t.identificationScore == 0 && t.classificationScore == 0
      && t.shapes.Keys == s.shapes.Keys
      && (forall id | id in t.shapes :: t.shapes[id] == Shape(s.shapes[id].polygon, Unmarked))
      && CountStatus(t.progress, Active) == 1 && t.progress[0] == Active
      && multiset(t.draggables) == multiset{"3", "3", "4", "4"}
      && t.placed == []
      && Inv(t)
  {
    var t := Apply(s, Restart);
    assert CorrectIds(t.shapes) == {};
    ExactlyOneActive(MaxStep, 1);
    RestoredCensus();
  }

  /** The restored draggables are two three-sided and two four-sided shapes. */
  lemma RestoredCensus()
    ensures multiset(RestoredDraggables) == multiset{"3", "3", "4", "4"}
  {
  }

  /** Restarting twice is the same as restarting once. */
  lemma RestartIdempotent(s: Session)
    ensures Apply(Apply(s, Restart), Restart) == Apply(s, Restart)
  {
  }

  // ---- Completion -------------------------------------------------------------------

  /**
    Right after a restart, clicking any four distinct polygons meets the
    identification game's completion condition.
   */
  lemma FourPolygonsComplete(s: Session, ids: seq<ShapeId>)
    requires |s.progress| == MaxStep
    requires |ids| == TotalPolygons
    requires forall k | 0 <= k < |ids| :: ids[k] in s.shapes && s.shapes[ids[k]].polygon
    requires forall j, k | 0 <= j < k < |ids| :: ids[j] != ids[k]
    ensures IdentificationComplete(Run(Apply(s, Restart), Clicks(ids)))
  {
    RestartResets(s);
    ClickingPolygonsScores(Apply(s, Restart), ids);
  }

  /**
    Right after a restart, a run of drops meets the classification game's
    completion condition exactly when at least four of them matched their zone.
   */
  lemma DropsCompleteIff(s: Session, es: seq<Event>)
    requires forall k | 0 <= k < |es| :: es[k].Drop?
    ensures ClassificationComplete(Run(Apply(s, Restart), es)) <==> Matching(es) >= TotalClassifications
  {
    DropsScoreMatches(Apply(s, Restart), es);
  }
}
