/**
 * The session controller of the pattern tester: the state the component keeps
 * (the pattern being drawn, whether a stroke is in progress, whether a
 * finished pattern awaits a yes/no answer, the last verdict, the counters and
 * the set of rejected keys) and the handlers that update it.  Each handler is
 * one atomic update of that state.
 */
module Session {
  import opened Wrappers
  import opened PatternEngine
  import opened PatternKey

  /** The verdict shown for the current pattern (`validationResult`). */
  datatype Verdict = Invalid | Valid | Duplicate

  /** What releasing the pointer makes of a finished stroke. */
  datatype Classification = TooShort | AlreadyRejected | NeedsJudgment

  /** Android accepts no pattern of fewer dots. */
  const MinLength: nat := 4

  /** The decision handleEnd takes on a finished stroke. */
  function Classify(p: Pattern, rejected: set<string>): (c: Classification) {
    if |p| < MinLength then TooShort
    else if Encode(p) in rejected then AlreadyRejected
    else NeedsJudgment
  }

  /** Rejecting a pattern of at least four dots makes it a duplicate from then on. */
  lemma RejectingMakesDuplicate(p: Pattern, rejected: set<string>)
    requires |p| >= MinLength
    ensures Classify(p, rejected + {Encode(p)}) == AlreadyRejected
  {
  }

  /**
   * Rejecting a pattern never changes how a different pattern is judged,
   * because different patterns have different keys.
   */
  lemma RejectingLeavesOthers(p: Pattern, q: Pattern, rejected: set<string>)
    requires p != q
    ensures Classify(p, rejected + {Encode(q)}) == Classify(p, rejected)
  {
    EncodeInjective(p, q);
  }

  class PatternTester {
    /** Keys of the patterns the user has said are not theirs. */
    var invalidPatterns: set<string>
    var currentPattern: Pattern
    var isDrawing: bool
    var awaitingValidation: bool
    var validationResult: Option<Verdict>
    /** `stats.tested` and `stats.invalid`. */
    var tested: nat
    var invalid: nat
    /** Auto-dismiss callbacks that have been scheduled and have not yet run. */
    var pendingDismissals: nat

    /** What every handler keeps. */
    ghost predicate Valid()
      reads this
    {
      invalid <= tested &&
      Distinct(currentPattern) && InRange(currentPattern) &&
      !(isDrawing && awaitingValidation)
    }

    /** The "remaining" estimate on display. */
    function Remaining(): (r: int)
      reads this
      ensures r <= TotalPatterns
      ensures r == TotalPatterns <==> invalidPatterns == {}
    {
      TotalPatterns - |invalidPatterns|
    }

    /** The state after the saved list of rejected keys is loaded on mount. */
    constructor Load(saved: seq<string>)
      ensures Valid()
      ensures invalidPatterns == set k | k in saved
      ensures tested == |saved| && invalid == |saved|
      ensures currentPattern == [] && !isDrawing && !awaitingValidation
      ensures validationResult == None && pendingDismissals == 0
    {
      invalidPatterns := set k | k in saved;
      tested, invalid := |saved|, |saved|;
      currentPattern := [];
      isDrawing, awaitingValidation := false, false;
      validationResult := None;
      pendingDismissals := 0;
    }

    /** Pointer down, already resolved to a dot or to no dot. */
    method HandleStart(hit: Option<nat>)
      requires Valid()
      requires hit.Some? ==> hit.value < GridSize
      modifies this
      ensures Valid()
      ensures hit.None? ==> unchanged(this)
      ensures hit.Some? ==>
                currentPattern == [hit.value] && isDrawing && !awaitingValidation &&
                validationResult == None
      ensures invalidPatterns == old(invalidPatterns)
      ensures tested == old(tested) && invalid == old(invalid)
      ensures pendingDismissals == old(pendingDismissals)
    {
      if hit.Some? {
        isDrawing := true;
        currentPattern := [hit.value];
        validationResult := None;
        awaitingValidation := false;
      }
    }

    /** Pointer move, already resolved to a dot or to no dot. */
    method HandleMove(hit: Option<nat>)
      requires Valid()
      requires hit.Some? ==> hit.value < GridSize
      modifies this
      ensures Valid()
      ensures !old(isDrawing) || hit.None? ==> unchanged(this)
      ensures old(isDrawing) && hit.Some? ==>
                currentPattern == AddDot(old(currentPattern), hit.value)
      ensures |old(currentPattern)| <= |currentPattern|
      ensures currentPattern[..|old(currentPattern)|] == old(currentPattern)
      ensures isDrawing == old(isDrawing) && awaitingValidation == old(awaitingValidation)
      ensures validationResult == old(validationResult)
      ensures invalidPatterns == old(invalidPatterns)
      ensures tested == old(tested) && invalid == old(invalid)
      ensures pendingDismissals == old(pendingDismissals)
    {
      if !isDrawing {
        return;
      }
      if hit.Some? && hit.value !in currentPattern {
        AddDotKeepsDistinct(currentPattern, hit.value);
        currentPattern := AddDot(currentPattern, hit.value);
      }
    }

    /** Pointer up or pointer leaving the grid. */
    method HandleEnd()
      requires Valid()
      modifies this
      ensures Valid()
      ensures !old(isDrawing) ==> unchanged(this)
      ensures old(isDrawing) ==> !isDrawing
      ensures old(isDrawing) && Classify(old(currentPattern), old(invalidPatterns)) == TooShort ==>
                currentPattern == [] && !awaitingValidation &&
                validationResult == old(validationResult) &&
                pendingDismissals == old(pendingDismissals)
      ensures old(isDrawing) && Classify(old(currentPattern), old(invalidPatterns)) == AlreadyRejected ==>
                currentPattern == old(currentPattern) && !awaitingValidation &&
                validationResult == Some(Duplicate) &&
                pendingDismissals == old(pendingDismissals) + 1
      ensures old(isDrawing) && Classify(old(currentPattern), old(invalidPatterns)) == NeedsJudgment ==>
                currentPattern == old(currentPattern) && awaitingValidation &&
                validationResult == old(validationResult) &&
                pendingDismissals == old(pendingDismissals)
      ensures old(isDrawing) && awaitingValidation ==>
                |currentPattern| >= MinLength && Encode(currentPattern) !in invalidPatterns
      ensures invalidPatterns == old(invalidPatterns)
      ensures tested == old(tested) && invalid == old(invalid)
    {
      if !isDrawing {
        return;
      }
      isDrawing := false;
      if |currentPattern| >= MinLength {
        var encoded := Encode(currentPattern);
        if encoded in invalidPatterns {
          validationResult := Some(Duplicate);
          pendingDismissals := pendingDismissals + 1;
        } else {
          awaitingValidation := true;
        }
      } else {
        currentPattern := [];
      }
    }

    /** The "No" button: the pattern on display is not the user's. */
    method MarkInvalid()
      requires Valid()
      requires awaitingValidation
      modifies this
      ensures Valid()
      ensures invalidPatterns == old(invalidPatterns) + {Encode(old(currentPattern))}
      ensures |invalidPatterns| ==
                |old(invalidPatterns)| + (if Encode(old(currentPattern)) in old(invalidPatterns) then 0 else 1)
      ensures tested == old(tested) + 1 && invalid == old(invalid) + 1
      ensures validationResult == Some(Invalid) && !awaitingValidation
      ensures currentPattern == old(currentPattern) && isDrawing == old(isDrawing)
      ensures pendingDismissals == old(pendingDismissals) + 1
    {
      var encoded := Encode(currentPattern);
      if encoded in invalidPatterns {
        assert invalidPatterns + {encoded} == invalidPatterns;
      }
      invalidPatterns := invalidPatterns + {encoded};
      tested, invalid := tested + 1, invalid + 1;
      validationResult := Some(Invalid);
      awaitingValidation := false;
      pendingDismissals := pendingDismissals + 1;
    }

    /** The "Yes" button: the pattern on display is the user's. */
    method MarkValid()
      requires Valid()
      requires awaitingValidation
      modifies this
      ensures Valid()
      ensures invalidPatterns == old(invalidPatterns)
      ensures tested == old(tested) + 1 && invalid == old(invalid)
      ensures validationResult == Some(Verdict.Valid) && !awaitingValidation
      ensures currentPattern == old(currentPattern) && isDrawing == old(isDrawing)
      ensures pendingDismissals == old(pendingDismissals)
    {
      tested := tested + 1;
      validationResult := Some(Verdict.Valid);
      awaitingValidation := false;
    }

    /** The "Reset" button; `confirmed` is the user's answer to the confirmation dialog. */
    method ResetAll(confirmed: bool)
      requires Valid()
      modifies this
      ensures Valid()
      ensures !confirmed ==> unchanged(this)
      ensures confirmed ==>
                invalidPatterns == {} && tested == 0 && invalid == 0 &&
                currentPattern == [] && !awaitingValidation && validationResult == None
      ensures confirmed ==> Remaining() == TotalPatterns
      ensures isDrawing == old(isDrawing) && pendingDismissals == old(pendingDismissals)
    {
      if confirmed {
        invalidPatterns := {};
        tested, invalid := 0, 0;
        currentPattern := [];
        awaitingValidation := false;
        validationResult := None;
      }
    }

    /** A click on the empty background dismisses whatever is on display. */
    method HandleBackgroundClick()
      requires Valid()
      modifies this
      ensures Valid()
      ensures old(currentPattern) == [] && old(validationResult).None? ==> unchanged(this)
      ensures old(currentPattern) != [] || old(validationResult).Some? ==>
                currentPattern == [] && validationResult == None && !awaitingValidation
      ensures isDrawing == old(isDrawing)
      ensures invalidPatterns == old(invalidPatterns)
      ensures tested == old(tested) && invalid == old(invalid)
      ensures pendingDismissals == old(pendingDismissals)
    {
      if |currentPattern| > 0 || validationResult.Some? {
        currentPattern := [];
        validationResult := None;
        awaitingValidation := false;
      }
    }

    /**
     * One scheduled auto-dismiss callback runs: it clears the pattern and the
     * verdict, whatever has happened since it was scheduled, and leaves
     * `awaitingValidation` alone.
     */
    method DismissTimerFires()
      requires Valid()
      requires pendingDismissals > 0
      modifies this
      ensures Valid()
      ensures currentPattern == [] && validationResult == None
      ensures pendingDismissals == old(pendingDismissals) - 1
      ensures isDrawing == old(isDrawing) && awaitingValidation == old(awaitingValidation)
      ensures invalidPatterns == old(invalidPatterns)
      ensures tested == old(tested) && invalid == old(invalid)
    {
      currentPattern := [];
      validationResult := None;
      pendingDismissals := pendingDismissals - 1;
    }
  }

  /** The append steps of the stroke 0-1-2-5-8: no dot is skipped. */
  lemma StrokeThroughEdge()
    ensures AddDot([0], 1) == [0, 1]
    ensures AddDot([0, 1], 2) == [0, 1, 2]
    ensures AddDot([0, 1, 2], 5) == [0, 1, 2, 5]
    ensures AddDot([0, 1, 2, 5], 8) == [0, 1, 2, 5, 8]
  {
    assert MiddleDot(0, 1) == None && MiddleDot(1, 2) == None;
    assert MiddleDot(2, 5) == None && MiddleDot(5, 8) == None;
  }

  /**
   * A whole stroke: pointer down on `start`, then a move over each dot of
   * `moves` in turn.  The pattern built is exactly Draw([start], moves).
   */
  method DrawStroke(s: PatternTester, start: nat, moves: seq<nat>)
    requires s.Valid()
    requires start < GridSize && forall i :: 0 <= i < |moves| ==> moves[i] < GridSize
    modifies s
    ensures s.Valid()
    ensures s.currentPattern == Draw([start], moves)
    ensures s.isDrawing && !s.awaitingValidation && s.validationResult == None
    ensures s.pendingDismissals == old(s.pendingDismissals)
    ensures s.invalidPatterns == old(s.invalidPatterns)
    ensures s.tested == old(s.tested) && s.invalid == old(s.invalid)
  {
    s.HandleStart(Some(start));
    var i := 0;
    while i < |moves|
      invariant 0 <= i <= |moves|
      invariant s.Valid()
      invariant s.currentPattern == Draw([start], moves[..i])
      invariant s.isDrawing && !s.awaitingValidation && s.validationResult == None
      invariant s.pendingDismissals == old(s.pendingDismissals)
      invariant s.invalidPatterns == old(s.invalidPatterns)
      invariant s.tested == old(s.tested) && s.invalid == old(s.invalid)
    {
      assert moves[..i + 1][..i] == moves[..i];
      s.HandleMove(Some(moves[i]));
      i := i + 1;
    }
    assert moves[..|moves|] == moves;
  }

  /** Pointer down on 0, then over 1, 2, 5 and 8. */
  method DrawEdgeStroke(s: PatternTester)
    requires s.Valid()
    modifies s
    ensures s.Valid()
    ensures s.currentPattern == [0, 1, 2, 5, 8] && s.isDrawing && !s.awaitingValidation
    ensures s.validationResult == None && s.pendingDismissals == old(s.pendingDismissals)
    ensures s.invalidPatterns == old(s.invalidPatterns)
    ensures s.tested == old(s.tested) && s.invalid == old(s.invalid)
  {
    StrokeThroughEdge();
    s.HandleStart(Some(0));
    s.HandleMove(Some(1));
    s.HandleMove(Some(2));
    s.HandleMove(Some(5));
    s.HandleMove(Some(8));
  }

  /**
   * A fresh session: drawing 0-1-2-5-8 awaits a judgment, "No" records it,
   * and drawing it again is reported as a duplicate without counting it.
   */
  method FreshSessionScenario()
  {
    var s := new PatternTester.Load([]);
    assert s.invalidPatterns == {};
    DrawEdgeStroke(s);
    s.HandleEnd();
    assert s.awaitingValidation;
    ghost var key := Encode([0, 1, 2, 5, 8]);
    s.MarkInvalid();
    assert key in s.invalidPatterns;
    assert s.tested == 1 && s.invalid == 1 && s.validationResult == Some(Invalid);

    DrawEdgeStroke(s);
    s.HandleEnd();
    assert s.validationResult == Some(Duplicate) && !s.awaitingValidation;
    assert s.tested == 1 && s.invalid == 1;

    s.ResetAll(true);
    assert s.invalidPatterns == {} && s.Remaining() == TotalPatterns;
  }
}
