/**
 generate-ioctls.py: the loops that print one parse_ function of the helper from a
 table entry.  The printed statements are data here; GeneratedCode runs them.
 */
module Generator {
  import opened Bytes
  import opened IoctlTable
  import opened Options

  datatype Stmt =
    | GotoIfEmpty(size: Option<Size>, target: int)
    | Load(decl: Decl)
    | Advance(decl: Decl)
    | GotoIfNoOutput(target: int)
    | CallModeset
    | CallModesetNoArgument
    | Return
    | Label(n: int)
    | CheckLimit(decl: Decl)
    | SetIov(slot: nat, decl: Decl)
    | CallRetry(argN: nat)
    | ErrorLabel
    | CallReturnError

  // ----- what is printed for a modeset entry -----

  function Head(decls: seq<Decl>): seq<Stmt>
    requires ModesetEntry(decls)
  {
    [GotoIfEmpty(None, 0)]
    + (if |decls| == 1 then []
       else [Load(decls[0]), Advance(decls[0]), GotoIfEmpty(Some(decls[1].size), 1)])
  }

  function Calls(decls: seq<Decl>): seq<Stmt>
    requires ModesetEntry(decls)
  {
    [GotoIfNoOutput(if |decls| == 1 then 0 else 1), CallModeset, Return]
  }

  /** The slots of arguments i, i - 1, ..., 1. */
  function ArraySlots(decls: seq<Decl>, i: nat): seq<Stmt>
    requires ModesetEntry(decls) && i < |decls|
  {
    if i == 0 then [] else [CheckLimit(decls[i]), SetIov(i, decls[i])] + ArraySlots(decls, i - 1)
  }

  function Slots(decls: seq<Decl>): seq<Stmt>
    requires ModesetEntry(decls)
  {
    (if |decls| == 1 then [] else [Label(1)]) + ArraySlots(decls, |decls| - 1)
    + [Label(0), SetIov(0, decls[0])]
  }

  function Tail(decls: seq<Decl>): seq<Stmt>
    requires ModesetEntry(decls)
  {
    [CallRetry(|decls|)] + (if |decls| == 1 then [] else [Return, ErrorLabel, CallReturnError])
  }

  function SetuidCode(decls: seq<Decl>): seq<Stmt>
    requires ModesetEntry(decls)
  {
    Head(decls) + Calls(decls) + Slots(decls) + Tail(decls)
  }

  // ----- the printing loops -----

  function HeadUpTo(decls: seq<Decl>, i: nat): seq<Stmt>
    requires ModesetEntry(decls) && i <= |decls|
  {
    if i == 0 then []
    else
      [GotoIfEmpty(None, 0)]
      + (if |decls| == 1 then [] else [Load(decls[0]), Advance(decls[0])])
      + (if i == 1 then [] else [GotoIfEmpty(Some(decls[1].size), 1)])
  }

  /** The first loop: checkpoints, loads, and the names whose slots get a label. */
  method EmitHead(decls: seq<Decl>) returns (out: seq<Stmt>, targets: set<Ident>, checkpoints: int)
    requires decls != []
    ensures ModesetEntry(decls) ==>
      && out == Head(decls)
      && checkpoints == (if |decls| == 1 then 1 else 2)
      && targets == (if |decls| == 1 then {} else {decls[0].name})
  {
    var dependedUpon := set d | d in decls :: Dependency(d.place);
    assert ModesetEntry(decls) ==> (decls[0].name in dependedUpon <==> |decls| > 1) by {
      if ModesetEntry(decls) {
        if |decls| > 1 {
          assert decls[1] in decls && Dependency(decls[1].place) == decls[0].name;
        }
      }
    }
    assert ModesetEntry(decls) ==> forall i | 0 < i < |decls| :: decls[i].name !in dependedUpon;
    out, targets, checkpoints := [], {}, 0;
    var haveArgs := {};
    var firstRetry := true;
    var prevName := InargId;
    for i := 0 to |decls|
      invariant ModesetEntry(decls) ==>
        && out == HeadUpTo(decls, i)
        && checkpoints == (if i < 2 then i else 2)
        && targets == (if i < 2 then {} else {decls[0].name})
        && haveArgs == (if i == 0 then {} else if i == 1 then {InargId} else {InargId, decls[0].name})
        && firstRetry == (i == 0)
        && (i > 0 ==> prevName == decls[i - 1].name)
    {
      var d := decls[i];
      var dep := Dependency(d.place);
      if dep !in haveArgs {
        out := out + [GotoIfEmpty(if d.limit.Some? then Some(d.size) else None, checkpoints)];
        checkpoints := checkpoints + 1;
        haveArgs := haveArgs + {dep};
        if firstRetry {
          firstRetry := false;
        } else {
          targets := targets + {prevName};
        }
      }
      if d.name in dependedUpon {
        out := out + [Load(d)];
        out := out + [Advance(d)];
      }
      prevName := d.name;
    }
  }

  function SlotsFrom(decls: seq<Decl>, i: nat): seq<Stmt>
    requires ModesetEntry(decls) && i <= |decls|
    decreases |decls| - i
  {
    if i == |decls| then []
    else
      SlotsFrom(decls, i + 1)
      + (if i == |decls| - 1 && i > 0 then [Label(1)] else [])
      + (if i == 0 then [Label(0)] else [CheckLimit(decls[i])])
      + [SetIov(i, decls[i])]
  }

  predicate AfterHead(decls: seq<Decl>, targets: set<Ident>, checkpoints: int)
  {
    && ModesetEntry(decls)
    && targets == {decls[0].name, decls[|decls| - 1].name}
    && checkpoints == (if |decls| == 1 then 1 else 2)
  }

  /** The second loop, over the arguments in reverse. */
  method EmitSlots(decls: seq<Decl>, targets: set<Ident>, checkpoints0: int)
    returns (out: seq<Stmt>, needErrorReturn: bool)
    ensures AfterHead(decls, targets, checkpoints0) ==>
      out == Slots(decls) && needErrorReturn == (|decls| > 1)
  {
    ghost var entry := AfterHead(decls, targets, checkpoints0);
    out, needErrorReturn := [], false;
    var checkpoints := checkpoints0;
    var iovPos := |decls|;
    while iovPos > 0
      invariant 0 <= iovPos <= |decls|
      invariant entry ==> out == SlotsFrom(decls, iovPos)
      invariant entry ==> needErrorReturn == (iovPos < |decls| && |decls| > 1)
      invariant entry ==> checkpoints == if iovPos == |decls| then checkpoints0 else if iovPos > 0 then 1 else 0
    {
      iovPos := iovPos - 1;
      var d := decls[iovPos];
      if d.name in targets {
        checkpoints := checkpoints - 1;
        out := out + [Label(checkpoints)];
      }
      if d.limit.Some? {
        needErrorReturn := true;
        out := out + [CheckLimit(d)];
      }
      out := out + [SetIov(iovPos, d)];
    }
    if entry {
      SlotsFromStart(decls);
    }
  }

  lemma Slot(decls: seq<Decl>, i: nat)
    requires ModesetEntry(decls) && 0 < i < |decls|
    ensures var slot := [CheckLimit(decls[i]), SetIov(i, decls[i])];
      && SlotsFrom(decls, i) == (if i == |decls| - 1 then [Label(1)] else SlotsFrom(decls, i + 1)) + slot
      && ArraySlots(decls, i) == slot + ArraySlots(decls, i - 1)
  {
    hide ModesetEntry;
  }

  lemma {:induction false} SlotsFromStep(decls: seq<Decl>, i: nat)
    requires ModesetEntry(decls) && 0 < i < |decls|
    ensures SlotsFrom(decls, i) + ArraySlots(decls, i - 1) == [Label(1)] + ArraySlots(decls, |decls| - 1)
    decreases |decls| - i
  {
    hide ModesetEntry, SlotsFrom, ArraySlots;
    Slot(decls, i);
    if i < |decls| - 1 {
      SlotsFromStep(decls, i + 1);
    }
  }

  lemma SlotsFromStart(decls: seq<Decl>)
    requires ModesetEntry(decls)
    ensures SlotsFrom(decls, 0) == Slots(decls)
  {
    if |decls| > 1 {
      SlotsFromStep(decls, 1);
      assert SlotsFrom(decls, 1) == SlotsFrom(decls, 1) + ArraySlots(decls, 0);
    }
  }

  /** The statements printed for a modeset entry. */
  method Generate(decls: seq<Decl>) returns (out: seq<Stmt>)
    ensures decls == [] ==> out == [CallModesetNoArgument]
    ensures ModesetEntry(decls) ==> out == SetuidCode(decls)
  {
    if decls == [] {
      out := [CallModesetNoArgument];
      return;
    }
    var targets, checkpoints, needErrorReturn;
    var slots;
    out, targets, checkpoints := EmitHead(decls);
    targets := targets + {decls[|decls| - 1].name};
    out := out + [GotoIfNoOutput(checkpoints - 1), CallModeset, Return];
    slots, needErrorReturn := EmitSlots(decls, targets, checkpoints);
    out := out + slots + [CallRetry(|decls|)];
    if needErrorReturn {
      out := out + [Return, ErrorLabel, CallReturnError];
    }
  }

  // ----- the checked-in output -----

  /** What is printed for GETCONNECTOR is, statement by statement, the function in the repository. */
  lemma GetConnectorListing()
    ensures ModesetEntry(GETCONNECTOR)
    ensures
      var root, encoders, modes, props, values :=
        GETCONNECTOR[0], GETCONNECTOR[1], GETCONNECTOR[2], GETCONNECTOR[3], GETCONNECTOR[4];
      SetuidCode(GETCONNECTOR) ==
        [GotoIfEmpty(None, 0), Load(root), Advance(root), GotoIfEmpty(Some(encoders.size), 1),
         GotoIfNoOutput(1), CallModeset, Return,
         Label(1), CheckLimit(values), SetIov(4, values), CheckLimit(props), SetIov(3, props),
         CheckLimit(modes), SetIov(2, modes), CheckLimit(encoders), SetIov(1, encoders),
         Label(0), SetIov(0, root),
         CallRetry(5), Return, ErrorLabel, CallReturnError]
  {
    hide ValidEntry, ModesetEntry, FieldsDisjoint;
    GetConnectorIsValid();
    ModesetOfValid(GETCONNECTOR);
    FiveSlots(GETCONNECTOR);
  }

  lemma ModesetOfValid(decls: seq<Decl>)
    requires ValidEntry(decls)
    ensures ModesetEntry(decls)
  {
  }

  lemma FiveSlots(decls: seq<Decl>)
    requires ModesetEntry(decls) && |decls| == 5
    ensures ArraySlots(decls, 4) ==
      [CheckLimit(decls[4]), SetIov(4, decls[4]), CheckLimit(decls[3]), SetIov(3, decls[3]),
       CheckLimit(decls[2]), SetIov(2, decls[2]), CheckLimit(decls[1]), SetIov(1, decls[1])]
  {
    hide ModesetEntry;
    assert ArraySlots(decls, 0) == [];
    assert ArraySlots(decls, 1) == [CheckLimit(decls[1]), SetIov(1, decls[1])];
    assert ArraySlots(decls, 2) == [CheckLimit(decls[2]), SetIov(2, decls[2])] + ArraySlots(decls, 1);
    assert ArraySlots(decls, 3) == [CheckLimit(decls[3]), SetIov(3, decls[3])] + ArraySlots(decls, 2);
  }
}
