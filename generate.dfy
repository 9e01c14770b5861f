/**
 * The game modes of Generate.py: seven states of the generic machine, one
 * per stage of the dungeon pipeline. Each mode's checkConditions is a
 * decision over the mode's own flags (spacebar pressed, reset requested),
 * the `done` result of spreadOutRooms, whether more than three seconds
 * passed in MainRoomNeighborsMode, and the room count.
 *
 * The pygame constants used below are assumptions about that library:
 * K_ESCAPE = 27, K_SPACE = 32, K_r = 114, and the name of the QUIT event
 * is "Quit".
 */
module Generate {
  import opened Wrappers
  import StateMachines

  datatype Mode =
    | Initialization
    | AddRooms
    | CollideRooms
    | IdentifyMainRooms
    | FillVoids
    | MainRoomNeighbors
    | LocateHallways

  /** The `name` class attribute of each mode; two of them differ from the class name. */
  function Name(m: Mode): string
  {
    match m
    case Initialization => "InitializationMode"
    case AddRooms => "AddRoomsMode"
    case CollideRooms => "CollideRoomsMode"
    case IdentifyMainRooms => "IdentifyMainRoomsMode"
    case FillVoids => "FillVoidMode"
    case MainRoomNeighbors => "MainRoomNeighborsMode"
    case LocateHallways => "LocateHallwayMode"
  }

  /** The mode registered under a name, if any: the names are pairwise distinct, so each names one mode. */
  function ModeNamed(s: string): (r: Option<Mode>)
    ensures forall m :: r == Some(m) <==> Name(m) == s
  {
    if s == "InitializationMode" then Some(Initialization)
    else if s == "AddRoomsMode" then Some(AddRooms)
    else if s == "CollideRoomsMode" then Some(CollideRooms)
    else if s == "IdentifyMainRoomsMode" then Some(IdentifyMainRooms)
    else if s == "FillVoidMode" then Some(FillVoids)
    else if s == "MainRoomNeighborsMode" then Some(MainRoomNeighbors)
    else if s == "LocateHallwayMode" then Some(LocateHallways)
    else None
  }

  /** The names Game registers, in registration order. */
  const Pipeline: seq<Mode> :=
    [Initialization, AddRooms, CollideRooms, IdentifyMainRooms, FillVoids, MainRoomNeighbors, LocateHallways]

  /** The position of a mode in the pipeline. */
  function Rank(m: Mode): (n: nat)
    ensures n < |Pipeline| && Pipeline[n] == m
  {
    match m
    case Initialization => 0
    case AddRooms => 1
    case CollideRooms => 2
    case IdentifyMainRooms => 3
    case FillVoids => 4
    case MainRoomNeighbors => 5
    case LocateHallways => 6
  }

  /** What a mode's checkConditions reads. `elapsedOver3` is the test `self.elapsed > 3`. */
  datatype Inputs = Inputs(reset: bool, spacebarPressed: bool, done: bool, elapsedOver3: bool, roomCount: nat, maxRooms: int)

  /**
   * The checkConditions of mode m: a reset request sends every mode back
   * to Initialization before any other test; otherwise the only move is one
   * step forward along the pipeline, and None keeps the mode.
   */
  function Decide(m: Mode, i: Inputs): (r: Option<Mode>)
    ensures i.reset ==> r == Some(Initialization)
    ensures !i.reset && r.Some? ==> Rank(r.value) == Rank(m) + 1
    ensures !i.reset ==> (r.None? <==> (m == AddRooms && i.roomCount < i.maxRooms) || (m == CollideRooms && !i.done) ||
                                       (m == MainRoomNeighbors && !i.spacebarPressed && !i.elapsedOver3) ||
                                       m == LocateHallways)
  {
    if i.reset then Some(Initialization)
    else
      match m
      case Initialization => Some(AddRooms)
      case AddRooms => if i.roomCount >= i.maxRooms then Some(CollideRooms) else None
      case CollideRooms => if i.done then Some(IdentifyMainRooms) else None
      case IdentifyMainRooms => Some(FillVoids)
      case FillVoids => Some(MainRoomNeighbors)
      case MainRoomNeighbors => if i.spacebarPressed || i.elapsedOver3 then Some(LocateHallways) else None
      case LocateHallways => None
  }

  /** AddRoomsMode's checkConditions adds one room (addRandomRoom) exactly when it returns None. */
  predicate AddsRoom(m: Mode, i: Inputs)
  {
    m == AddRooms && !i.reset && i.roomCount < i.maxRooms
  }

  lemma AddsRoomWhenStaying(m: Mode, i: Inputs)
    ensures AddsRoom(m, i) <==> m == AddRooms && Decide(m, i).None?
  {
  }

  /** LocateHallwaysMode is left only on a reset. */
  lemma LocateHallwaysIsFinal(i: Inputs)
    ensures Decide(LocateHallways, i).Some? <==> i.reset
  {
  }

  /** The mode after each call of think, with the inputs seen by the successive calls. */
  function Run(m: Mode, ins: seq<Inputs>): Mode
    decreases |ins|
  {
    if ins == [] then m
    else
      var next := Decide(m, ins[0]);
      Run(if next.Some? then next.value else m, ins[1..])
  }

  /** Without a reset the pipeline never goes back: the rank after any run is at least the start rank. */
  lemma {:induction false} RunNeverGoesBack(m: Mode, ins: seq<Inputs>)
    requires forall k :: 0 <= k < |ins| ==> !ins[k].reset
    ensures Rank(Run(m, ins)) >= Rank(m)
    decreases |ins|
  {
    if ins != [] {
      var next := Decide(m, ins[0]);
      var m' := if next.Some? then next.value else m;
      RunNeverGoesBack(m', ins[1..]);
    }
  }

  /** Inputs under which no mode waits: enough rooms, separation done, spacebar pressed, no reset. */
  predicate Eager(i: Inputs)
  {
    !i.reset && i.roomCount >= i.maxRooms && i.done && i.spacebarPressed
  }

  /** Under eager inputs each think moves one step forward until LocateHallways, where the machine stays. */
  lemma {:induction false} EagerRunProgresses(m: Mode, ins: seq<Inputs>)
    requires forall k :: 0 <= k < |ins| ==> Eager(ins[k])
    ensures Rank(Run(m, ins)) == if Rank(m) + |ins| <= 6 then Rank(m) + |ins| else 6
    decreases |ins|
  {
    if ins != [] {
      var next := Decide(m, ins[0]);
      var m' := if next.Some? then next.value else m;
      EagerRunProgresses(m', ins[1..]);
    }
  }

  /** The three actions bound to events and keys. */
  datatype Action = Exit | HandleSpacebarPress | ResetRequested

  const QuitEvent: string := "Quit"
  const KEscape: int := 27
  const KSpace: int := 32
  const KR: int := 114

  /** One GameMode object: its mode, its flags and its event and key bindings. */
  class GameMode {
    const mode: Mode
    const name: string
    var spacebarPressed: bool
    var reset: bool
    var events: map<string, Action>
    var controls: map<int, Action>

    /** __init__: QUIT exits, Escape exits, Space and r set the two flags; both flags start cleared. */
    constructor (mode: Mode)
      ensures this.mode == mode && name == Name(mode)
      ensures events == map[QuitEvent := Exit]
      ensures controls == map[KEscape := Exit, KSpace := HandleSpacebarPress, KR := ResetRequested]
      ensures !spacebarPressed && !reset
    {
      this.mode := mode;
      name := Name(mode);
      events := map[];
      controls := map[];
      spacebarPressed := false;
      reset := false;
      new;
      AddEvent(QuitEvent, Exit);
      AddControl(KEscape, Exit);
      AddControl(KSpace, HandleSpacebarPress);
      AddControl(KR, ResetRequested);
    }

    /** addEvent (with the event's name already looked up): the first action bound to a name is kept. */
    method AddEvent(eventName: string, action: Action)
      modifies this`events
      ensures events == StateMachines.FirstBinding(old(events), eventName, action)
    {
      events := StateMachines.FirstBinding(events, eventName, action);
    }

    /** addControl: the first action bound to a key is kept. */
    method AddControl(keycode: int, action: Action)
      modifies this`controls
      ensures controls == StateMachines.FirstBinding(old(controls), keycode, action)
    {
      controls := StateMachines.FirstBinding(controls, keycode, action);
    }

    method HandleSpacebarPressed()
      modifies this`spacebarPressed
      ensures spacebarPressed
    {
      spacebarPressed := true;
    }

    method RequestReset()
      modifies this`reset
      ensures reset
    {
      reset := true;
    }

    /** GameMode.enterAction, which every mode's enterAction runs first: both flags are cleared. */
    method EnterAction()
      modifies this`spacebarPressed, this`reset
      ensures !spacebarPressed && !reset
    {
      spacebarPressed := false;
      reset := false;
    }

    /** checkConditions: the name of the next mode, from this mode's flags and the other inputs. */
    function CheckConditions(done: bool, elapsedOver3: bool, roomCount: nat, maxRooms: int): (r: Option<string>)
      reads this
      ensures reset ==> r == Some(Name(Initialization))
      ensures r.Some? ==> ModeNamed(r.value) == Decide(mode, Inputs(reset, spacebarPressed, done, elapsedOver3, roomCount, maxRooms))
      ensures r.None? <==> Decide(mode, Inputs(reset, spacebarPressed, done, elapsedOver3, roomCount, maxRooms)).None?
    {
      match Decide(mode, Inputs(reset, spacebarPressed, done, elapsedOver3, roomCount, maxRooms))
      case None => None
      case Some(m) => Some(Name(m))
    }
  }

  /**
   * Game.__init__ without pygame: the seven modes are registered in
   * pipeline order and InitializationMode is entered without an exit,
   * since there is no current state yet.
   */
  method NewGame() returns (sm: StateMachines.StateMachine)
    ensures fresh(sm) && sm.Valid()
    ensures forall s :: s in sm.states <==> ModeNamed(s).Some?
    ensures sm.currentState != null && sm.currentState.name == Name(Initialization)
    ensures sm.log == [StateMachines.EnterAction(Name(Initialization))]
  {
    sm := new StateMachines.StateMachine("TheGame.You Lost It.");
    for k := 0 to |Pipeline|
      invariant sm.Valid() && sm.currentState == null && sm.log == []
      invariant forall s :: s in sm.states <==> exists j :: 0 <= j < k && Name(Pipeline[j]) == s
    {
      var st := new StateMachines.State(Name(Pipeline[k]));
      sm.Add(st);
    }
    assert forall s :: ModeNamed(s).Some? ==> Name(Pipeline[Rank(ModeNamed(s).value)]) == s;
    var ok := sm.SetStateByName(Name(Initialization), true, true);
  }
}
