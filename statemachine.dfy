/**
 * The generic state machine of StateMachine.py: a registry of states keyed
 * by name and a current state, driven by `think`. A state's four hooks
 * (stateAction, checkConditions, enterAction, exitAction) are user code;
 * the machine records every hook it calls, in order, in `log`, and the
 * value the current state's checkConditions returns is given as the
 * function `conditions` from state names to an optional next name.
 */
module StateMachines {
  import opened Wrappers

  /** One call of a state's hook, tagged with the name of the state it was called on. */
  datatype Hook =
    | StateAction(name: string)
    | CheckConditions(name: string)
    | EnterAction(name: string)
    | ExitAction(name: string)

  /** dict.setdefault(k, v): binds k to v unless k is already bound; the first binding wins. */
  function FirstBinding<K, V>(m: map<K, V>, k: K, v: V): (r: map<K, V>)
    ensures k in r && r[k] == (if k in m then m[k] else v)
    ensures r.Keys == m.Keys + {k}
    ensures forall j :: j in m ==> r[j] == m[j]
  {
    if k in m then m else m[k := v]
  }

  /** Binding a key a second time changes nothing: the binding made first is kept. */
  lemma FirstBindingWins<K, V>(m: map<K, V>, k: K, v1: V, v2: V)
    ensures FirstBinding(FirstBinding(m, k, v1), k, v2) == FirstBinding(m, k, v1)
  {
  }

  /** A state: only its name matters to the machine. */
  class State {
    const name: string

    constructor (name: string)
      ensures this.name == name
    {
      this.name := name;
    }
  }

  function NameOf(s: State?): Option<string>
  {
    if s == null then None else Some(s.name)
  }

  /**
   * The hooks setStateByName(target, doExit, doEnter) calls when the current
   * state is named `current` and `known` says whether target is registered:
   * the old state's exitAction (when there is one and doExit is set), then,
   * when the lookup succeeds and doEnter is set, the new state's enterAction.
   */
  function SwitchHooks(current: Option<string>, target: string, known: bool, doExit: bool, doEnter: bool): (hs: seq<Hook>)
    ensures |hs| == (if current.Some? && doExit then 1 else 0) + (if known && doEnter then 1 else 0)
    ensures (exists i :: 0 <= i < |hs| && hs[i].ExitAction?) <==> current.Some? && doExit
    ensures (exists j :: 0 <= j < |hs| && hs[j].EnterAction?) <==> known && doEnter
    ensures forall i :: 0 <= i < |hs| ==>
              (hs[i].ExitAction? && current == Some(hs[i].name)) || hs[i] == EnterAction(target)
    ensures forall i, j :: 0 <= i < |hs| && 0 <= j < |hs| && hs[i].ExitAction? && hs[j].EnterAction? ==> i < j
  {
    var hs := (if current.Some? && doExit then [ExitAction(current.value)] else []) +
              (if known && doEnter then [EnterAction(target)] else []);
    assert current.Some? && doExit ==> hs[0].ExitAction?;
    assert known && doEnter ==> hs[|hs| - 1].EnterAction?;
    hs
  }

  /**
   * The hooks one call of think calls: nothing without a current state;
   * otherwise stateAction, then checkConditions, then, when that returned a
   * name, the hooks of setStateByName with both actions enabled.
   */
  function ThinkHooks(current: Option<string>, next: Option<string>, known: bool): (hs: seq<Hook>)
    ensures current.None? ==> hs == []
    ensures current.Some? ==> |hs| >= 2 && hs[0] == StateAction(current.value) && hs[1] == CheckConditions(current.value)
    ensures current.Some? && next.None? ==> |hs| == 2
    ensures current.Some? && next.Some? && known ==>
              hs[2..] == [ExitAction(current.value), EnterAction(next.value)]
    ensures current.Some? && next.Some? && !known ==> hs[2..] == [ExitAction(current.value)]
  {
    if current.None? then []
    else [StateAction(current.value), CheckConditions(current.value)] +
         (if next.Some? then SwitchHooks(current, next.value, known, true, true) else [])
  }

  class StateMachine {
    const name: string
    /** The registry: the machine is a dict from state names to states. */
    var states: map<string, State>
    var currentState: State?
    /** Every hook called so far, oldest first. */
    var log: seq<Hook>

    /** Each state is registered under its own name, and the current state is a registered one. */
    predicate Valid()
      reads this
    {
      (forall k :: k in states ==> states[k].name == k) &&
      (currentState != null ==> currentState.name in states && states[currentState.name] == currentState)
    }

    constructor (name: string)
      ensures Valid()
      ensures this.name == name && states == map[] && currentState == null && log == []
    {
      this.name := name;
      states := map[];
      currentState := null;
      log := [];
    }

    /** add(state): registers the state under its name; an existing registration is never replaced. */
    method Add(state: State)
      requires Valid()
      modifies this`states
      ensures Valid()
      ensures states == FirstBinding(old(states), state.name, state)
    {
      states := FirstBinding(states, state.name, state);
    }

    /**
     * setStateByName(stateName, doExitAction, doEnterAction). The exit
     * action runs before the lookup, so an unregistered name still runs it;
     * the lookup then fails (a KeyError, here ok == false) and the current
     * state stays as it was.
     */
    method SetStateByName(stateName: string, doExit: bool, doEnter: bool) returns (ok: bool)
      requires Valid()
      modifies this`currentState, this`log
      ensures Valid()
      ensures ok <==> stateName in states
      ensures currentState == if ok then states[stateName] else old(currentState)
      ensures log == old(log) + SwitchHooks(NameOf(old(currentState)), stateName, ok, doExit, doEnter)
    {
      if currentState != null && doExit {
        log := log + [ExitAction(currentState.name)];
      }
      if stateName !in states {
        ok := false;
        return;
      }
      currentState := states[stateName];
      ok := true;
      if doEnter {
        log := log + [EnterAction(currentState.name)];
      }
    }

    /**
     * think(): without a current state, nothing happens. Otherwise the
     * current state's stateAction runs, then its checkConditions; a name
     * returned by it becomes the current state through setStateByName, so a
     * state returning its own name is exited and entered again. ok is false
     * only when the returned name is not registered.
     */
    method Think(conditions: string -> Option<string>) returns (ok: bool)
      requires Valid()
      modifies this`currentState, this`log
      ensures Valid()
      ensures old(currentState) == null ==> ok && currentState == null && log == old(log)
      ensures old(currentState) != null ==>
                log == old(log) + ThinkHooks(NameOf(old(currentState)), conditions(old(currentState).name),
                                             Known(conditions(old(currentState).name)))
      ensures old(currentState) != null ==>
                currentState == Successor(old(currentState), conditions(old(currentState).name))
      ensures !ok <==> old(currentState) != null && conditions(old(currentState).name).Some? &&
                       !Known(conditions(old(currentState).name))
    {
      if currentState == null {
        ok := true;
        return;
      }
      var n := currentState.name;
      log := log + [StateAction(n)];
      var next := conditions(n);
      log := log + [CheckConditions(n)];
      if next.Some? {
        ok := SetStateByName(next.value, true, true);
      } else {
        ok := true;
      }
    }

    /** The returned name is registered. */
    predicate Known(next: Option<string>)
      reads this
    {
      next.Some? && next.value in states
    }

    /** The current state after checkConditions returned `next` in state s. */
    function Successor(s: State, next: Option<string>): State
      reads this
    {
      if Known(next) then states[next.value] else s
    }
  }
}
