/** Pressed keys drive the trie: walk on, run an action, or give up. */
module ActionKeySequenceHandler {
  import opened Helpers
  import opened ActionKeyConfig

  /** What an action container answers to the attempts to run an action, attempt by attempt. */
  type Answers = nat -> bool

  /** The focused element: whether it takes the key before or after everything else, and its actions. */
  datatype Focus = Focus(high: bool, low: bool, accepts: Answers)

  datatype KeyPress = KeyPress(modifier: KeyModifier, key: KeyId, focus: Option<Focus>, own: Option<Answers>)

  /** One call of invokeActionMethod. */
  datatype Call = Call(onFocus: bool, action: ActionId, accepted: bool)

  predicate Accepts(i: nat, press: KeyPress) {
    (press.focus.Some? && press.focus.value.accepts(i)) || (press.own.Some? && press.own.value(i))
  }

  /** The focused element is asked first, the own container only if that does not accept. */
  function CallsFor(action: ActionId, i: nat, press: KeyPress): (calls: seq<Call>)
    ensures forall c <- calls :: c.action == action
    ensures OnlyLastAccepted(calls)
    ensures Succeeded(calls) <==> Accepts(i, press)
  {
    var first := if press.focus.Some? then [Call(true, action, press.focus.value.accepts(i))] else [];
    if press.own.None? || Succeeded(first) then first
    else first + [Call(false, action, press.own.value(i))]
  }

  predicate Succeeded(calls: seq<Call>) {
    calls != [] && calls[|calls| - 1].accepted
  }

  /** Offer the actions one after the other, from number `i` on, until one is accepted. */
  function Attempts(actions: seq<ActionId>, i: nat, press: KeyPress): seq<Call>
    requires i <= |actions|
    decreases |actions| - i
  {
    if i == |actions| then []
    else
      var calls := CallsFor(actions[i], i, press);
      if Accepts(i, press) then calls else calls + Attempts(actions, i + 1, press)
  }

  lemma {:induction false} NextAttempt(actions: seq<ActionId>, i: nat, press: KeyPress, before: seq<Call>)
    requires i < |actions|
    ensures var calls := CallsFor(actions[i], i, press);
      before + Attempts(actions, i, press)
      == before + calls + if Accepts(i, press) then [] else Attempts(actions, i + 1, press)
  {
  }

  lemma {:induction false} NothingToAttempt(actions: seq<ActionId>, press: KeyPress)
    ensures Attempts(actions, |actions|, press) == []
  {
  }

  predicate OnlyLastAccepted(calls: seq<Call>) {
    forall k | 0 <= k < |calls| - 1 :: !calls[k].accepted
  }

  /** At most one call succeeds, the last one, and only the given actions are tried. */
  lemma {:induction false} OnlyTheLastSucceeds(actions: seq<ActionId>, i: nat, press: KeyPress)
    requires i <= |actions|
    ensures OnlyLastAccepted(Attempts(actions, i, press))
    ensures forall c <- Attempts(actions, i, press) :: c.action in actions
    decreases |actions| - i
  {
    if i < |actions| && !Accepts(i, press) {
      OnlyTheLastSucceeds(actions, i + 1, press);
      RefusedBefore(CallsFor(actions[i], i, press), Attempts(actions, i + 1, press));
    }
  }

  lemma {:induction false} RefusedBefore(first: seq<Call>, rest: seq<Call>)
    requires OnlyLastAccepted(first) && !Succeeded(first) && OnlyLastAccepted(rest)
    ensures OnlyLastAccepted(first + rest)
  {
    forall k | 0 <= k < |first + rest| - 1 ensures !(first + rest)[k].accepted {
      assert k < |first| ==> (k == |first| - 1 || !first[k].accepted);
    }
  }

  /** The first action that finds a taker is the one that runs; without a taker none does. */
  lemma {:induction false} TheFirstTakerRuns(actions: seq<ActionId>, i: nat, k: nat, press: KeyPress)
    requires i <= k <= |actions| && forall j: nat | i <= j < k :: !Accepts(j, press)
    requires k < |actions| ==> Accepts(k, press)
    ensures var calls := Attempts(actions, i, press);
      && (Succeeded(calls) <==> k < |actions|)
      && (k < |actions| ==> calls[|calls| - 1].action == actions[k])
    decreases |actions| - i
  {
    hide CallsFor, Accepts;
    if i < k {
      TheFirstTakerRuns(actions, i + 1, k, press);
    }
  }

  /**
   * The calls of a key press that is bound to `actions`, of which the first `i` were refused: action by action, first
   * on the focused element and then on the own container, as far as they exist, up to the first call that is accepted
   * or else to the end.
   */
  predicate AreCallsOf(calls: seq<Call>, actions: seq<ActionId>, i: nat, press: KeyPress)
    requires i <= |actions|
  {
    match (press.focus, press.own)
    case (None, None) => calls == []
    case (Some(focus), None) => AreOnOne(calls, true, actions, i, focus.accepts)
    case (None, Some(own)) => AreOnOne(calls, false, actions, i, own)
    case (Some(focus), Some(own)) =>
      && |calls| <= 2 * (|actions| - i)
      && (forall k | 0 <= k < |calls| :: calls[k] == InTurn(k, actions, i, focus.accepts, own))
      && EndAtFirstAccepted(calls, 2 * (|actions| - i))
  }

  /** With two receivers the calls take turns, the one on the focused element first. */
  function InTurn(k: nat, actions: seq<ActionId>, i: nat, focus: Answers, own: Answers): Call
    requires k < 2 * (|actions| - i)
  {
    if k % 2 == 0 then Call(true, actions[i + k / 2], focus(i + k / 2))
    else Call(false, actions[i + k / 2], own(i + k / 2))
  }

  predicate AreOnOne(calls: seq<Call>, onFocus: bool, actions: seq<ActionId>, i: nat, accepts: Answers)
    requires i <= |actions|
  {
    && |calls| <= |actions| - i
    && (forall k | 0 <= k < |calls| :: calls[k] == Call(onFocus, actions[i + k], accepts(i + k)))
    && EndAtFirstAccepted(calls, |actions| - i)
  }

  predicate EndAtFirstAccepted(calls: seq<Call>, all: nat) {
    && (forall k | 0 <= k < |calls| - 1 :: !calls[k].accepted)
    && (|calls| < all ==> calls != [] && calls[|calls| - 1].accepted)
  }

  lemma {:induction false} AttemptsAreCalls(actions: seq<ActionId>, i: nat, press: KeyPress)
    requires i <= |actions|
    ensures AreCallsOf(Attempts(actions, i, press), actions, i, press)
    decreases |actions| - i
  {
    if i < |actions| {
      AttemptsAreCalls(actions, i + 1, press);
      FirstAttempt(actions, i, press);
      var rest := Attempts(actions, i + 1, press);
      hide Attempts, Accepts, EndAtFirstAccepted, InTurn, AreOnOne;
      match (press.focus, press.own) {
        case (None, None) =>
        case (Some(focus), None) => OneMoreOnOne(rest, true, actions, i, focus.accepts);
        case (None, Some(own)) => OneMoreOnOne(rest, false, actions, i, own);
        case (Some(focus), Some(own)) => TwoMore(rest, actions, i, focus.accepts, own);
      }
    }
  }

  lemma {:induction false} FirstAttempt(actions: seq<ActionId>, i: nat, press: KeyPress)
    requires i < |actions|
    ensures var rest, action := Attempts(actions, i + 1, press), actions[i];
      Attempts(actions, i, press)
      == match (press.focus, press.own)
         case (None, None) => rest
         case (Some(focus), None) =>
           if focus.accepts(i) then [Call(true, action, focus.accepts(i))]
           else [Call(true, action, focus.accepts(i))] + rest
         case (None, Some(own)) =>
           if own(i) then [Call(false, action, own(i))] else [Call(false, action, own(i))] + rest
         case (Some(focus), Some(own)) =>
           var first, second := Call(true, action, focus.accepts(i)), Call(false, action, own(i));
           if first.accepted then [first] else if second.accepted then [first, second] else [first, second] + rest
  {
    var rest := Attempts(actions, i + 1, press);
    assert [] + rest == rest;
  }

  lemma {:induction false} OneMoreOnOne(rest: seq<Call>, onFocus: bool, actions: seq<ActionId>, i: nat,
                                        accepts: Answers)
    requires i < |actions| && AreOnOne(rest, onFocus, actions, i + 1, accepts)
    ensures var calls := [Call(onFocus, actions[i], accepts(i))];
      AreOnOne(if accepts(i) then calls else calls + rest, onFocus, actions, i, accepts)
  {
    var first := Call(onFocus, actions[i], accepts(i));
    var calls := [first] + rest;
    forall k | 0 <= k < |calls| ensures calls[k] == Call(onFocus, actions[i + k], accepts(i + k)) {
      assert k > 0 ==> calls[k] == rest[k - 1] && i + k == i + 1 + (k - 1);
    }
    if !accepts(i) {
      EndsLater([first], rest, |actions| - i - 1);
    }
  }

  lemma {:induction false} EndsLater(refused: seq<Call>, rest: seq<Call>, all: nat)
    requires EndAtFirstAccepted(rest, all) && forall c <- refused :: !c.accepted
    ensures EndAtFirstAccepted(refused + rest, |refused| + all)
  {
    var calls := refused + rest;
    forall k | 0 <= k < |calls| - 1 ensures !calls[k].accepted {
      assert calls[k] == if k < |refused| then refused[k] else rest[k - |refused|];
    }
    assert rest != [] ==> calls[|calls| - 1] == rest[|rest| - 1];
  }

  lemma {:induction false} TwoMore(rest: seq<Call>, actions: seq<ActionId>, i: nat, focus: Answers, own: Answers)
    requires i < |actions| && |rest| <= 2 * (|actions| - i - 1) && EndAtFirstAccepted(rest, 2 * (|actions| - i - 1))
    requires forall k | 0 <= k < |rest| :: rest[k] == InTurn(k, actions, i + 1, focus, own)
    ensures var first, second := Call(true, actions[i], focus(i)), Call(false, actions[i], own(i));
      var calls := if first.accepted then [first] else if second.accepted then [first, second]
                   else [first, second] + rest;
      && |calls| <= 2 * (|actions| - i) && EndAtFirstAccepted(calls, 2 * (|actions| - i))
      && forall k | 0 <= k < |calls| :: calls[k] == InTurn(k, actions, i, focus, own)
  {
    var first, second := Call(true, actions[i], focus(i)), Call(false, actions[i], own(i));
    assert InTurn(0, actions, i, focus, own) == first && InTurn(1, actions, i, focus, own) == second;
    hide InTurn;
    var calls := [first, second] + rest;
    if !first.accepted && !second.accepted {
      EndsLater([first, second], rest, 2 * (|actions| - i - 1));
    }
    forall k | 2 <= k < |calls| ensures calls[k] == InTurn(k, actions, i, focus, own) {
      LaterTurn(k - 2, actions, i, focus, own);
    }
  }

  lemma {:induction false} LaterTurn(k: nat, actions: seq<ActionId>, i: nat, focus: Answers, own: Answers)
    requires i < |actions| && k < 2 * (|actions| - i - 1)
    ensures InTurn(k + 2, actions, i, focus, own) == InTurn(k, actions, i + 1, focus, own)
  {
  }

  /**
   * The focused element is asked first for every action, and the own container only for those that it refused. If the
   * focused element takes the first action, nothing else is asked.
   */
  lemma {:induction false} FocusComesFirst(calls: seq<Call>, actions: seq<ActionId>, press: KeyPress)
    requires AreCallsOf(calls, actions, 0, press) && press.focus.Some?
    ensures calls != [] ==> calls[0].onFocus
    ensures forall k | 0 <= k < |calls| && !calls[k].onFocus ::
              0 < k && calls[k - 1] == Call(true, calls[k].action, false)
    ensures actions != [] && press.focus.value.accepts(0) ==> calls == [Call(true, actions[0], true)]
  {
    if press.own.Some? {
      var focus, own := press.focus.value.accepts, press.own.value;
      forall k | 0 <= k < |calls| && !calls[k].onFocus
        ensures 0 < k && calls[k - 1] == Call(true, calls[k].action, false)
      {
        assert calls[k] == InTurn(k, actions, 0, focus, own) && k % 2 == 1;
        assert calls[k - 1] == InTurn(k - 1, actions, 0, focus, own) && (k - 1) / 2 == k / 2;
      }
    }
  }

  /** The keys typed since the last reset, and the modifier of the first of them. */
  datatype Typing = Typing(modifier: KeyModifier, path: seq<KeyId>)

  function Typed(t: Typing, press: KeyPress): KeyCombination {
    KeyCombination(if t.path == [] then press.modifier else t.modifier, t.path + [press.key])
  }

  predicate TakenFirst(t: Typing, press: KeyPress) {
    t.path == [] && press.focus.Some? && press.focus.value.high
  }

  predicate TakenLast(t: Typing, press: KeyPress) {
    t.path == [] && press.focus.Some? && press.focus.value.low
  }

  function CallsOn(log: seq<Entry>, t: Typing, press: KeyPress): seq<Call> {
    if TakenFirst(t, press) then [] else Attempts(ActionsFor(log, Typed(t, press)), 0, press)
  }

  /** Where a key press leads, in terms of the appended combinations alone. */
  ghost predicate GoesOn(log: seq<Entry>, t: Typing, press: KeyPress) {
    && !TakenFirst(t, press)
    && !Succeeded(CallsOn(log, t, press))
    && HasLonger(log, Typed(t, press).modifier, Typed(t, press).keys)
  }

  ghost function TypedOn(log: seq<Entry>, t: Typing, press: KeyPress): Typing {
    if GoesOn(log, t, press) then Typing(Typed(t, press).modifier, Typed(t, press).keys)
    else Typing(t.modifier, [])
  }

  /** After an action has run and after a useless key within a sequence the configuration in force is taken anew. */
  ghost predicate Resets(log: seq<Entry>, t: Typing, press: KeyPress) {
    Succeeded(CallsOn(log, t, press)) || (t.path != [] && !GoesOn(log, t, press))
  }

  class ActionKeySequenceHandler {
    var rootActionKeyConfig: ActionKeyConfig
    var currentActionKeyConfig: ActionKeyConfig
    var sequenceKeyModifier: KeyModifier
    var combinationKeys: seq<KeyId>
    var hasJustQuitSequenceFlag: bool
    var hasJustEnteredSequenceFlag: bool
    /** The keys pressed since the last reset. */
    ghost var path: seq<KeyId>

    ghost predicate Valid()
      reads this, rootActionKeyConfig, rootActionKeyConfig.Repr
    {
      && this !in rootActionKeyConfig.Repr
      && rootActionKeyConfig.Valid()
      && currentActionKeyConfig == rootActionKeyConfig.ConfigAt(sequenceKeyModifier, path)
      && (path != [] ==> combinationKeys == path)
    }

    ghost function State(): Typing
      reads this
    {
      Typing(sequenceKeyModifier, path)
    }

    constructor (globalConfig: ActionKeyConfig)
      requires globalConfig.Valid()
      ensures Valid() && path == [] && rootActionKeyConfig == globalConfig
      ensures !hasJustQuitSequenceFlag && !hasJustEnteredSequenceFlag
    {
      rootActionKeyConfig, currentActionKeyConfig := globalConfig, globalConfig;
      sequenceKeyModifier, combinationKeys := 0, [];
      hasJustQuitSequenceFlag, hasJustEnteredSequenceFlag := false, false;
      path := [];
    }

    predicate IsWithinSequence()
      reads this
    {
      currentActionKeyConfig != rootActionKeyConfig
    }

    /** One is within a sequence exactly if keys have been typed since the last reset. */
    lemma {:induction false} WithinSequenceMeansTyped()
      requires Valid()
      ensures IsWithinSequence() <==> path != []
      ensures currentActionKeyConfig.Valid()
      ensures path != [] ==> HasLonger(rootActionKeyConfig.log, sequenceKeyModifier, path)
    {
      PlacesInTree(rootActionKeyConfig, sequenceKeyModifier, path);
    }

    method Reset(globalConfig: ActionKeyConfig)
      requires Valid() && globalConfig.Valid() && this !in globalConfig.Repr
      modifies this
      ensures Valid() && path == [] && rootActionKeyConfig == globalConfig
      ensures sequenceKeyModifier == old(sequenceKeyModifier)
      ensures hasJustQuitSequenceFlag == (old(path) != []) && !hasJustEnteredSequenceFlag
    {
      WithinSequenceMeansTyped();
      hide HasLonger, ActionKeyConfig.Valid;
      hasJustQuitSequenceFlag := IsWithinSequence();
      hasJustEnteredSequenceFlag := false;
      rootActionKeyConfig := globalConfig;
      currentActionKeyConfig := globalConfig;
      path := [];
    }

    method InvokeOne(action: ActionId, i: nat, press: KeyPress) returns (calls: seq<Call>)
      ensures calls == CallsFor(action, i, press)
    {
      calls := [];
      if press.focus.Some? {
        calls := calls + [Call(true, action, press.focus.value.accepts(i))];
        if press.focus.value.accepts(i) {
          return;
        }
      }
      if press.own.Some? {
        calls := calls + [Call(false, action, press.own.value(i))];
      }
    }

    /** Offer the actions to the focused element and to the own container until one is accepted. */
    method Invoke(actions: seq<ActionId>, press: KeyPress) returns (calls: seq<Call>)
      ensures calls == Attempts(actions, 0, press)
    {
      hide Attempts, Accepts;
      calls := [];
      var i := 0;
      while i < |actions|
        invariant 0 <= i <= |actions|
        invariant Attempts(actions, 0, press) == calls + Attempts(actions, i, press)
      {
        NextAttempt(actions, i, press, calls);
        var more := InvokeOne(actions[i], i, press);
        calls := calls + more;
        if Succeeded(more) {
          return;
        }
        i := i + 1;
      }
      NothingToAttempt(actions, press);
    }

    /** `globalConfig` is the configuration in force after the action has run. */
    method HandleKeyPress(press: KeyPress, globalConfig: ActionKeyConfig) returns (processed: bool, calls: seq<Call>)
      requires Valid() && globalConfig.Valid() && this !in globalConfig.Repr
      modifies this
      ensures Valid()
      ensures calls == CallsOn(old(rootActionKeyConfig.log), old(State()), press)
      ensures if old(path) == [] && press.focus.Some? && press.focus.value.high then calls == []
              else AreCallsOf(calls, ActionsFor(old(rootActionKeyConfig.log), old(Typed(State(), press))), 0, press)
      ensures old(TakenFirst(State(), press)) ==>
        processed && State() == old(State()) && rootActionKeyConfig == old(rootActionKeyConfig)
      ensures Succeeded(calls) ==>
        && processed && path == [] && rootActionKeyConfig == globalConfig
        && sequenceKeyModifier == old(sequenceKeyModifier)
      ensures old(GoesOn(rootActionKeyConfig.log, State(), press)) ==>
        processed && State() == old(TypedOn(rootActionKeyConfig.log, State(), press))
      ensures !old(TakenFirst(State(), press)) && !Succeeded(calls) ==>
        && rootActionKeyConfig == old(rootActionKeyConfig)
        && (!old(GoesOn(rootActionKeyConfig.log, State(), press)) ==>
              State() == old(State()) && processed == old(TakenLast(State(), press)))
      ensures hasJustQuitSequenceFlag == (Succeeded(calls) && old(path) != [])
      ensures hasJustEnteredSequenceFlag == old(GoesOn(rootActionKeyConfig.log, State(), press))
    {
      hide ActionsFor, HasLonger, Accepts, CallsFor, ActionKeyConfig.Valid;
      ghost var t, log := State(), rootActionKeyConfig.log;
      AttemptsAreCalls(ActionsFor(log, Typed(t, press)), 0, press);
      hide AreCallsOf, Attempts;
      WithinSequenceMeansTyped();
      hasJustQuitSequenceFlag, hasJustEnteredSequenceFlag := false, false;
      calls := [];
      if !IsWithinSequence() && press.focus.Some? && press.focus.value.high {
        return true, [];
      }
      var m := if IsWithinSequence() then sequenceKeyModifier else press.modifier;
      var id := MappingId(m, press.key);
      WalkOnFromHere(m, press.key);
      assert Typed(t, press) == KeyCombination(m, path + [press.key]);
      assert currentActionKeyConfig.Actions(id) == ActionsFor(log, Typed(t, press));
      processed := false;
      if id in currentActionKeyConfig.nodeMap {
        var node := currentActionKeyConfig.Find(id);
        calls := Invoke(node.actionIds, press);
        if Succeeded(calls) {
          Reset(globalConfig);
          processed := true;
        }
        if !processed && node.next != null {
          GoOn(press, node.next);
          processed := true;
        }
      }
      if !processed && !IsWithinSequence() && press.focus.Some? && press.focus.value.low {
        processed := true;
      }
    }

    method GoOn(press: KeyPress, next: ActionKeyConfig)
      requires Valid()
      requires next == rootActionKeyConfig.ConfigAt(Typed(State(), press).modifier, path + [press.key])
      modifies this`sequenceKeyModifier, this`combinationKeys, this`currentActionKeyConfig, this`path
      modifies this`hasJustEnteredSequenceFlag
      ensures Valid() && hasJustEnteredSequenceFlag
      ensures State() == old(Typing(Typed(State(), press).modifier, Typed(State(), press).keys))
    {
      WithinSequenceMeansTyped();
      hide HasLonger, ActionKeyConfig.Valid;
      if !IsWithinSequence() {
        sequenceKeyModifier := press.modifier;
        combinationKeys := [press.key];
      } else {
        combinationKeys := combinationKeys + [press.key];
      }
      currentActionKeyConfig := next;
      path := path + [press.key];
      hasJustEnteredSequenceFlag := true;
    }

    lemma {:induction false} WalkOnFromHere(m: KeyModifier, key: KeyId)
      requires Valid() && (path != [] ==> m == sequenceKeyModifier)
      ensures var id := MappingId(m, key);
        && rootActionKeyConfig.ConfigAt(m, path + [key]) == currentActionKeyConfig.Next(id)
        && currentActionKeyConfig.Actions(id) == ActionsFor(rootActionKeyConfig.log, KeyCombination(m, path + [key]))
        && (currentActionKeyConfig.Next(id) != null <==> HasLonger(rootActionKeyConfig.log, m, path + [key]))
    {
      WalkOn(rootActionKeyConfig, m, path, key);
      PlacesInTree(rootActionKeyConfig, m, path + [key]);
    }

    /** The caller's part: a key that is of no use within a sequence ends it. */
    method ProcessKeyboardEvent(press: KeyPress, globalConfig: ActionKeyConfig) returns (processed: bool,
                                calls: seq<Call>)
      requires Valid() && globalConfig.Valid() && this !in globalConfig.Repr
      modifies this
      ensures Valid() && (IsWithinSequence() <==> path != [])
      ensures State() == old(TypedOn(rootActionKeyConfig.log, State(), press))
      ensures calls == CallsOn(old(rootActionKeyConfig.log), old(State()), press)
      ensures rootActionKeyConfig
           == if old(Resets(rootActionKeyConfig.log, State(), press)) then globalConfig else old(rootActionKeyConfig)
      ensures processed ==
        (|| old(path) != [] || Succeeded(calls) || path != []
         || old(TakenFirst(State(), press) || TakenLast(State(), press)))
      ensures Succeeded(calls) ==> path == [] && rootActionKeyConfig == globalConfig
      ensures !Succeeded(calls) && !(old(path) == [] && press.focus.Some? && press.focus.value.high) ==>
        var m := if old(path) == [] then press.modifier else old(sequenceKeyModifier);
        if HasLonger(old(rootActionKeyConfig.log), m, old(path) + [press.key])
        then path == old(path) + [press.key] && sequenceKeyModifier == m
             && rootActionKeyConfig == old(rootActionKeyConfig)
        else path == []
             && rootActionKeyConfig == if old(path) == [] then old(rootActionKeyConfig) else globalConfig
    {
      hide CallsOn, HasLonger, AreCallsOf;
      processed, calls := HandleKeyPress(press, globalConfig);
      WithinSequenceMeansTyped();
      if !processed && IsWithinSequence() {
        Reset(globalConfig);
        processed := true;
        WithinSequenceMeansTyped();
      }
    }
  }

  // ----- runs of key presses

  ghost function TypedAll(log: seq<Entry>, t: Typing, presses: seq<KeyPress>): Typing {
    if presses == [] then t
    else TypedOn(log, TypedAll(log, t, presses[..|presses| - 1]), presses[|presses| - 1])
  }

  /** The appended combinations that are in force for the handler, and what has been typed on them. */
  datatype Place = Place(log: seq<Entry>, typing: Typing)

  ghost function PlaceOn(p: Place, press: KeyPress, log: seq<Entry>): Place {
    Place(if Resets(p.log, p.typing, press) then log else p.log, TypedOn(p.log, p.typing, press))
  }

  /** `logs[i]` is what the configuration in force after key press `i` represents. */
  ghost function PlaceAfter(p: Place, presses: seq<KeyPress>, logs: seq<seq<Entry>>): Place
    requires |logs| == |presses|
  {
    if presses == [] then p
    else
      var n := |presses| - 1;
      PlaceOn(PlaceAfter(p, presses[..n], logs[..n]), presses[n], logs[n])
  }

  lemma {:induction false} OneMorePress(p: Place, presses: seq<KeyPress>, logs: seq<seq<Entry>>, i: nat)
    requires |logs| == |presses| > i
    ensures PlaceAfter(p, presses[..i + 1], logs[..i + 1])
         == PlaceOn(PlaceAfter(p, presses[..i], logs[..i]), presses[i], logs[i])
  {
    assert presses[..i + 1][..i] == presses[..i] && logs[..i + 1][..i] == logs[..i];
  }

  lemma {:induction false} NoPress(p: Place)
    ensures PlaceAfter(p, [], []) == p
  {
  }

  ghost predicate CanServe(config: ActionKeyConfig, handler: ActionKeySequenceHandler, log: seq<Entry>)
    reads config, config.Repr
  {
    config.Valid() && handler !in config.Repr && config.log == log
  }

  method ProcessOne(handler: ActionKeySequenceHandler, press: KeyPress, config: ActionKeyConfig)
    requires handler.Valid() && config.Valid() && handler !in config.Repr
    modifies handler
    ensures handler.Valid() && (handler.IsWithinSequence() <==> handler.path != [])
    ensures Place(handler.rootActionKeyConfig.log, handler.State())
         == PlaceOn(Place(old(handler.rootActionKeyConfig.log), old(handler.State())), press, old(config.log))
  {
    hide Resets, TypedOn, HasLonger, ActionKeyConfig.Valid;
    var _, _ := handler.ProcessKeyboardEvent(press, config);
  }

  /**
   * Any run of key presses keeps the handler at the place of the trie that the keys since the last reset lead to,
   * even if the configuration in force changes at any time.
   */
  method ProcessAll(handler: ActionKeySequenceHandler, presses: seq<KeyPress>, configs: seq<ActionKeyConfig>,
                    ghost logs: seq<seq<Entry>>)
    requires handler.Valid() && |configs| == |logs| == |presses|
    requires forall i | 0 <= i < |configs| :: CanServe(configs[i], handler, logs[i])
    modifies handler
    ensures handler.Valid() && (handler.IsWithinSequence() <==> handler.path != [])
    ensures Place(handler.rootActionKeyConfig.log, handler.State())
         == PlaceAfter(Place(old(handler.rootActionKeyConfig.log), old(handler.State())), presses, logs)
  {
    handler.WithinSequenceMeansTyped();
    hide PlaceAfter, PlaceOn, HasLonger, ActionKeyConfig.Valid, ActionKeyConfig.ConfigAt;
    hide ActionKeySequenceHandler.Valid;
    ghost var start := Place(handler.rootActionKeyConfig.log, handler.State());
    NoPress(start);
    assert presses[..0] == [] && logs[..0] == [];
    var i := 0;
    while i < |presses|
      invariant 0 <= i <= |presses|
      invariant handler.Valid() && (handler.IsWithinSequence() <==> handler.path != [])
      invariant Place(handler.rootActionKeyConfig.log, handler.State()) == PlaceAfter(start, presses[..i], logs[..i])
      invariant forall j | i <= j < |configs| :: CanServe(configs[j], handler, logs[j])
    {
      ProcessOne(handler, presses[i], configs[i]);
      OneMorePress(start, presses, logs, i);
      i := i + 1;
    }
    assert presses[..i] == presses && logs[..i] == logs;
  }

  /** As long as the configuration stays the same, what is typed depends on its combinations only. */
  lemma {:induction false} SameConfigThroughout(log: seq<Entry>, t: Typing, presses: seq<KeyPress>,
                                                logs: seq<seq<Entry>>)
    requires |logs| == |presses| && forall i | 0 <= i < |logs| :: logs[i] == log
    ensures PlaceAfter(Place(log, t), presses, logs) == Place(log, TypedAll(log, t, presses))
  {
    if presses != [] {
      SameConfigThroughout(log, t, presses[..|presses| - 1], logs[..|presses| - 1]);
    }
  }

  /** The keys of `c`, each pressed where nothing else takes it and no shorter binding runs. */
  predicate TypesUndisturbed(log: seq<Entry>, c: KeyCombination, presses: seq<KeyPress>)
    requires |c.keys| == |presses| > 0
  {
    && presses[0].modifier == c.modifier
    && (presses[0].focus.Some? ==> !presses[0].focus.value.high)
    && (forall i | 0 <= i < |presses| :: presses[i].key == c.keys[i])
    && (forall i | 0 <= i < |presses| - 1 ::
          !Succeeded(Attempts(ActionsFor(log, KeyCombination(c.modifier, c.keys[..i + 1])), 0, presses[i])))
  }

  /** Typing the keys of an appended combination one by one gets to the actions that are bound to it. */
  lemma {:induction false} PrefixIsReached(log: seq<Entry>, c: KeyCombination, t: Typing, presses: seq<KeyPress>,
                                           n: nat)
    requires |c.keys| == |presses| > n && TypesUndisturbed(log, c, presses)
    requires t.path == [] && HasLonger(log, c.modifier, c.keys[..|c.keys| - 1])
    ensures TypedAll(log, t, presses[..n]).path == c.keys[..n]
    ensures n > 0 ==> TypedAll(log, t, presses[..n]).modifier == c.modifier
  {
    if n > 0 {
      PrefixIsReached(log, c, t, presses, n - 1);
      assert presses[..n][..n - 1] == presses[..n - 1];
      OnePrefixFurther(log, c, TypedAll(log, t, presses[..n - 1]), presses, n - 1);
    }
  }

  lemma {:induction false} OnePrefixFurther(log: seq<Entry>, c: KeyCombination, t: Typing, presses: seq<KeyPress>,
                                            n: nat)
    requires |c.keys| == |presses| > n + 1 && TypesUndisturbed(log, c, presses)
    requires HasLonger(log, c.modifier, c.keys[..|c.keys| - 1])
    requires t.path == c.keys[..n] && (n > 0 ==> t.modifier == c.modifier)
    ensures TypedOn(log, t, presses[n]) == Typing(c.modifier, c.keys[..n + 1])
  {
    hide HasLonger, Attempts, ActionsFor;
    KeyByKey(c.keys, n);
    PrefixIsLonger(log, c.modifier, c.keys[..|c.keys| - 1], n + 1);
    assert Typed(t, presses[n]) == KeyCombination(c.modifier, c.keys[..n + 1]);
  }

  lemma {:induction false} KeyByKey(keys: seq<KeyId>, n: nat)
    requires n + 1 < |keys|
    ensures keys[..n] + [keys[n]] == keys[..n + 1] == keys[..|keys| - 1][..n + 1]
    ensures n > 0 ==> keys[..n] != []
  {
  }

  lemma {:induction false} PrefixIsLonger(log: seq<Entry>, m: KeyModifier, path: seq<KeyId>, n: nat)
    requires n <= |path| && HasLonger(log, m, path)
    ensures HasLonger(log, m, path[..n])
  {
    var i :| 0 <= i < |log| && log[i].combination.modifier == m && path < log[i].combination.keys;
    assert path[..n] < log[i].combination.keys;
  }

  /** Every appended combination can be typed: its last key tries exactly the actions appended for it. */
  lemma {:induction false} BoundCombinationIsTyped(log: seq<Entry>, e: Entry, t: Typing, presses: seq<KeyPress>)
    requires e in log && |e.combination.keys| == |presses| > 0 && t.path == []
    requires TypesUndisturbed(log, e.combination, presses)
    ensures var n := |presses| - 1;
      CallsOn(log, TypedAll(log, t, presses[..n]), presses[n])
      == Attempts(ActionsFor(log, e.combination), 0, presses[n])
  {
    var c, n := e.combination, |presses| - 1;
    var i :| 0 <= i < |log| && log[i] == e;
    assert c.keys[..n] < log[i].combination.keys;
    assert HasLonger(log, c.modifier, c.keys[..n]);
    hide HasLonger, Attempts, ActionsFor, TypedAll;
    PrefixIsReached(log, c, t, presses, n);
    assert c.keys[..n] + [c.keys[n]] == c.keys;
  }
}
