/** The trie that finds the actions bound to a sequence of keys, with a two-way index at each level. */
module ActionKeyConfig {

  type KeyId = string
  type ActionId = string
  type KeyModifier = nat

  /** One modifier for a whole sequence of keys. */
  datatype KeyCombination = KeyCombination(modifier: KeyModifier, keys: seq<KeyId>)

  datatype MappingId = MappingId(modifier: KeyModifier, key: KeyId)

  /** What was appended, in order: the meaning of a configuration. */
  datatype Entry = Entry(combination: KeyCombination, action: ActionId)

  function ActionsFor(log: seq<Entry>, c: KeyCombination): seq<ActionId> {
    if log == [] then []
    else ActionsFor(log[..|log| - 1], c)
         + if log[|log| - 1].combination == c then [log[|log| - 1].action] else []
  }

  function KeysFor(log: seq<Entry>, a: ActionId): seq<KeyCombination> {
    if log == [] then []
    else KeysFor(log[..|log| - 1], a)
         + if log[|log| - 1].action == a then [log[|log| - 1].combination] else []
  }

  predicate StartsLonger(c: KeyCombination, id: MappingId) {
    |c.keys| > 1 && c.modifier == id.modifier && c.keys[0] == id.key
  }

  function Rest(c: KeyCombination): KeyCombination
    requires c.keys != []
  {
    c.(keys := c.keys[1..])
  }

  /** What the configuration behind key `id` has to know: longer combinations, without their first key. */
  function TailLog(log: seq<Entry>, id: MappingId): seq<Entry> {
    if log == [] then []
    else var last := log[|log| - 1];
         TailLog(log[..|log| - 1], id)
         + if StartsLonger(last.combination, id) then [Entry(Rest(last.combination), last.action)] else []
  }

  function Single(id: MappingId): KeyCombination { KeyCombination(id.modifier, [id.key]) }

  lemma {:induction false} OneMoreEntry(log: seq<Entry>, e: Entry)
    ensures forall c :: ActionsFor(log + [e], c) == ActionsFor(log, c) + if e.combination == c then [e.action] else []
    ensures forall a :: KeysFor(log + [e], a) == KeysFor(log, a) + if e.action == a then [e.combination] else []
    ensures forall id :: TailLog(log + [e], id) == TailLog(log, id) + TailOf(e, id)
  {
    assert (log + [e])[..|log|] == log;
  }

  function TailOf(e: Entry, id: MappingId): seq<Entry> {
    if StartsLonger(e.combination, id) then [Entry(Rest(e.combination), e.action)] else []
  }

  /** What is bound to exactly the keys that lead here, and how to go on. */
  datatype Node = Node(actionIds: seq<ActionId>, next: ActionKeyConfig?)

  class ActionKeyConfig {
    var nodeMap: map<MappingId, Node>
    var actionsToKeysMap: map<ActionId, seq<KeyCombination>>
    var keysToActionsMap: map<KeyCombination, seq<ActionId>>

    ghost var Repr: set<object>
    ghost var log: seq<Entry>

    function Next(id: MappingId): ActionKeyConfig?
      reads this
    {
      if id in nodeMap then nodeMap[id].next else null
    }

    function Actions(id: MappingId): seq<ActionId>
      reads this
    {
      if id in nodeMap then nodeMap[id].actionIds else []
    }

    ghost predicate Valid()
      reads this, Repr
      ensures Valid() ==> this in Repr
      decreases Repr, 1
    {
      Tree() && LogsMatch() && NodesMatchLog() && IndexMatchesLog()
    }

    /** The configurations below are separate trees of their own. */
    ghost predicate Tree()
      reads this, Repr
      ensures Tree() ==> this in Repr
      decreases Repr, 0
    {
      && this in Repr
      && (forall id :: Next(id) != null ==>
            && Next(id) in Repr && Next(id).Repr <= Repr && this !in Next(id).Repr && Next(id).Valid())
      && (forall i, j :: i != j && Next(i) != null && Next(j) != null ==> Next(i).Repr !! Next(j).Repr)
    }

    /** Each of them was given exactly what is left of the longer combinations behind its key. */
    ghost predicate LogsMatch()
      requires forall id :: Next(id) != null ==> Next(id) in Repr
      reads this, Repr
    {
      forall id :: LogMatches(id)
    }

    ghost predicate LogMatches(id: MappingId)
      requires Next(id) != null ==> Next(id) in Repr
      reads this, Repr
    {
      if Next(id) == null then TailLog(log, id) == [] else Next(id).log == TailLog(log, id) != []
    }

    ghost predicate NodesMatchLog()
      reads this
    {
      forall id :: Actions(id) == ActionsFor(log, Single(id))
    }

    ghost predicate IndexMatchesLog()
      reads this
    {
      && (forall a :: a in actionsToKeysMap <==> KeysFor(log, a) != [])
      && (forall a | a in actionsToKeysMap :: actionsToKeysMap[a] == KeysFor(log, a))
      && (forall c :: c in keysToActionsMap <==> ActionsFor(log, c) != [])
      && (forall c | c in keysToActionsMap :: keysToActionsMap[c] == ActionsFor(log, c))
    }

    constructor ()
      ensures Valid() && fresh(Repr) && log == []
    {
      nodeMap, actionsToKeysMap, keysToActionsMap := map[], map[], map[];
      Repr, log := {this}, [];
    }

    method IndexEntry(combination: KeyCombination, actionId: ActionId)
      requires IndexMatchesLog()
      modifies this`actionsToKeysMap, this`keysToActionsMap, this`log
      ensures IndexMatchesLog() && log == old(log) + [Entry(combination, actionId)]
    {
      hide ActionsFor, KeysFor;
      OneMoreEntry(log, Entry(combination, actionId));
      var keys := if actionId in actionsToKeysMap then actionsToKeysMap[actionId] else [];
      actionsToKeysMap := actionsToKeysMap[actionId := keys + [combination]];
      var actions := if combination in keysToActionsMap then keysToActionsMap[combination] else [];
      keysToActionsMap := keysToActionsMap[combination := actions + [actionId]];
      log := log + [Entry(combination, actionId)];
    }

    method AppendBelow(id: MappingId, rest: KeyCombination, actionId: ActionId)
      requires Tree() && rest.keys != []
      modifies Repr
      ensures Tree() && fresh(Repr - old(Repr))
      ensures forall i :: i != id ==> Next(i) == old(Next(i)) && Actions(i) == old(Actions(i))
      ensures forall i :: i != id && Next(i) != null ==> Next(i).log == old(Next(i).log)
      ensures Next(id) != null && Actions(id) == old(Actions(id))
      ensures Next(id).log == (if old(Next(id)) == null then [] else old(Next(id).log)) + [Entry(rest, actionId)]
      ensures log == old(log) && (old(IndexMatchesLog()) ==> IndexMatchesLog())
      decreases |rest.keys|, 1
    {
      hide ActionsFor, KeysFor, IndexMatchesLog;
      var next := Next(id);
      if next == null {
        next := new ActionKeyConfig();
      }
      ghost var touched := next.Repr;
      var appended := next.Append(rest, actionId);
      forall i | i != id && Next(i) != null
        ensures Next(i) == old(Next(i)) && Next(i).Repr == old(Next(i).Repr) && Next(i).log == old(Next(i).log)
        ensures Next(i).Valid() && Next(i).Repr !! next.Repr
      {
        assert Next(i) == old(Next(i));
        assert old(Next(i).Repr) !! touched;
      }
      label Appended:
      LinkNext(id, next);
      forall i | i != id ensures Next(i) == old(Next(i)) && Actions(i) == old(Actions(i)) {
        assert Next(i) == old@Appended(Next(i)) && Actions(i) == old@Appended(Actions(i));
      }
    }

    /** Make `next`, grown or new, the configuration behind key `id`. */
    method LinkNext(id: MappingId, next: ActionKeyConfig)
      requires this in Repr && next.Valid() && this !in next.Repr
      requires forall i :: i != id && Next(i) != null ==>
                 && Next(i) in Repr && Next(i).Repr <= Repr && this !in Next(i).Repr && Next(i).Valid()
                 && Next(i).Repr !! next.Repr
      requires forall i, j :: i != j && i != id && j != id && Next(i) != null && Next(j) != null ==>
                 Next(i).Repr !! Next(j).Repr
      modifies this`nodeMap, this`Repr
      ensures Tree() && Repr == old(Repr) + next.Repr
      ensures Next(id) == next && Actions(id) == old(Actions(id))
      ensures old(IndexMatchesLog()) ==> IndexMatchesLog()
      ensures forall i :: i != id ==> Next(i) == old(Next(i)) && Actions(i) == old(Actions(i))
    {
      nodeMap := nodeMap[id := Node(Actions(id), next)];
      Repr := Repr + next.Repr;
      forall i ensures Next(i) == if i == id then next else old(Next(i)) {}
    }

    method AppendHere(id: MappingId, actionId: ActionId)
      requires Tree()
      modifies this`nodeMap
      ensures Tree() && (old(IndexMatchesLog()) ==> IndexMatchesLog())
      ensures forall i :: Next(i) == old(Next(i))
      ensures forall i :: Actions(i) == old(Actions(i)) + if i == id then [actionId] else []
    {
      nodeMap := nodeMap[id := Node(Actions(id) + [actionId], Next(id))];
      forall i ensures Next(i) == old(Next(i)) {}
    }

    method Append(combination: KeyCombination, actionId: ActionId) returns (ok: bool)
      requires Valid()
      modifies Repr
      ensures Valid() && fresh(Repr - old(Repr))
      ensures ok == (combination.keys != [])
      ensures log == old(log) + if ok then [Entry(combination, actionId)] else []
      decreases |combination.keys|, 0
    {
      hide ActionsFor, KeysFor, TailLog, IndexMatchesLog;
      if combination.keys == [] {
        return false;
      }
      ok := true;
      ghost var l, e := log, Entry(combination, actionId);
      OneMoreEntry(l, e);
      var id := MappingId(combination.modifier, combination.keys[0]);
      assert forall i :: LogMatches(i);
      IndexEntry(combination, actionId);
      forall i ensures Next(i) == old(Next(i)) && Actions(i) == old(Actions(i)) {}
      assert Tree();
      label Indexed:
      if |combination.keys| > 1 {
        AppendBelow(id, Rest(combination), actionId);
        forall i ensures LogMatches(i) && Actions(i) == ActionsFor(log, Single(i)) {
          assert old(LogMatches(i)) && TailLog(log, i) == TailLog(l, i) + TailOf(e, i);
          assert Single(i) != combination && Actions(i) == old@Indexed(Actions(i));
          if i != id {
            assert Next(i) == old@Indexed(Next(i)) && TailOf(e, i) == [];
          }
        }
      } else {
        AppendHere(id, actionId);
        forall i ensures LogMatches(i) && Actions(i) == ActionsFor(log, Single(i)) {
          assert old(LogMatches(i)) && TailOf(e, i) == [] && Next(i) == old@Indexed(Next(i));
          assert Actions(i) == old@Indexed(Actions(i)) + if i == id then [actionId] else [];
          assert combination == Single(id);
          assert Single(i) == combination <==> i == id;
        }
      }
    }

    // ----- looking up

    function Find(id: MappingId): (node: Node)
      requires id in nodeMap
      reads this
    {
      nodeMap[id]
    }

    function GetKeyCombinationsForAction(a: ActionId): seq<KeyCombination>
      reads this
    {
      if a in actionsToKeysMap then actionsToKeysMap[a] else []
    }

    function GetActionIdsForKeyCombination(c: KeyCombination): seq<ActionId>
      reads this
    {
      if c in keysToActionsMap then keysToActionsMap[c] else []
    }

    /** The configuration that a walk along `path` ends at, with one modifier for all keys. */
    ghost function ConfigAt(m: KeyModifier, path: seq<KeyId>): ActionKeyConfig?
      requires Valid()
      reads this, Repr
      decreases |path|
    {
      if path == [] then this
      else
        var id := MappingId(m, path[0]);
        assert Tree();
        if Next(id) == null then null else Next(id).ConfigAt(m, path[1..])
    }
  }

  /** Any list of appends: the configuration knows exactly these, in this order. */
  method AppendAll(entries: seq<Entry>) returns (c: ActionKeyConfig)
    requires forall i | 0 <= i < |entries| :: entries[i].combination.keys != []
    ensures c.Valid() && fresh(c.Repr) && c.log == entries
  {
    c := new ActionKeyConfig();
    var i := 0;
    while i < |entries|
      invariant 0 <= i <= |entries|
      invariant c.Valid() && fresh(c.Repr) && c.log == entries[..i]
    {
      hide ActionKeyConfig.Valid;
      assert entries[..i + 1] == entries[..i] + [Entry(entries[i].combination, entries[i].action)];
      var _ := c.Append(entries[i].combination, entries[i].action);
      i := i + 1;
    }
    assert entries[..i] == entries;
  }

  // ----- what the trie finds is what was appended

  lemma {:induction false} TailKeepsActions(log: seq<Entry>, m: KeyModifier, path: seq<KeyId>)
    requires |path| >= 2
    ensures ActionsFor(TailLog(log, MappingId(m, path[0])), KeyCombination(m, path[1..]))
         == ActionsFor(log, KeyCombination(m, path))
  {
    if log != [] {
      var id, init, e := MappingId(m, path[0]), log[..|log| - 1], log[|log| - 1];
      TailKeepsActions(init, m, path);
      var c, keys := KeyCombination(m, path[1..]), e.combination.keys;
      assert log == init + [e];
      OneMoreEntry(init, e);
      if StartsLonger(e.combination, id) {
        OneMoreEntry(TailLog(init, id), Entry(Rest(e.combination), e.action));
        assert keys == [keys[0]] + keys[1..] && path == [path[0]] + path[1..];
        assert Rest(e.combination) == c <==> e.combination == KeyCombination(m, path);
      } else {
        assert e.combination != KeyCombination(m, path);
        assert TailLog(log, id) == TailLog(init, id);
      }
    }
  }

  /** Some appended combination goes on behind `path`. */
  ghost predicate HasLonger(log: seq<Entry>, m: KeyModifier, path: seq<KeyId>) {
    exists i | 0 <= i < |log| :: log[i].combination.modifier == m && path < log[i].combination.keys
  }

  lemma {:induction false} TailKeepsLonger(log: seq<Entry>, m: KeyModifier, path: seq<KeyId>)
    requires path != []
    ensures HasLonger(TailLog(log, MappingId(m, path[0])), m, path[1..]) <==> HasLonger(log, m, path)
  {
    if log != [] {
      var id, init, e := MappingId(m, path[0]), log[..|log| - 1], log[|log| - 1];
      TailKeepsLonger(init, m, path);
      LongerInMore(init, e, m, path);
      assert log == init + [e];
      OneMoreEntry(init, e);
      if StartsLonger(e.combination, id) {
        var keys := e.combination.keys;
        LongerInMore(TailLog(init, id), Entry(Rest(e.combination), e.action), m, path[1..]);
        assert keys == [keys[0]] + keys[1..] && path == [path[0]] + path[1..];
        assert path[1..] < keys[1..] <==> path < keys;
      } else {
        assert TailLog(log, id) == TailLog(init, id);
      }
    }
  }

  lemma {:induction false} LongerInMore(log: seq<Entry>, e: Entry, m: KeyModifier, path: seq<KeyId>)
    ensures HasLonger(log + [e], m, path)
       <==> HasLonger(log, m, path) || (e.combination.modifier == m && path < e.combination.keys)
  {
    var more := log + [e];
    if HasLonger(log, m, path) {
      var i :| 0 <= i < |log| && log[i].combination.modifier == m && path < log[i].combination.keys;
      assert more[i] == log[i];
    }
    if e.combination.modifier == m && path < e.combination.keys {
      assert more[|log|] == e;
    }
  }

  /** Every place of the trie is a valid configuration; below the root it is another object than the root. */
  lemma {:induction false} PlacesInTree(c: ActionKeyConfig, m: KeyModifier, path: seq<KeyId>)
    requires c.Valid()
    ensures var d := c.ConfigAt(m, path);
      && (d != null ==> d in c.Repr && d.Repr <= c.Repr && d.Valid() && (path != [] ==> d != c))
      && (path != [] ==> (d != null <==> HasLonger(c.log, m, path)))
    decreases |path|
  {
    if path != [] {
      var id := MappingId(m, path[0]);
      TailKeepsLonger(c.log, m, path);
      assert c.LogMatches(id);
      if c.Next(id) != null {
        PlacesInTree(c.Next(id), m, path[1..]);
        if path[1..] == [] {
          FirstIsLonger(c.log, m, path);
        }
      }
    }
  }

  lemma {:induction false} FirstIsLonger(log: seq<Entry>, m: KeyModifier, path: seq<KeyId>)
    requires |path| == 1 && TailLog(log, MappingId(m, path[0])) != []
    ensures HasLonger(log, m, path)
  {
    var init, e := log[..|log| - 1], log[|log| - 1];
    assert log == init + [e];
    LongerInMore(init, e, m, path);
    if StartsLonger(e.combination, MappingId(m, path[0])) {
      assert path < e.combination.keys;
    } else {
      FirstIsLonger(init, m, path);
    }
  }

  /** Walking on by one more key. */
  lemma {:induction false} WalkOn(c: ActionKeyConfig, m: KeyModifier, path: seq<KeyId>, key: KeyId)
    requires c.Valid() && c.ConfigAt(m, path) != null
    ensures var d, id := c.ConfigAt(m, path), MappingId(m, key);
      && c.ConfigAt(m, path + [key]) == d.Next(id)
      && d.Actions(id) == ActionsFor(c.log, KeyCombination(m, path + [key]))
    decreases |path|
  {
    if path == [] {
      assert [] + [key] == [key];
      assert c.NodesMatchLog();
    } else {
      var id := MappingId(m, path[0]);
      assert c.LogMatches(id);
      WalkOn(c.Next(id), m, path[1..], key);
      assert (path + [key])[1..] == path[1..] + [key];
      TailKeepsActions(c.log, m, path + [key]);
    }
  }

  /** Typing exactly `path` finds the actions appended for it, in the order in which they were appended. */
  lemma {:induction false} TypedKeysFindTheirActions(c: ActionKeyConfig, m: KeyModifier, path: seq<KeyId>)
    requires c.Valid() && path != []
    ensures var d := c.ConfigAt(m, path[..|path| - 1]);
      (if d == null then [] else d.Actions(MappingId(m, path[|path| - 1])))
      == ActionsFor(c.log, KeyCombination(m, path))
  {
    var init, key := path[..|path| - 1], path[|path| - 1];
    assert path == init + [key];
    if c.ConfigAt(m, init) != null {
      WalkOn(c, m, init, key);
    } else {
      PlacesInTree(c, m, init);
      NoActionsBehind(c.log, m, path);
    }
  }

  lemma {:induction false} NoActionsBehind(log: seq<Entry>, m: KeyModifier, path: seq<KeyId>)
    requires |path| >= 2 && !HasLonger(log, m, path[..|path| - 1])
    ensures ActionsFor(log, KeyCombination(m, path)) == []
  {
    if log != [] {
      var init, e := log[..|log| - 1], log[|log| - 1];
      assert log == init + [e];
      LongerInMore(init, e, m, path[..|path| - 1]);
      NoActionsBehind(init, m, path);
      assert path[..|path| - 1] < path;
    }
  }

  /** The two-way index: an action is listed for a combination as often as the combination for the action. */
  lemma {:induction false} IndexesAreInverse(c: ActionKeyConfig, k: KeyCombination, a: ActionId)
    requires c.Valid()
    ensures multiset(c.GetKeyCombinationsForAction(a))[k] == multiset(c.GetActionIdsForKeyCombination(k))[a]
         == multiset(c.log)[Entry(k, a)]
  {
    CountsAgree(c.log, k, a);
  }

  lemma {:induction false} CountsAgree(log: seq<Entry>, k: KeyCombination, a: ActionId)
    ensures multiset(KeysFor(log, a))[k] == multiset(ActionsFor(log, k))[a] == multiset(log)[Entry(k, a)]
  {
    if log != [] {
      CountsAgree(log[..|log| - 1], k, a);
      CountsOneMore(log, k, a);
    }
  }

  lemma {:induction false} CountsOneMore(log: seq<Entry>, k: KeyCombination, a: ActionId)
    requires log != []
    ensures var init, one := log[..|log| - 1], if log[|log| - 1] == Entry(k, a) then 1 else 0;
      && multiset(KeysFor(log, a))[k] == multiset(KeysFor(init, a))[k] + one
      && multiset(ActionsFor(log, k))[a] == multiset(ActionsFor(init, k))[a] + one
      && multiset(log)[Entry(k, a)] == multiset(init)[Entry(k, a)] + one
  {
    var init, e := log[..|log| - 1], log[|log| - 1];
    CountInMore(init, log, e, true, Entry(k, a));
    CountInMore(KeysFor(init, a), KeysFor(log, a), e.combination, e.action == a, k);
    CountInMore(ActionsFor(init, k), ActionsFor(log, k), e.action, e.combination == k, a);
  }

  lemma {:induction false} CountInMore<T>(s: seq<T>, t: seq<T>, x: T, added: bool, y: T)
    requires t == s + if added then [x] else []
    ensures multiset(t)[y] == multiset(s)[y] + if added && x == y then 1 else 0
  {
    if !added {
      assert t == s;
    }
  }
}
