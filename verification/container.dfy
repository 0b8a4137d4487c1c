/** OptionsContainer: the per-module store of option values, and the
    decision each mutator makes about notifying the clients. */
module Container {
  import opened Wrappers
  import opened Options

  /** A player, by identity (ApolloPlayer). */
  type Player = nat

  /** The key an option's value is stored under: its node path. */
  function Key(o: OptionDesc): NodePath {
    o.node
  }

  /** One call of `NetworkOptions.sendOption`: the option and the value sent
      (`None` for null). The players it goes to are not part of this model. */
  datatype Sent = Sent(option: OptionDesc, value: Optional<Value>)

  /** The veto `postUpdate` gives on an update (declared in a parent class
      that is not part of this model): `true` lets the update go ahead. */
  type Veto = (OptionDesc, Optional<Value>) -> bool

  /** The remapping function given to `replace`: from the option and its
      stored value (or null) to the new value (or null). */
  type Remap = (OptionDesc, Optional<Value>) -> Optional<Value>

  /** What a mutator leaves behind: the new values and whether it sends. */
  datatype Step = Step(values: map<NodePath, Value>, send: bool)

  function Lookup(values: map<NodePath, Value>, k: NodePath): Optional<Value> {
    if k in values then Some(values[k]) else None
  }

  /** `values` with `k` set to `v`, or removed when `v` is null. */
  function Put(values: map<NodePath, Value>, k: NodePath, v: Optional<Value>): (r: map<NodePath, Value>)
    ensures Lookup(r, k) == v
    ensures forall j :: j != k ==> Lookup(r, j) == Lookup(values, j)
  {
    if v.Some? then values[k := v.value] else values - {k}
  }

  /** `get(option)`: the stored value, or the option's default when none is stored. */
  function Effective(values: map<NodePath, Value>, o: OptionDesc): (r: Optional<Value>)
    ensures Key(o) in values ==> r == Some(values[Key(o)])
    ensures Key(o) !in values ==> r == o.defaultValue
  {
    if Key(o) in values then Some(values[Key(o)]) else o.defaultValue
  }

  /** Whether `set` treats `v` as a reset: null, or equal to the default. */
  predicate IsReset(o: OptionDesc, v: Optional<Value>) {
    v.None? || v == o.defaultValue
  }

  /** `set(option, value)` once `postUpdate` agreed: a reset removes the key and
      sends only when something was removed; any other value is stored and
      always sent, even when that very value was already stored. */
  function AfterSet(values: map<NodePath, Value>, o: OptionDesc, v: Optional<Value>): (r: Step)
    ensures IsReset(o, v) ==> Lookup(r.values, Key(o)) == None && (r.send <==> Key(o) in values)
    ensures !IsReset(o, v) ==> Lookup(r.values, Key(o)) == v && r.send
    ensures forall j :: j != Key(o) ==> Lookup(r.values, j) == Lookup(values, j)
  {
    if IsReset(o, v) then Step(values - {Key(o)}, Key(o) in values)
    else Step(values[Key(o) := v.value], true)
  }

  /** `add(option, value)` once `postUpdate` agreed: put-if-absent, sending only
      when the key was absent; a default value is stored like any other. */
  function AfterAdd(values: map<NodePath, Value>, o: OptionDesc, v: Value): (r: Step)
    ensures Key(o) in values ==> r == Step(values, false)
    ensures Key(o) !in values ==> r.values == values[Key(o) := v] && r.send
  {
    if Key(o) in values then Step(values, false) else Step(values[Key(o) := v], true)
  }

  /** `remove(option, compare)` once `postUpdate` agreed: the key goes, and a
      send follows, only when the stored value equals `compare`. */
  function AfterRemove(values: map<NodePath, Value>, o: OptionDesc, compare: Value): (r: Step)
    ensures Lookup(values, Key(o)) == Some(compare) ==> r.values == values - {Key(o)} && r.send
    ensures Lookup(values, Key(o)) != Some(compare) ==> r == Step(values, false)
  {
    if Key(o) in values && values[Key(o)] == compare then Step(values - {Key(o)}, true)
    else Step(values, false)
  }

  /** `replace(option, f)`: no veto; the key takes what `f` makes of the stored
      value (removed on null), and one send always follows. */
  function AfterReplace(values: map<NodePath, Value>, o: OptionDesc, f: Remap): (r: Step)
    ensures Lookup(r.values, Key(o)) == f(o, Lookup(values, Key(o)))
    ensures forall j :: j != Key(o) ==> Lookup(r.values, j) == Lookup(values, j)
    ensures r.send
  {
    Step(Put(values, Key(o), f(o, Lookup(values, Key(o)))), true)
  }

  /** A table of options in which each option stands under its own key. */
  type OptionTable = m: map<NodePath, OptionDesc> | forall k :: k in m ==> Key(m[k]) == k

  /** The options map the constructor fills: each option under its key. */
  function OptionsMap(options: seq<OptionDesc>): (r: OptionTable)
    ensures forall k :: k in r ==> r[k] in options
    ensures forall o :: o in options ==> Key(o) in r
  {
    if options == [] then map[]
    else
      var init := options[..|options| - 1];
      assert forall o :: o in init ==> o in options;
      assert forall o :: o in options ==> o in init || o == options[|options| - 1];
      OptionsMap(init)[Key(options[|options| - 1]) := options[|options| - 1]]
  }

  /** Of several options with the same key, the one put in last is kept. */
  lemma {:induction false} OptionsMapLastWins(options: seq<OptionDesc>, i: nat)
    requires i < |options|
    requires forall j :: i < j < |options| ==> Key(options[j]) != Key(options[i])
    ensures OptionsMap(options)[Key(options[i])] == options[i]
  {
    if i < |options| - 1 {
      var init := options[..|options| - 1];
      assert init[i] == options[i];
      OptionsMapLastWins(init, i);
    }
  }

  /** Setting a value and reading it back gives that value; resetting it
      gives the default. */
  lemma SetThenGet(values: map<NodePath, Value>, o: OptionDesc, v: Optional<Value>)
    ensures Effective(AfterSet(values, o, v).values, o) == if v.None? then o.defaultValue else v
  {
  }

  /** Only `set` keeps defaults out of the map: `add` of the default stores it. */
  lemma AddStoresDefault(values: map<NodePath, Value>, o: OptionDesc)
    requires o.defaultValue.Some? && Key(o) !in values
    ensures Lookup(AfterAdd(values, o, o.defaultValue.value).values, Key(o)) == o.defaultValue
    ensures Lookup(AfterSet(values, o, o.defaultValue).values, Key(o)) == None
  {
  }

  /** Setting the same non-default value twice sends twice. */
  lemma SetSendsAgain(values: map<NodePath, Value>, o: OptionDesc, v: Value)
    requires !IsReset(o, Some(v))
    ensures var once := AfterSet(values, o, Some(v));
      AfterSet(once.values, o, Some(v)) == Step(once.values, true)
  {
    var once := AfterSet(values, o, Some(v));
    assert once.values[Key(o) := v] == once.values;
  }

  /** A second `add` changes nothing and sends nothing: the first value stays. */
  lemma AddKeepsFirst(values: map<NodePath, Value>, o: OptionDesc, v1: Value, v2: Value)
    ensures var first := AfterAdd(values, o, v1);
      AfterAdd(first.values, o, v2) == Step(first.values, false)
      && Lookup(first.values, Key(o)) == Lookup(AfterAdd(first.values, o, v2).values, Key(o))
  {
  }

  /** After a `remove` that matched, `getDirect` finds nothing and `get` gives the default. */
  lemma RemoveThenGet(values: map<NodePath, Value>, o: OptionDesc, compare: Value)
    requires Lookup(values, Key(o)) == Some(compare)
    ensures Lookup(AfterRemove(values, o, compare).values, Key(o)) == None
    ensures Effective(AfterRemove(values, o, compare).values, o) == o.defaultValue
  {
  }

  /** ApolloModule, as far as the container and the manager use it (the class
      itself is not part of this model): its name, the options it registered,
      whether it asks for client notification, and the container set on it. */
  class ApolloModule {
    const name: string
    const optionKeys: seq<OptionDesc>
    const clientNotify: bool
    var container: Optional<OptionsContainer>

    constructor(name: string, optionKeys: seq<OptionDesc>, clientNotify: bool)
      ensures this.name == name && this.optionKeys == optionKeys && this.clientNotify == clientNotify
      ensures container == None
    {
      this.name := name;
      this.optionKeys := optionKeys;
      this.clientNotify := clientNotify;
      container := None;
    }
  }

  /** A player's view of a container (OptionsView is not part of this model). */
  class OptionsView {
    const container: OptionsContainer
    const player: Player

    constructor(container: OptionsContainer, player: Player)
      ensures this.container == container && this.player == player
    {
      this.container := container;
      this.player := player;
    }
  }

  /** OptionsContainer: the options of one module, their stored values (a key
      with no stored value reads as the default), the players' cached views,
      and the log of what was sent to the clients. */
  class OptionsContainer {
    const owner: ApolloModule
    const postUpdate: Veto
    const options: OptionTable
    var values: map<NodePath, Value>
    var views: map<Player, OptionsView>
    var sent: seq<Sent>

    /** Puts the options in one by one, in the order given. */
    constructor(owner: ApolloModule, options: seq<OptionDesc>, postUpdate: Veto)
      ensures this.owner == owner && this.postUpdate == postUpdate
      ensures this.options == OptionsMap(options)
      ensures values == map[] && views == map[] && sent == []
    {
      var m: map<NodePath, OptionDesc> := map[];
      var i := 0;
      while i < |options|
        invariant 0 <= i <= |options|
        invariant m == OptionsMap(options[..i])
      {
        assert options[..i + 1][..i] == options[..i];
        m := m[Key(options[i]) := options[i]];
        i := i + 1;
      }
      assert options[..i] == options;
      this.owner := owner;
      this.postUpdate := postUpdate;
      this.options := m;
      values := map[];
      views := map[];
      sent := [];
    }

    /** `get(option)`: the stored value, or the default when none is stored. */
    function Get(o: OptionDesc): (r: Optional<Value>)
      reads this`values
      ensures Key(o) in values ==> r == Some(values[Key(o)])
      ensures Key(o) !in values ==> r == o.defaultValue
    {
      Effective(values, o)
    }

    /** `getDirect(option)`: the stored value only; empty exactly when none is stored. */
    function GetDirect(o: OptionDesc): (r: Optional<Value>)
      reads this`values
      ensures r.None? <==> Key(o) !in values
      ensures r.Some? ==> r.value == values[Key(o)]
    {
      Lookup(values, Key(o))
    }

    /** The options iterated over (`iterator()`); the order is not modelled. */
    function Iterated(): (r: set<OptionDesc>)
      ensures forall o :: o in r <==> exists k :: k in options && options[k] == o
    {
      options.Values
    }

    method Set(o: OptionDesc, v: Optional<Value>)
      modifies this`values, this`sent
      ensures !postUpdate(o, v) ==> values == old(values) && sent == old(sent)
      ensures postUpdate(o, v) ==>
                values == AfterSet(old(values), o, v).values
                && sent == old(sent) + (if AfterSet(old(values), o, v).send then [Sent(o, v)] else [])
    {
      if !postUpdate(o, v) {
        return;
      }
      var send: bool;
      if v.None? || v == o.defaultValue {
        send := Key(o) in values;
        values := values - {Key(o)};
      } else {
        values := values[Key(o) := v.value];
        send := true;
      }
      if send {
        sent := sent + [Sent(o, v)];
      }
    }

    method Add(o: OptionDesc, v: Value)
      modifies this`values, this`sent
      ensures !postUpdate(o, Some(v)) ==> values == old(values) && sent == old(sent)
      ensures postUpdate(o, Some(v)) ==>
                values == AfterAdd(old(values), o, v).values
                && sent == old(sent) + (if AfterAdd(old(values), o, v).send then [Sent(o, Some(v))] else [])
    {
      if !postUpdate(o, Some(v)) {
        return;
      }
      if Key(o) !in values {
        values := values[Key(o) := v];
        sent := sent + [Sent(o, Some(v))];
      }
    }

    /** The veto is asked about a null value, as the code does. */
    method Remove(o: OptionDesc, compare: Value)
      modifies this`values, this`sent
      ensures !postUpdate(o, None) ==> values == old(values) && sent == old(sent)
      ensures postUpdate(o, None) ==>
                values == AfterRemove(old(values), o, compare).values
                && sent == old(sent) + (if AfterRemove(old(values), o, compare).send then [Sent(o, None)] else [])
    {
      if !postUpdate(o, None) {
        return;
      }
      if Key(o) in values && values[Key(o)] == compare {
        values := values - {Key(o)};
        sent := sent + [Sent(o, None)];
      }
    }

    method Replace(o: OptionDesc, f: Remap)
      modifies this`values, this`sent
      ensures values == AfterReplace(old(values), o, f).values
      ensures sent == old(sent) + [Sent(o, Lookup(values, Key(o)))]
    {
      var current := Lookup(values, Key(o));
      var value := f(o, current);
      values := Put(values, Key(o), value);
      sent := sent + [Sent(o, value)];
    }

    /** `get(player)`: the cached view, made on the first call for that player. */
    method View(player: Player) returns (view: OptionsView)
      modifies this`views
      ensures player in old(views) ==> view == old(views)[player] && views == old(views)
      ensures player !in old(views) ==>
                fresh(view) && view.container == this && view.player == player
                && views == old(views)[player := view]
    {
      if player in views {
        return views[player];
      }
      view := new OptionsView(this, player);
      views := views[player := view];
    }
  }
}
