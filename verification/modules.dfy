/** ApolloModuleManagerImpl: the registry of modules, and the loading and
    saving of their option values against a configuration tree. */
module Modules {
  import opened Wrappers
  import opened Options
  import opened Container

  /** The identity of a module class (`Class<? extends ApolloModule>`). */
  type ModuleClass = string

  /** What constructing a module of some class yields. */
  datatype ModuleSpec = ModuleSpec(name: string, optionKeys: seq<OptionDesc>, clientNotify: bool)

  /** Why `addModule` failed; the code rethrows it wrapped in a RuntimeException. */
  datatype Failure = ConstructorFailed | RegisterFailed | EnableFailed

  /** Whether `EventBus.register` and `enable()` throw for the module being added. */
  datatype Faults = Faults(registerThrows: bool, enableThrows: bool)

  /** The lifecycle calls made on a module, in order. */
  datatype Event = Registered(instance: ApolloModule) | Enabled(instance: ApolloModule)

  /** Reading a node as an option's type fails unless the stored value has that type. */
  datatype DecodeError = TypeMismatch(expected: ValueType, found: ValueType)

  function Decode(v: Value, t: ValueType): (r: Result<Value, DecodeError>)
    ensures r.Ok? <==> TypeOf(v) == t
    ensures r.Ok? ==> r.value == v
    ensures r.Err? ==> r.error == TypeMismatch(t, TypeOf(v))
  {
    if TypeOf(v) == t then Ok(v) else Err(TypeMismatch(t, TypeOf(v)))
  }

  function LowerChar(c: char): char {
    if 'A' <= c <= 'Z' then (c as int + 32) as char else c
  }

  /** `toLowerCase(Locale.ENGLISH)` on ASCII letters: each capital becomes its
      small letter, every other character stays, and no capital is left. */
  function Lower(s: string): (r: string)
    ensures |r| == |s|
    ensures forall i :: 0 <= i < |s| && 'A' <= s[i] <= 'Z' ==> r[i] == (s[i] as int + 32) as char
    ensures forall i :: 0 <= i < |s| && !('A' <= s[i] <= 'Z') ==> r[i] == s[i]
    ensures forall i :: 0 <= i < |r| ==> !('A' <= r[i] <= 'Z')
  {
    seq(|s|, i requires 0 <= i < |s| => LowerChar(s[i]))
  }

  /** The option values under a module's node; a virtual module node has none. */
  function SubtreeOf(nodes: map<string, map<NodePath, Value>>, name: string): map<NodePath, Value> {
    if name in nodes then nodes[name] else map[]
  }

  function CommentsOf(comments: map<string, map<NodePath, string>>, name: string): map<NodePath, string> {
    if name in comments then comments[name] else map[]
  }

  function CommentAt(comments: map<string, map<NodePath, string>>, name: string, k: NodePath): Optional<string> {
    var m := CommentsOf(comments, name);
    if k in m then Some(m[k]) else None
  }

  /** The configuration tree: under each module node (keyed by the lower-cased
      module name) the values at the option paths, and the comments on them.
      A node holding nothing is virtual. */
  class ConfigTree {
    var nodes: map<string, map<NodePath, Value>>
    var comments: map<string, map<NodePath, string>>

    constructor(nodes: map<string, map<NodePath, Value>>)
      ensures this.nodes == nodes && comments == map[]
    {
      this.nodes := nodes;
      comments := map[];
    }
  }

  /** The values after loading option `o` from a module node: nothing happens
      when the option's node is virtual or holds a value of the wrong type;
      otherwise the value read goes through `set`. */
  function LoadOne(values: map<NodePath, Value>, o: OptionDesc, veto: Veto, subtree: map<NodePath, Value>): (r: map<NodePath, Value>)
    ensures Key(o) !in subtree ==> r == values
    ensures Key(o) in subtree && TypeOf(subtree[Key(o)]) != o.valueType ==> r == values
    ensures forall j :: j != Key(o) ==> Lookup(r, j) == Lookup(values, j)
  {
    if Key(o) !in subtree then values
    else match Decode(subtree[Key(o)], o.valueType)
      case Err(_) => values
      case Ok(v) => if veto(o, Some(v)) then AfterSet(values, o, Some(v)).values else values
  }

  /** `after` is `before` with every option of `options` loaded from `subtree`. */
  ghost predicate Loaded(before: map<NodePath, Value>, after: map<NodePath, Value>,
                         options: OptionTable, veto: Veto, subtree: map<NodePath, Value>) {
    forall k :: Lookup(after, k) ==
      if k in options then Lookup(LoadOne(before, options[k], veto, subtree), k) else Lookup(before, k)
  }

  /** The module node after saving option `o` whose effective value is `v`:
      a value is written, null removes the node. */
  function SaveOne(subtree: map<NodePath, Value>, o: OptionDesc, v: Optional<Value>): (r: map<NodePath, Value>)
    ensures Lookup(r, Key(o)) == v
    ensures forall k :: k != Key(o) ==> Lookup(r, k) == Lookup(subtree, k)
  {
    Put(subtree, Key(o), v)
  }

  /** Loading a saved value back into an empty container stores what was stored
      before, for every option whose stored value, if any, is not its default,
      has the option's type and passes the veto. */
  lemma SaveThenLoad(values: map<NodePath, Value>, o: OptionDesc, veto: Veto, subtree: map<NodePath, Value>)
    requires Key(o) in values ==>
               Some(values[Key(o)]) != o.defaultValue && TypeOf(values[Key(o)]) == o.valueType
               && veto(o, Some(values[Key(o)]))
    ensures Lookup(LoadOne(map[], o, veto, SaveOne(subtree, o, Effective(values, o))), Key(o)) == Lookup(values, Key(o))
  {
    LoadsBack(values, o, veto, SaveOne(subtree, o, Effective(values, o)));
  }

  /** Loading option `o` into an empty container from a module node that holds
      its effective value stores what `values` stores, under the same condition
      as `SaveThenLoad`. */
  lemma LoadsBack(values: map<NodePath, Value>, o: OptionDesc, veto: Veto, subtree: map<NodePath, Value>)
    requires Lookup(subtree, Key(o)) == Effective(values, o)
    requires Key(o) in values ==>
               Some(values[Key(o)]) != o.defaultValue && TypeOf(values[Key(o)]) == o.valueType
               && veto(o, Some(values[Key(o)]))
    ensures Lookup(LoadOne(map[], o, veto, subtree), Key(o)) == Lookup(values, Key(o))
  {
    if Key(o) in values {
      assert subtree[Key(o)] == values[Key(o)];
    } else if Key(o) in subtree {
      assert Some(subtree[Key(o)]) == o.defaultValue;
    }
  }

  /** A default stored by `add` does not survive saving and loading back. */
  lemma SaveThenLoadDropsStoredDefault(values: map<NodePath, Value>, o: OptionDesc, veto: Veto, subtree: map<NodePath, Value>)
    requires Key(o) in values && Some(values[Key(o)]) == o.defaultValue
    ensures Lookup(LoadOne(map[], o, veto, SaveOne(subtree, o, Effective(values, o))), Key(o)) == None
  {
    assert SaveOne(subtree, o, Effective(values, o))[Key(o)] == values[Key(o)];
  }

  /** Loading the same module node twice gives what loading it once gave. */
  lemma LoadTwice(values: map<NodePath, Value>, o: OptionDesc, veto: Veto, subtree: map<NodePath, Value>)
    ensures LoadOne(LoadOne(values, o, veto, subtree), o, veto, subtree) == LoadOne(values, o, veto, subtree)
  {
    if Key(o) in subtree && TypeOf(subtree[Key(o)]) == o.valueType && veto(o, Some(subtree[Key(o)])) {
      var once := LoadOne(values, o, veto, subtree);
      if IsReset(o, Some(subtree[Key(o)])) {
        assert once - {Key(o)} == once;
      } else {
        assert once[Key(o) := subtree[Key(o)]] == once;
      }
    }
  }

  /** The send that loading option `o` from `subtree` makes: one, when its node
      holds a value of its type that the veto allows and `set` of it sends. */
  function LoadSend(values: map<NodePath, Value>, o: OptionDesc, veto: Veto, subtree: map<NodePath, Value>): (r: seq<Sent>)
    ensures |r| <= 1
    ensures r != [] <==>
              Key(o) in subtree && TypeOf(subtree[Key(o)]) == o.valueType
              && veto(o, Some(subtree[Key(o)])) && AfterSet(values, o, Some(subtree[Key(o)])).send
    ensures r != [] ==> r == [Sent(o, Some(subtree[Key(o)]))]
  {
    if Key(o) !in subtree then []
    else match Decode(subtree[Key(o)], o.valueType)
      case Err(_) => []
      case Ok(v) => if veto(o, Some(v)) && AfterSet(values, o, Some(v)).send then [Sent(o, Some(v))] else []
  }

  /** The sends of loading the options at the paths of `order`, one after the other. */
  function LoadSends(values: map<NodePath, Value>, options: OptionTable, veto: Veto,
                     subtree: map<NodePath, Value>, order: seq<NodePath>): seq<Sent>
    requires forall k :: k in order ==> k in options
  {
    if order == [] then []
    else LoadSends(values, options, veto, subtree, order[..|order| - 1])
         + LoadSend(values, options[order[|order| - 1]], veto, subtree)
  }

  /** `order` visits options of `options` at most once each, and every option
      that sends on loading. */
  ghost predicate LoadOrder(order: seq<NodePath>, values: map<NodePath, Value>, options: OptionTable,
                            veto: Veto, subtree: map<NodePath, Value>) {
    (forall i, j :: 0 <= i < j < |order| ==> order[i] != order[j])
    && (forall k :: k in order ==> k in options)
    && (forall k :: k in options && LoadSend(values, options[k], veto, subtree) != [] ==> k in order)
  }

  /** `sent` is `before` followed by the sends of loading the options of
      `options` from `subtree` in some order: each option that sends, once. */
  ghost predicate LoadedSends(before: seq<Sent>, sent: seq<Sent>, values: map<NodePath, Value>,
                              options: OptionTable, veto: Veto, subtree: map<NodePath, Value>) {
    exists order :: LoadOrder(order, values, options, veto, subtree)
      && sent == before + LoadSends(values, options, veto, subtree, order)
  }

  lemma {:induction false} LoadSendsNone(values: map<NodePath, Value>, options: OptionTable, veto: Veto,
                                         subtree: map<NodePath, Value>, order: seq<NodePath>)
    requires forall k :: k in order ==> k in options
    requires forall k :: k in order ==> LoadSend(values, options[k], veto, subtree) == []
    ensures LoadSends(values, options, veto, subtree, order) == []
  {
    if order != [] {
      var init := order[..|order| - 1];
      assert forall k :: k in init ==> k in order;
      LoadSendsNone(values, options, veto, subtree, init);
    }
  }

  /** When no option sends on loading, nothing at all is sent. */
  lemma LoadedSendsNothing(before: seq<Sent>, sent: seq<Sent>, values: map<NodePath, Value>,
                           options: OptionTable, veto: Veto, subtree: map<NodePath, Value>)
    requires LoadedSends(before, sent, values, options, veto, subtree)
    requires forall k :: k in options ==> LoadSend(values, options[k], veto, subtree) == []
    ensures sent == before
  {
    var order :| LoadOrder(order, values, options, veto, subtree)
                 && sent == before + LoadSends(values, options, veto, subtree, order);
    LoadSendsNone(values, options, veto, subtree, order);
  }

  /** What loading option `o` sends depends on the values only at `o`'s path. */
  lemma LoadSendAt(v1: map<NodePath, Value>, v2: map<NodePath, Value>, o: OptionDesc, veto: Veto, subtree: map<NodePath, Value>)
    requires Lookup(v1, Key(o)) == Lookup(v2, Key(o))
    ensures LoadSend(v1, o, veto, subtree) == LoadSend(v2, o, veto, subtree)
  {
    assert (Key(o) in v1) == (Key(o) in v2);
  }

  /** Loads option `o` of `ct` from the module node `subtree`: a `set` when its
      node holds a value of its type. */
  method LoadOption(ct: OptionsContainer, o: OptionDesc, subtree: map<NodePath, Value>)
    modifies ct`values, ct`sent
    ensures ct.values == LoadOne(old(ct.values), o, ct.postUpdate, subtree)
    ensures ct.sent == old(ct.sent) + LoadSend(old(ct.values), o, ct.postUpdate, subtree)
  {
    if o.node in subtree {
      var read := Decode(subtree[o.node], o.valueType);
      if read.Ok? {
        ct.Set(o, Some(read.value));
      }
    }
  }

  /** Part way through loading: the options of `order` are loaded into `values`
      and have made their sends, the options of `todo` are still to come. */
  ghost predicate Loading(before: map<NodePath, Value>, values: map<NodePath, Value>,
                          beforeSent: seq<Sent>, sent: seq<Sent>, options: OptionTable, veto: Veto,
                          subtree: map<NodePath, Value>, order: seq<NodePath>, todo: set<NodePath>) {
    LoadingOrder(before, beforeSent, sent, options, veto, subtree, order, todo)
    && LoadingValues(before, values, options, veto, subtree, todo)
  }

  /** The sends part of `Loading`. */
  ghost predicate LoadingOrder(before: map<NodePath, Value>, beforeSent: seq<Sent>, sent: seq<Sent>,
                               options: OptionTable, veto: Veto, subtree: map<NodePath, Value>,
                               order: seq<NodePath>, todo: set<NodePath>) {
    todo <= options.Keys
    && (forall k :: k in order <==> k in options && k !in todo)
    && (forall i, j :: 0 <= i < j < |order| ==> order[i] != order[j])
    && sent == beforeSent + LoadSends(before, options, veto, subtree, order)
  }

  /** The values part of `Loading`. */
  ghost predicate LoadingValues(before: map<NodePath, Value>, values: map<NodePath, Value>,
                                options: OptionTable, veto: Veto, subtree: map<NodePath, Value>, todo: set<NodePath>) {
    forall k :: Lookup(values, k) ==
      if k in options && k !in todo then Lookup(LoadOne(before, options[k], veto, subtree), k)
      else Lookup(before, k)
  }

  /** Loading one more option of `todo` keeps `Loading`. */
  lemma LoadingStep(before: map<NodePath, Value>, values: map<NodePath, Value>,
                    beforeSent: seq<Sent>, sent: seq<Sent>, options: OptionTable, veto: Veto,
                    subtree: map<NodePath, Value>, order: seq<NodePath>, todo: set<NodePath>, k: NodePath)
    requires Loading(before, values, beforeSent, sent, options, veto, subtree, order, todo)
    requires k in todo
    ensures Loading(before, LoadOne(values, options[k], veto, subtree),
                    beforeSent, sent + LoadSend(values, options[k], veto, subtree),
                    options, veto, subtree, order + [k], todo - {k})
  {
    assert Lookup(values, k) == Lookup(before, k);
    LoadSendAt(values, before, options[k], veto, subtree);
    LoadingOrderStep(before, beforeSent, sent, options, veto, subtree, order, todo, k);
    LoadingValuesStep(before, values, options, veto, subtree, todo, k);
  }

  /** One more option keeps the sends part: its send comes after the others. */
  lemma LoadingOrderStep(before: map<NodePath, Value>, beforeSent: seq<Sent>, sent: seq<Sent>,
                         options: OptionTable, veto: Veto, subtree: map<NodePath, Value>,
                         order: seq<NodePath>, todo: set<NodePath>, k: NodePath)
    requires LoadingOrder(before, beforeSent, sent, options, veto, subtree, order, todo)
    requires k in todo
    ensures LoadingOrder(before, beforeSent, sent + LoadSend(before, options[k], veto, subtree),
                         options, veto, subtree, order + [k], todo - {k})
  {
    var next := order + [k];
    assert k !in order;
    assert next[..|order|] == order;
  }

  /** One more option keeps the values part: only its path changes. */
  lemma LoadingValuesStep(before: map<NodePath, Value>, values: map<NodePath, Value>,
                          options: OptionTable, veto: Veto, subtree: map<NodePath, Value>,
                          todo: set<NodePath>, k: NodePath)
    requires LoadingValues(before, values, options, veto, subtree, todo)
    requires k in todo && k in options
    ensures LoadingValues(before, LoadOne(values, options[k], veto, subtree), options, veto, subtree, todo - {k})
  {
    LoadOneAt(values, before, options[k], veto, subtree);
  }

  /** What loading option `o` leaves at its path depends on the values only there. */
  lemma LoadOneAt(v1: map<NodePath, Value>, v2: map<NodePath, Value>, o: OptionDesc, veto: Veto, subtree: map<NodePath, Value>)
    requires Lookup(v1, Key(o)) == Lookup(v2, Key(o))
    ensures Lookup(LoadOne(v1, o, veto, subtree), Key(o)) == Lookup(LoadOne(v2, o, veto, subtree), Key(o))
  {
  }

  /** Once `todo` is empty, the whole module node is loaded. */
  lemma LoadingDone(before: map<NodePath, Value>, values: map<NodePath, Value>,
                    beforeSent: seq<Sent>, sent: seq<Sent>, options: OptionTable, veto: Veto,
                    subtree: map<NodePath, Value>, order: seq<NodePath>)
    requires Loading(before, values, beforeSent, sent, options, veto, subtree, order, {})
    ensures Loaded(before, values, options, veto, subtree)
    ensures LoadedSends(beforeSent, sent, before, options, veto, subtree)
  {
    assert LoadOrder(order, before, options, veto, subtree);
  }

  /** Loads every option of `ct` from the module node `subtree`, one `set` per
      option whose node holds a value of its type. */
  method LoadModule(ct: OptionsContainer, subtree: map<NodePath, Value>)
    modifies ct`values, ct`sent
    ensures Loaded(old(ct.values), ct.values, ct.options, ct.postUpdate, subtree)
    ensures LoadedSends(old(ct.sent), ct.sent, old(ct.values), ct.options, ct.postUpdate, subtree)
  {
    var todo := ct.options.Keys;
    ghost var order: seq<NodePath> := [];
    while todo != {}
      invariant Loading(old(ct.values), ct.values, old(ct.sent), ct.sent, ct.options, ct.postUpdate, subtree, order, todo)
      decreases todo
    {
      var k :| k in todo;
      LoadingStep(old(ct.values), ct.values, old(ct.sent), ct.sent, ct.options, ct.postUpdate, subtree, order, todo, k);
      LoadOption(ct, ct.options[k], subtree);
      order := order + [k];
      todo := todo - {k};
    }
    LoadingDone(old(ct.values), ct.values, old(ct.sent), ct.sent, ct.options, ct.postUpdate, subtree, order);
  }

  /** `nodes` after setting the option node `k` under the module node `name`
      to `v`: a value creates the nodes it needs; null removes the option node
      and creates nothing. */
  function WriteValue(nodes: map<string, map<NodePath, Value>>, name: string, k: NodePath, v: Optional<Value>)
    : (r: map<string, map<NodePath, Value>>)
    ensures Lookup(SubtreeOf(r, name), k) == v
    ensures forall j :: j != k ==> Lookup(SubtreeOf(r, name), j) == Lookup(SubtreeOf(nodes, name), j)
    ensures forall n :: n != name ==> SubtreeOf(r, n) == SubtreeOf(nodes, n)
  {
    if v.Some? then nodes[name := SubtreeOf(nodes, name)[k := v.value]]
    else if name in nodes then nodes[name := nodes[name] - {k}]
    else nodes
  }

  /** `comments` after commenting the option node `k` under the module node
      `name` with `c`, when there is a comment. */
  function WriteComment(comments: map<string, map<NodePath, string>>, name: string, k: NodePath, c: Optional<string>)
    : (r: map<string, map<NodePath, string>>)
    ensures c.Some? ==> CommentAt(r, name, k) == c
    ensures c.None? ==> r == comments
    ensures forall j :: j != k ==> CommentAt(r, name, j) == CommentAt(comments, name, j)
    ensures forall n :: n != name ==> CommentsOf(r, n) == CommentsOf(comments, n)
  {
    if c.Some? then comments[name := CommentsOf(comments, name)[k := c.value]] else comments
  }

  /** Every option of `ct` has its effective value in the module node
      `subtree`, and its comment, when it has one, in `comments`. */
  ghost predicate SavedInto(ct: OptionsContainer, subtree: map<NodePath, Value>, comments: map<NodePath, string>)
    reads ct
  {
    forall k :: k in ct.options ==>
      Lookup(subtree, k) == ct.Get(ct.options[k])
      && (ct.options[k].comment.Some? ==> k in comments && comments[k] == ct.options[k].comment.value)
  }

  /** Saving a whole module and loading its node back into an empty container
      gives back every stored value that is not a default, has its option's
      type and passes the veto; options with nothing stored load nothing. */
  lemma SaveModuleThenLoad(ct: OptionsContainer, subtree: map<NodePath, Value>, comments: map<NodePath, string>,
                           after: map<NodePath, Value>)
    requires SavedInto(ct, subtree, comments)
    requires Loaded(map[], after, ct.options, ct.postUpdate, subtree)
    requires forall k :: k in ct.options && k in ct.values ==>
               Some(ct.values[k]) != ct.options[k].defaultValue && TypeOf(ct.values[k]) == ct.options[k].valueType
               && ct.postUpdate(ct.options[k], Some(ct.values[k]))
    ensures forall k :: k in ct.options ==> Lookup(after, k) == Lookup(ct.values, k)
  {
    forall k | k in ct.options
      ensures Lookup(after, k) == Lookup(ct.values, k)
    {
      LoadsBack(ct.values, ct.options[k], ct.postUpdate, subtree);
    }
  }

  /** Saves every option of `ct` under the module node `name`: its comment when
      it has one, and its effective value (`get`), defaults included. */
  method SaveModule(ct: OptionsContainer, name: string, tree: ConfigTree)
    modifies tree
    ensures SavedInto(ct, SubtreeOf(tree.nodes, name), CommentsOf(tree.comments, name))
    ensures forall k :: k !in ct.options ==>
              Lookup(SubtreeOf(tree.nodes, name), k) == Lookup(SubtreeOf(old(tree.nodes), name), k)
              && CommentAt(tree.comments, name, k) == CommentAt(old(tree.comments), name, k)
    ensures forall k :: k in ct.options && ct.options[k].comment.None? ==>
              CommentAt(tree.comments, name, k) == CommentAt(old(tree.comments), name, k)
    ensures forall n :: n != name ==>
              SubtreeOf(tree.nodes, n) == SubtreeOf(old(tree.nodes), n)
              && CommentsOf(tree.comments, n) == CommentsOf(old(tree.comments), n)
  {
    var todo := ct.options.Keys;
    while todo != {}
      invariant todo <= ct.options.Keys
      invariant forall k :: k in ct.options && k !in todo ==>
                  Lookup(SubtreeOf(tree.nodes, name), k) == ct.Get(ct.options[k])
                  && (ct.options[k].comment.Some? ==> CommentAt(tree.comments, name, k) == ct.options[k].comment)
      invariant forall k :: k !in ct.options || k in todo ==>
                  Lookup(SubtreeOf(tree.nodes, name), k) == Lookup(SubtreeOf(old(tree.nodes), name), k)
                  && CommentAt(tree.comments, name, k) == CommentAt(old(tree.comments), name, k)
      invariant forall k :: k in ct.options && ct.options[k].comment.None? ==>
                  CommentAt(tree.comments, name, k) == CommentAt(old(tree.comments), name, k)
      invariant forall n :: n != name ==>
                  SubtreeOf(tree.nodes, n) == SubtreeOf(old(tree.nodes), n)
                  && CommentsOf(tree.comments, n) == CommentsOf(old(tree.comments), n)
      decreases todo
    {
      var k :| k in todo;
      var o := ct.options[k];
      tree.comments := WriteComment(tree.comments, name, o.node, o.comment);
      tree.nodes := WriteValue(tree.nodes, name, o.node, ct.Get(o));
      todo := todo - {k};
    }
  }

  /** `ct` now holds what loading its module node of `tree` into its values
      of the method's pre-state gives, and has sent what those `set` calls send. */
  twostate predicate LoadedNow(ct: OptionsContainer, tree: ConfigTree)
    reads ct, tree
  {
    Loaded(old(ct.values), ct.values, ct.options, ct.postUpdate, SubtreeFor(ct.owner, tree))
    && LoadedSends(old(ct.sent), ct.sent, old(ct.values), ct.options, ct.postUpdate, SubtreeFor(ct.owner, tree))
  }

  /** The name of the module node of `m`: its name, lower-cased. */
  function NodeName(m: ApolloModule): string {
    Lower(m.name)
  }

  /** The option values under the module node of `m`. */
  function SubtreeFor(m: ApolloModule, tree: ConfigTree): map<NodePath, Value>
    reads tree
  {
    SubtreeOf(tree.nodes, NodeName(m))
  }

  /** One module of `loadConfiguration`: nothing when its module node is
      virtual, otherwise each of its options is loaded. */
  method LoadInto(ct: OptionsContainer, tree: ConfigTree)
    modifies ct`values, ct`sent
    ensures LoadedNow(ct, tree)
    ensures NodeName(ct.owner) !in tree.nodes ==> ct.values == old(ct.values) && ct.sent == old(ct.sent)
  {
    var name := NodeName(ct.owner);
    if name in tree.nodes {
      LoadModule(ct, tree.nodes[name]);
    } else {
      ghost var none: seq<NodePath> := [];
      assert LoadOrder(none, ct.values, ct.options, ct.postUpdate, map[]);
      assert ct.sent == ct.sent + LoadSends(ct.values, ct.options, ct.postUpdate, map[], none);
    }
  }

  /** No other container of `all` saves under the module node of `ct`. */
  predicate UniqueNode(ct: OptionsContainer, all: set<OptionsContainer>) {
    forall other :: other in all && other != ct ==> NodeName(other.owner) != NodeName(ct.owner)
  }

  /** Whether some container of `all` saves under the module node `name`. */
  predicate SavesUnder(name: string, all: set<OptionsContainer>) {
    exists ct :: ct in all && NodeName(ct.owner) == name
  }

  /** Loads each container of `all` from its module node of `tree`, one after
      the other; nothing but their values and sends changes. */
  method LoadAll(all: set<OptionsContainer>, tree: ConfigTree)
    modifies all`values, all`sent
    ensures forall ct :: ct in all ==> LoadedNow(ct, tree)
  {
    var todo := all;
    while todo != {}
      invariant todo <= all
      invariant forall ct :: ct in all && ct !in todo ==> LoadedNow(ct, tree)
      invariant forall ct :: ct in todo ==> ct.values == old(ct.values) && ct.sent == old(ct.sent)
      decreases todo
    {
      var ct :| ct in todo;
      LoadInto(ct, tree);
      todo := todo - {ct};
    }
  }

  /** Saves every container of `all` under its module's node, one after the other. */
  method SaveAll(all: set<OptionsContainer>, tree: ConfigTree)
    modifies tree
    ensures forall ct :: ct in all && UniqueNode(ct, all) ==>
              SavedInto(ct, SubtreeFor(ct.owner, tree), CommentsOf(tree.comments, NodeName(ct.owner)))
    ensures forall n :: !SavesUnder(n, all) ==>
              SubtreeOf(tree.nodes, n) == SubtreeOf(old(tree.nodes), n)
              && CommentsOf(tree.comments, n) == CommentsOf(old(tree.comments), n)
    ensures forall n, k :: !SavesAt(n, k, all) ==>
              Lookup(SubtreeOf(tree.nodes, n), k) == Lookup(SubtreeOf(old(tree.nodes), n), k)
              && CommentAt(tree.comments, n, k) == CommentAt(old(tree.comments), n, k)
    ensures forall n, k :: !CommentsAt(n, k, all) ==> CommentAt(tree.comments, n, k) == CommentAt(old(tree.comments), n, k)
  {
    var todo := all;
    while todo != {}
      invariant todo <= all
      invariant forall ct :: ct in all && ct !in todo && UniqueNode(ct, all) ==>
                  SavedInto(ct, SubtreeFor(ct.owner, tree), CommentsOf(tree.comments, NodeName(ct.owner)))
      invariant forall n :: !SavesUnder(n, all) ==>
                  SubtreeOf(tree.nodes, n) == SubtreeOf(old(tree.nodes), n)
                  && CommentsOf(tree.comments, n) == CommentsOf(old(tree.comments), n)
      invariant forall n, k :: !SavesAt(n, k, all) ==>
                  Lookup(SubtreeOf(tree.nodes, n), k) == Lookup(SubtreeOf(old(tree.nodes), n), k)
                  && CommentAt(tree.comments, n, k) == CommentAt(old(tree.comments), n, k)
      invariant forall n, k :: !CommentsAt(n, k, all) ==> CommentAt(tree.comments, n, k) == CommentAt(old(tree.comments), n, k)
      decreases todo
    {
      var ct :| ct in todo;
      assert SavesUnder(NodeName(ct.owner), all);
      SaveModule(ct, NodeName(ct.owner), tree);
      todo := todo - {ct};
    }
  }

  /** Whether some container of `all` saves an option at path `k` under the module node `name`. */
  predicate SavesAt(name: string, k: NodePath, all: set<OptionsContainer>) {
    exists ct :: ct in all && NodeName(ct.owner) == name && k in ct.options
  }

  /** Whether some container of `all` writes a comment at path `k` under the
      module node `name`: it has an option there whose comment is not null. */
  predicate CommentsAt(name: string, k: NodePath, all: set<OptionsContainer>) {
    exists ct :: ct in all && NodeName(ct.owner) == name && k in ct.options && ct.options[k].comment.Some?
  }

  /** Why `addModule` fails with the given faults, if it does once the module is made. */
  function FaultOf(faults: Faults): Optional<Failure> {
    if faults.registerThrows then Some(RegisterFailed)
    else if faults.enableThrows then Some(EnableFailed)
    else None
  }

  /** The lifecycle calls `addModule` makes on `m` before any fault stops it. */
  function Lifecycle(m: ApolloModule, faults: Faults): (r: seq<Event>)
    ensures FaultOf(faults) == None ==> r == [Registered(m), Enabled(m)]
    ensures FaultOf(faults) == Some(EnableFailed) ==> r == [Registered(m)]
    ensures FaultOf(faults) == Some(RegisterFailed) ==> r == []
  {
    if faults.registerThrows then []
    else if faults.enableThrows then [Registered(m)]
    else [Registered(m), Enabled(m)]
  }

  /** ApolloModuleManagerImpl: module instances by class, and the lifecycle
      calls made on them. Every container gets `veto` as its `postUpdate`. */
  class ApolloModuleManager {
    var modules: map<ModuleClass, ApolloModule>
    var events: seq<Event>
    const veto: Veto

    /** The containers of the held modules. */
    function Containers(): set<OptionsContainer>
      reads this, modules.Values
    {
      set a | a in modules && modules[a].container.Some? :: modules[a].container.value
    }

    /** No instance is held under two classes, and each container belongs to
        the module holding it. */
    ghost predicate Valid()
      reads this, modules.Values
    {
      (forall a, b :: a in modules && b in modules && modules[a] == modules[b] ==> a == b)
      && (forall a :: a in modules && modules[a].container.Some? ==> modules[a].container.value.owner == modules[a])
    }

    constructor(veto: Veto)
      ensures modules == map[] && events == [] && this.veto == veto && Valid()
    {
      modules := map[];
      events := [];
      this.veto := veto;
    }

    /** `isEnabled(moduleClass)`. */
    function IsEnabled(cls: ModuleClass): (r: bool)
      reads this
      ensures r <==> cls in modules
    {
      cls in modules
    }

    /** `getModule(moduleClass)`. */
    function GetModule(cls: ModuleClass): (r: Optional<ApolloModule>)
      reads this
      ensures r.Some? <==> IsEnabled(cls)
      ensures r.Some? ==> r.value == modules[cls]
    {
      if cls in modules then Some(modules[cls]) else None
    }

    /** `getModules()`: the held instances; the caller gets no way to change them. */
    function Modules(): (r: set<ApolloModule>)
      reads this
      ensures forall cls :: GetModule(cls).Some? ==> GetModule(cls).value in r
      ensures forall x :: x in r ==> exists cls :: cls in modules && modules[cls] == x
      ensures |r| <= |modules|
    {
      modules.Values
    }

    /** Gives `m` a fresh, empty container when it declares options. */
    method Attach(m: ApolloModule)
      modifies m`container
      ensures |m.optionKeys| == 0 ==> m.container == old(m.container)
      ensures |m.optionKeys| > 0 ==>
                m.container.Some? && fresh(m.container.value)
                && m.container.value.owner == m && m.container.value.postUpdate == veto
                && m.container.value.options == OptionsMap(m.optionKeys)
                && m.container.value.values == map[] && m.container.value.sent == []
    {
      if |m.optionKeys| > 0 {
        var ct := new OptionsContainer(m, m.optionKeys, veto);
        m.container := Some(ct);
      }
    }

    /** What both `addModule` overloads do with a module not yet held: give it a
        fresh container when it declares options, register it, enable it, and
        hold it under `cls`; a fault stops the sequence and nothing is held. */
    method Install(cls: ModuleClass, m: ApolloModule, faults: Faults) returns (r: Result<ApolloModuleManager, Failure>)
      requires Valid() && cls !in modules && m !in modules.Values
      requires m.container.Some? ==> m.container.value.owner == m
      modifies this`modules, this`events, m`container
      ensures Valid()
      ensures r == if FaultOf(faults).Some? then Err(FaultOf(faults).value) else Ok(this)
      ensures events == old(events) + Lifecycle(m, faults)
      ensures modules == if r.Ok? then old(modules)[cls := m] else old(modules)
      ensures |m.optionKeys| == 0 ==> m.container == old(m.container)
      ensures |m.optionKeys| > 0 ==>
                m.container.Some? && fresh(m.container.value)
                && m.container.value.owner == m && m.container.value.postUpdate == veto
                && m.container.value.options == OptionsMap(m.optionKeys)
                && m.container.value.values == map[] && m.container.value.sent == []
    {
      Attach(m);
      if faults.registerThrows {
        return Err(RegisterFailed);
      }
      events := events + [Registered(m)];
      if faults.enableThrows {
        return Err(EnableFailed);
      }
      events := events + [Enabled(m)];
      modules := modules[cls := m];
      return Ok(this);
    }

    /** `addModule(moduleClass)`: a class already held is left alone; otherwise the
        module is made (`None` when its constructor throws) and installed. */
    method AddModule(cls: ModuleClass, factory: ModuleClass -> Optional<ModuleSpec>, faults: Faults)
      returns (r: Result<ApolloModuleManager, Failure>)
      requires Valid()
      modifies this`modules, this`events
      ensures Valid()
      ensures cls in old(modules) ==> r == Ok(this) && modules == old(modules) && events == old(events)
      ensures cls !in old(modules) && factory(cls).None? ==>
                r == Err(ConstructorFailed) && modules == old(modules) && events == old(events)
      ensures cls !in old(modules) && factory(cls).Some? ==>
                r == (if FaultOf(faults).Some? then Err(FaultOf(faults).value) else Ok(this))
                && exists m: ApolloModule ::
                     fresh(m) && m.name == factory(cls).value.name && m.optionKeys == factory(cls).value.optionKeys
                     && m.clientNotify == factory(cls).value.clientNotify
                     && (m.container.Some? <==> |m.optionKeys| > 0)
                     && (m.container.Some? ==>
                           fresh(m.container.value) && m.container.value.options == OptionsMap(m.optionKeys)
                           && m.container.value.values == map[] && m.container.value.postUpdate == veto)
                     && events == old(events) + Lifecycle(m, faults)
                     && modules == if r.Ok? then old(modules)[cls := m] else old(modules)
    {
      if cls in modules {
        return Ok(this);
      }
      var made := factory(cls);
      if made.None? {
        return Err(ConstructorFailed);
      }
      var m := new ApolloModule(made.value.name, made.value.optionKeys, made.value.clientNotify);
      r := Install(cls, m, faults);
    }

    /** `addModule(moduleClass, module)`: the given instance is installed unless the
        class is already held, in which case the instance is not touched. */
    method AddModuleInstance(cls: ModuleClass, m: ApolloModule, faults: Faults)
      returns (r: Result<ApolloModuleManager, Failure>)
      requires Valid()
      requires cls !in modules ==> m !in modules.Values
      requires cls !in modules && m.container.Some? ==> m.container.value.owner == m
      modifies this`modules, this`events, m`container
      ensures Valid()
      ensures cls in old(modules) ==>
                r == Ok(this) && modules == old(modules) && events == old(events) && m.container == old(m.container)
      ensures cls !in old(modules) ==>
                r == (if FaultOf(faults).Some? then Err(FaultOf(faults).value) else Ok(this))
                && events == old(events) + Lifecycle(m, faults)
                && modules == (if r.Ok? then old(modules)[cls := m] else old(modules))
                && (|m.optionKeys| == 0 ==> m.container == old(m.container))
                && (|m.optionKeys| > 0 ==>
                      m.container.Some? && fresh(m.container.value)
                      && m.container.value.options == OptionsMap(m.optionKeys)
                      && m.container.value.values == map[] && m.container.value.postUpdate == veto)
    {
      if cls in modules {
        return Ok(this);
      }
      r := Install(cls, m, faults);
    }

    /** `loadConfiguration(node)`: the options of each held module are loaded
        from its module node; a virtual module node loads nothing, and an option
        that fails to load leaves the others to load. Each module has its own
        container, so walking the containers walks the modules. */
    method LoadConfiguration(tree: ConfigTree)
      requires Valid()
      modifies Containers()
      ensures forall ct :: ct in Containers() ==> LoadedNow(ct, tree)
      ensures forall ct :: ct in Containers() ==> ct.views == old(ct.views)
    {
      LoadAll(Containers(), tree);
    }

    /** `saveConfiguration(node)`: each option's comment (when it has one) and
        effective value are written under its module's node. Where two modules
        share a module node, which one's value ends up there is left open. */
    method SaveConfiguration(tree: ConfigTree)
      requires Valid()
      modifies tree
      ensures forall ct :: ct in Containers() && UniqueNode(ct, Containers()) ==>
                SavedInto(ct, SubtreeFor(ct.owner, tree), CommentsOf(tree.comments, NodeName(ct.owner)))
      ensures forall n :: !SavesUnder(n, Containers()) ==>
                SubtreeOf(tree.nodes, n) == SubtreeOf(old(tree.nodes), n)
                && CommentsOf(tree.comments, n) == CommentsOf(old(tree.comments), n)
      ensures forall n, k :: !SavesAt(n, k, Containers()) ==>
                Lookup(SubtreeOf(tree.nodes, n), k) == Lookup(SubtreeOf(old(tree.nodes), n), k)
                && CommentAt(tree.comments, n, k) == CommentAt(old(tree.comments), n, k)
      ensures forall n, k :: !CommentsAt(n, k, Containers()) ==>
                CommentAt(tree.comments, n, k) == CommentAt(old(tree.comments), n, k)
    {
      SaveAll(Containers(), tree);
    }
  }
}
