/** TntCountdown: a module with one number option, built with OptionBuilder. */
module TntCountdown {
  import opened Wrappers
  import opened Options
  import opened Container
  import opened Modules

  /** `Integer.MAX_VALUE`. */
  const IntMax: int := 0x7fff_ffff

  /** A number option and the bounds its builder was given. How `build()`
      uses the bounds is not part of this model. */
  datatype NumberOption = NumberOption(option: OptionDesc, min: int, max: int)

  const TicksComment: string := "Set the amount of ticks before the TNT explodes."
  const TicksNode: NodePath := ["tnt-ticks"]

  /** `TNT_TICKS`, as its builder chain declares it. */
  const TntTicks: NumberOption :=
    NumberOption(OptionDesc(TicksNode, IntType, Some(TicksComment), Some(IntValue(80)), false), 1, IntMax)

  /** Runs the builder chain of `TNT_TICKS` in the order written: comment,
      node, type, default value, then the bounds. */
  method BuildTntTicks() returns (r: NumberOption)
    ensures r == TntTicks
  {
    var b := new OptionBuilder();
    var c := b.Comment(Some(TicksComment));
    var n := c.Node(Some(TicksNode));
    assert n.Ok?;
    var t := n.value.Type(Some(IntType));
    assert t.Ok?;
    var d := t.value.DefaultValue(Some(IntValue(80)));
    var described := Described(d.Fields());
    assert described.Some?;
    return NumberOption(described.value, 1, IntMax);
  }

  /** The default lies within the bounds, the option never asks to notify
      clients, and it is read and written at the node `tnt-ticks`. */
  lemma TntTicksShape()
    ensures TntTicks.min <= TntTicks.option.defaultValue.value.i <= TntTicks.max
    ensures !TntTicks.option.notify
    ensures Key(TntTicks.option) == ["tnt-ticks"]
  {
  }

  /** The TntCountdown constructor: its name, and the options it registers. */
  method NewTntCountdown() returns (m: ApolloModule)
    ensures fresh(m) && m.container == None
    ensures m.name == "TntCountdown" && m.optionKeys == [TntTicks.option]
    ensures m.clientNotify
  {
    m := new ApolloModule("TntCountdown", [TntTicks.option], true);
  }

  /** The configuration of TntCountdown lives under the node `tntcountdown`. */
  lemma TntCountdownNode()
    ensures Lower("TntCountdown") == "tntcountdown"
  {
    var r := Lower("TntCountdown");
    // The two capitals are lowered; every other letter is already lower case.
    assert r[0] == 't' && r[1] == 'n' && r[2] == 't' && r[3] == 'c' && r[4] == 'o' && r[5] == 'u';
    assert r[6] == 'n' && r[7] == 't' && r[8] == 'd' && r[9] == 'o' && r[10] == 'w' && r[11] == 'n';
  }

  /** Loading `tnt-ticks: 100` stores 100, once `postUpdate` allows it. */
  lemma LoadStoresTicks(values: map<NodePath, Value>, veto: Veto)
    requires veto(TntTicks.option, Some(IntValue(100)))
    ensures Lookup(LoadOne(values, TntTicks.option, veto, map[TicksNode := IntValue(100)]), TicksNode) == Some(IntValue(100))
  {
  }

  /** Loading `tnt-ticks: 80`, the default, clears a stored value. */
  lemma LoadDefaultClears(values: map<NodePath, Value>, veto: Veto)
    requires veto(TntTicks.option, Some(IntValue(80)))
    ensures Lookup(LoadOne(values, TntTicks.option, veto, map[TicksNode := IntValue(80)]), TicksNode) == None
    ensures TicksNode in values <==> AfterSet(values, TntTicks.option, Some(IntValue(80))).send
  {
  }

  /** A value of another type at `tnt-ticks` is skipped. */
  lemma LoadSkipsText(values: map<NodePath, Value>, veto: Veto, text: string)
    ensures LoadOne(values, TntTicks.option, veto, map[TicksNode := StringValue(text)]) == values
  {
  }
}
