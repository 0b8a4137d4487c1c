/** Options as a module declares them, and the fluent builder that declares them. */
module Options {
  import opened Wrappers

  /** A value an option can hold. Options of other Java types are not part of this model. */
  datatype Value =
    | IntValue(i: int)
    | BoolValue(b: bool)
    | StringValue(s: string)

  /** The `TypeToken` of an option: the Java type of its values. */
  datatype ValueType = IntType | BoolType | StringType

  function TypeOf(v: Value): ValueType {
    match v
    case IntValue(_) => IntType
    case BoolValue(_) => BoolType
    case StringValue(_) => StringType
  }

  /** The path of an option's node in the configuration tree (`String[] node`). */
  type NodePath = seq<string>

  /** An option as its builder's fields describe it. The option is stored and
      looked up under its node path. */
  datatype OptionDesc = OptionDesc(
    node: NodePath,
    valueType: ValueType,
    comment: Optional<string>,
    defaultValue: Optional<Value>,
    notify: bool)

  /** The NullPointerException a lombok `@NonNull` parameter raises for null. */
  datatype BuilderError = NullArgument(parameter: string)

  /** The five fields of a builder; `None` stands for Java's null. */
  datatype BuilderFields = BuilderFields(
    node: Optional<NodePath>,
    valueType: Optional<ValueType>,
    comment: Optional<string>,
    defaultValue: Optional<Value>,
    notify: bool)

  /** A new builder: nothing set, and `notify` false. */
  const FreshFields: BuilderFields := BuilderFields(None, None, None, None, false)

  // Each setter as a change of the fields.

  function WithNode(f: BuilderFields, key: NodePath): (r: BuilderFields)
    ensures r.node == Some(key)
    ensures r.(node := f.node) == f
  {
    f.(node := Some(key))
  }

  function WithType(f: BuilderFields, t: ValueType): (r: BuilderFields)
    ensures r.valueType == Some(t)
    ensures r.(valueType := f.valueType) == f
  {
    f.(valueType := Some(t))
  }

  function WithComment(f: BuilderFields, comment: Optional<string>): (r: BuilderFields)
    ensures r.comment == comment
    ensures r.(comment := f.comment) == f
  {
    f.(comment := comment)
  }

  function WithDefault(f: BuilderFields, value: Optional<Value>): (r: BuilderFields)
    ensures r.defaultValue == value
    ensures r.(defaultValue := f.defaultValue) == f
  {
    f.(defaultValue := value)
  }

  function WithNotify(f: BuilderFields): (r: BuilderFields)
    ensures r.notify
    ensures r.(notify := f.notify) == f
  {
    f.(notify := true)
  }

  /** Calling a setter twice keeps only the second argument. */
  lemma LastWriteWins(f: BuilderFields, a: NodePath, b: NodePath, t: ValueType, u: ValueType,
                      c: Optional<string>, d: Optional<string>, v: Optional<Value>, w: Optional<Value>)
    ensures WithNode(WithNode(f, a), b) == WithNode(f, b)
    ensures WithType(WithType(f, t), u) == WithType(f, u)
    ensures WithComment(WithComment(f, c), d) == WithComment(f, d)
    ensures WithDefault(WithDefault(f, v), w) == WithDefault(f, w)
  {
  }

  /** `notifyClient` is idempotent, and no other setter clears the flag once set. */
  lemma NotifyStaysSet(f: BuilderFields, key: NodePath, t: ValueType, c: Optional<string>, v: Optional<Value>)
    requires f.notify
    ensures WithNotify(f) == f
    ensures WithNode(f, key).notify && WithType(f, t).notify
    ensures WithComment(f, c).notify && WithDefault(f, v).notify
  {
  }

  /** The option the fields describe, once the node and the type are set.
      How `build()` validates is not part of this model. */
  function Described(f: BuilderFields): (r: Optional<OptionDesc>)
    ensures r.Some? <==> f.node.Some? && f.valueType.Some?
    ensures r.Some? ==>
              r.value.node == f.node.value && r.value.valueType == f.valueType.value
              && r.value.comment == f.comment && r.value.defaultValue == f.defaultValue && r.value.notify == f.notify
  {
    if f.node.Some? && f.valueType.Some?
    then Some(OptionDesc(f.node.value, f.valueType.value, f.comment, f.defaultValue, f.notify))
    else None
  }

  /** OptionBuilder: each setter assigns one field and hands back the same builder. */
  class OptionBuilder {
    var node: Optional<NodePath>
    var valueType: Optional<ValueType>
    var comment: Optional<string>
    var defaultValue: Optional<Value>
    var notify: bool

    function Fields(): BuilderFields
      reads this
    {
      BuilderFields(node, valueType, comment, defaultValue, notify)
    }

    constructor()
      ensures Fields() == FreshFields
    {
      node := None;
      valueType := None;
      comment := None;
      defaultValue := None;
      notify := false;
    }

    /** `node(String... key)`; a null key is refused before anything is assigned. */
    method Node(key: Optional<NodePath>) returns (r: Result<OptionBuilder, BuilderError>)
      modifies this`node
      ensures key.None? ==> r == Err(NullArgument("key")) && Fields() == old(Fields())
      ensures key.Some? ==> r == Ok(this) && Fields() == WithNode(old(Fields()), key.value)
    {
      if key.None? {
        return Err(NullArgument("key"));
      }
      node := key;
      return Ok(this);
    }

    /** `type(TypeToken)`; a null type token is refused before anything is assigned. */
    method Type(t: Optional<ValueType>) returns (r: Result<OptionBuilder, BuilderError>)
      modifies this`valueType
      ensures t.None? ==> r == Err(NullArgument("typeToken")) && Fields() == old(Fields())
      ensures t.Some? ==> r == Ok(this) && Fields() == WithType(old(Fields()), t.value)
    {
      if t.None? {
        return Err(NullArgument("typeToken"));
      }
      valueType := t;
      return Ok(this);
    }

    /** `comment(String)`: null is accepted and stored. */
    method Comment(c: Optional<string>) returns (r: OptionBuilder)
      modifies this`comment
      ensures r == this && Fields() == WithComment(old(Fields()), c)
    {
      comment := c;
      return this;
    }

    /** `defaultValue(V)`: null is accepted and stored. */
    method DefaultValue(v: Optional<Value>) returns (r: OptionBuilder)
      modifies this`defaultValue
      ensures r == this && Fields() == WithDefault(old(Fields()), v)
    {
      defaultValue := v;
      return this;
    }

    /** `notifyClient()`: sets the flag; nothing sets it back. */
    method NotifyClient() returns (r: OptionBuilder)
      modifies this`notify
      ensures r == this && Fields() == WithNotify(old(Fields()))
    {
      notify := true;
      return this;
    }
  }
}
