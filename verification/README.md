# Apollo option and module settings, modelled in Dafny

Apollo is the Lunar Client server plugin. Every Apollo module declares options with
the fluent `OptionBuilder`. Each option has a configuration node, a type, a comment,
a default value and a client-notify flag. When a module is added to the
`ApolloModuleManagerImpl`, the module gets an `OptionsContainer` if it declares any
options. The container keeps a sparse map of stored values. A key with no stored
value reads as the option's default. Every mutator decides whether to send the
change to the clients. The manager loads the containers from a configuration tree
and saves them back to it. The tree has one node per module, named by the module's
lower-cased name. `TntCountdown` is a concrete module with one number option.
`JsonUtil` builds the JSON shapes that the example plugin sends.

The files:

- `wrappers.dfy`: `Optional` (for Java's null) and `Result` (for a thrown exception).
- `options.dfy`: values, value types, option descriptions, and the `OptionBuilder`
  class. Each setter is also given as a function on the builder's fields.
- `container.dfy`:
  - the `OptionsContainer` class;
  - the pure transition functions (`AfterSet`, `AfterAdd`, `AfterRemove`,
    `AfterReplace`) that its methods are proved against;
  - the options table its constructor fills.
  The network send is a log field `sent` of the values handed to
  `NetworkOptions.sendOption`. The veto `postUpdate` is a function value given to
  the container.
- `modules.dfy`:
  - the `ApolloModuleManager` class: the registry, both `addModule` overloads, and
    the lifecycle calls made on a module;
  - a `ConfigTree` class: per module node, the values at the option paths and the
    comments on them;
  - loading and saving one option, one module, and all modules.
- `tnt_countdown.dfy`: the `TNT_TICKS` option built by its builder chain, the
  module's name and options, and what loading `tnt-ticks` does.
- `json.dfy`:
  - JSON as a datatype;
  - the duration string, together with a reader of the protobuf JSON duration
    format to state round trips against;
  - UUIDs as unsigned decimal halves, with their round trip;
  - the colour, entity-id, icon and enable-module shapes.

Where a description of the intended behaviour differs from the code, the model
follows the code:

- an option that fails to load keeps its previous value; it is not reset to its default;
- `set` sends on every non-default value, even one already stored, so it is not idempotent in what it sends;
- `set` sends without looking at the option's notify flag.

## Model

Paths are relative to the repository root.

| member | source | states |
|---|---|---|
| Options.OptionBuilder.constructor | api/src/main/java/com/lunarclient/apollo/option/OptionBuilder.java:20-24 | a fresh builder has no node and no type, a null comment and default, and `notify` false |
| Options.OptionBuilder.Node | api/src/main/java/com/lunarclient/apollo/option/OptionBuilder.java:34-37 | a null key is refused (the `@NonNull` exception) and nothing changes; otherwise only `node` is set and the same builder is returned |
| Options.OptionBuilder.Type | api/src/main/java/com/lunarclient/apollo/option/OptionBuilder.java:47-50 | a null type token is refused and nothing changes; otherwise only the type is set and the same builder is returned |
| Options.OptionBuilder.Comment | api/src/main/java/com/lunarclient/apollo/option/OptionBuilder.java:60-63 | null is accepted; only `comment` changes; the same builder is returned |
| Options.OptionBuilder.DefaultValue | api/src/main/java/com/lunarclient/apollo/option/OptionBuilder.java:73-76 | null is accepted; only `defaultValue` changes; the same builder is returned |
| Options.OptionBuilder.NotifyClient | api/src/main/java/com/lunarclient/apollo/option/OptionBuilder.java:85-88 | only `notify` changes, to true; the same builder is returned |
| Options.WithNode | api/src/main/java/com/lunarclient/apollo/option/OptionBuilder.java:34-37 | the node is the key given, and every other field is as before |
| Options.WithType | api/src/main/java/com/lunarclient/apollo/option/OptionBuilder.java:47-50 | the type is the one given, and every other field is as before |
| Options.WithComment | api/src/main/java/com/lunarclient/apollo/option/OptionBuilder.java:60-63 | the comment is the one given (null included), and every other field is as before |
| Options.WithDefault | api/src/main/java/com/lunarclient/apollo/option/OptionBuilder.java:73-76 | the default is the one given (null included), and every other field is as before |
| Options.WithNotify | api/src/main/java/com/lunarclient/apollo/option/OptionBuilder.java:85-88 | the flag is set, and every other field is as before |
| Options.LastWriteWins | api/src/main/java/com/lunarclient/apollo/option/OptionBuilder.java:34-76 | calling a setter twice keeps only the second argument |
| Options.NotifyStaysSet | api/src/main/java/com/lunarclient/apollo/option/OptionBuilder.java:85-88 | `notifyClient` is idempotent, and no other setter clears the flag |
| Options.Described | api/src/main/java/com/lunarclient/apollo/option/OptionBuilder.java:20-24 | the fields describe an option exactly when node and type are set; the option carries every field unchanged |
| Container.OptionsContainer.constructor | common/src/main/java/com/lunarclient/apollo/option/OptionsContainer.java:38-44 | the loop puts each option under its key, so the table equals `OptionsMap` of the options; no values, views or sends |
| Container.OptionsMap | common/src/main/java/com/lunarclient/apollo/option/OptionsContainer.java:41-43 | every option given is in the table under its own key, and every entry is one of the options given |
| Container.OptionsMapLastWins | common/src/main/java/com/lunarclient/apollo/option/OptionsContainer.java:41-43 | of several options with one key, the last one put is kept |
| Container.Effective | common/src/main/java/com/lunarclient/apollo/option/OptionsContainer.java:48-53 | the stored value when there is one, else the option's default |
| Container.OptionsContainer.Get | common/src/main/java/com/lunarclient/apollo/option/OptionsContainer.java:48-53 | the stored value when there is one, else the option's default |
| Container.OptionsContainer.GetDirect | common/src/main/java/com/lunarclient/apollo/option/OptionsContainer.java:57-59 | empty exactly when no value is stored, else the stored value |
| Container.OptionsContainer.Iterated | common/src/main/java/com/lunarclient/apollo/option/OptionsContainer.java:126-128 | iteration yields exactly the options of the table |
| Container.AfterSet | common/src/main/java/com/lunarclient/apollo/option/OptionsContainer.java:64-72 | a reset (null or the default) leaves the key absent and sends exactly when a value was there; any other value is stored and always sent; other keys are unchanged |
| Container.AfterAdd | common/src/main/java/com/lunarclient/apollo/option/OptionsContainer.java:85-92 | put-if-absent: stores and sends only when the key was absent, else changes and sends nothing |
| Container.AfterRemove | common/src/main/java/com/lunarclient/apollo/option/OptionsContainer.java:98-105 | removes and sends exactly when the stored value equals `compare`, else changes and sends nothing |
| Container.AfterReplace | common/src/main/java/com/lunarclient/apollo/option/OptionsContainer.java:111-117 | the key holds what the remapping makes of the stored value (absent on null); other keys are unchanged; always sends |
| Container.OptionsContainer.Set | common/src/main/java/com/lunarclient/apollo/option/OptionsContainer.java:62-80 | a veto changes and sends nothing; otherwise the values become `AfterSet`'s, and one send of the given value is logged when `AfterSet` sends |
| Container.OptionsContainer.Add | common/src/main/java/com/lunarclient/apollo/option/OptionsContainer.java:83-93 | a veto changes and sends nothing; otherwise the values become `AfterAdd`'s, with a send exactly when it sends |
| Container.OptionsContainer.Remove | common/src/main/java/com/lunarclient/apollo/option/OptionsContainer.java:96-106 | the veto is asked about null; a veto changes and sends nothing; otherwise the values become `AfterRemove`'s, with a null send exactly when it sends |
| Container.OptionsContainer.Replace | common/src/main/java/com/lunarclient/apollo/option/OptionsContainer.java:110-118 | no veto; the values become `AfterReplace`'s and exactly one send of the new value is logged |
| Container.OptionsContainer.View | common/src/main/java/com/lunarclient/apollo/option/OptionsContainer.java:121-123 | a player's cached view is returned unchanged; otherwise one fresh view of this container is added for that player |
| Container.OptionsView.constructor | common/src/main/java/com/lunarclient/apollo/option/OptionsContainer.java:122 | a view records its container and its player |
| Container.SetThenGet | common/src/main/java/com/lunarclient/apollo/option/OptionsContainer.java:48-70 | after a set, `get` gives the value set, or the default after setting null |
| Container.AddStoresDefault | common/src/main/java/com/lunarclient/apollo/option/OptionsContainer.java:65-85 | `add` of the default stores it, where `set` of the default stores nothing |
| Container.SetSendsAgain | common/src/main/java/com/lunarclient/apollo/option/OptionsContainer.java:67-70 | setting an already stored non-default value changes nothing and still sends |
| Container.AddKeepsFirst | common/src/main/java/com/lunarclient/apollo/option/OptionsContainer.java:85-92 | a second `add` changes and sends nothing, so the first value stays |
| Container.RemoveThenGet | common/src/main/java/com/lunarclient/apollo/option/OptionsContainer.java:98-105 | after a matching remove, `getDirect` is empty and `get` gives the default |
| Modules.Lower | common/src/main/java/com/lunarclient/apollo/module/ApolloModuleManagerImpl.java:110 | every capital ASCII letter becomes its small letter, every other character stays, the length is kept and no capital is left |
| Modules.Decode | common/src/main/java/com/lunarclient/apollo/module/ApolloModuleManagerImpl.java:119 | reading a node as the option's type succeeds exactly when the stored value has that type, and then yields it unchanged |
| Modules.LoadOne | common/src/main/java/com/lunarclient/apollo/module/ApolloModuleManagerImpl.java:115-123 | a virtual option node or a value of the wrong type leaves the values unchanged |
| Modules.LoadSend | common/src/main/java/com/lunarclient/apollo/module/ApolloModuleManagerImpl.java:115-123 | loading an option sends at most once, and sends exactly when its node holds a value of its type that the veto allows and whose `set` sends; the send carries that value |
| Modules.LoadOption | common/src/main/java/com/lunarclient/apollo/module/ApolloModuleManagerImpl.java:115-123 | the values become what loading that option alone gives, and the send it makes, if any, is appended |
| Modules.LoadedSendsNothing | common/src/main/java/com/lunarclient/apollo/module/ApolloModuleManagerImpl.java:114-124 | when no option of the module would send on loading, loading the module sends nothing |
| Modules.LoadTwice | common/src/main/java/com/lunarclient/apollo/module/ApolloModuleManagerImpl.java:115-123 | loading the same module node twice gives what loading it once gave |
| Modules.SaveOne | common/src/main/java/com/lunarclient/apollo/module/ApolloModuleManagerImpl.java:146 | the option node holds the value written (removed for null); other nodes are unchanged |
| Modules.SaveThenLoad | common/src/main/java/com/lunarclient/apollo/module/ApolloModuleManagerImpl.java:108-152 | saving an option and loading it into an empty container restores its stored value, if that value is non-default, well typed and allowed by the veto |
| Modules.LoadsBack | common/src/main/java/com/lunarclient/apollo/module/ApolloModuleManagerImpl.java:108-152 | an option whose node holds its effective value loads back into an empty container as what was stored, if that is non-default, well typed and allowed by the veto |
| Modules.SaveModuleThenLoad | common/src/main/java/com/lunarclient/apollo/module/ApolloModuleManagerImpl.java:108-152 | a whole module saved and loaded back into an empty container gets every stored value back, under the same condition, and nothing for options with nothing stored |
| Modules.SaveThenLoadDropsStoredDefault | common/src/main/java/com/lunarclient/apollo/module/ApolloModuleManagerImpl.java:134-152 | a stored default (left by `add`) is saved, then dropped again by the load's `set` |
| Modules.LoadModule | common/src/main/java/com/lunarclient/apollo/module/ApolloModuleManagerImpl.java:114-124 | each option ends up as loading it alone from the module node gives; keys that are not options are unchanged; the sends logged are those of the options that load a value `set` sends, each once, one after the other in some order |
| Modules.LoadInto | common/src/main/java/com/lunarclient/apollo/module/ApolloModuleManagerImpl.java:110-124 | a virtual module node changes no value and sends nothing; otherwise the module's options are loaded from its node, with the sends `LoadModule` states |
| Modules.LoadAll | common/src/main/java/com/lunarclient/apollo/module/ApolloModuleManagerImpl.java:108-126 | every container given is loaded from its module node of the tree, with the sends of those loads |
| Modules.WriteValue | common/src/main/java/com/lunarclient/apollo/module/ApolloModuleManagerImpl.java:146 | the option node holds the value (removed for null); every other node is unchanged |
| Modules.WriteComment | common/src/main/java/com/lunarclient/apollo/module/ApolloModuleManagerImpl.java:144 | a non-null comment is put on the option node; a null one changes nothing; other comments are unchanged |
| Modules.SaveModule | common/src/main/java/com/lunarclient/apollo/module/ApolloModuleManagerImpl.java:136-150 | every option's effective value (defaults included) and its non-null comment are under the module node; an option with a null comment keeps the comment already there; paths that are not options and other nodes are unchanged |
| Modules.SaveAll | common/src/main/java/com/lunarclient/apollo/module/ApolloModuleManagerImpl.java:135-151 | every container with a module node of its own is saved into it; nodes no module uses are unchanged, and so are the value and comment at every path under a node where no container there has an option; a comment changes only where some container there has an option with a non-null comment |
| Modules.Lifecycle | common/src/main/java/com/lunarclient/apollo/module/ApolloModuleManagerImpl.java:65-66 | register comes before enable; a throwing register stops both, a throwing enable stops after register |
| Modules.ApolloModuleManager.constructor | common/src/main/java/com/lunarclient/apollo/module/ApolloModuleManagerImpl.java:27 | the manager starts with no modules |
| Modules.ApolloModuleManager.IsEnabled | common/src/main/java/com/lunarclient/apollo/module/ApolloModuleManagerImpl.java:30-32 | true exactly when the class is held |
| Modules.ApolloModuleManager.GetModule | common/src/main/java/com/lunarclient/apollo/module/ApolloModuleManagerImpl.java:35-38 | the instance held under the class, empty exactly when it is not enabled |
| Modules.ApolloModuleManager.Modules | common/src/main/java/com/lunarclient/apollo/module/ApolloModuleManagerImpl.java:41-43 | the collection holds exactly the held instances, at most one entry per class |
| Modules.ApolloModuleManager.Attach | common/src/main/java/com/lunarclient/apollo/module/ApolloModuleManagerImpl.java:60-63 | a container (fresh, empty, owned by the module, its table built from the options) is attached exactly when the module declares options |
| Modules.ApolloModuleManager.Install | common/src/main/java/com/lunarclient/apollo/module/ApolloModuleManagerImpl.java:60-70 | container first, then register, then enable; a fault returns that failure and holds nothing; success holds the module and returns the manager |
| Modules.ApolloModuleManager.AddModule | common/src/main/java/com/lunarclient/apollo/module/ApolloModuleManagerImpl.java:53-73 | a held class is a no-op returning the manager; a failing constructor is an error and holds nothing; otherwise a fresh module is installed as above |
| Modules.ApolloModuleManager.AddModuleInstance | common/src/main/java/com/lunarclient/apollo/module/ApolloModuleManagerImpl.java:84-100 | a held class is a no-op that ignores and does not touch the instance; otherwise the given instance is installed as above |
| Modules.ApolloModuleManager.LoadConfiguration | common/src/main/java/com/lunarclient/apollo/module/ApolloModuleManagerImpl.java:108-126 | every held container is loaded from its module's node, each option on its own, with the sends those loads make; the cached views are unchanged |
| Modules.ApolloModuleManager.SaveConfiguration | common/src/main/java/com/lunarclient/apollo/module/ApolloModuleManagerImpl.java:134-152 | every container whose module node is its own has each option's effective value and comment under it; nodes no module uses are unchanged, and so is every path under a node that no option of a container there is saved at; a comment changes only where such an option has a non-null comment |
| TntCountdown.BuildTntTicks | api/src/main/java/com/lunarclient/apollo/module/type/TntCountdown.java:17-20 | the builder chain yields node `tnt-ticks`, type int, the comment, default 80, bounds 1 and `Integer.MAX_VALUE` |
| TntCountdown.TntTicksShape | api/src/main/java/com/lunarclient/apollo/module/type/TntCountdown.java:17-20 | the default lies within the bounds, notify is false, and the key is `["tnt-ticks"]` |
| TntCountdown.NewTntCountdown | api/src/main/java/com/lunarclient/apollo/module/type/TntCountdown.java:22-33 | the module is named `TntCountdown`, registers exactly `[TNT_TICKS]`, and asks for client notification |
| TntCountdown.TntCountdownNode | api/src/main/java/com/lunarclient/apollo/module/type/TntCountdown.java:23 | its configuration node is `tntcountdown` |
| TntCountdown.LoadStoresTicks | api/src/main/java/com/lunarclient/apollo/module/type/TntCountdown.java:17-20 | loading `tnt-ticks: 100` stores 100 when the veto allows it |
| TntCountdown.LoadDefaultClears | api/src/main/java/com/lunarclient/apollo/module/type/TntCountdown.java:20 | loading the default 80 clears the stored value, and sends exactly when there was one |
| TntCountdown.LoadSkipsText | api/src/main/java/com/lunarclient/apollo/module/type/TntCountdown.java:19 | a non-integer value at `tnt-ticks` is skipped |
| Json.IntToDecimal | bukkit-example/src/main/java/com/lunarclient/apollo/example/json/JsonUtil.java:45 | a `long` in decimal starts with '-' exactly when it is negative |
| Json.FormatDurationShape | bukkit-example/src/main/java/com/lunarclient/apollo/example/json/JsonUtil.java:47 | `%d.%09ds` ends in '.', nine digits worth the nanos and 's', and starts with '-' exactly when the seconds are negative |
| Json.Pad9 | bukkit-example/src/main/java/com/lunarclient/apollo/example/json/JsonUtil.java:47 | `%09d` of nanos below one second is exactly nine digits |
| Json.Pad9Value | bukkit-example/src/main/java/com/lunarclient/apollo/example/json/JsonUtil.java:47 | the nine padded digits are worth the nanos |
| Json.Pad9LastDigit | bukkit-example/src/main/java/com/lunarclient/apollo/example/json/JsonUtil.java:47 | the ninth digit is the last decimal digit of the nanos |
| Json.StripTrailingZeros | bukkit-example/src/main/java/com/lunarclient/apollo/example/json/JsonUtil.java:48 | `replaceAll("0+$", "")`, on a string that does not end in a line terminator, gives a prefix of its input that does not end in '0' |
| Json.StripTrailingZerosPad | bukkit-example/src/main/java/com/lunarclient/apollo/example/json/JsonUtil.java:48 | what it removed is a run of '0' characters only |
| Json.StripTrailingDot | bukkit-example/src/main/java/com/lunarclient/apollo/example/json/JsonUtil.java:49 | `replaceAll("\\.$", "")`, on a string that does not end in a line terminator, removes exactly one final '.', and changes a string that does not end in '.' not at all |
| Json.DurationString | bukkit-example/src/main/java/com/lunarclient/apollo/example/json/JsonUtil.java:38-53 | the duration string always ends in 's' |
| Json.StripsKeepSuffix | bukkit-example/src/main/java/com/lunarclient/apollo/example/json/JsonUtil.java:47-49 | on a string ending in 's', both end-anchored `replaceAll` calls change nothing |
| Json.DurationStringShape | bukkit-example/src/main/java/com/lunarclient/apollo/example/json/JsonUtil.java:38-53 | the string is the sign of the seconds, their size in decimal, `.` and nine digits unless the nanos are 0, then 's' |
| Json.DurationStringReads | bukkit-example/src/main/java/com/lunarclient/apollo/example/json/JsonUtil.java:38-53 | the string reads back as the size of the seconds plus the nanos, with the sign of the seconds |
| Json.DurationStringRoundTrip | bukkit-example/src/main/java/com/lunarclient/apollo/example/json/JsonUtil.java:38-53 | for non-negative seconds, or no nanos, the string reads back as the same length of time |
| Json.DurationStringKeepsZeros | bukkit-example/src/main/java/com/lunarclient/apollo/example/json/JsonUtil.java:47-49 | with non-zero nanos, the string is exactly `%d.%09ds`: the trimming never happens |
| Json.DurationStringTrailingZero | bukkit-example/src/main/java/com/lunarclient/apollo/example/json/JsonUtil.java:47-49 | nanos that end in 0 leave a '0' right before the 's' |
| Json.OneAndAHalfSecondsAsWritten | bukkit-example/src/main/java/com/lunarclient/apollo/example/json/JsonUtil.java:47-49 | 1.5 s is written `1.500000000s` |
| Json.DurationStringMisreadsNegative | bukkit-example/src/main/java/com/lunarclient/apollo/example/json/JsonUtil.java:39-47 | a negative duration with a fraction reads back with the wrong size |
| Json.DurationStringIntendedRoundTrip | bukkit-example/src/main/java/com/lunarclient/apollo/example/json/JsonUtil.java:38-53 | the corrected string reads back as the same length of time for every duration |
| Json.DurationStringIntendedIsTrimmed | bukkit-example/src/main/java/com/lunarclient/apollo/example/json/JsonUtil.java:47-49 | the corrected string has no trailing zero in its fraction and no bare '.' |
| Json.OneAndAHalfSecondsIntended | bukkit-example/src/main/java/com/lunarclient/apollo/example/json/JsonUtil.java:47-49 | the corrected string for 1.5 s is `1.5s` |
| Json.UnsignedString | bukkit-example/src/main/java/com/lunarclient/apollo/example/json/JsonUtil.java:63-64 | `Long.toUnsignedString` gives digits only, worth the value mod 2^64 |
| Json.UnsignedStringRoundTrip | bukkit-example/src/main/java/com/lunarclient/apollo/example/json/JsonUtil.java:63-64 | the digits read back as the same signed 64 bits |
| Json.UuidObject | bukkit-example/src/main/java/com/lunarclient/apollo/example/json/JsonUtil.java:61-66 | the object has exactly `high64` and `low64`, both digit strings |
| Json.UuidRoundTrip | bukkit-example/src/main/java/com/lunarclient/apollo/example/json/JsonUtil.java:61-66 | reading the object back gives the original UUID |
| Json.ColorObject | bukkit-example/src/main/java/com/lunarclient/apollo/example/json/JsonUtil.java:55-59 | the single key `color`, holding the RGB value |
| Json.EntityIdObject | bukkit-example/src/main/java/com/lunarclient/apollo/example/json/JsonUtil.java:92-97 | exactly `entity_id` and `entity_uuid`, the latter the UUID object, which reads back as the entity's UUID |
| Json.ItemStackIconObject | bukkit-example/src/main/java/com/lunarclient/apollo/example/json/JsonUtil.java:108-121 | under the single key `item_stack`: `item_name` if the name is non-null, else `item_id`, never both, plus `custom_model_data` |
| Json.SimpleResourceLocationIconObject | bukkit-example/src/main/java/com/lunarclient/apollo/example/json/JsonUtil.java:123-132 | under the single key `simple_resource_location`: exactly `resource_location` (null stays null) and `size` |
| Json.EnableModuleObjectWithType | bukkit-example/src/main/java/com/lunarclient/apollo/example/json/JsonUtil.java:68-72 | `@type` is the ConfigurableSettings URL, and every other field is kept |

## Left out

- The network boundary is not modelled. This covers `NetworkOptions.sendOption`, `wrapValue` and the player list. A send is an entry in the container's `sent` log, holding the option and the value given. Who receives it and a failing send are not modelled.
- `postUpdate` is declared in a parent class that is not part of this model. It is a veto function fixed when the container is made. The manager hands the same function to every container.
- `OptionsView`'s own behaviour is not modelled; only the creation and caching of views is.
- `ApolloModule` is not part of this model. Only its name, its option keys, its client-notify flag and its container are modelled.
- A held module without a container is walked as having no options. The code would call `getOptions()` on it, and that method is not part of this model.
- Option values are ints, booleans and strings only. An option is stored under its node path, because `Option.getKey()` is not part of this model.
- Reflection and `EventBus` are replaced by inputs:
  - the module's constructor is a factory from class to module description (`None` when the constructor throws);
  - exceptions from `register` and `enable` come as a `Faults` input;
  - the calls made are logged as events.
- The configuration library (Configurate) is not modelled. The tree is a map from module node to a map from option path to value. Its limits:
  - a node is virtual when it is absent;
  - reading succeeds only when the stored value has exactly the option's type (no coercion);
  - option paths do not overlap one another;
  - removing a value does not remove the comment on it.
- Modules.Lower: lower-cases ASCII letters only, because `Locale.ENGLISH` lower-casing of other characters is not modelled.
- `saveConfiguration`'s `optionNode == null` check is never true, so it is not modelled.
- The order in which the `IdentityHashMap` and the `HashMap`s are walked is not specified by the code, and no order is modelled. Containers and options are taken in an arbitrary order.
- Modules.ApolloModuleManager.SaveConfiguration: states the saved values only for modules whose lower-cased names are distinct. For two modules sharing a node, which one's value ends up there depends on iteration order.
- Modules.ApolloModuleManager.AddModuleInstance: when the class is not yet held, requires that the instance is not already held under another class. Installing one instance under two classes is not modelled; the no-op for a held class takes any instance.
- Concurrency is not modelled: the maps are plain `HashMap`s without locking.
- `NumberOption`, `Option` and `build()` are not part of this model. The bounds of `TNT_TICKS` are recorded and not checked.
- `createLocationObject`, `createBlockLocationObject`, `createCuboid2DObject` and `createAdvancedResourceLocationIconObject` are not modelled, because they carry floating-point values.
- `createColorObject` takes the packed RGB value as given, because `java.awt.Color` is not part of this model.
- `createEnableModuleObjectWithType` starts from the fields that `JsonPacketUtil.createEnableModuleObject` built. That method is not part of this model.
- Json.FormatDuration: `String.format` runs under the JVM's default locale, and the model assumes that locale writes ASCII digits and no grouping. The `nanos == 0` path uses `Long.toString` and does not depend on the locale.
- `ParseDurationNanos` is not code of this repository. It serves to state what a duration string means, and it agrees with protobuf-java-util's `Durations.parse` on the strings `DurationString` produces for durations within protobuf's range of ±315,576,000,000 seconds. It is not that parser in general: it rejects a leading '+' and a '.' with no digits after it, which `Durations.parse` accepts, and it has no range check, so `DurationStringRoundTrip` and `DurationStringIntendedRoundTrip` say nothing about how `Durations.parse` treats durations outside that range.
- Json.StripTrailingZeros, Json.StripTrailingDot: model `replaceAll` with an end-anchored pattern only on strings that do not end in a line terminator, because Java's `$` also matches before a final line terminator; the duration string never ends in one.
- Modules.ApolloModuleManager.AddModuleInstance: when the class is not yet held and the instance already has a container, requires that container to be owned by the instance. A module with no options holding another module's container (possible only by setting it by hand) is not modelled.

## Findings

| source | as written | input that shows it | evidently intended | confidence | as-written member | corrected member |
|---|---|---|---|---|---|---|
| bukkit-example/src/main/java/com/lunarclient/apollo/example/json/JsonUtil.java:47-49 | `replaceAll("0+$", "")` and `replaceAll("\\.$", "")` run on `%d.%09ds`, a string that ends in 's', so neither ever matches | `Duration.ofMillis(1500)` gives `1.500000000s` | trailing zeros of the fraction, then a bare '.', are removed: `1.5s` | not executed | Json.OneAndAHalfSecondsAsWritten | Json.OneAndAHalfSecondsIntended |
| bukkit-example/src/main/java/com/lunarclient/apollo/example/json/JsonUtil.java:39-47 | the sign comes from `getSeconds()` alone, and the nanos are added to the seconds' digits | `Duration.ofMillis(-1500)` (seconds -2, nanos 500000000) gives `-2.500000000s`, read back as -2.5 s | `-1.5s`: the sign of the whole duration, before its size | not executed | Json.DurationStringMisreadsNegative | Json.DurationStringIntendedRoundTrip |
