# hammer-cli `AbstractCommand`, modelled in Dafny

`HammerCLI::AbstractCommand` is the base class of every hammer command. It is
a thin layer over the Clamp command-line library that adds five things:

- a subcommand registry with conflict detection (`subcommand`), explicit
  override (`subcommand!`), removal (`remove_subcommand`) and registration of
  nested command classes (`autoload_subcommands`);
- an output definition per command class, memoised and seeded with a copy of
  the superclass's (`output_definition`, `inherited_output_definition`,
  `output`);
- resolution of the exception handler along the nesting chain of the class
  name (`exception_handler_class`);
- option values (`all_options`, `options`), the password masking of the
  snapshot `parse` logs, and the option writer (`define_simple_writer_for`);
- invocation bookkeeping: each instance appends itself to the context path
  (`initialize`, `parent_command`), and `run` insists on an Integer exit code
  and sends every `StandardError` to the resolved handler.

The model has four modules:

- `Wrappers` holds `Option` and `Outcome`.
- `OptionValues` (option_values.dfy) holds option values, `all_options`,
  `options` and the masking.
- `HandlerResolution` (handler_resolution.dfy) holds the handler search.
- `Commands` (commands.dfy) holds the registry as value functions and
  lemmas, plus three classes.
  - `CommandClass` is the class-level state of one Ruby command class: its
    `@name`, `@desc`, registry, logger trace, memoised output definition,
    declared options and validation block.
  - `Context` is the shared invocation context.
  - `Command` is a command instance.
  Each method that changes class or instance state is tied to a value
  function, such as `Register`, `Without`, `RemovalLog`, `RegisterAll`,
  `ParseOutcome` or `RunOutcome`, and the lemmas about those functions carry
  the properties.

Logging is an appended list of structured entries on the class. Each one is
a subcommand removal, a subcommand creation, or a "Called with options"
snapshot.

Points where the code's behaviour is easy to misread:

- `run` rescues every `StandardError`. That includes Clamp's `UsageError`,
  which `parse` raises for a failed validation. So a usage error goes to the
  resolved exception handler like any other error; it does not bypass it.
- The "exit code must be integer" `RuntimeError` is raised inside the method
  whose `rescue` catches it. So it too ends with the handler's answer. It is
  not a separate fatal path.
- `desc` is not inherited, while `command_name` falls back to the
  superclass. Autoload therefore registers a nested class under its
  inherited name but with only its own description.
- `validation_block` is a class-level accessor of the declaring class alone.
  Subclasses do not inherit it.

## Model

| member | source | states |
|---|---|---|
| `OptionValues.AllOptions` | lib/hammer_cli/abstract.rb:210-215 | the hash has a key for exactly the recognised options' attribute names, and each key maps to what that attribute's reader returns, `nil` included |
| `OptionValues.Options` | lib/hammer_cli/abstract.rb:217-219 | `options` never holds a `nil` value |
| `OptionValues.OptionsAreTheSetOnes` | lib/hammer_cli/abstract.rb:210-219 | a name is a key of `all_options` iff some recognised option has it; it is a key of `options` iff it is also not `nil`, and then it has its real value |
| `OptionValues.MaskPasswords` | lib/hammer_cli/abstract.rb:32-33 | the key-by-key loop over the duplicated hash yields exactly the masked snapshot |
| `OptionValues.MaskedShows` | lib/hammer_cli/abstract.rb:32-33 | the snapshot has the same keys as the options; a key ending in `password` shows `'***'` and every other key its real value |
| `OptionValues.MaskHidesPasswords` | lib/hammer_cli/abstract.rb:32-34 | two option hashes that differ only in password values log the same snapshot |
| `HandlerResolution.NearestSpec` | lib/hammer_cli/abstract.rb:157-166 | the default `HammerCLI::ExceptionHandler` comes back when no scope provides a handler; otherwise the handler of a providing scope with no provider nested inside it comes back |
| `HandlerResolution.ExceptionHandlerClass` | lib/hammer_cli/abstract.rb:157-166 | the walk over the reversed nesting chain returns the nearest provider's handler, or the default |
| `HandlerResolution.NearestIsInnermost` | lib/hammer_cli/abstract.rb:162-164 | any providing scope with no provider nested inside it decides the result |
| `HandlerResolution.OuterScopesIgnored` | lib/hammer_cli/abstract.rb:162-164 | scopes outside the innermost provider are never consulted |
| `Commands.FindSpec` | lib/hammer_cli/abstract.rb:83-84 | the lookup finds nothing iff no entry is called `name`, and otherwise finds the first entry called `name` |
| `Commands.RegisterSpec` | lib/hammer_cli/abstract.rb:82-88 | `subcommand` raises `CommandConflict` iff an entry is already called `name`; the registry is then unchanged and the message names the first such entry's class and the new class; otherwise exactly one entry is appended |
| `Commands.ConflictMessageNamesBoth` | lib/hammer_cli/abstract.rb:85 | the conflict message contains both the existing and the new class name |
| `Commands.RemovalPartition` | lib/hammer_cli/abstract.rb:65-74 | the kept entries are all not called `name` and the deleted entries all are; together they are the old registry as a multiset |
| `Commands.RemovalCounts` | lib/hammer_cli/abstract.rb:66-73 | every old entry is either kept or deleted, exactly once |
| `Commands.WithoutConcat` | lib/hammer_cli/abstract.rb:66-73 | removal keeps the surviving entries in their original order |
| `Commands.RemoveAbsentIsIdentity` | lib/hammer_cli/abstract.rb:65-74 | removing a name nothing answers to changes nothing and logs nothing |
| `Commands.RemovalLogLines` | lib/hammer_cli/abstract.rb:66-72 | one "was removed" line per deleted entry, in order, naming the entry's class; no line iff nothing matched |
| `Commands.OverrideRegisters` | lib/hammer_cli/abstract.rb:76-79 | after removal, registering `name` cannot conflict, and looking `name` up then finds the new class |
| `Commands.CommandClasses` | lib/hammer_cli/abstract.rb:179 | autoload takes exactly the nested constants that are command classes |
| `Commands.CommandClassesConcat` | lib/hammer_cli/abstract.rb:179 | `select` keeps enumeration order and multiplicity: filtering a concatenation concatenates the filtered parts |
| `Commands.CommandClassesSingle` | lib/hammer_cli/abstract.rb:179 | a command class is kept as itself, and any other constant is dropped |
| `Commands.RequestsFor` | lib/hammer_cli/abstract.rb:180-181 | autoload registers each nested command class, in order, under its `command_name` and its `desc` |
| `Commands.RegisterAllStep` | lib/hammer_cli/abstract.rb:180-182 | one more turn of the loop registers the next class unless an earlier registration raised |
| `Commands.RegisterAllStops` | lib/hammer_cli/abstract.rb:180-182 | once one registration of the autoload loop raises, later classes are not registered |
| `Commands.AutoloadRegistersEach` | lib/hammer_cli/abstract.rb:178-183 | without a clash, the registry gains exactly one entry per nested command class, in order; on a clash a `CommandConflict` is raised, and only the classes before the clashing one stay registered |
| `Commands.AutoloadWithFreshNames` | lib/hammer_cli/abstract.rb:178-183 | names that are new to the registry and to each other never raise |
| `Commands.NameIn` | lib/hammer_cli/abstract.rb:173-176 | `command_name` is `nil` iff no class of the chain declares a name, and otherwise the name of the nearest class that declares one |
| `Commands.DeclaredInSpec` | lib/hammer_cli/abstract.rb:211 | the recognised options are exactly the options declared on the class or on one of its ancestors |
| `Commands.RunExitCodes` | lib/hammer_cli/abstract.rb:21-27 | `run` exits with a code iff `parse` passed and `execute` returned an Integer, and the code is that Integer; a non-Integer result ends with the handler given the "exit code must be integer" error |
| `Commands.ValidationFailureIsUsageError` | lib/hammer_cli/abstract.rb:29-37 | a `ValidationError` in `parse` becomes a usage error with the same message, and `run` hands it to the exception handler |
| `Commands.DefaultExecuteExitsOk` | lib/hammer_cli/abstract.rb:39-41 | the default `execute` makes `run` exit with `HammerCLI::EX_OK` (0) |
| `Commands.CommandClass.constructor` | lib/hammer_cli/abstract.rb:11 | a new command class has its superclass, that class's chain above it, and no class-level state of its own yet; it keeps the invariant that a memoised output definition has a memoised superclass |
| `Commands.CommandClass.CommandName` | lib/hammer_cli/abstract.rb:173-176 | a given name is stored, `nil` keeps the old one, and the answer is the nearest declared name along the superclass chain |
| `Commands.CommandClass.Desc` | lib/hammer_cli/abstract.rb:168-171 | a given description is stored, `nil` keeps the old one, and the answer is the class's own description |
| `Commands.CommandClass.RemoveSubcommand` | lib/hammer_cli/abstract.rb:65-74 | the registry becomes the entries not called `name`, and the log gains one removal line per deleted entry |
| `Commands.CommandClass.Subcommand` | lib/hammer_cli/abstract.rb:82-88 | the registry and the raised error are those of `Register` |
| `Commands.CommandClass.OverrideSubcommand` | lib/hammer_cli/abstract.rb:76-80 | never raises; the registry is the old one without `name`, followed by the new entry; the log gains the removal lines and then one "was created" line |
| `Commands.CommandClass.AutoloadSubcommands` | lib/hammer_cli/abstract.rb:178-183 | the registry and the raised error are those of registering, in order, every nested command class under its name and description as they were before the call |
| `Commands.CommandClass.SetValidationBlock` | lib/hammer_cli/abstract.rb:43-45 | the class keeps the given block, or none |
| `Commands.CommandClass.DeclareOption` | lib/hammer_cli/abstract.rb:195-208 | the option carries the given switches, type, description, attribute name, formatter and context target, and is appended to the class's declared options |
| `Commands.CommandClass.InheritedOutputDefinition` | lib/hammer_cli/abstract.rb:105-112 | a copy of the superclass's current output definition, or none when there is no superclass to ask; asking memoises every ancestor with what it answered before |
| `Commands.CommandClass.OutputDefinition` | lib/hammer_cli/abstract.rb:114-117 | memoised. The first access stores a copy of the superclass's definition, or an empty one. A later access changes nothing. Afterwards every class of the chain has memoised what it answered before, so none answers differently, and a memoised class keeps a memoised superclass |
| `Commands.CommandClass.MemoisedDefinitions` | lib/hammer_cli/abstract.rb:114-117 | once a class has memoised its definition, it and every ancestor answer with their own memo, so a later append higher up does not reach it |
| `Commands.CommandClass.AppendOutputFields` | lib/hammer_cli/abstract.rb:93-94 | `output_definition.append` memoises the definition if need be and then extends only this class's copy; every ancestor is left memoised with the definition it answered before |
| `Commands.CommandClass.Output` | lib/hammer_cli/abstract.rb:90-95 | the definition becomes the old one, then the given definition's fields, then the DSL's fields, with no de-duplication; every ancestor is left memoised with the definition it answered before |
| `Commands.Context.constructor` | lib/hammer_cli/abstract.rb:57 | a new context has an empty `:path` and no context targets |
| `Commands.Command.ParentCommand` | lib/hammer_cli/abstract.rb:61-63 | `nil` iff fewer than two commands are on the path; otherwise the command just before the last one |
| `Commands.Command.constructor` | lib/hammer_cli/abstract.rb:55-63 | the new instance is appended to the context path, and its `parent_command` is the instance that was last on the path before it, or `nil` |
| `Commands.Command.WriteOption` | lib/hammer_cli/abstract.rb:185-193 | the converted value is copied under the context target, if the option has one, and stored in the option's attribute; a conversion that raises changes nothing |
| `Commands.Command.Parse` | lib/hammer_cli/abstract.rb:29-37 | raises as `ParseOutcome` says; when it passes, it logs exactly one snapshot of `options` as they were at the call, with passwords masked; the stored values are untouched |
| `Commands.Command.Run` | lib/hammer_cli/abstract.rb:21-27 | ends as `RunOutcome` says for the parse outcome, the execution and the handler resolved along the class's nesting chain |

## Left out

- Clamp's argument tokenising and binding (the `super` calls in `parse` and
  `run`) and `signal_usage_error`. The model takes the binding's outcome as a
  parameter. Clamp's implicit options (`--help`) and subcommand parameters are
  not part of this model.
- The `&block` argument of `subcommand` and `subcommand!`, which makes an
  anonymous subclass, is left out. So is the default `subcommand_class = self`.
  The caller always passes the class.
- Registration takes one name (or `nil`). Entries may answer to several
  names, but a registration under a list of names at once is not modelled.
- The `Logging` sink, `Logger::Watch` and `logger(name)`. The log is the
  class's list of entries. The text of a line and the `inspect` rendering of
  the options hash are not modelled; the entries carry the name, class or
  options the text interpolates.
- `output`, `print_record`, `print_collection`, `print_message`,
  `interactive?` and `adapter`. These are rendering and global state.
- The validator (`validator`, `validate_options` on the instance). The
  outcome of running the validation block is a parameter. It is used only
  when the class has a block.
- `OptionDefinition` internals: `of`, `set`, the reader's default value,
  attribute-name inference and `default_conversion_block` (`block ||= ...` in
  `option`). The writer takes its conversion block as a parameter, and that
  block is a pure function of the value.
- The order of `recognised_options` (Clamp code that is not part of this
  model). It does not change `all_options`, which is a map here, so Ruby's
  hash insertion order is not modelled either.
- Ruby reflection (`constants`, `const_get`, `respond_to?`, `define_method`).
  The constants are given as a list in `constants` order. It includes the
  constants nested in the class's ancestors, so autoload on a subclass also
  registers the command classes nested above it. A constant that is not a module,
  for which `<=` would raise, is not modelled. The nesting chain is given as
  a list of optional handler classes, one per scope.
- `exception_handler`, the memoised handler instance, and the handler's own
  `handle_exception`. The model records which handler class receives which
  error; the exit code it chooses is not modelled.
- The object identity of `HammerCLI::Output::Definition`. A definition is
  modelled by its field list. `dup` then `append` (which reassigns the field
  list) means a copy never shares fields with its source.
- A context target named `path` would overwrite the context's path in Ruby.
  The model keeps targets apart from the path.
- `Commands.CommandClass.OutputDefinition`, `InheritedOutputDefinition`,
  `AppendOutputFields` and `Output` require the superclass chain to be
  consistent (`WellFormed`). Every class made by the constructor is. They
  also require that a memoised class has a memoised superclass (`MemoClosed`).
  Ruby always keeps this, because `output_definition` asks the superclass
  before it memoises. The constructor and these methods keep it too.
