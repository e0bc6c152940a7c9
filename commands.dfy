/** `HammerCLI::AbstractCommand`: the class-level state every command class
    carries (its subcommand registry, its logger's trace, its memoised output
    definition, its declared options), the shared invocation context, and a
    command instance with its option writer, `parse` and `run`. */
module Commands {
  import opened Wrappers
  import opened OptionValues
  import opened HandlerResolution

  // ---------------------------------------------------------------------
  // Errors, log entries, output fields
  // ---------------------------------------------------------------------

  /** The exceptions the core raises or rescues. `OtherError` is any other
      exception; `standard` says whether it descends from `StandardError`,
      the only kind a bare `rescue` catches. */
  datatype Error =
    | CommandConflict(message: string)
    | ValidationError(message: string)
    | UsageError(message: string)
    | RuntimeError(message: string)
    | OtherError(className: string, message: string, standard: bool)

  predicate IsStandardError(e: Error) {
    !e.OtherError? || e.standard
  }

  /** One `info` line written to a command class's logger. */
  datatype LogEntry =
    | SubcommandRemoved(name: Option<string>, cls: string)
    | SubcommandCreated(name: Option<string>, cls: string)
    | CalledWith(options: map<string, Value>)

  /** One field of an output definition: its identifier and formatting hint. */
  datatype Field = Field(id: string, kind: string)

  /** Ruby's string interpolation of a name that may be `nil`. */
  function Show(name: Option<string>): string {
    name.GetOr("")
  }

  // ---------------------------------------------------------------------
  // The subcommand registry, as values
  // ---------------------------------------------------------------------

  /** A registered subcommand: the names it answers to (canonical name and
      aliases), its description and its command class. */
  datatype Entry = Entry(names: seq<string>, description: Option<string>, cls: CommandClass)

  /** Whether an entry is called `name`; `nil` names nothing. */
  predicate Matches(e: Entry, name: Option<string>) {
    name.Some? && name.value in e.names
  }

  /** `Array(name)`: the names a registration under `name` answers to. */
  function NamesOf(name: Option<string>): seq<string> {
    if name.Some? then [name.value] else []
  }

  /** `find_subcommand`: the first entry called `name`. */
  function Find(subs: seq<Entry>, name: Option<string>): Option<Entry> {
    if subs == [] then None
    else if Matches(subs[0], name) then Some(subs[0])
    else Find(subs[1..], name)
  }

  /** Entry `i` is the first one called `name`. */
  ghost predicate FirstMatch(subs: seq<Entry>, name: Option<string>, i: int) {
    0 <= i < |subs| && Matches(subs[i], name) &&
    forall j | 0 <= j < i :: !Matches(subs[j], name)
  }

  /** The entries `remove_subcommand` keeps, in their order. */
  function Without(subs: seq<Entry>, name: Option<string>): seq<Entry> {
    if subs == [] then []
    else
      var last := subs[|subs| - 1];
      Without(subs[..|subs| - 1], name) + (if Matches(last, name) then [] else [last])
  }

  /** The entries `remove_subcommand` deletes, in their order. */
  function Matching(subs: seq<Entry>, name: Option<string>): seq<Entry> {
    if subs == [] then []
    else
      var last := subs[|subs| - 1];
      Matching(subs[..|subs| - 1], name) + (if Matches(last, name) then [last] else [])
  }

  /** The lines `remove_subcommand` logs while it deletes. */
  function RemovalLog(subs: seq<Entry>, name: Option<string>): seq<LogEntry> {
    if subs == [] then []
    else
      var last := subs[|subs| - 1];
      RemovalLog(subs[..|subs| - 1], name) +
        (if Matches(last, name) then [SubcommandRemoved(name, last.cls.className)] else [])
  }

  /** The message of the `CommandConflict` that `subcommand` raises. */
  function ConflictMessage(name: Option<string>, existing: string, incoming: string): string {
    "can't replace subcommand " + Show(name) + " (" + existing + ") with " + Show(name) + " (" + incoming + ")"
  }

  /** `t` occurs in `s` at position `i`. */
  ghost predicate OccursAt(s: string, t: string, i: int) {
    0 <= i <= |s| - |t| && s[i..i + |t|] == t
  }

  /** The registry after a call of `subcommand`, and whether the call raised. */
  datatype Registration = Registration(entries: seq<Entry>, outcome: Outcome<Error>)

  /** `subcommand(name, description, cls)`: raise `CommandConflict` naming
      the class already registered under `name`, else append the entry. */
  function Register(subs: seq<Entry>, name: Option<string>, description: Option<string>, cls: CommandClass): Registration {
    match Find(subs, name)
    case Some(existing) =>
      Registration(subs, Fail(CommandConflict(ConflictMessage(name, existing.cls.className, cls.className))))
    case None =>
      Registration(subs + [Entry(NamesOf(name), description, cls)], Pass)
  }

  /** `Find` returns the first entry called `name`, and nothing exactly when
      no entry is called `name`. */
  lemma {:induction false} FindSpec(subs: seq<Entry>, name: Option<string>)
    ensures Find(subs, name).None? <==> forall e | e in subs :: !Matches(e, name)
    ensures Find(subs, name).Some? ==> exists i :: FirstMatch(subs, name, i) && subs[i] == Find(subs, name).value
  {
    if subs != [] && !Matches(subs[0], name) {
      FindSpec(subs[1..], name);
      assert forall e | e in subs :: e == subs[0] || e in subs[1..];
      if Find(subs, name).Some? {
        var i :| FirstMatch(subs[1..], name, i) && subs[1..][i] == Find(subs, name).value;
        assert FirstMatch(subs, name, i + 1);
      }
    } else if subs != [] {
      assert FirstMatch(subs, name, 0);
    }
  }

  /** `remove_subcommand` splits the registry: the kept entries are the ones
      not called `name`, the deleted ones those called `name`, and together
      they are the old registry. */
  lemma {:induction false} RemovalPartition(subs: seq<Entry>, name: Option<string>)
    ensures forall e | e in Without(subs, name) :: !Matches(e, name)
    ensures forall e | e in Matching(subs, name) :: Matches(e, name)
    ensures multiset(subs) == multiset(Without(subs, name)) + multiset(Matching(subs, name))
  {
    RemovalCounts(subs, name);
    if subs != [] {
      var prefix := subs[..|subs| - 1];
      RemovalPartition(prefix, name);
    }
  }

  /** Every entry of the registry is either kept or deleted, once. */
  lemma {:induction false} RemovalCounts(subs: seq<Entry>, name: Option<string>)
    ensures multiset(subs) == multiset(Without(subs, name)) + multiset(Matching(subs, name))
  {
    if subs != [] {
      var prefix := subs[..|subs| - 1];
      var last := subs[|subs| - 1];
      RemovalCounts(prefix, name);
      assert subs == prefix + [last];
      assert multiset(subs) == multiset(prefix) + multiset{last};
    }
  }

  /** `remove_subcommand` keeps the surviving entries in their original
      order: removal from a concatenation is the concatenation of removals. */
  lemma {:induction false} WithoutConcat(a: seq<Entry>, b: seq<Entry>, name: Option<string>)
    ensures Without(a + b, name) == Without(a, name) + Without(b, name)
  {
    if b == [] {
      assert a + b == a;
    } else {
      var prefix := b[..|b| - 1];
      WithoutConcat(a, prefix, name);
      assert (a + b)[..|a + b| - 1] == a + prefix;
    }
  }

  /** Removing a name no entry answers to leaves the registry as it was, and
      logs nothing. */
  lemma {:induction false} RemoveAbsentIsIdentity(subs: seq<Entry>, name: Option<string>)
    requires forall e | e in subs :: !Matches(e, name)
    ensures Without(subs, name) == subs
    ensures RemovalLog(subs, name) == []
  {
    if subs != [] {
      var prefix := subs[..|subs| - 1];
      RemoveAbsentIsIdentity(prefix, name);
      assert subs == prefix + [subs[|subs| - 1]];
    }
  }

  /** `remove_subcommand` writes exactly one line per deleted entry, in
      order, each naming the removed name and the deleted entry's class. */
  lemma {:induction false} RemovalLogLines(subs: seq<Entry>, name: Option<string>)
    ensures |RemovalLog(subs, name)| == |Matching(subs, name)|
    ensures forall i | 0 <= i < |RemovalLog(subs, name)| ::
              RemovalLog(subs, name)[i] == SubcommandRemoved(name, Matching(subs, name)[i].cls.className)
    ensures RemovalLog(subs, name) == [] <==> forall e | e in subs :: !Matches(e, name)
  {
    if subs != [] {
      var prefix := subs[..|subs| - 1];
      var last := subs[|subs| - 1];
      RemovalLogLines(prefix, name);
      assert forall e | e in subs :: e in prefix || e == last;
    }
  }

  /** The conflict message names the class already registered and the class
      that was to replace it. */
  lemma ConflictMessageNamesBoth(name: Option<string>, existing: string, incoming: string)
    ensures exists i :: OccursAt(ConflictMessage(name, existing, incoming), existing, i)
    ensures exists i :: OccursAt(ConflictMessage(name, existing, incoming), incoming, i)
  {
    var head := "can't replace subcommand " + Show(name) + " (";
    var middle := ") with " + Show(name) + " (";
    var msg := ConflictMessage(name, existing, incoming);
    assert msg == head + existing + middle + incoming + ")";
    assert OccursAt(msg, existing, |head|);
    assert OccursAt(msg, incoming, |head| + |existing| + |middle|);
  }

  /** `subcommand` raises exactly when an entry is already called `name`; it
      then leaves the registry alone and reports the first such entry's
      class; otherwise it appends one entry answering to `name`. */
  lemma RegisterSpec(subs: seq<Entry>, name: Option<string>, description: Option<string>, cls: CommandClass)
    ensures Register(subs, name, description, cls).outcome.Fail? <==> exists e | e in subs :: Matches(e, name)
    ensures Register(subs, name, description, cls).outcome.Fail? ==>
              Register(subs, name, description, cls).entries == subs &&
              exists i :: FirstMatch(subs, name, i) &&
                Register(subs, name, description, cls).outcome.error ==
                  CommandConflict(ConflictMessage(name, subs[i].cls.className, cls.className))
    ensures Register(subs, name, description, cls).outcome.Pass? ==>
              Register(subs, name, description, cls).entries == subs + [Entry(NamesOf(name), description, cls)]
  {
    FindSpec(subs, name);
  }

  /** `subcommand!` never conflicts: after removing `name`, registering it
      succeeds, and looking `name` up afterwards finds the new class. */
  lemma OverrideRegisters(subs: seq<Entry>, name: Option<string>, description: Option<string>, cls: CommandClass)
    ensures Register(Without(subs, name), name, description, cls) ==
              Registration(Without(subs, name) + [Entry(NamesOf(name), description, cls)], Pass)
    ensures name.Some? ==>
              Find(Without(subs, name) + [Entry(NamesOf(name), description, cls)], name) ==
                Some(Entry(NamesOf(name), description, cls))
  {
    var kept := Without(subs, name);
    var entry := Entry(NamesOf(name), description, cls);
    var added := kept + [entry];
    RemovalPartition(subs, name);
    FindSpec(kept, name);
    if name.Some? {
      assert Matches(entry, name) && added[|kept|] == entry;
      FindSpec(added, name);
      var i :| FirstMatch(added, name, i) && added[i] == Find(added, name).value;
    }
  }

  // ---------------------------------------------------------------------
  // autoload_subcommands, as values
  // ---------------------------------------------------------------------

  /** One `subcommand cls.command_name, cls.desc, cls` call of the autoload loop. */
  datatype Request = Request(name: Option<string>, description: Option<string>, cls: CommandClass)

  /** A constant a command class answers to `constants` with: a command
      class (one for which `c <= HammerCLI::AbstractCommand` holds) or
      anything else. `Module#constants` lists the constants nested in the
      class and those nested in its ancestors, so autoload on a subclass also
      registers the command classes nested in its ancestors. */
  datatype Constant = CommandConstant(cls: CommandClass) | OtherConstant(name: string)

  /** The entry a request registers. */
  function EntryOf(r: Request): Entry {
    Entry(NamesOf(r.name), r.description, r.cls)
  }

  function EntriesOf(requests: seq<Request>): (entries: seq<Entry>)
    ensures |entries| == |requests|
    ensures forall i | 0 <= i < |requests| :: entries[i] == EntryOf(requests[i])
  {
    seq(|requests|, i requires 0 <= i < |requests| => EntryOf(requests[i]))
  }

  /** The nested command classes, in enumeration order. */
  function CommandClasses(nested: seq<Constant>): (cmds: seq<CommandClass>)
    ensures forall c | c in cmds :: CommandConstant(c) in nested
    ensures forall i | 0 <= i < |nested| && nested[i].CommandConstant? :: nested[i].cls in cmds
  {
    if nested == [] then []
    else
      var prefix := nested[..|nested| - 1];
      var last := nested[|nested| - 1];
      assert nested == prefix + [last];
      CommandClasses(prefix) + (if last.CommandConstant? then [last.cls] else [])
  }

  /** `select` keeps enumeration order and multiplicity: filtering a
      concatenation is concatenating the filtered parts. */
  lemma {:induction false} CommandClassesConcat(a: seq<Constant>, b: seq<Constant>)
    ensures CommandClasses(a + b) == CommandClasses(a) + CommandClasses(b)
  {
    if b == [] {
      assert a + b == a;
    } else {
      var prefix := b[..|b| - 1];
      var last := b[|b| - 1];
      CommandClassesConcat(a, prefix);
      var ab := a + b;
      assert ab[..|ab| - 1] == a + prefix && ab[|ab| - 1] == last;
      var tail := if last.CommandConstant? then [last.cls] else [];
      assert CommandClasses(ab) == CommandClasses(a + prefix) + tail;
      assert CommandClasses(b) == CommandClasses(prefix) + tail;
    }
  }

  /** A nested command class is kept as itself; any other constant is
      dropped. */
  lemma CommandClassesSingle(k: Constant)
    ensures CommandClasses([k]) == if k.CommandConstant? then [k.cls] else []
  {
    assert [k][..0] == [];
  }

  /** The autoload loop: register each request in turn, stopping at the
      first conflict with the entries registered so far kept. */
  function RegisterAll(subs: seq<Entry>, requests: seq<Request>): Registration {
    if requests == [] then Registration(subs, Pass)
    else
      var last := requests[|requests| - 1];
      var before := RegisterAll(subs, requests[..|requests| - 1]);
      if before.outcome.Fail? then before
      else Register(before.entries, last.name, last.description, last.cls)
  }

  /** One more turn of the autoload loop: register the next request unless
      an earlier one raised. */
  lemma RegisterAllStep(subs: seq<Entry>, requests: seq<Request>, i: nat)
    requires i < |requests|
    ensures RegisterAll(subs, requests[..i + 1]) ==
              if RegisterAll(subs, requests[..i]).outcome.Fail? then RegisterAll(subs, requests[..i])
              else Register(RegisterAll(subs, requests[..i]).entries, requests[i].name, requests[i].description, requests[i].cls)
  {
    assert requests[..i + 1][..i] == requests[..i];
  }

  /** Once a registration in the autoload loop has raised, the loop is over:
      later requests change nothing. */
  lemma {:induction false} RegisterAllStops(subs: seq<Entry>, requests: seq<Request>, k: nat)
    requires k <= |requests|
    requires RegisterAll(subs, requests[..k]).outcome.Fail?
    ensures RegisterAll(subs, requests) == RegisterAll(subs, requests[..k])
  {
    if k < |requests| {
      var prefix := requests[..|requests| - 1];
      assert prefix[..k] == requests[..k];
      RegisterAllStops(subs, prefix, k);
    } else {
      assert requests[..k] == requests;
    }
  }

  /** `autoload_subcommands` registers every nested command class once, in
      enumeration order, under its own name and description, unless a name
      clashes; then it raises `CommandConflict` having registered exactly the
      classes before the clashing one. */
  lemma {:induction false} AutoloadRegistersEach(subs: seq<Entry>, requests: seq<Request>)
    ensures RegisterAll(subs, requests).outcome.Pass? ==>
              RegisterAll(subs, requests).entries == subs + EntriesOf(requests)
    ensures RegisterAll(subs, requests).outcome.Fail? ==>
              RegisterAll(subs, requests).outcome.error.CommandConflict? &&
              exists k | 0 <= k < |requests| ::
                RegisterAll(subs, requests).entries == subs + EntriesOf(requests[..k]) &&
                Find(subs + EntriesOf(requests[..k]), requests[k].name).Some?
  {
    if requests != [] {
      var n := |requests| - 1;
      var prefix := requests[..n];
      var last := requests[n];
      AutoloadRegistersEach(subs, prefix);
      var before := RegisterAll(subs, prefix);
      if before.outcome.Fail? {
        var k :| 0 <= k < |prefix| &&
                 before.entries == subs + EntriesOf(prefix[..k]) &&
                 Find(subs + EntriesOf(prefix[..k]), prefix[k].name).Some?;
        assert prefix[..k] == requests[..k];
      } else {
        RegisterSpec(before.entries, last.name, last.description, last.cls);
        FindSpec(before.entries, last.name);
        assert requests[..n] == prefix;
        if RegisterAll(subs, requests).outcome.Pass? {
          assert EntriesOf(requests) == EntriesOf(prefix) + [EntryOf(last)];
        }
      }
    }
  }

  /** When every requested name is new to the registry and to the requests
      before it, autoload raises nothing. */
  lemma {:induction false} AutoloadWithFreshNames(subs: seq<Entry>, requests: seq<Request>)
    requires forall i | 0 <= i < |requests| :: forall e | e in subs :: !Matches(e, requests[i].name)
    requires forall i, j | 0 <= j < i < |requests| :: requests[i].name.Some? ==> requests[j].name != requests[i].name
    ensures RegisterAll(subs, requests).outcome.Pass?
  {
    if requests != [] {
      var n := |requests| - 1;
      var prefix := requests[..n];
      var last := requests[n];
      AutoloadWithFreshNames(subs, prefix);
      AutoloadRegistersEach(subs, prefix);
      var before := RegisterAll(subs, prefix);
      forall e | e in before.entries
        ensures !Matches(e, last.name)
      {
        if e !in subs {
          var j :| 0 <= j < |prefix| && EntriesOf(prefix)[j] == e;
          assert requests[j] == prefix[j];
        }
      }
      RegisterSpec(before.entries, last.name, last.description, last.cls);
    }
  }

  // ---------------------------------------------------------------------
  // Chains of command classes, as read from the heap
  // ---------------------------------------------------------------------

  /** `command_name` along a chain class, superclass, ...: the first name a
      class of the chain declares. */
  function NameIn(chain: seq<CommandClass>): (r: Option<string>)
    reads (set c | c in chain)`ownName
    ensures r.None? <==> forall i | 0 <= i < |chain| :: chain[i].ownName.None?
    ensures r.Some? ==> exists i | 0 <= i < |chain| ::
              chain[i].ownName == r && forall j | 0 <= j < i :: chain[j].ownName.None?
  {
    if chain == [] then None
    else if chain[0].ownName.Some? then chain[0].ownName
    else
      var r := NameIn(chain[1..]);
      assert forall i | 0 < i < |chain| :: chain[1..][i - 1] == chain[i];
      r
  }

  /** `output_definition` along a chain: the fields memoised by the first
      class of the chain that has a definition, empty when none has. */
  function DefinitionIn(chain: seq<CommandClass>): seq<Field>
    reads (set c | c in chain)`outputFields
  {
    if chain == [] then []
    else match chain[0].outputFields
      case Some(fields) => fields
      case None => DefinitionIn(chain[1..])
  }

  /** The options declared along a chain. */
  function DeclaredIn(chain: seq<CommandClass>): seq<OptionDef>
    reads (set c | c in chain)`declaredOptions
  {
    if chain == [] then []
    else chain[0].declaredOptions + DeclaredIn(chain[1..])
  }

  /** The recognised options are exactly the options declared on some class
      of the chain: a subclass recognises everything its ancestors declare. */
  lemma {:induction false} DeclaredInSpec(chain: seq<CommandClass>)
    ensures forall i, o | 0 <= i < |chain| && o in chain[i].declaredOptions :: o in DeclaredIn(chain)
    ensures forall o | o in DeclaredIn(chain) :: exists i | 0 <= i < |chain| :: o in chain[i].declaredOptions
  {
    if chain != [] {
      DeclaredInSpec(chain[1..]);
      assert forall i | 0 < i < |chain| :: chain[1..][i - 1] == chain[i];
    }
  }

  /** Every class of every command in `cmds`, with its ancestors. */
  function Footprint(cmds: seq<CommandClass>): set<CommandClass> {
    set c, a | c in cmds && a in c.Chain() :: a
  }

  /** What the autoload loop passes to `subcommand` for one class: its
      inherited `command_name` and its own `desc`. */
  function RequestOf(c: CommandClass): Request
    reads c.Lineage()`ownName, c`ownDesc
  {
    Request(NameIn(c.Chain()), c.ownDesc, c)
  }

  function RequestsFor(cmds: seq<CommandClass>): (requests: seq<Request>)
    reads Footprint(cmds)`ownName, Footprint(cmds)`ownDesc
    ensures |requests| == |cmds|
    ensures forall i | 0 <= i < |cmds| :: requests[i] == RequestOf(cmds[i])
  {
    if cmds == [] then []
    else
      var prefix := cmds[..|cmds| - 1];
      var last := cmds[|cmds| - 1];
      assert Footprint(prefix) <= Footprint(cmds);
      assert last.Lineage() <= Footprint(cmds);
      RequestsFor(prefix) + [RequestOf(last)]
  }

  // ---------------------------------------------------------------------
  // A command class and its class-level state
  // ---------------------------------------------------------------------

  /** The class-level state of one command class. `ancestors` is its
      superclass chain up to `HammerCLI::AbstractCommand` (empty for that
      class itself, whose superclass answers none of these methods);
      `nesting` is what each scope of its nesting chain `[Object, A, A::B,
      ..., cls]` answers to `exception_handler_class`. */
  class CommandClass {
    const className: string
    const ancestors: seq<CommandClass>
    const nesting: Scopes

    var ownName: Option<string>
    var ownDesc: Option<string>
    var subcommands: seq<Entry>
    var log: seq<LogEntry>
    var outputFields: Option<seq<Field>>
    var declaredOptions: seq<OptionDef>
    var validationBlock: bool

    /** The superclass chain is a chain: the superclass's ancestors are the
        rest of ours. */
    ghost predicate WellFormed()
      decreases |ancestors|
    {
      ancestors == [] || (ancestors[0].ancestors == ancestors[1..] && ancestors[0].WellFormed())
    }

    function Superclass(): CommandClass? {
      if ancestors == [] then null else ancestors[0]
    }

    /** This class followed by its ancestors. */
    function Chain(): seq<CommandClass> {
      [this] + ancestors
    }

    function Lineage(): set<CommandClass> {
      set c | c in Chain()
    }

    /** Defining a command class: a subclass of `superclass` (none for
        `HammerCLI::AbstractCommand` itself) with no class-level state yet. */
    constructor (className: string, superclass: CommandClass?, nesting: Scopes)
      requires superclass != null ==> superclass.WellFormed()
      ensures WellFormed() && Superclass() == superclass
      ensures ancestors == if superclass == null then [] else [superclass] + superclass.ancestors
      ensures this.className == className && this.nesting == nesting
      ensures ownName == None && ownDesc == None && subcommands == [] && log == []
      ensures outputFields == None && declaredOptions == [] && !validationBlock
      ensures (superclass == null || superclass.MemoClosed()) ==> MemoClosed()
    {
      this.className := className;
      this.ancestors := if superclass == null then [] else [superclass] + superclass.ancestors;
      this.nesting := nesting;
      ownName, ownDesc, subcommands, log := None, None, [], [];
      outputFields, declaredOptions, validationBlock := None, [], false;
      new;
      assert superclass != null ==> Chain()[1..] == superclass.Chain();
    }

    /** Each ancestor's own ancestors are the rest of the chain above it. */
    lemma {:induction false} AncestorsAbove()
      requires WellFormed()
      ensures forall i | 0 <= i < |ancestors| ::
                ancestors[i].ancestors == ancestors[i + 1..] && ancestors[i].WellFormed()
      ensures this !in ancestors
      decreases |ancestors|
    {
      if ancestors != [] {
        var parent := ancestors[0];
        parent.AncestorsAbove();
        forall i | 0 < i < |ancestors|
          ensures ancestors[i].ancestors == ancestors[i + 1..] && ancestors[i].WellFormed()
        {
          assert ancestors[i] == parent.ancestors[i - 1];
        }
      }
    }

    /** A class that has memoised its output definition has a memoised
        superclass: `output_definition` asks the superclass before it
        memoises. */
    ghost predicate MemoClosed()
      reads Lineage()`outputFields
    {
      forall i, j | 0 <= i < j < |Chain()| && Chain()[i].outputFields.Some? :: Chain()[j].outputFields.Some?
    }

    /** The superclass of a class whose chain is closed has a closed chain. */
    lemma MemoClosedAbove()
      requires WellFormed() && MemoClosed() && ancestors != []
      ensures ancestors[0].MemoClosed()
    {
      var parent := ancestors[0];
      assert parent.Chain() == Chain()[1..];
    }

    /** The output definition as `output_definition` would return it now. */
    function Definition(): seq<Field>
      reads Lineage()`outputFields
    {
      DefinitionIn(Chain())
    }

    /** `recognised_options`: the options declared on this class and on each
        of its ancestors. */
    function RecognisedOptions(): seq<OptionDef>
      reads Lineage()`declaredOptions
    {
      DeclaredIn(Chain())
    }

    /** `command_name(name = nil)`: set the name when one is given, then
        return the first name declared along the superclass chain. */
    method CommandName(name: Option<string>) returns (r: Option<string>)
      modifies this`ownName
      ensures ownName == if name.Some? then name else old(ownName)
      ensures r == NameIn(Chain())
    {
      if name.Some? {
        ownName := name;
      }
      r := NameIn(Chain());
    }

    /** `desc(desc = nil)`: set the description when one is given, then
        return this class's own description (it is not inherited). */
    method Desc(desc: Option<string>) returns (r: Option<string>)
      modifies this`ownDesc
      ensures ownDesc == if desc.Some? then desc else old(ownDesc)
      ensures r == ownDesc
    {
      if desc.Some? {
        ownDesc := desc;
      }
      r := ownDesc;
    }

    /** `remove_subcommand(name)`: `delete_if` over the registry, logging
        each entry it deletes. */
    method RemoveSubcommand(name: Option<string>)
      modifies this`subcommands, this`log
      ensures subcommands == Without(old(subcommands), name)
      ensures log == old(log) + RemovalLog(old(subcommands), name)
    {
      var all := subcommands;
      var kept: seq<Entry> := [];
      var i := 0;
      while i < |all|
        invariant 0 <= i <= |all|
        invariant kept == Without(all[..i], name)
        invariant log == old(log) + RemovalLog(all[..i], name)
      {
        var sc := all[i];
        if Matches(sc, name) {
          log := log + [SubcommandRemoved(name, sc.cls.className)];
        } else {
          kept := kept + [sc];
        }
        assert all[..i + 1][..i] == all[..i];
        i := i + 1;
      }
      assert all[..i] == all;
      subcommands := kept;
    }

    /** `subcommand(name, description, cls)`. */
    method Subcommand(name: Option<string>, description: Option<string>, cls: CommandClass) returns (r: Outcome<Error>)
      modifies this`subcommands
      ensures Registration(subcommands, r) == Register(old(subcommands), name, description, cls)
    {
      var existing := Find(subcommands, name);
      if existing.Some? {
        return Fail(CommandConflict(ConflictMessage(name, existing.value.cls.className, cls.className)));
      }
      subcommands := subcommands + [Entry(NamesOf(name), description, cls)];
      r := Pass;
    }

    /** `subcommand!(name, description, cls)`: remove, register, then log
        the creation. */
    method OverrideSubcommand(name: Option<string>, description: Option<string>, cls: CommandClass)
      modifies this`subcommands, this`log
      ensures subcommands == Without(old(subcommands), name) + [Entry(NamesOf(name), description, cls)]
      ensures log == old(log) + RemovalLog(old(subcommands), name) + [SubcommandCreated(name, cls.className)]
    {
      RemoveSubcommand(name);
      OverrideRegisters(old(subcommands), name, description, cls);
      var r := Subcommand(name, description, cls);
      log := log + [SubcommandCreated(name, cls.className)];
    }

    /** `autoload_subcommands`: register every nested command class under
        its `command_name` and `desc`. */
    method AutoloadSubcommands(nested: seq<Constant>) returns (r: Outcome<Error>)
      modifies this`subcommands
      ensures Registration(subcommands, r) == RegisterAll(old(subcommands), old(RequestsFor(CommandClasses(nested))))
    {
      var commands := CommandClasses(nested);
      ghost var requests := RequestsFor(commands);
      ghost var start := subcommands;
      var i := 0;
      r := Pass;
      assert requests[..0] == [];
      while i < |commands|
        invariant 0 <= i <= |commands|
        invariant requests == old(RequestsFor(commands))
        invariant r == Pass
        invariant Registration(subcommands, Pass) == RegisterAll(start, requests[..i])
      {
        var cls := commands[i];
        assert RequestOf(cls) == old(RequestOf(cls)) == requests[i];
        RegisterAllStep(start, requests, i);
        r := Subcommand(NameIn(cls.Chain()), cls.ownDesc, cls);
        if r.Fail? {
          RegisterAllStops(start, requests, i + 1);
          return;
        }
        i := i + 1;
      }
      assert requests[..i] == requests;
    }

    /** `validate_options(&block)` on the class: keep the block, or clear it
        when none is given. */
    method SetValidationBlock(present: bool)
      modifies this`validationBlock
      ensures validationBlock == present
    {
      validationBlock := present;
    }

    /** `option(switches, type, description, opts)`: build the definition,
        taking `:format` and `:context_target` out of `opts`, and append it
        to the declared options. */
    method DeclareOption(switches: seq<string>, typeName: string, description: string, attributeName: string,
                         format: Option<string>, contextTarget: Option<string>) returns (option: OptionDef)
      modifies this`declaredOptions
      ensures option == OptionDef(switches, typeName, description, attributeName, format, contextTarget)
      ensures declaredOptions == old(declaredOptions) + [option]
    {
      option := OptionDef(switches, typeName, description, attributeName, None, None);
      option := option.(formatter := format, contextTarget := contextTarget);
      declaredOptions := declaredOptions + [option];
    }

    /** `inherited_output_definition`: a copy of the superclass's output
        definition, or none when there is no superclass to ask. */
    method InheritedOutputDefinition() returns (od: Option<seq<Field>>)
      requires WellFormed() && MemoClosed()
      modifies (set c | c in ancestors)`outputFields
      decreases |ancestors|, 0
      ensures od == if ancestors == [] then None else Some(old(DefinitionIn(ancestors)))
      ensures forall c | c in ancestors :: c.outputFields == Some(old(c.Definition()))
      ensures forall c | c in ancestors :: c.Definition() == old(c.Definition())
    {
      od := None;
      if ancestors != [] {
        var parent := ancestors[0];
        MemoClosedAbove();
        var fields := parent.OutputDefinition();
        od := Some(fields);
      }
    }

    /** `output_definition`: memoised; seeded on first access with the
        inherited definition, or an empty one. Afterwards every class of the
        chain has memoised what it answered before, so memoising never
        changes what any of them answers. */
    method OutputDefinition() returns (fields: seq<Field>)
      requires WellFormed() && MemoClosed()
      modifies Lineage()`outputFields
      decreases |ancestors|, 1
      ensures fields == old(Definition())
      ensures outputFields == Some(fields)
      ensures forall c | c in ancestors :: c.outputFields == Some(old(c.Definition()))
      ensures MemoClosed()
      ensures old(outputFields).None? ==> fields == if ancestors == [] then [] else old(ancestors[0].Definition())
      ensures forall c | c in ancestors :: c.Definition() == old(c.Definition())
      ensures old(outputFields).Some? ==> unchanged(Lineage())
    {
      if outputFields.None? {
        assert Chain()[1..] == ancestors;
        assert Definition() == DefinitionIn(ancestors);
        assert ancestors != [] ==> ancestors[0].Chain() == ancestors;
        var inherited := InheritedOutputDefinition();
        AncestorsExcludeSelf();
        outputFields := Some(inherited.GetOr([]));
      } else {
        MemoisedDefinitions();
      }
      fields := outputFields.value;
    }

    /** A class whose chain is closed and that has memoised its definition
        answers with its memo, and so does every class above it. */
    lemma MemoisedDefinitions()
      requires WellFormed() && MemoClosed() && outputFields.Some?
      ensures forall c | c in ancestors :: c.outputFields.Some? && c.Definition() == c.outputFields.value
    {
      forall c | c in ancestors
        ensures c.outputFields.Some? && c.Definition() == c.outputFields.value
      {
        var j :| 0 <= j < |ancestors| && ancestors[j] == c;
        assert Chain()[0] == this && Chain()[j + 1] == c;
      }
    }

    /** No class above this one has this one above it. */
    lemma AncestorsExcludeSelf()
      requires WellFormed()
      ensures forall c | c in ancestors :: this !in c.Lineage()
    {
      AncestorsAbove();
      forall c | c in ancestors
        ensures this !in c.Lineage()
      {
        var i :| 0 <= i < |ancestors| && ancestors[i] == c;
        assert c.Chain() == ancestors[i..];
      }
    }

    /** `output_definition.append(fields)`: memoise the definition if need
        be, then extend this class's copy. */
    method AppendOutputFields(extra: seq<Field>)
      requires WellFormed() && MemoClosed()
      modifies Lineage()`outputFields
      ensures Definition() == old(Definition()) + extra
      ensures outputFields.Some?
      ensures forall c | c in ancestors :: c.outputFields == Some(old(c.Definition()))
      ensures forall c | c in ancestors :: c.Definition() == old(c.Definition())
      ensures MemoClosed()
    {
      var current := OutputDefinition();
      AncestorsExcludeSelf();
      outputFields := Some(current + extra);
    }

    /** `output(definition = nil, &block)`: append the given definition's
        fields, then the fields the DSL block declares, to this class's
        output definition; no de-duplication. */
    method Output(definition: Option<seq<Field>>, dslFields: seq<Field>)
      requires WellFormed() && MemoClosed()
      modifies Lineage()`outputFields
      ensures Definition() == old(Definition()) + definition.GetOr([]) + dslFields
      ensures outputFields.Some?
      ensures forall c | c in ancestors :: c.outputFields == Some(old(c.Definition()))
      ensures forall c | c in ancestors :: c.Definition() == old(c.Definition())
      ensures MemoClosed()
    {
      if definition.Some? {
        AppendOutputFields(definition.value);
      }
      AppendOutputFields(dslFields);
    }
  }

  // ---------------------------------------------------------------------
  // The invocation: context, parse, run
  // ---------------------------------------------------------------------

  /** The shared invocation context: the `:path` of command instances and
      the values written under options' context targets. */
  class Context {
    var path: seq<Command>
    var targets: map<string, Value>

    constructor ()
      ensures path == [] && targets == map[]
    {
      path, targets := [], map[];
    }
  }

  /** What the binding of arguments by the option parser, or `execute`,
      came to. */
  datatype Execution = Returned(value: Value) | Raised(error: Error)

  /** How `run` ends: with an exit code, with the exit code the resolved
      exception handler gives for an error, or by letting an exception that
      is not a `StandardError` escape. */
  datatype ExitStatus = Exited(code: int) | Handled(handler: HandlerClass, error: Error) | Escaped(error: Error)

  /** `HammerCLI::EX_OK`, what the default `execute` returns. */
  const ExitOk: int := 0

  /** The error `run` raises when `execute` returns no Integer. */
  const NotAnInteger: Error := RuntimeError("exit code must be integer")

  /** The conversion step of an option writer; no block keeps the value. */
  function Convert(conversion: Option<Value -> Converted<Error>>, value: Value): Converted<Error> {
    match conversion
    case None => Converted(value)
    case Some(block) => block(value)
  }

  /** `parse`'s `rescue ValidationError => e; signal_usage_error e.message`. */
  function Rescued(e: Error): Error {
    if e.ValidationError? then UsageError(e.message) else e
  }

  /** Whether `parse` raises, given how the option parser's binding and the
      class's validation block went. */
  function ParseOutcome(bound: Outcome<Error>, validates: bool, validation: Outcome<Error>): Outcome<Error> {
    if bound.Fail? then Fail(Rescued(bound.error))
    else if validates && validation.Fail? then Fail(Rescued(validation.error))
    else Pass
  }

  /** `run`'s `rescue => e; handle_exception e`: a `StandardError` goes to
      the handler, anything else escapes. */
  function Rescue(e: Error, handler: HandlerClass): ExitStatus {
    if IsStandardError(e) then Handled(handler, e) else Escaped(e)
  }

  /** How `run` ends, given how `parse` went and what `execute` did. */
  function RunOutcome(parsed: Outcome<Error>, executed: Execution, handler: HandlerClass): ExitStatus {
    if parsed.Fail? then Rescue(parsed.error, handler)
    else match executed
      case Raised(e) => Rescue(e, handler)
      case Returned(Int(code)) => Exited(code)
      case Returned(_) => Rescue(NotAnInteger, handler)
  }

  /** `run` exits with a code only when `parse` passed and `execute`
      returned an Integer, and then with that Integer; a non-Integer result
      is turned into the "exit code must be integer" error, which the same
      method's `rescue` hands to the exception handler. */
  lemma RunExitCodes(parsed: Outcome<Error>, executed: Execution, handler: HandlerClass)
    ensures RunOutcome(parsed, executed, handler).Exited? <==>
              parsed.Pass? && executed.Returned? && executed.value.Int?
    ensures RunOutcome(parsed, executed, handler).Exited? ==>
              RunOutcome(parsed, executed, handler).code == executed.value.i
    ensures parsed.Pass? && executed.Returned? && !executed.value.Int? ==>
              RunOutcome(parsed, executed, handler) == Handled(handler, NotAnInteger)
  {
  }

  /** A validation failure in `parse` becomes a usage error carrying the
      validation message, and `run` hands it to the exception handler rather
      than exiting with a code of its own. */
  lemma ValidationFailureIsUsageError(bound: Outcome<Error>, message: string, executed: Execution, handler: HandlerClass)
    requires bound.Pass?
    ensures ParseOutcome(bound, true, Fail(ValidationError(message))) == Fail(UsageError(message))
    ensures RunOutcome(ParseOutcome(bound, true, Fail(ValidationError(message))), executed, handler) ==
              Handled(handler, UsageError(message))
  {
  }

  /** A command that keeps the default `execute` exits with
      `HammerCLI::EX_OK` once `parse` has passed. */
  lemma DefaultExecuteExitsOk(parsed: Outcome<Error>, handler: HandlerClass)
    requires parsed.Pass?
    ensures RunOutcome(parsed, Returned(Int(ExitOk)), handler) == Exited(0)
  {
  }

  /** A command instance. */
  class Command {
    const cls: CommandClass
    const context: Context
    /** The option attributes' instance variables, by attribute name. */
    var stored: map<string, Value>

    /** `initialize`: every instance appends itself to the context's path. */
    constructor (cls: CommandClass, context: Context)
      modifies context`path
      ensures this.cls == cls && this.context == context && stored == map[]
      ensures context.path == old(context.path) + [this]
      ensures old(context.path) != [] ==> ParentCommand() == Some(old(context.path)[|old(context.path)| - 1])
      ensures old(context.path) == [] ==> ParentCommand() == None
    {
      this.cls := cls;
      this.context := context;
      stored := map[];
      new;
      context.path := context.path + [this];
    }

    /** `parent_command`: `context[:path][-2]`, `nil` when the path is
        shorter than two. */
    function ParentCommand(): (r: Option<Command>)
      reads context`path
      ensures r.Some? <==> |context.path| >= 2
      ensures r.Some? ==>
                context.path == context.path[..|context.path| - 2] + [r.value, context.path[|context.path| - 1]]
    {
      var path := context.path;
      if |path| >= 2 then Some(path[|path| - 2]) else None
    }

    /** The options snapshot `parse` logs. */
    function AuditEntry(): LogEntry
      reads this`stored, cls.Lineage()`declaredOptions
    {
      CalledWith(Masked(Options(AllOptions(cls.RecognisedOptions(), stored))))
    }

    /** The writer `define_simple_writer_for` defines: convert the value,
        copy it into the context under the option's context target if it has
        one, then store it. A conversion that raises stores nothing. */
    method WriteOption(option: OptionDef, conversion: Option<Value -> Converted<Error>>, value: Value)
      returns (r: Outcome<Error>)
      modifies this`stored, context`targets
      ensures Convert(conversion, value).Rejected? ==>
                r == Fail(Convert(conversion, value).error) &&
                stored == old(stored) && context.targets == old(context.targets)
      ensures Convert(conversion, value).Converted? ==>
                var v := Convert(conversion, value).value;
                r == Pass &&
                stored == old(stored)[option.attributeName := v] &&
                context.targets == (if option.contextTarget.Some?
                                    then old(context.targets)[option.contextTarget.value := v]
                                    else old(context.targets))
    {
      var converted := Convert(conversion, value);
      if converted.Rejected? {
        return Fail(converted.error);
      }
      var v := converted.value;
      if option.contextTarget.Some? {
        context.targets := context.targets[option.contextTarget.value := v];
      }
      stored := stored[option.attributeName := v];
      r := Pass;
    }

    /** `parse`: after the option parser's binding and the class's
        validation block, log the options with passwords masked. */
    method Parse(bound: Outcome<Error>, validation: Outcome<Error>) returns (r: Outcome<Error>)
      modifies cls`log
      ensures r == ParseOutcome(bound, cls.validationBlock, validation)
      ensures cls.log == old(cls.log) + if r.Pass? then [old(AuditEntry())] else []
    {
      if bound.Fail? {
        return Fail(Rescued(bound.error));
      }
      if cls.validationBlock && validation.Fail? {
        return Fail(Rescued(validation.error));
      }
      var all := AllOptions(cls.RecognisedOptions(), stored);
      var safe := MaskPasswords(Options(all));
      cls.log := cls.log + [CalledWith(safe)];
      r := Pass;
    }

    /** `run`: parse, execute, insist on an Integer exit code, and hand every
        `StandardError` to the handler resolved along the nesting chain. */
    method Run(bound: Outcome<Error>, validation: Outcome<Error>, executed: Execution) returns (status: ExitStatus)
      modifies cls`log
      ensures status == RunOutcome(ParseOutcome(bound, cls.validationBlock, validation), executed, Nearest(cls.nesting))
      ensures cls.log == old(cls.log) +
                if ParseOutcome(bound, cls.validationBlock, validation).Pass? then [old(AuditEntry())] else []
    {
      var parsed := Parse(bound, validation);
      var failure: Option<Error> := None;
      if parsed.Fail? {
        failure := Some(parsed.error);
      } else {
        match executed
        case Raised(e) =>
          failure := Some(e);
        case Returned(v) =>
          if v.Int? {
            return Exited(v.i);
          }
          failure := Some(NotAnInteger);
      }
      var e := failure.value;
      if !IsStandardError(e) {
        return Escaped(e);
      }
      var handler := ExceptionHandlerClass(cls.nesting);
      status := Handled(handler, e);
    }
  }
}
