/** Option values of a command instance: `all_options`, `options` and the
    password masking that `parse` applies to the snapshot it logs. */
module OptionValues {
  import opened Wrappers

  /** A Ruby value an option attribute can hold; `Nil` is Ruby `nil`. */
  datatype Value = Nil | Str(s: string) | Int(i: int) | Bool(b: bool)

  /** The string that replaces a password in the logged snapshot. */
  const Mask: Value := Str("***")

  /** The suffix that marks an attribute name as a password. */
  const PasswordSuffix: string := "password"

  /** One declared option: its switches, type, description, the attribute
      name its accessors use, the `:format` formatter and the
      `:context_target` key taken out of the declaration's options. */
  datatype OptionDef = OptionDef(
    switches: seq<string>,
    typeName: string,
    description: string,
    attributeName: string,
    formatter: Option<string>,
    contextTarget: Option<string>)

  /** What an option's conversion block makes of a written value. */
  datatype Converted<+E> = Converted(value: Value) | Rejected(error: E)

  /** Ruby's `String#end_with?`. */
  predicate EndsWith(s: string, suffix: string) {
    |suffix| <= |s| && s[|s| - |suffix|..] == suffix
  }

  /** The attribute names of a list of option definitions. */
  function AttributeNames(recognised: seq<OptionDef>): set<string> {
    set o | o in recognised :: o.attributeName
  }

  /** The option reader: the stored value of an attribute, `nil` when it was
      never written. */
  function Read(stored: map<string, Value>, attribute: string): Value {
    if attribute in stored then stored[attribute] else Nil
  }

  /** `all_options`: a hash built by folding over the recognised options,
      mapping each attribute name to what its reader returns, `nil`
      included. A later option with the same attribute name overwrites the
      earlier key, which holds the same value since the reader depends on the
      name alone. */
  function AllOptions(recognised: seq<OptionDef>, stored: map<string, Value>): (h: map<string, Value>)
    ensures h.Keys == AttributeNames(recognised)
    ensures forall k | k in h :: h[k] == Read(stored, k)
  {
    if recognised == [] then map[]
    else
      var last := recognised[|recognised| - 1];
      var prefix := recognised[..|recognised| - 1];
      assert recognised == prefix + [last];
      AllOptions(prefix, stored)[last.attributeName := Read(stored, last.attributeName)]
  }

  /** `options`: `all_options` with the `nil`-valued entries rejected. */
  function Options(all: map<string, Value>): (h: map<string, Value>)
    ensures Nil !in h.Values
  {
    map k | k in all && all[k] != Nil :: all[k]
  }

  /** The logged snapshot of an options hash: every key ending in
      "password" maps to the mask, every other key to its own value. */
  function Masked(options: map<string, Value>): map<string, Value> {
    map k | k in options :: if EndsWith(k, PasswordSuffix) then Mask else options[k]
  }

  /** The masking loop of `parse`: duplicate the hash, then overwrite, key by
      key, each key ending in "password". */
  method MaskPasswords(options: map<string, Value>) returns (safe: map<string, Value>)
    ensures safe == Masked(options)
  {
    safe := options;
    var pending := options.Keys;
    while pending != {}
      invariant pending <= options.Keys
      invariant safe.Keys == options.Keys
      invariant forall k | k in safe && k !in pending :: safe[k] == Masked(options)[k]
      invariant forall k | k in safe && k in pending :: safe[k] == options[k]
      decreases pending
    {
      var k :| k in pending;
      if EndsWith(k, PasswordSuffix) {
        safe := safe[k := Mask];
      }
      pending := pending - {k};
    }
  }

  /** `options` keeps exactly the recognised attributes whose value is not
      `nil`, with their values, while `all_options` has a key for every
      recognised attribute. */
  lemma OptionsAreTheSetOnes(recognised: seq<OptionDef>, stored: map<string, Value>, k: string)
    ensures k in AllOptions(recognised, stored) <==> exists o | o in recognised :: o.attributeName == k
    ensures k in Options(AllOptions(recognised, stored))
        <==> (exists o | o in recognised :: o.attributeName == k) && Read(stored, k) != Nil
    ensures k in Options(AllOptions(recognised, stored)) ==> Options(AllOptions(recognised, stored))[k] == Read(stored, k)
  {
    var all := AllOptions(recognised, stored);
    if exists o | o in recognised :: o.attributeName == k {
      var o :| o in recognised && o.attributeName == k;
      assert k in AttributeNames(recognised);
    }
  }

  /** The snapshot hides a password completely: two option hashes that agree
      on every key except password keys give the same snapshot. */
  lemma MaskHidesPasswords(a: map<string, Value>, b: map<string, Value>)
    requires a.Keys == b.Keys
    requires forall k | k in a && !EndsWith(k, PasswordSuffix) :: a[k] == b[k]
    ensures Masked(a) == Masked(b)
  {
  }

  /** The snapshot shows the mask for each password key and the real value for
      every other key; it has exactly the keys of the options hash. */
  lemma MaskedShows(options: map<string, Value>, k: string)
    requires k in options
    ensures Masked(options).Keys == options.Keys
    ensures EndsWith(k, PasswordSuffix) ==> Masked(options)[k] == Mask
    ensures !EndsWith(k, PasswordSuffix) ==> Masked(options)[k] == options[k]
  {
  }
}
