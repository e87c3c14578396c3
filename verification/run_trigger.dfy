/** When the linter runs: on every save, while typing, or never. */
module RunTriggers {
  datatype RunTrigger = OnSave | OnType | Never

  /** The setting value that names each trigger. */
  function Name(t: RunTrigger): string {
    match t
    case OnSave => "onSave"
    case OnType => "onType"
    case Never => "never"
  }

  /** `RunTrigger.from`: the trigger a setting value selects; a value that
      names neither `onSave` nor `onType` switches the linter off. */
  function From(value: string): (t: RunTrigger)
    ensures t == OnSave <==> value == "onSave"
    ensures t == OnType <==> value == "onType"
    ensures t == Never <==> value != "onSave" && value != "onType"
  {
    if value == "onSave" then OnSave
    else if value == "onType" then OnType
    else Never
  }

  /** Each trigger's own name selects it, so the names are pairwise distinct. */
  lemma FromName(t: RunTrigger)
    ensures From(Name(t)) == t
  {
  }

  /** A setting value selects a trigger other than `Never` exactly when it
      is that trigger's name. */
  lemma NameSelects(value: string, t: RunTrigger)
    requires t != Never
    ensures From(value) == t <==> value == Name(t)
  {
    FromName(t);
  }
}
