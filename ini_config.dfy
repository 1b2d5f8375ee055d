/**
 * The parsed form of an INI configuration, as `configparser.ConfigParser` holds it:
 * named sections, each a map from option name to string value.
 */
module IniConfig {
  import opened Wrappers

  type Section = map<string, string>

  type Config = map<string, Section>

  /** `configparser.NoSectionError` and `configparser.NoOptionError`. */
  datatype LookupError = NoSection(section: string) | NoOption(section: string, option: string)

  /** `conf.get(section, option)`: the stored string, or the error configparser raises. */
  function Get(conf: Config, section: string, option: string): (r: Result<string, LookupError>)
    ensures r.Success? <==> section in conf && option in conf[section]
    ensures r.Success? ==> r.value == conf[section][option]
    ensures r.Failure? ==> r.error == (if section in conf then NoOption(section, option) else NoSection(section))
  {
    if section !in conf then Failure(NoSection(section))
    else if option !in conf[section] then Failure(NoOption(section, option))
    else Success(conf[section][option])
  }

  /**
   * `conf.read(...)` on a parser already holding `base`: sections read from the file
   * are added to existing ones, an option read from the file replaces the same
   * option already held, and everything else is kept.
   */
  function Merge(base: Config, incoming: Config): (r: Config)
    ensures r.Keys == base.Keys + incoming.Keys
    ensures forall s, o :: s in incoming && o in incoming[s] ==> s in r && o in r[s] && r[s][o] == incoming[s][o]
    ensures forall s, o :: s in base && o in base[s] && !(s in incoming && o in incoming[s]) ==>
              s in r && o in r[s] && r[s][o] == base[s][o]
    ensures forall s, o :: s in r && o in r[s] ==> (s in base && o in base[s]) || (s in incoming && o in incoming[s])
  {
    map s | s in base.Keys + incoming.Keys ::
      if s in base && s in incoming then base[s] + incoming[s]
      else if s in incoming then incoming[s]
      else base[s]
  }

  /** Reading into a fresh, empty parser yields exactly what was read. */
  lemma MergeIntoEmpty(incoming: Config)
    ensures Merge(map[], incoming) == incoming
  {
  }
}
