/** `frontier.config.yaml` as the modelled code finds it: absent, or parsed
    into a value whose `entrypoints` may or may not be an array. YAML parsing
    itself is not modelled. */
module FrontierConfig {
  import opened Wrappers

  /** One element of the `entrypoints` array: a string or anything else. */
  datatype ConfigValue = Str(s: string) | NonString

  /** The configuration file: missing, or parsed with its `name` (`None`
      when absent or `null`, a string or any other value otherwise) and its
      `entrypoints` (when an array). A file that parses to `null` or to a
      scalar is `Parsed(None, None)`. */
  datatype ConfigFile =
    | Missing
    | Parsed(name: Option<ConfigValue>, entrypoints: Option<seq<ConfigValue>>)

  /** Every entrypoint is a string. */
  predicate AllStrings(es: seq<ConfigValue>) {
    forall k :: 0 <= k < |es| ==> es[k].Str?
  }
}
