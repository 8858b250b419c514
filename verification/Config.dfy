/** The part of the configuration the rules engine reads (internal/config/config.go). */
module Config {

  datatype ActionType = NoAction | Pass | BlockedDevice | BlockedSiteBan | BlockedTimeSpan | Unknown(code: int)

  datatype Rule = Rule(action: ActionType, timeSpan: string)

  datatype Host = Host(name: string, rules: seq<Rule>)

  datatype Domain = Domain(name: string, hosts: seq<Host>)

  datatype Config = Config(defaultRule: ActionType, onErrorRule: ActionType, hosts: seq<Host>, domains: seq<Domain>)
}
