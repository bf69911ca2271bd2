/**
 Scenarios: the steps a test run takes.
 */
module Scenario {
  import opened Codec

  datatype ActionType = Connect | Send | Expect | Mock | Disconnect

  datatype ScenarioStep = ScenarioStep(action: ActionType, fields: seq<Field>)
}
