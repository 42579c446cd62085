/** The config-change notification payload. */
module Notification {
  import opened Json
  import opened SettingModel
  import opened SettingsRules
  import opened Wrappers

  datatype ConfigChange =
    ConfigChange(service: string, op: string, tenant: string, key: string, value: Option<Value>, version: nat)

  function UpsertChange(service: string, s: SettingSnapshot): ConfigChange {
    ConfigChange(service, "upsert", s.ownership.tenant, s.key, Some(s.value), s.version)
  }

  function DeleteChange(service: string, tenant: string, key: string): ConfigChange {
    ConfigChange(service, "delete", tenant, key, None, 0)
  }

  /** What is emitted for a request that succeeded with `answer`. */
  function ChangeFor(service: string, op: Op, answer: Option<SettingSnapshot>): ConfigChange {
    match answer
    case Some(s) => UpsertChange(service, s)
    case None => DeleteChange(service, op.authority.tenant, op.key)
  }

  /** What was sent before and the notice of `outcome`, if it succeeded. */
  function Notified(service: string, before: seq<ConfigChange>, op: Op, outcome: Outcome): seq<ConfigChange> {
    if outcome.Success? then before + [ChangeFor(service, op, outcome.value)] else before
  }
}
