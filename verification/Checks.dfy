/** The rows every check reports (include/types.h). */
module Checks {
  import opened CText

  const DETAIL_MAX: nat := 256

  datatype State = OK | WARN | FAIL | SKIP

  datatype SkipReason =
    | NONE | TOOL_ABSENT | FEATURE_ABSENT | EXEC_FAILED | PROBE_INDETERMINATE | REPORT_FIELD_ABSENT
    | OUTPUT_UNPARSEABLE | NOT_CONFIGURED | SUBJECT_ABSENT | HW_ABSENT | VENDOR_SCOPE

  /** `check_result_t`. */
  datatype CheckResult = CheckResult(
    name: string, state: State, reason: SkipReason, detail: string, requiresRoot: bool, actionable: bool)

  /** `make_result`: the detail is cut to the buffer of a row. */
  function MakeResult(name: string, state: State, detail: string): (r: CheckResult)
    ensures |r.detail| < DETAIL_MAX && (|detail| < DETAIL_MAX ==> r.detail == detail)
  {
    CheckResult(name, state, NONE, Stored(detail, DETAIL_MAX), false, false)
  }

  function MakeSkip(name: string, reason: SkipReason, detail: string): (r: CheckResult)
    ensures |r.detail| < DETAIL_MAX && (|detail| < DETAIL_MAX ==> r.detail == detail)
  {
    MakeResult(name, SKIP, detail).(reason := reason)
  }

  /** `bythos_pl`. */
  function Plural(n: nat, one: string, many: string): (s: string) {
    if n == 1 then one else many
  }
}
