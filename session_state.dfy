/**
 The shared session state of the workflow's agents and the one tool that
 writes it, `append_to_state` (workflow_agents/agent.py). The state maps a
 field name to a bare string or a list of strings; the tool reads the field,
 wraps a bare string into a one-element list, appends the new response and
 stores the list back, and always reports success.
 */
module SessionState {

  /** A value held under a field: a bare string or a list of strings. */
  datatype Value = Str(s: string) | Lst(xs: seq<string>)

  /** The session state: field name to value. */
  type State = map<string, Value>

  /** The list the tool extends: a missing field reads as the empty list,
      a bare string as the one-element list holding it. */
  function Existing(state: State, field: string): seq<string>
  {
    if field !in state then []
    else match state[field]
      case Str(s) => [s]
      case Lst(xs) => xs
  }

  /** The state after one call of the tool for `field` and `response`. */
  function Appended(state: State, field: string, response: string): (r: State)
    // only `field` is written: no key is removed, no other key is added or changed
    ensures r.Keys == state.Keys + {field}
    ensures forall k :: k in state && k != field ==> r[k] == state[k]
    // whatever the field held before, it holds a list afterwards
    ensures r[field].Lst?
    // the three shapes the field may have had
    ensures field !in state ==> r[field].xs == [response]
    ensures field in state && state[field].Str? ==> r[field].xs == [state[field].s, response]
    ensures field in state && state[field].Lst? ==> r[field].xs == state[field].xs + [response]
    // the list grows by one: the earlier contents, in order, then the response
    ensures |r[field].xs| == |Existing(state, field)| + 1
    ensures r[field].xs[..|Existing(state, field)|] == Existing(state, field)
    ensures r[field].xs[|Existing(state, field)|] == response
  {
    state[field := Lst(Existing(state, field) + [response])]
  }

  /** The record the tool returns on every call: {"status": "success"}. */
  const SuccessStatus: map<string, string> := map["status" := "success"]

  /** The part of the framework's tool context that the tool uses: the
      session state, which it updates in place. */
  class ToolContext {
    var state: State

    constructor (initial: State)
      ensures state == initial
    {
      state := initial;
    }
  }

  /** `append_to_state`: read the field (missing means empty list), wrap a
      bare string, store the old elements followed by `response` back under
      the field, and return the success record. There is no failure path. */
  method AppendToState(toolContext: ToolContext, field: string, response: string)
    returns (result: map<string, string>)
    modifies toolContext
    ensures toolContext.state == Appended(old(toolContext.state), field, response)
    ensures result == SuccessStatus && result["status"] == "success"
  {
    var existingState := if field in toolContext.state then toolContext.state[field] else Lst([]);
    if existingState.Str? {
      existingState := Lst([existingState.s]);
    }
    toolContext.state := toolContext.state[field := Lst(existingState.xs + [response])];
    result := SuccessStatus;
  }
}
