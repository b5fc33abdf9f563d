# Session-state appends of the Historical Court workflow

The workflow in `workflow_agents/agent.py` wires LLM agents into a pipeline:
an entry agent records the subject, two research agents (the Admirer and the
Critic) gather evidence in parallel, a judge agent either writes feedback or
ends the loop, and a clerk writes the verdict to a file. The agents pass data
to each other through the session state. Every write to that state goes
through one tool, `append_to_state`, and that tool is the only original logic
in the repository. This project models that tool and proves what one call and
any run of calls do to the state.

- `session_state.dfy`, module `SessionState`:
  - a state value is a bare string or a list of strings (`Value`);
  - the session state is a map from field name to value;
  - `Existing` is the list the tool extends. A missing field reads as `[]` and a bare string `x` reads as `[x]`;
  - `Appended` is the state after one call;
  - `ToolContext` is a class whose `state` field the tool updates in place;
  - the method `AppendToState` follows the source step by step and returns the fixed record `{"status": "success"}`.
- `repeated_appends.dfy`, module `RepeatedAppends`:
  - a run of calls is a sequence of field/response pairs applied in order (`Run`);
  - the lemmas show that each field ends up holding its earlier contents followed by exactly the responses sent to it, in call order;
  - corollaries cover a single field that starts absent, starts as a string, or starts as a list;
  - the final state does not depend on how calls to different fields are interleaved.

Each field is shaped by what the code does. The code writes `pos_data`
(agent.py:80), `neg_data` (agent.py:101), `judge_feedback` (agent.py:133) and
`PROMPT` (agent.py:192) all through `append_to_state`. The names might suggest
that `PROMPT` is set once and `judge_feedback` is overwritten each round, but
both build up as lists, just like the two evidence fields: a second feedback
call keeps the first feedback and appends the new one (`RunAt`,
`AppendsFromList`).

## Model

| member | source | states |
|---|---|---|
| `SessionState.Appended` | workflow_agents/agent.py:34-39 | Only `field` is written: the key set grows by at most `field`, and every other key keeps its value. Afterwards `field` always holds a list. An absent field ends up as `[response]`. A bare string `x` ends up as `[x, response]`. A list `L` ends up as `L + [response]`. The list is one longer than before, starts with the earlier contents in order, and ends with `response`. |
| `SessionState.AppendToState` | workflow_agents/agent.py:30-41 | The tool, written imperatively on the tool context. The new state is exactly `Appended` of the old state, so all of the above holds for the object. The result is always `{"status": "success"}`, and there is no failure path. |
| `RepeatedAppends.AppendedAt` | workflow_agents/agent.py:34-39 | One call, seen from any field `g`. `g` is present afterwards iff it was before or the call named it. A field the call did not name keeps its value. The list read from `g` gains the response exactly when the call named `g`. |
| `RepeatedAppends.RunExisting` | workflow_agents/agent.py:34-39 | After any run of calls, the list read from each field is its earlier list followed by the responses sent to that field, in call order. Nothing is dropped or reordered. |
| `RepeatedAppends.RunShape` | workflow_agents/agent.py:34-39 | After any run of calls, a field is present iff it was before or some call went to it. A field no call went to keeps its value, even a bare string. A field some call went to holds a list. |
| `RepeatedAppends.RunAt` | workflow_agents/agent.py:34-39 | Combines the two lemmas above: the whole effect of a run on one field. Untouched fields keep their value. A field that received responses holds `Lst(earlier list + its responses in call order)`. |
| `RepeatedAppends.ResponsesToRepeated` | workflow_agents/agent.py:39 | N calls to one field deliver exactly their N responses, in order, to that field and nothing to any other field. |
| `RepeatedAppends.AppendsFromAbsent` | workflow_agents/agent.py:34-39 | N appends to a field that starts absent. The field exists afterwards iff N >= 1, and then it holds exactly the N responses in call order. No other key is added, removed or changed. |
| `RepeatedAppends.AppendsFromString` | workflow_agents/agent.py:36-39 | N >= 1 appends to a field holding the bare string `x` leave `[x]` followed by the N responses in call order. With N = 0 the field still holds the bare string. |
| `RepeatedAppends.AppendsFromList` | workflow_agents/agent.py:39 | N appends to a field holding the list `L` leave `L` followed by the N responses in call order. |
| `RepeatedAppends.InterleavingsAgree` | workflow_agents/agent.py:39 | Take two runs that send every field the same responses in the same order. They end in the same state, however calls to different fields are interleaved. This means the parallel Admirer and Critic, which write `pos_data` and `neg_data`, cannot interfere through this tool. |
| `RepeatedAppends.DistinctFieldsCommute` | workflow_agents/agent.py:39 | Two calls to different fields give the same state in either order. |

## Left out

- `write_file` (agent.py:43-54): its only behaviour is filesystem I/O (joining the path, creating the directory, truncating and writing the file), which the operating system carries out.
- The Wikipedia tool (agent.py:57): it wraps an external API.
- Logging and cloud log setup (agent.py:18-19, 40), loading `.env` and the model name (agent.py:21-24), and the model-name `print` (agent.py:24): these are I/O with no effect on the state.
- The agent definitions (agent.py:66-205): prompt text and configuration of the orchestration framework. Two examples are the loop ceiling `max_iterations=4` (agent.py:149) and the `exit_loop` tool. Their meaning lives in the framework's loop, parallel and sequential agents. That code is not part of this model, so no loop bound is modelled. Which field an agent writes is a prompt instruction, not code. The model therefore covers any sequence of calls to any fields.
- Concurrency of the parallel research agents: the dispatch belongs to the framework. The model treats their calls as some interleaving of single calls. `InterleavingsAgree` shows that the interleaving does not change the result.
- Values that are neither a string nor a list, such as numbers, dicts, tuples or `None`: no caller stores them, and for them `existing_state + [response]` raises a `TypeError` in Python, so `Value` does not include them.
- Lists with non-string elements, such as `[1, 2]`: the source appends `response` to them exactly as to a list of strings, but `Value` holds only strings, since every value this workflow stores is text.
- The framework's `State` object behind `tool_context.state`, with its pending-delta bookkeeping: it is treated as a plain mapping that the tool reads and assigns.
