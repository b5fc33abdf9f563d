/**
 What successive calls of `append_to_state` build. The agents of the workflow
 are instructed to call the tool again and again (the research agents for
 their evidence fields, the judge for its feedback, the entry agent for the
 subject); a run of calls is a sequence of field/response pairs applied one
 after another.
 */
module RepeatedAppends {
  import opened SessionState

  /** One call of the tool. */
  datatype Call = Call(field: string, response: string)

  /** The state after the calls, made one after another in sequence order. */
  function Run(state: State, calls: seq<Call>): State
    decreases |calls|
  {
    if calls == [] then state
    else Run(Appended(state, calls[0].field, calls[0].response), calls[1..])
  }

  /** The responses of the calls that go to `field`, in call order. */
  function ResponsesTo(calls: seq<Call>, field: string): seq<string>
    decreases |calls|
  {
    if calls == [] then []
    else (if calls[0].field == field then [calls[0].response] else []) + ResponsesTo(calls[1..], field)
  }

  /** N calls to one field, with the given responses in this order. */
  function Repeated(field: string, responses: seq<string>): seq<Call>
  {
    seq(|responses|, i requires 0 <= i < |responses| => Call(field, responses[i]))
  }

  /** One call changes only the field it names, by appending its response. */
  lemma AppendedAt(state: State, c: Call, field: string)
    ensures field in Appended(state, c.field, c.response) <==> field in state || c.field == field
    ensures c.field != field && field in state ==> Appended(state, c.field, c.response)[field] == state[field]
    ensures Existing(Appended(state, c.field, c.response), field)
         == Existing(state, field) + (if c.field == field then [c.response] else [])
  {
  }

  /** After any run of calls, each field holds its earlier contents followed
      by exactly the responses sent to it, in call order. */
  lemma {:induction false} RunExisting(state: State, calls: seq<Call>, field: string)
    ensures Existing(Run(state, calls), field) == Existing(state, field) + ResponsesTo(calls, field)
    decreases |calls|
  {
    if calls != [] {
      var c := calls[0];
      var next := Appended(state, c.field, c.response);
      AppendedAt(state, c, field);
      RunExisting(next, calls[1..], field);
      assert ResponsesTo(calls, field)
          == (if c.field == field then [c.response] else []) + ResponsesTo(calls[1..], field);
    }
  }

  /** A field no call went to is untouched by a run of calls; one that some
      call went to is present afterwards and holds a list. */
  lemma {:induction false} RunShape(state: State, calls: seq<Call>, field: string)
    ensures field in Run(state, calls) <==> field in state || ResponsesTo(calls, field) != []
    ensures ResponsesTo(calls, field) == [] && field in state ==> Run(state, calls)[field] == state[field]
    ensures ResponsesTo(calls, field) != [] ==> Run(state, calls)[field].Lst?
    decreases |calls|
  {
    if calls != [] {
      var c := calls[0];
      var next := Appended(state, c.field, c.response);
      AppendedAt(state, c, field);
      RunShape(next, calls[1..], field);
      assert ResponsesTo(calls, field)
          == (if c.field == field then [c.response] else []) + ResponsesTo(calls[1..], field);
    }
  }

  /** The whole effect of a run of calls on one field. */
  lemma RunAt(state: State, calls: seq<Call>, field: string)
    ensures field in Run(state, calls) <==> field in state || ResponsesTo(calls, field) != []
    ensures ResponsesTo(calls, field) == [] && field in state ==> Run(state, calls)[field] == state[field]
    ensures ResponsesTo(calls, field) != [] ==>
      Run(state, calls)[field] == Lst(Existing(state, field) + ResponsesTo(calls, field))
    ensures Existing(Run(state, calls), field) == Existing(state, field) + ResponsesTo(calls, field)
  {
    RunExisting(state, calls, field);
    RunShape(state, calls, field);
  }

  /** N calls to one field send exactly their N responses to it, in order,
      and nothing to any other field. */
  lemma {:induction false} ResponsesToRepeated(field: string, responses: seq<string>, other: string)
    ensures ResponsesTo(Repeated(field, responses), other) == if other == field then responses else []
    decreases |responses|
  {
    if responses != [] {
      assert Repeated(field, responses)[1..] == Repeated(field, responses[1..]);
      ResponsesToRepeated(field, responses[1..], other);
    }
  }

  /** N appends to a field that starts absent create it on the first call and
      leave it holding exactly the N responses in call order; no other field
      is added, removed or changed. */
  lemma {:induction false} AppendsFromAbsent(state: State, field: string, responses: seq<string>)
    requires field !in state
    ensures field in Run(state, Repeated(field, responses)) <==> responses != []
    ensures responses != [] ==> Run(state, Repeated(field, responses))[field] == Lst(responses)
    ensures Run(state, Repeated(field, responses)).Keys - {field} == state.Keys
    ensures forall k :: k in state && k != field ==> Run(state, Repeated(field, responses))[k] == state[k]
  {
    var after := Run(state, Repeated(field, responses));
    ResponsesToRepeated(field, responses, field);
    RunAt(state, Repeated(field, responses), field);
    forall k | k != field
      ensures k in after <==> k in state
      ensures k in state ==> after[k] == state[k]
    {
      ResponsesToRepeated(field, responses, k);
      RunAt(state, Repeated(field, responses), k);
    }
  }

  /** N >= 1 appends to a field holding the bare string `x` leave it holding
      `x` followed by the N responses in call order; with N = 0 it still holds
      the bare string. */
  lemma {:induction false} AppendsFromString(state: State, field: string, x: string, responses: seq<string>)
    requires field in state && state[field] == Str(x)
    ensures field in Run(state, Repeated(field, responses))
    ensures Run(state, Repeated(field, responses))[field]
         == if responses == [] then Str(x) else Lst([x] + responses)
  {
    ResponsesToRepeated(field, responses, field);
    RunAt(state, Repeated(field, responses), field);
  }

  /** N appends to a field holding the list `xs` leave it holding `xs`
      followed by the N responses in call order. */
  lemma {:induction false} AppendsFromList(state: State, field: string, xs: seq<string>, responses: seq<string>)
    requires field in state && state[field] == Lst(xs)
    ensures field in Run(state, Repeated(field, responses))
    ensures Run(state, Repeated(field, responses))[field] == Lst(xs + responses)
  {
    ResponsesToRepeated(field, responses, field);
    RunAt(state, Repeated(field, responses), field);
    assert responses == [] ==> xs + responses == xs;
  }

  /** Two runs that send each field the same responses in the same order end
      in the same state, however the calls to different fields are
      interleaved (as the two research agents' calls to `pos_data` and
      `neg_data` may be). */
  lemma {:induction false} InterleavingsAgree(state: State, a: seq<Call>, b: seq<Call>)
    requires forall f :: ResponsesTo(a, f) == ResponsesTo(b, f)
    ensures Run(state, a) == Run(state, b)
  {
    forall f
      ensures f in Run(state, a) <==> f in Run(state, b)
      ensures f in Run(state, a) ==> Run(state, a)[f] == Run(state, b)[f]
    {
      RunAt(state, a, f);
      RunAt(state, b, f);
    }
    assert Run(state, a).Keys == Run(state, b).Keys;
  }

  /** Calls to two different fields commute. */
  lemma DistinctFieldsCommute(state: State, f1: string, r1: string, f2: string, r2: string)
    requires f1 != f2
    ensures Appended(Appended(state, f1, r1), f2, r2) == Appended(Appended(state, f2, r2), f1, r1)
  {
    var x := Appended(Appended(state, f1, r1), f2, r2);
    var y := Appended(Appended(state, f2, r2), f1, r1);
    assert x.Keys == y.Keys;
    forall k | k in x
      ensures x[k] == y[k]
    {
      AppendedAt(state, Call(f1, r1), k);
      AppendedAt(state, Call(f2, r2), k);
    }
  }
}
