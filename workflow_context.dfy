/** The per-run state of one workflow execution seen during replay: the
    cancellation flag, the search attributes as they are upserted, and a few
    values derived from the workflow-started event. */
module WorkflowContexts {
  import opened Wrappers
  import opened Payloads

  /** A deserialised propagated context (a Java object). */
  type Context

  /** Search attributes: indexed field name to encoded value. */
  type SearchAttributes = map<string, Payload>

  /** The parts of the workflow-execution-started event that this state reads.
      `searchAttributes` is None when the event carries no search-attributes
      message at all (it may carry one with no indexed fields). */
  datatype StartedAttributes = StartedAttributes(
    searchAttributes: Option<SearchAttributes>,
    continuedExecutionRunId: string,
    header: map<string, Payload>)

  /** A context propagator: its name and its (foreign) deserialisation of the
      header fields. */
  datatype ContextPropagator = ContextPropagator(
    name: string,
    deserializeContext: map<string, Payload> -> Context)

  /** The search-attribute state after merging `incoming` into `current`: an
      absent or empty argument changes nothing; otherwise the state is created
      if it was absent and the incoming entries are put into it. */
  function Merged(current: Option<SearchAttributes>, incoming: Option<SearchAttributes>)
    : (r: Option<SearchAttributes>)
    ensures incoming.None? || |incoming.value| == 0 ==> r == current
    ensures incoming.Some? && |incoming.value| > 0 ==>
              && r.Some?
              && r.value.Keys == current.GetOr(map[]).Keys + incoming.value.Keys
              && (forall k :: k in incoming.value ==> r.value[k] == incoming.value[k])
              && (forall k :: k in current.GetOr(map[]) && k !in incoming.value ==>
                    r.value[k] == current.GetOr(map[])[k])
  {
    if incoming.None? || |incoming.value| == 0 then current
    else Some(current.GetOr(map[]) + incoming.value)
  }

  /** The search attributes a caller sees for a state: none while the state
      is absent or has no indexed fields, otherwise its contents. */
  function Visible(state: Option<SearchAttributes>): (r: Option<SearchAttributes>)
    ensures r.None? <==> state.None? || |state.value| == 0
    ensures r.Some? ==> r == state
  {
    if state.None? || |state.value| == 0 then None else state
  }

  /** After a non-empty merge the attributes are visible, whatever the state
      was before, and they include every merged entry. */
  lemma MergeMakesVisible(current: Option<SearchAttributes>, incoming: Option<SearchAttributes>)
    requires incoming.Some? && |incoming.value| > 0
    ensures Visible(Merged(current, incoming)).Some?
    ensures forall k :: k in incoming.value ==>
              k in Visible(Merged(current, incoming)).value
              && Visible(Merged(current, incoming)).value[k] == incoming.value[k]
  {
    var r := Merged(current, incoming).value;
    var k :| k in incoming.value;
    assert k in r.Keys;
    assert |r| > 0;
  }

  /** Merging the same attributes twice is the same as merging them once. */
  lemma MergeIdempotent(current: Option<SearchAttributes>, incoming: Option<SearchAttributes>)
    ensures Merged(Merged(current, incoming), incoming) == Merged(current, incoming)
  {
    if incoming.Some? && |incoming.value| > 0 {
      var once := Merged(current, incoming).value;
      assert once + incoming.value == once;
    }
  }

  /** The propagated contexts of `ps`: each propagator's name mapped to its
      deserialisation of `header`, a later propagator of the same name
      overwriting an earlier one. */
  function Propagated(ps: seq<ContextPropagator>, header: map<string, Payload>)
    : (m: map<string, Context>)
    ensures forall i :: 0 <= i < |ps| ==> ps[i].name in m
  {
    if ps == [] then map[]
    else
      var last := ps[|ps| - 1];
      Propagated(ps[..|ps| - 1], header)[last.name := last.deserializeContext(header)]
  }

  /** The names of the propagators. */
  function Names(ps: seq<ContextPropagator>): set<string>
  {
    set i | 0 <= i < |ps| :: ps[i].name
  }

  /** The propagated contexts are keyed by exactly the propagators' names. */
  lemma {:induction false} PropagatedKeys(ps: seq<ContextPropagator>, header: map<string, Payload>)
    ensures Propagated(ps, header).Keys == Names(ps)
  {
    if ps != [] {
      var front := ps[..|ps| - 1];
      PropagatedKeys(front, header);
      forall n | n in Names(ps) ensures n in Names(front) + {ps[|ps| - 1].name} {
        var i :| 0 <= i < |ps| && ps[i].name == n;
        if i < |ps| - 1 { assert front[i] == ps[i]; }
      }
      forall n | n in Names(front) ensures n in Names(ps) {
        var i :| 0 <= i < |front| && front[i].name == n;
        assert ps[i] == front[i];
      }
      assert Names(ps) == Names(front) + {ps[|ps| - 1].name};
    }
  }

  /** A propagator with no later propagator of the same name supplies the
      context stored under its name. */
  lemma {:induction false} PropagatedLastWins(ps: seq<ContextPropagator>, header: map<string, Payload>,
                                              i: int)
    requires 0 <= i < |ps|
    requires forall j :: i < j < |ps| ==> ps[j].name != ps[i].name
    ensures Propagated(ps, header)[ps[i].name] == ps[i].deserializeContext(header)
  {
    if i < |ps| - 1 {
      var front := ps[..|ps| - 1];
      assert front[i] == ps[i];
      forall j | i < j < |front| ensures front[j].name != front[i].name {
        assert front[j] == ps[j];
      }
      PropagatedLastWins(front, header, i);
    }
  }

  class WorkflowContext {
    const namespace: string
    const startedAttributes: StartedAttributes
    const runStartedTimestampMillis: int
    /** The configured propagators; None stands for a null list. */
    const contextPropagators: Option<seq<ContextPropagator>>

    var cancelRequested: bool
    /** The search-attribute builder; None while it has not been created. */
    var searchAttributes: Option<SearchAttributes>

    /** The search-attribute state starts as the started event's attributes
        when the event carries any, and absent otherwise. */
    constructor (namespace: string, startedAttributes: StartedAttributes,
                 runStartedTimestampMillis: int, contextPropagators: Option<seq<ContextPropagator>>)
      ensures this.namespace == namespace
      ensures this.startedAttributes == startedAttributes
      ensures this.runStartedTimestampMillis == runStartedTimestampMillis
      ensures this.contextPropagators == contextPropagators
      ensures !cancelRequested
      ensures searchAttributes == startedAttributes.searchAttributes
    {
      this.namespace := namespace;
      this.startedAttributes := startedAttributes;
      if startedAttributes.searchAttributes.Some? {
        this.searchAttributes := startedAttributes.searchAttributes;
      } else {
        this.searchAttributes := None;
      }
      this.runStartedTimestampMillis := runStartedTimestampMillis;
      this.contextPropagators := contextPropagators;
      this.cancelRequested := false;
    }

    function IsCancelRequested(): bool
      reads this
    {
      cancelRequested
    }

    /** Sets the cancellation flag; nothing else changes. */
    method SetCancelRequested(flag: bool)
      modifies this`cancelRequested
      ensures IsCancelRequested() == flag
      ensures searchAttributes == old(searchAttributes)
    {
      cancelRequested := flag;
    }

    /** The run this execution continues, absent when the started event
        records none (an empty run id). */
    function GetContinuedExecutionRunId(): (r: Option<string>)
      ensures r.None? <==> startedAttributes.continuedExecutionRunId == ""
      ensures r.Some? ==> r.value == startedAttributes.continuedExecutionRunId && r.value != ""
    {
      var runId := startedAttributes.continuedExecutionRunId;
      if |runId| == 0 then None else Some(runId)
    }

    /** The current search attributes, or None while there are none. */
    function GetSearchAttributes(): (r: Option<SearchAttributes>)
      reads this
      ensures r.None? <==> searchAttributes.None? || |searchAttributes.value| == 0
      ensures r.Some? ==> r.value == searchAttributes.value
    {
      Visible(searchAttributes)
    }

    /** Upserts search attributes: incoming values overwrite, other entries
        are kept, and an absent or empty argument changes nothing. */
    method MergeSearchAttributes(incoming: Option<SearchAttributes>)
      modifies this`searchAttributes
      ensures searchAttributes == Merged(old(searchAttributes), incoming)
      ensures incoming.Some? && |incoming.value| > 0 ==> GetSearchAttributes().Some?
    {
      if incoming.None? || |incoming.value| == 0 {
        return;
      }
      if searchAttributes.None? {
        searchAttributes := Some(map[]);
      }
      searchAttributes := Some(searchAttributes.value + incoming.value);
      MergeMakesVisible(old(searchAttributes), incoming);
    }

    /** The propagated contexts keyed by propagator name, each deserialised
        from a copy of the started event's header. */
    method GetPropagatedContexts() returns (m: map<string, Context>)
      ensures contextPropagators.None? ==> m == map[]
      ensures contextPropagators.Some? ==> m == Propagated(contextPropagators.value, startedAttributes.header)
      ensures contextPropagators.Some? ==> m.Keys == Names(contextPropagators.value)
    {
      if contextPropagators.None? || |contextPropagators.value| == 0 {
        assert contextPropagators.Some? ==> Names(contextPropagators.value) == {};
        return map[];
      }
      var ps := contextPropagators.value;
      var headerData := startedAttributes.header;
      m := map[];
      var i := 0;
      while i < |ps|
        invariant 0 <= i <= |ps|
        invariant m == Propagated(ps[..i], headerData)
      {
        assert ps[..i + 1][..i] == ps[..i];
        m := m[ps[i].name := ps[i].deserializeContext(headerData)];
        i := i + 1;
      }
      assert ps[..i] == ps;
      PropagatedKeys(ps, headerData);
    }
  }
}
