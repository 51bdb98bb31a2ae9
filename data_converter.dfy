/** The default data converter: an ordered registry of payload converters,
    an index from encoding type to converter rebuilt from that list, and the
    encode/decode dispatch over them. */
module DataConverter {
  import opened Wrappers
  import opened Payloads

  /** An application value (a Java object) handed to or produced by a converter. */
  type Value(==)

  /** The requested class and generic type of a decoded value. */
  type ValueType

  /** Why an IllegalArgumentException was raised. */
  datatype Reason =
    | SerializationFailed               // no converter could serialise the value
    | MissingEncodingMetadata           // the payload has no "encoding" metadata entry
    | UnknownEncoding(encoding: string) // no registered converter has that encoding type

  /** The exceptions this component raises or lets through. */
  datatype Failure =
    | IllegalArgument(reason: Reason)
    | IndexOutOfBounds(index: int)
    | ConverterRaised(detail: string)        // any other exception thrown by a converter
    | DataConverterException(cause: Cause)

  datatype Cause =
    | Reported(detail: string)               // raised as a DataConverterException by a converter
    | Wrapped(inner: Failure)                // another exception, wrapped by this component

  /** The exception handling around decoding and multi-value encoding: a
      DataConverterException reaches the caller unchanged, and any other
      exception becomes the cause of a new DataConverterException. */
  function Wrap(f: Failure): (r: Failure)
    ensures r.DataConverterException?
    ensures f.DataConverterException? ==> r == f
    ensures !f.DataConverterException? ==> r == DataConverterException(Wrapped(f))
  {
    if f.DataConverterException? then f else DataConverterException(Wrapped(f))
  }

  /** A payload converter: its encoding type and its two conversions, treated
      as black boxes. `toData` yields no payload when the converter does not
      handle the value; either conversion may raise. */
  class PayloadConverter {
    const encodingType: string
    const toData: Value -> Result<Option<Payload>, Failure>
    const fromData: (Payload, ValueType) -> Result<Value, Failure>

    constructor (encodingType: string,
                 toData: Value -> Result<Option<Payload>, Failure>,
                 fromData: (Payload, ValueType) -> Result<Value, Failure>)
      ensures this.encodingType == encodingType
      ensures this.toData == toData && this.fromData == fromData
    {
      this.encodingType := encodingType;
      this.toData := toData;
      this.fromData := fromData;
    }
  }

  // ---------------------------------------------------------------------------
  // The encoding-type index
  // ---------------------------------------------------------------------------

  /** Every entry of `m` sends its key to a converter of that encoding type
      that occurs in `cs`. */
  ghost predicate IndexesInto(m: map<string, PayloadConverter>, cs: seq<PayloadConverter>)
  {
    forall t :: t in m ==> m[t].encodingType == t && m[t] in cs
  }

  /** The index built by putting every converter of `cs`, in list order, under
      its encoding type: a later converter overwrites an earlier one. */
  function ConverterMap(cs: seq<PayloadConverter>): (m: map<string, PayloadConverter>)
    ensures IndexesInto(m, cs)
    ensures forall i :: 0 <= i < |cs| ==> cs[i].encodingType in m
  {
    if cs == [] then map[]
    else
      var last := cs[|cs| - 1];
      ConverterMap(cs[..|cs| - 1])[last.encodingType := last]
  }

  /** Independent reference: the last position in `cs` holding a converter of
      encoding type `t`, or -1 when there is none. */
  function LastOfType(cs: seq<PayloadConverter>, t: string): (i: int)
    ensures -1 <= i < |cs|
    ensures i >= 0 ==> cs[i].encodingType == t
    ensures forall j :: i < j < |cs| ==> cs[j].encodingType != t
  {
    if cs == [] then -1
    else if cs[|cs| - 1].encodingType == t then |cs| - 1
    else LastOfType(cs[..|cs| - 1], t)
  }

  /** The index holds exactly the encoding types present in the list, and sends
      each to the last converter in the list that has that type. */
  lemma {:induction false} ConverterMapIsLastOfType(cs: seq<PayloadConverter>, t: string)
    ensures t in ConverterMap(cs) <==> LastOfType(cs, t) >= 0
    ensures t in ConverterMap(cs) ==> ConverterMap(cs)[t] == cs[LastOfType(cs, t)]
  {
    if cs != [] {
      var front := cs[..|cs| - 1];
      ConverterMapIsLastOfType(front, t);
      if cs[|cs| - 1].encodingType != t {
        assert LastOfType(cs, t) == LastOfType(front, t);
        if LastOfType(front, t) >= 0 {
          assert cs[LastOfType(cs, t)] == front[LastOfType(front, t)];
        }
      }
    }
  }

  /** Corollary: a converter with no later converter of the same encoding type
      is the one the index selects for that type. */
  lemma ConverterMapSelectsLast(cs: seq<PayloadConverter>, i: int)
    requires 0 <= i < |cs|
    requires forall j :: i < j < |cs| ==> cs[j].encodingType != cs[i].encodingType
    ensures ConverterMap(cs)[cs[i].encodingType] == cs[i]
  {
    var t := cs[i].encodingType;
    ConverterMapIsLastOfType(cs, t);
  }

  /** `List.indexOf`: the first position holding `c` (by object identity), or -1. */
  function IndexOf(cs: seq<PayloadConverter>, c: PayloadConverter): (i: int)
    ensures -1 <= i < |cs|
    ensures i >= 0 ==> cs[i] == c && forall j :: 0 <= j < i ==> cs[j] != c
    ensures i < 0 <==> c !in cs
  {
    if cs == [] then -1
    else if cs[0] == c then 0
    else
      var k := IndexOf(cs[1..], c);
      if k < 0 then -1 else k + 1
  }

  // ---------------------------------------------------------------------------
  // Overrides
  // ---------------------------------------------------------------------------

  /** No converter object occurs twice in the list. */
  ghost predicate NoDuplicates(cs: seq<PayloadConverter>)
  {
    forall i, j :: 0 <= i < j < |cs| ==> cs[i] != cs[j]
  }

  /** What a call of withPayloadConverterOverrides comes to, as the code is
      written: it either runs to the end of the overrides or stops with the
      exception raised by `List.set`, leaving the list as it was at that point. */
  datatype OverrideOutcome =
    | Completed(converters: seq<PayloadConverter>)
    | Crashed(partial: seq<PayloadConverter>, failure: Failure)

  /** The override loop as written: every override is looked up in the index
      `m` that was current when the call began (the index is refreshed only
      after the loop), then either replaces the converter found there at its
      position in the list or is appended. A replaced converter is no longer in
      the list, so a second override of the same known type finds no position. */
  function ApplyOverridesAsWritten(cs: seq<PayloadConverter>, m: map<string, PayloadConverter>,
                                   os: seq<PayloadConverter>): (r: OverrideOutcome)
    ensures r.Crashed? ==> r.failure == IndexOutOfBounds(-1)
    ensures r.Completed? ==> |r.converters| == |cs| + |UnregisteredOverrides(os, m.Keys)|
    decreases |os|
  {
    if os == [] then Completed(cs)
    else
      var o := os[0];
      if o.encodingType in m then
        var i := IndexOf(cs, m[o.encodingType]);
        if i < 0 then Crashed(cs, IndexOutOfBounds(i))
        else ApplyOverridesAsWritten(cs[i := o], m, os[1..])
      else
        ApplyOverridesAsWritten(cs + [o], m, os[1..])
  }

  /** Replacing the converter `lookup` selects for `o`'s type by `o`, and
      recording `o` under that type, keeps `lookup` pointing into the list. */
  lemma ReplaceKeepsIndex(cs: seq<PayloadConverter>, lookup: map<string, PayloadConverter>,
                          o: PayloadConverter)
    requires IndexesInto(lookup, cs)
    requires o.encodingType in lookup
    ensures 0 <= IndexOf(cs, lookup[o.encodingType])
    ensures IndexesInto(lookup[o.encodingType := o],
                        cs[IndexOf(cs, lookup[o.encodingType]) := o])
  {
    var t := o.encodingType;
    var i := IndexOf(cs, lookup[t]);
    var cs' := cs[i := o];
    var lookup' := lookup[t := o];
    forall u | u in lookup'
      ensures lookup'[u].encodingType == u && lookup'[u] in cs'
    {
      if u == t {
        assert cs'[i] == o;
      } else {
        var j :| 0 <= j < |cs| && cs[j] == lookup[u];
        assert j != i;
        assert cs'[j] == lookup[u];
      }
    }
  }

  /** Appending keeps every converter of the list in the list. */
  lemma AppendKeepsIndex(cs: seq<PayloadConverter>, lookup: map<string, PayloadConverter>,
                         o: PayloadConverter)
    requires IndexesInto(lookup, cs)
    ensures IndexesInto(lookup, cs + [o])
  {
    forall u | u in lookup ensures lookup[u] in cs + [o] {
      var j :| 0 <= j < |cs| && cs[j] == lookup[u];
      assert (cs + [o])[j] == lookup[u];
    }
  }

  /** The override loop as corrected: identical to the code except that a
      replacement is also recorded in the index (`converterMap.put(type,
      override)` after `converters.set(...)`), so a later override of the same
      type replaces the earlier override. Appended overrides are not recorded,
      exactly as in the code. */
  function ApplyOverrides(cs: seq<PayloadConverter>, lookup: map<string, PayloadConverter>,
                          os: seq<PayloadConverter>): seq<PayloadConverter>
    requires IndexesInto(lookup, cs)
    decreases |os|
  {
    if os == [] then cs
    else
      var o := os[0];
      if o.encodingType in lookup then
        ReplaceKeepsIndex(cs, lookup, o);
        var i := IndexOf(cs, lookup[o.encodingType]);
        ApplyOverrides(cs[i := o], lookup[o.encodingType := o], os[1..])
      else
        AppendKeepsIndex(cs, lookup, o);
        ApplyOverrides(cs + [o], lookup, os[1..])
  }

  /** The overrides whose encoding type is not among `keys`, in order: the
      ones the override loop appends. */
  function UnregisteredOverrides(os: seq<PayloadConverter>, keys: set<string>): (u: seq<PayloadConverter>)
    ensures |u| <= |os|
    ensures forall k :: 0 <= k < |u| ==> u[k] in os && u[k].encodingType !in keys
  {
    if os == [] then []
    else (if os[0].encodingType in keys then [] else [os[0]]) + UnregisteredOverrides(os[1..], keys)
  }

  /** The generalised shape of the corrected loop: positions from `n` on hold
      no registered type, so no replacement reaches them, and the appended
      overrides follow them in order. */
  lemma {:induction false} ApplyOverridesShapeFrom(cs: seq<PayloadConverter>,
                                                   lookup: map<string, PayloadConverter>,
                                                   os: seq<PayloadConverter>, n: int)
    requires IndexesInto(lookup, cs)
    requires 0 <= n <= |cs|
    requires forall j :: n <= j < |cs| ==> cs[j].encodingType !in lookup
    ensures |ApplyOverrides(cs, lookup, os)| == |cs| + |UnregisteredOverrides(os, lookup.Keys)|
    ensures ApplyOverrides(cs, lookup, os)[n..] == cs[n..] + UnregisteredOverrides(os, lookup.Keys)
    ensures forall j :: 0 <= j < |cs| ==>
              ApplyOverrides(cs, lookup, os)[j].encodingType == cs[j].encodingType
    ensures forall j :: 0 <= j < |cs| && (forall k :: 0 <= k < |os| ==> os[k].encodingType != cs[j].encodingType)
              ==> ApplyOverrides(cs, lookup, os)[j] == cs[j]
    decreases |os|
  {
    if os == [] {
      assert cs[n..] + [] == cs[n..];
    } else {
      var o := os[0];
      var t := o.encodingType;
      var rest := os[1..];
      var r := ApplyOverrides(cs, lookup, os);
      if t in lookup {
        ReplaceKeepsIndex(cs, lookup, o);
        var i := IndexOf(cs, lookup[t]);
        var cs' := cs[i := o];
        var lookup' := lookup[t := o];
        assert lookup'.Keys == lookup.Keys;
        assert cs[i].encodingType == t && i < n;
        assert r == ApplyOverrides(cs', lookup', rest);
        ApplyOverridesShapeFrom(cs', lookup', rest, n);
        assert cs'[n..] == cs[n..];
        assert UnregisteredOverrides(os, lookup.Keys) == UnregisteredOverrides(rest, lookup.Keys);
        forall j | 0 <= j < |cs| && (forall k :: 0 <= k < |os| ==> os[k].encodingType != cs[j].encodingType)
          ensures r[j] == cs[j]
        {
          assert os[0].encodingType != cs[j].encodingType;
          assert forall k :: 0 <= k < |rest| ==> rest[k] == os[k + 1];
        }
      } else {
        AppendKeepsIndex(cs, lookup, o);
        var cs' := cs + [o];
        assert r == ApplyOverrides(cs', lookup, rest);
        ApplyOverridesShapeFrom(cs', lookup, rest, n);
        assert cs'[n..] == cs[n..] + [o];
        assert UnregisteredOverrides(os, lookup.Keys) == [o] + UnregisteredOverrides(rest, lookup.Keys);
        assert cs[n..] + [o] + UnregisteredOverrides(rest, lookup.Keys)
            == cs[n..] + ([o] + UnregisteredOverrides(rest, lookup.Keys));
        forall j | 0 <= j < |cs| && (forall k :: 0 <= k < |os| ==> os[k].encodingType != cs[j].encodingType)
          ensures r[j] == cs[j]
        {
          assert forall k :: 0 <= k < |rest| ==> rest[k] == os[k + 1];
        }
      }
    }
  }

  /** The corrected loop keeps every original position, with the same
      encoding type there, leaves the converter of a type no override has
      untouched, and appends the unregistered overrides in order; so the list
      grows by exactly the number of overrides whose type is not registered. */
  lemma ApplyOverridesShape(cs: seq<PayloadConverter>, lookup: map<string, PayloadConverter>,
                            os: seq<PayloadConverter>)
    requires IndexesInto(lookup, cs)
    ensures |ApplyOverrides(cs, lookup, os)| == |cs| + |UnregisteredOverrides(os, lookup.Keys)|
    ensures ApplyOverrides(cs, lookup, os)[|cs|..] == UnregisteredOverrides(os, lookup.Keys)
    ensures forall j :: 0 <= j < |cs| ==>
              ApplyOverrides(cs, lookup, os)[j].encodingType == cs[j].encodingType
    ensures forall j :: 0 <= j < |cs| && (forall k :: 0 <= k < |os| ==> os[k].encodingType != cs[j].encodingType)
              ==> ApplyOverrides(cs, lookup, os)[j] == cs[j]
  {
    ApplyOverridesShapeFrom(cs, lookup, os, |cs|);
    assert cs[|cs|..] == [];
    assert [] + UnregisteredOverrides(os, lookup.Keys) == UnregisteredOverrides(os, lookup.Keys);
  }

  /** The index of a concatenation: the later part overrides the earlier. */
  lemma {:induction false} ConverterMapConcat(a: seq<PayloadConverter>, b: seq<PayloadConverter>)
    ensures ConverterMap(a + b) == ConverterMap(a) + ConverterMap(b)
    decreases |b|
  {
    if b == [] {
      assert a + b == a;
    } else {
      var front := b[..|b| - 1];
      var last := b[|b| - 1];
      assert (a + b)[..|a + b| - 1] == a + front;
      assert (a + b)[|a + b| - 1] == last;
      ConverterMapConcat(a, front);
      assert (ConverterMap(a) + ConverterMap(front))[last.encodingType := last]
          == ConverterMap(a) + ConverterMap(front)[last.encodingType := last];
    }
  }

  /** Replacing the last converter of a type by another of the same type
      changes no type's last position. */
  lemma {:induction false} LastOfTypeKeptByReplace(cs: seq<PayloadConverter>, i: int,
                                                   o: PayloadConverter, u: string)
    requires 0 <= i < |cs|
    requires cs[i].encodingType == o.encodingType
    ensures LastOfType(cs[i := o], u) == LastOfType(cs, u)
    decreases |cs|
  {
    var cs' := cs[i := o];
    if i == |cs| - 1 {
      assert cs'[..|cs'| - 1] == cs[..|cs| - 1];
    } else {
      assert cs'[..|cs'| - 1] == cs[..|cs| - 1][i := o];
      assert cs'[|cs'| - 1] == cs[|cs| - 1];
      LastOfTypeKeptByReplace(cs[..|cs| - 1], i, o, u);
    }
  }

  /** Replacing the last converter of a type puts the replacement in the
      index under that type and changes nothing else. */
  lemma ReplaceLastOfType(cs: seq<PayloadConverter>, i: int, o: PayloadConverter)
    requires 0 <= i < |cs|
    requires i == LastOfType(cs, o.encodingType)
    ensures ConverterMap(cs[i := o]) == ConverterMap(cs)[o.encodingType := o]
  {
    var t := o.encodingType;
    var cs' := cs[i := o];
    var m := ConverterMap(cs);
    var m' := ConverterMap(cs');
    forall u ensures (u in m' <==> u in m[t := o]) && (u in m' ==> m'[u] == m[t := o][u]) {
      LastOfTypeKeptByReplace(cs, i, o, u);
      ConverterMapIsLastOfType(cs, u);
      ConverterMapIsLastOfType(cs', u);
    }
  }

  /** Every indexed converter occurs in the list only at the last position of
      its encoding type. */
  ghost predicate OnlyAtLast(lookup: map<string, PayloadConverter>, cs: seq<PayloadConverter>)
  {
    forall u, j :: u in lookup && 0 <= j < |cs| && cs[j] == lookup[u] ==> j == LastOfType(cs, u)
  }

  /** Every override of a registered type occurs in the list, if at all, only
      at the last position of its encoding type. */
  ghost predicate OverridesOnlyAtLast(os: seq<PayloadConverter>, lookup: map<string, PayloadConverter>,
                                      cs: seq<PayloadConverter>)
  {
    forall k, j :: 0 <= k < |os| && os[k].encodingType in lookup && 0 <= j < |cs| && cs[j] == os[k] ==>
      j == LastOfType(cs, os[k].encodingType)
  }

  /** Replacing the last converter of a type keeps every indexed converter,
      the replacement now among them, at the last position of its type. */
  lemma ReplaceKeepsOnlyAtLast(cs: seq<PayloadConverter>, lookup: map<string, PayloadConverter>,
                               os: seq<PayloadConverter>, i: int)
    requires IndexesInto(lookup, cs)
    requires OnlyAtLast(lookup, cs)
    requires OverridesOnlyAtLast(os, lookup, cs)
    requires os != [] && os[0].encodingType in lookup
    requires 0 <= i < |cs| && cs[i] == lookup[os[0].encodingType]
    requires i == LastOfType(cs, os[0].encodingType)
    ensures OnlyAtLast(lookup[os[0].encodingType := os[0]], cs[i := os[0]])
  {
    var o := os[0];
    var t := o.encodingType;
    var cs' := cs[i := o];
    var lookup' := lookup[t := o];
    forall u, j | u in lookup' && 0 <= j < |cs'| && cs'[j] == lookup'[u]
      ensures j == LastOfType(cs', u)
    {
      LastOfTypeKeptByReplace(cs, i, o, u);
      if u == t {
        assert cs'[j] == os[0];
        assert j == i;
      } else {
        assert cs[j] == lookup[u];
      }
    }
  }

  /** Replacing the last converter of a type keeps every later override of a
      registered type at the last position of its type, if it is listed. */
  lemma ReplaceKeepsOverridesOnlyAtLast(cs: seq<PayloadConverter>, lookup: map<string, PayloadConverter>,
                                        os: seq<PayloadConverter>, i: int)
    requires OverridesOnlyAtLast(os, lookup, cs)
    requires os != [] && os[0].encodingType in lookup
    requires 0 <= i < |cs| && cs[i].encodingType == os[0].encodingType
    requires i == LastOfType(cs, os[0].encodingType)
    ensures OverridesOnlyAtLast(os[1..], lookup[os[0].encodingType := os[0]], cs[i := os[0]])
  {
    var o := os[0];
    var t := o.encodingType;
    var rest := os[1..];
    var cs' := cs[i := o];
    var lookup' := lookup[t := o];
    forall k, j | 0 <= k < |rest| && rest[k].encodingType in lookup' && 0 <= j < |cs'| && cs'[j] == rest[k]
      ensures j == LastOfType(cs', rest[k].encodingType)
    {
      LastOfTypeKeptByReplace(cs, i, o, rest[k].encodingType);
      assert rest[k] == os[k + 1];
      assert j == i || cs[j] == os[k + 1];
    }
  }

  /** One replacing step of the corrected loop keeps the invariant of
      OverridesRebuildIndexGeneral, and it replaces the last converter of
      the override's type. */
  lemma ReplaceStep(cs: seq<PayloadConverter>, lookup: map<string, PayloadConverter>,
                    os: seq<PayloadConverter>)
    requires IndexesInto(lookup, cs)
    requires OnlyAtLast(lookup, cs)
    requires OverridesOnlyAtLast(os, lookup, cs)
    requires os != [] && os[0].encodingType in lookup
    ensures var t := os[0].encodingType;
            var i := IndexOf(cs, lookup[t]);
            && 0 <= i == LastOfType(cs, t)
            && ConverterMap(cs[i := os[0]]) == ConverterMap(cs)[t := os[0]]
            && IndexesInto(lookup[t := os[0]], cs[i := os[0]])
            && OnlyAtLast(lookup[t := os[0]], cs[i := os[0]])
            && OverridesOnlyAtLast(os[1..], lookup[t := os[0]], cs[i := os[0]])
  {
    var o := os[0];
    var t := o.encodingType;
    ReplaceKeepsIndex(cs, lookup, o);
    var i := IndexOf(cs, lookup[t]);
    assert i == LastOfType(cs, t);
    ReplaceLastOfType(cs, i, o);
    ReplaceKeepsOnlyAtLast(cs, lookup, os, i);
    ReplaceKeepsOverridesOnlyAtLast(cs, lookup, os, i);
  }

  /** One appending step of the corrected loop keeps the invariant of
      OverridesRebuildIndexGeneral. */
  lemma AppendStep(cs: seq<PayloadConverter>, lookup: map<string, PayloadConverter>,
                   os: seq<PayloadConverter>)
    requires IndexesInto(lookup, cs)
    requires OnlyAtLast(lookup, cs)
    requires OverridesOnlyAtLast(os, lookup, cs)
    requires os != [] && os[0].encodingType !in lookup
    ensures ConverterMap(cs + [os[0]]) == ConverterMap(cs)[os[0].encodingType := os[0]]
    ensures IndexesInto(lookup, cs + [os[0]])
    ensures OnlyAtLast(lookup, cs + [os[0]])
    ensures OverridesOnlyAtLast(os[1..], lookup, cs + [os[0]])
  {
    var o := os[0];
    var rest := os[1..];
    AppendKeepsIndex(cs, lookup, o);
    var cs' := cs + [o];
    assert cs'[..|cs'| - 1] == cs;
    forall u, j | u in lookup && 0 <= j < |cs'| && cs'[j] == lookup[u]
      ensures j == LastOfType(cs', u)
    {
      assert j < |cs| && cs[j] == lookup[u];
    }
    forall k, j | 0 <= k < |rest| && rest[k].encodingType in lookup && 0 <= j < |cs'| && cs'[j] == rest[k]
      ensures j == LastOfType(cs', rest[k].encodingType)
    {
      assert rest[k] == os[k + 1];
      assert j < |cs| && cs[j] == os[k + 1];
    }
  }

  /** The index of overrides `[o] + rest` is `o`'s entry overridden by the
      index of the rest. */
  lemma ConverterMapOfCons(m: map<string, PayloadConverter>, o: PayloadConverter,
                           rest: seq<PayloadConverter>)
    ensures m[o.encodingType := o] + ConverterMap(rest) == m + ConverterMap([o] + rest)
  {
    ConverterMapConcat([o], rest);
    assert [o][..0] == [];
    var single := ConverterMap([o]);
    assert single == map[o.encodingType := o];
    var r := ConverterMap(rest);
    var lhs := m[o.encodingType := o] + r;
    var rhs := m + (single + r);
    forall u ensures (u in lhs <==> u in rhs) && (u in lhs ==> lhs[u] == rhs[u]) {
    }
    assert lhs.Keys == rhs.Keys;
    assert lhs == rhs;
  }

  /** The generalised rebuilt index: while every indexed converter and every
      override of a registered type sits only at the last position of its
      type, the index rebuilt after the corrected loop is the index of the
      list overridden by the index of the overrides. */
  lemma {:induction false} OverridesRebuildIndexGeneral(cs: seq<PayloadConverter>,
                                                        lookup: map<string, PayloadConverter>,
                                                        os: seq<PayloadConverter>)
    requires IndexesInto(lookup, cs)
    requires OnlyAtLast(lookup, cs)
    requires OverridesOnlyAtLast(os, lookup, cs)
    ensures ConverterMap(ApplyOverrides(cs, lookup, os)) == ConverterMap(cs) + ConverterMap(os)
    decreases |os|
  {
    if os == [] {
      assert ConverterMap(cs) + map[] == ConverterMap(cs);
    } else {
      var o := os[0];
      var t := o.encodingType;
      assert os == [o] + os[1..];
      ConverterMapOfCons(ConverterMap(cs), o, os[1..]);
      if t in lookup {
        ReplaceStep(cs, lookup, os);
        var i := IndexOf(cs, lookup[t]);
        assert ApplyOverrides(cs, lookup, os) == ApplyOverrides(cs[i := o], lookup[t := o], os[1..]);
        OverridesRebuildIndexGeneral(cs[i := o], lookup[t := o], os[1..]);
      } else {
        AppendStep(cs, lookup, os);
        assert ApplyOverrides(cs, lookup, os) == ApplyOverrides(cs + [o], lookup, os[1..]);
        OverridesRebuildIndexGeneral(cs + [o], lookup, os[1..]);
      }
    }
  }

  /** The generalised shadowed positions: under the same invariant, a
      converter that is not the last of its type in the list is never
      replaced. */
  lemma {:induction false} OverridesKeepShadowedGeneral(cs: seq<PayloadConverter>,
                                                        lookup: map<string, PayloadConverter>,
                                                        os: seq<PayloadConverter>)
    requires IndexesInto(lookup, cs)
    requires OnlyAtLast(lookup, cs)
    requires OverridesOnlyAtLast(os, lookup, cs)
    ensures |ApplyOverrides(cs, lookup, os)| >= |cs|
    ensures forall j :: 0 <= j < |cs| && j != LastOfType(cs, cs[j].encodingType) ==>
              ApplyOverrides(cs, lookup, os)[j] == cs[j]
    decreases |os|
  {
    if os != [] {
      var o := os[0];
      var t := o.encodingType;
      if t in lookup {
        ReplaceStep(cs, lookup, os);
        var i := IndexOf(cs, lookup[t]);
        var cs' := cs[i := o];
        assert ApplyOverrides(cs, lookup, os) == ApplyOverrides(cs', lookup[t := o], os[1..]);
        OverridesKeepShadowedGeneral(cs', lookup[t := o], os[1..]);
        assert cs[i].encodingType == t;
        forall j | 0 <= j < |cs| && j != LastOfType(cs, cs[j].encodingType)
          ensures ApplyOverrides(cs, lookup, os)[j] == cs[j]
        {
          LastOfTypeKeptByReplace(cs, i, o, cs[j].encodingType);
          assert cs'[j] == cs[j];
        }
      } else {
        AppendStep(cs, lookup, os);
        var cs' := cs + [o];
        assert ApplyOverrides(cs, lookup, os) == ApplyOverrides(cs', lookup, os[1..]);
        OverridesKeepShadowedGeneral(cs', lookup, os[1..]);
        assert cs'[..|cs'| - 1] == cs;
        forall j | 0 <= j < |cs| && j != LastOfType(cs, cs[j].encodingType)
          ensures ApplyOverrides(cs, lookup, os)[j] == cs[j]
        {
          assert cs'[j] == cs[j];
        }
      }
    }
  }

  /** After the corrected loop, when no converter object is listed twice and
      no override is already listed, the rebuilt index sends every overridden
      encoding type to the last override of that type and leaves every other
      type as it was; a converter that the index does not select, because a
      later one has its type, stays at its position. */
  lemma OverridesRebuildIndex(cs: seq<PayloadConverter>, os: seq<PayloadConverter>)
    requires NoDuplicates(cs)
    requires forall k :: 0 <= k < |os| ==> os[k] !in cs
    ensures ConverterMap(ApplyOverrides(cs, ConverterMap(cs), os)) == ConverterMap(cs) + ConverterMap(os)
    ensures forall t :: LastOfType(os, t) >= 0 ==>
              var r := ConverterMap(ApplyOverrides(cs, ConverterMap(cs), os));
              t in r && r[t] == os[LastOfType(os, t)]
    ensures forall t :: LastOfType(os, t) < 0 ==>
              var r := ConverterMap(ApplyOverrides(cs, ConverterMap(cs), os));
              (t in r <==> t in ConverterMap(cs)) && (t in ConverterMap(cs) ==> r[t] == ConverterMap(cs)[t])
    ensures |ApplyOverrides(cs, ConverterMap(cs), os)| >= |cs|
    ensures forall j :: 0 <= j < |cs| && j != LastOfType(cs, cs[j].encodingType) ==>
              ApplyOverrides(cs, ConverterMap(cs), os)[j] == cs[j]
  {
    var m := ConverterMap(cs);
    forall u, j | u in m && 0 <= j < |cs| && cs[j] == m[u] ensures j == LastOfType(cs, u) {
      ConverterMapIsLastOfType(cs, u);
    }
    assert OverridesOnlyAtLast(os, m, cs);
    OverridesRebuildIndexGeneral(cs, m, os);
    OverridesKeepShadowedGeneral(cs, m, os);
    forall t ensures t in ConverterMap(os) <==> LastOfType(os, t) >= 0
      ensures t in ConverterMap(os) ==> ConverterMap(os)[t] == os[LastOfType(os, t)]
    {
      ConverterMapIsLastOfType(os, t);
    }
  }

  /** No two overrides share an encoding type that the index already knows. */
  ghost predicate NoRepeatedKnownType(os: seq<PayloadConverter>, m: map<string, PayloadConverter>)
  {
    forall j, k :: 0 <= j < k < |os| && os[j].encodingType in m ==>
      os[j].encodingType != os[k].encodingType
  }

  /** The generalised agreement: as long as the corrected index still agrees
      with the stale one on every type an override still has to look up, both
      loops do the same thing. */
  lemma {:induction false} AsWrittenAgreesGeneral(cs: seq<PayloadConverter>,
                                                  m: map<string, PayloadConverter>,
                                                  lookup: map<string, PayloadConverter>,
                                                  os: seq<PayloadConverter>)
    requires IndexesInto(lookup, cs)
    requires lookup.Keys == m.Keys
    requires forall k :: 0 <= k < |os| && os[k].encodingType in m ==>
               lookup[os[k].encodingType] == m[os[k].encodingType]
    requires NoRepeatedKnownType(os, m)
    ensures ApplyOverridesAsWritten(cs, m, os) == Completed(ApplyOverrides(cs, lookup, os))
    decreases |os|
  {
    if os != [] {
      var o := os[0];
      var t := o.encodingType;
      if t in m {
        ReplaceKeepsIndex(cs, lookup, o);
        var i := IndexOf(cs, lookup[t]);
        var rest := os[1..];
        forall k | 0 <= k < |rest| && rest[k].encodingType in m
          ensures lookup[t := o][rest[k].encodingType] == m[rest[k].encodingType]
        {
          assert rest[k] == os[k + 1];
        }
        forall j, k | 0 <= j < k < |rest| && rest[j].encodingType in m
          ensures rest[j].encodingType != rest[k].encodingType
        {
          assert rest[j] == os[j + 1] && rest[k] == os[k + 1];
        }
        AsWrittenAgreesGeneral(cs[i := o], m, lookup[t := o], rest);
      } else {
        AppendKeepsIndex(cs, lookup, o);
        var rest := os[1..];
        forall k | 0 <= k < |rest| && rest[k].encodingType in m
          ensures lookup[rest[k].encodingType] == m[rest[k].encodingType]
        {
          assert rest[k] == os[k + 1];
        }
        forall j, k | 0 <= j < k < |rest| && rest[j].encodingType in m
          ensures rest[j].encodingType != rest[k].encodingType
        {
          assert rest[j] == os[j + 1] && rest[k] == os[k + 1];
        }
        AsWrittenAgreesGeneral(cs + [o], m, lookup, rest);
      }
    }
  }

  /** The correction changes nothing unless two overrides share a known
      encoding type: there the code as written and the corrected loop agree,
      and the code does not fail. */
  lemma AsWrittenAgreesWithCorrected(cs: seq<PayloadConverter>, os: seq<PayloadConverter>)
    requires NoRepeatedKnownType(os, ConverterMap(cs))
    ensures ApplyOverridesAsWritten(cs, ConverterMap(cs), os)
         == Completed(ApplyOverrides(cs, ConverterMap(cs), os))
  {
    AsWrittenAgreesGeneral(cs, ConverterMap(cs), ConverterMap(cs), os);
  }

  /** An override whose encoding type is registered replaces the converter
      the index selects, at that converter's position; the length and every
      other position are unchanged. */
  lemma OverrideKnownTypeReplacesInPlace(cs: seq<PayloadConverter>, o: PayloadConverter)
    requires o.encodingType in ConverterMap(cs)
    ensures var i := IndexOf(cs, ConverterMap(cs)[o.encodingType]);
            && 0 <= i < |cs|
            && cs[i] == ConverterMap(cs)[o.encodingType]
            && ApplyOverridesAsWritten(cs, ConverterMap(cs), [o]) == Completed(cs[i := o])
            && ApplyOverrides(cs, ConverterMap(cs), [o]) == cs[i := o]
  {
    assert [o][1..] == [];
  }

  /** An override whose encoding type is not registered is appended; all
      converters already in the list keep their positions. */
  lemma OverrideUnknownTypeAppends(cs: seq<PayloadConverter>, o: PayloadConverter)
    requires o.encodingType !in ConverterMap(cs)
    ensures ApplyOverridesAsWritten(cs, ConverterMap(cs), [o]) == Completed(cs + [o])
    ensures ApplyOverrides(cs, ConverterMap(cs), [o]) == cs + [o]
  {
    assert [o][1..] == [];
  }

  /** Because the index is refreshed only after the loop, two overrides of the
      same unregistered type in one call are both appended, and the refreshed
      index selects the later one. */
  lemma TwoUnknownOverridesBothAppended(cs: seq<PayloadConverter>, o1: PayloadConverter,
                                        o2: PayloadConverter)
    requires o1.encodingType !in ConverterMap(cs)
    requires o2.encodingType == o1.encodingType
    ensures ApplyOverridesAsWritten(cs, ConverterMap(cs), [o1, o2]) == Completed(cs + [o1, o2])
    ensures ConverterMap(cs + [o1, o2])[o1.encodingType] == o2
  {
    var t := o1.encodingType;
    var m := ConverterMap(cs);
    var os := [o1, o2];
    assert os[1..] == [o2] && os[1..][1..] == [];
    assert ApplyOverridesAsWritten(cs, m, os) == ApplyOverridesAsWritten(cs + [o1], m, [o2]);
    assert ApplyOverridesAsWritten(cs + [o1], m, [o2]) == ApplyOverridesAsWritten(cs + [o1] + [o2], m, []);
    assert cs + [o1] + [o2] == cs + [o1, o2];
    var r := cs + [o1, o2];
    ConverterMapSelectsLast(r, |r| - 1);
  }

  /** FINDING, as written: two overrides of the same registered type in one
      call. The first replaces the converter the stale index selects; the
      second looks that converter up again, `indexOf` answers -1, and
      `List.set(-1, …)` raises IndexOutOfBoundsException. The list keeps the
      first replacement while the index is never refreshed. */
  lemma AsWrittenRepeatedKnownOverrideFails(cs: seq<PayloadConverter>, x1: PayloadConverter,
                                            x2: PayloadConverter)
    requires NoDuplicates(cs)
    requires x1.encodingType in ConverterMap(cs)
    requires x2.encodingType == x1.encodingType
    requires x1 !in cs
    ensures var i := IndexOf(cs, ConverterMap(cs)[x1.encodingType]);
            && 0 <= i < |cs|
            && ApplyOverridesAsWritten(cs, ConverterMap(cs), [x1, x2])
               == Crashed(cs[i := x1], IndexOutOfBounds(-1))
  {
    var m := ConverterMap(cs);
    var a := m[x1.encodingType];
    var i := IndexOf(cs, a);
    var cs' := cs[i := x1];
    forall j | 0 <= j < |cs'| ensures cs'[j] != a {
      if j != i {
        assert cs'[j] == cs[j] && cs[i] == a;
      }
    }
    assert IndexOf(cs', a) == -1;
    var os := [x1, x2];
    assert os[1..] == [x2] && os[1..][1..] == [];
  }

  /** Where the correction departs from a completing run of the code: one
      converter object `c` listed twice and two new overrides of its type.
      As written, `indexOf(c)` finds the first copy and then the second, so
      both copies are replaced and the later override is selected. Corrected,
      the second override looks up the first one, replaces it again, and the
      second copy of `c` stays selected. */
  lemma RepeatedObjectAsWrittenVsCorrected(c: PayloadConverter, x1: PayloadConverter,
                                           x2: PayloadConverter)
    requires x1.encodingType == c.encodingType && x2.encodingType == c.encodingType
    requires x1 != c && x2 != c && x1 != x2
    ensures ApplyOverridesAsWritten([c, c], ConverterMap([c, c]), [x1, x2]) == Completed([x1, x2])
    ensures ConverterMap([x1, x2])[c.encodingType] == x2
    ensures ApplyOverrides([c, c], ConverterMap([c, c]), [x1, x2]) == [x2, c]
    ensures ConverterMap([x2, c])[c.encodingType] == c
  {
    var t := c.encodingType;
    var cs := [c, c];
    var m := ConverterMap(cs);
    assert cs[..1] == [c] && [c][..0] == [];
    assert m == map[t := c];
    var os := [x1, x2];
    assert os[1..] == [x2] && os[1..][1..] == [];
    assert IndexOf(cs, c) == 0;
    assert cs[0 := x1] == [x1, c];
    assert IndexOf([x1, c], c) == 1;
    assert [x1, c][1 := x2] == [x1, x2];
    assert ApplyOverridesAsWritten(cs, m, os) == ApplyOverridesAsWritten([x1, c], m, [x2]);
    assert ApplyOverridesAsWritten([x1, c], m, [x2]) == ApplyOverridesAsWritten([x1, x2], m, []);
    assert IndexOf([x1, c], x1) == 0;
    assert [x1, c][0 := x2] == [x2, c];
    assert ApplyOverrides(cs, m, os) == ApplyOverrides([x1, c], m[t := x1], [x2]);
    assert ApplyOverrides([x1, c], m[t := x1], [x2]) == ApplyOverrides([x2, c], m[t := x2], []);
    assert [x1, x2][..1] == [x1] && [x1][..0] == [];
    assert [x2, c][..1] == [x2] && [x2][..0] == [];
  }

  /** FINDING, corrected: the second override replaces the first at the same
      position, the length is unchanged, and the refreshed index selects the
      later override. */
  lemma CorrectedRepeatedKnownOverrideLaterWins(cs: seq<PayloadConverter>, x1: PayloadConverter,
                                                x2: PayloadConverter)
    requires NoDuplicates(cs)
    requires x1.encodingType in ConverterMap(cs)
    requires x2.encodingType == x1.encodingType
    requires x1 !in cs
    ensures var i := IndexOf(cs, ConverterMap(cs)[x1.encodingType]);
            && 0 <= i < |cs|
            && ApplyOverrides(cs, ConverterMap(cs), [x1, x2]) == cs[i := x2]
            && x1.encodingType in ConverterMap(cs[i := x2])
            && ConverterMap(cs[i := x2])[x1.encodingType] == x2
  {
    var t := x1.encodingType;
    var m := ConverterMap(cs);
    ConverterMapIsLastOfType(cs, t);
    var last := LastOfType(cs, t);
    ReplaceKeepsIndex(cs, m, x1);
    var i := IndexOf(cs, m[t]);
    assert cs[i] == m[t] == cs[last];
    assert i == last;
    var cs' := cs[i := x1];
    var m' := m[t := x1];
    ReplaceKeepsIndex(cs', m', x2);
    assert IndexOf(cs', x1) == i by {
      assert cs'[i] == x1;
      forall j | 0 <= j < i ensures cs'[j] != x1 {
        assert cs'[j] == cs[j];
      }
    }
    var os := [x1, x2];
    assert os[1..] == [x2] && os[1..][1..] == [];
    assert ApplyOverrides(cs, m, os) == ApplyOverrides(cs', m', [x2]);
    assert ApplyOverrides(cs', m', [x2]) == cs'[i := x2];
    assert cs'[i := x2] == cs[i := x2];
    var r := cs[i := x2];
    forall j | i < j < |r| ensures r[j].encodingType != r[i].encodingType {
      assert r[j] == cs[j];
    }
    ConverterMapSelectsLast(r, i);
  }

  // ---------------------------------------------------------------------------
  // Encoding
  // ---------------------------------------------------------------------------

  /** Reference for toPayload: ask the converters in order; the first one that
      produces a payload wins, the first one that raises ends the search with
      its exception, and no producer at all is an IllegalArgumentException. */
  function FirstPayload(cs: seq<PayloadConverter>, v: Value): Result<Payload, Failure>
  {
    if cs == [] then Failure(IllegalArgument(SerializationFailed))
    else
      match cs[0].toData(v)
      case Failure(e) => Failure(e)
      case Success(Some(p)) => Success(p)
      case Success(None) => FirstPayload(cs[1..], v)
  }

  /** The converter at position `i` wins when every earlier converter declines
      the value and it produces a payload. */
  lemma {:induction false} FirstPayloadIsFirstHit(cs: seq<PayloadConverter>, v: Value, i: int)
    requires 0 <= i < |cs|
    requires forall j :: 0 <= j < i ==> cs[j].toData(v) == Success(None)
    requires cs[i].toData(v).Success? && cs[i].toData(v).value.Some?
    ensures FirstPayload(cs, v) == Success(cs[i].toData(v).value.value)
  {
    if i > 0 {
      assert cs[0].toData(v) == Success(None);
      FirstPayloadIsFirstHit(cs[1..], v, i - 1);
    }
  }

  /** Conversely, a successful encoding comes from a converter all of whose
      predecessors declined the value. */
  lemma {:induction false} FirstPayloadHasWinner(cs: seq<PayloadConverter>, v: Value)
    requires FirstPayload(cs, v).Success?
    ensures exists i :: 0 <= i < |cs|
              && (forall j :: 0 <= j < i ==> cs[j].toData(v) == Success(None))
              && cs[i].toData(v) == Success(Some(FirstPayload(cs, v).value))
  {
    if cs[0].toData(v) == Success(None) {
      FirstPayloadHasWinner(cs[1..], v);
      var k :| 0 <= k < |cs[1..]|
              && (forall j :: 0 <= j < k ==> cs[1..][j].toData(v) == Success(None))
              && cs[1..][k].toData(v) == Success(Some(FirstPayload(cs[1..], v).value));
      assert forall j :: 0 <= j < k + 1 ==> cs[j].toData(v) == Success(None) by {
        forall j | 0 <= j < k + 1 ensures cs[j].toData(v) == Success(None) {
          if j > 0 { assert cs[j] == cs[1..][j - 1]; }
        }
      }
      assert cs[k + 1] == cs[1..][k];
    } else {
      assert cs[0].toData(v) == Success(Some(FirstPayload(cs, v).value));
    }
  }

  /** When every converter declines the value, toPayload fails with
      IllegalArgumentException. */
  lemma {:induction false} FirstPayloadNoHit(cs: seq<PayloadConverter>, v: Value)
    requires forall j :: 0 <= j < |cs| ==> cs[j].toData(v) == Success(None)
    ensures FirstPayload(cs, v) == Failure(IllegalArgument(SerializationFailed))
  {
    if cs != [] {
      assert cs[0].toData(v) == Success(None);
      assert forall j :: 0 <= j < |cs[1..]| ==> cs[1..][j] == cs[j + 1];
      FirstPayloadNoHit(cs[1..], v);
    }
  }

  /** Reference for the loop of toPayloads: encode every value in order; the
      first value that cannot be encoded ends it with that failure. */
  function EncodeAll(cs: seq<PayloadConverter>, vs: seq<Value>): Result<seq<Payload>, Failure>
  {
    if vs == [] then Success([])
    else
      match FirstPayload(cs, vs[0])
      case Failure(e) => Failure(e)
      case Success(p) =>
        match EncodeAll(cs, vs[1..])
        case Failure(e) => Failure(e)
        case Success(ps) => Success([p] + ps)
  }

  /** A successful encoding has exactly one payload per value, in order, and
      each is what toPayload gives for its value. */
  lemma {:induction false} EncodeAllOnePerValue(cs: seq<PayloadConverter>, vs: seq<Value>)
    requires EncodeAll(cs, vs).Success?
    ensures |EncodeAll(cs, vs).value| == |vs|
    ensures forall i :: 0 <= i < |vs| ==>
              FirstPayload(cs, vs[i]) == Success(EncodeAll(cs, vs).value[i])
  {
    if vs != [] {
      EncodeAllOnePerValue(cs, vs[1..]);
      var ps := EncodeAll(cs, vs).value;
      forall i | 0 <= i < |vs| ensures FirstPayload(cs, vs[i]) == Success(ps[i]) {
        if i > 0 { assert vs[i] == vs[1..][i - 1]; }
      }
    }
  }

  /** The encoding of all values succeeds exactly when each value can be
      encoded on its own. */
  lemma {:induction false} EncodeAllSucceedsIffEach(cs: seq<PayloadConverter>, vs: seq<Value>)
    ensures EncodeAll(cs, vs).Success? <==>
            forall i :: 0 <= i < |vs| ==> FirstPayload(cs, vs[i]).Success?
  {
    if vs != [] {
      EncodeAllSucceedsIffEach(cs, vs[1..]);
      assert forall i :: 0 <= i < |vs[1..]| ==> vs[1..][i] == vs[i + 1];
      if FirstPayload(cs, vs[0]).Success? && !EncodeAll(cs, vs[1..]).Success? {
        var i :| 0 <= i < |vs[1..]| && !FirstPayload(cs, vs[1..][i]).Success?;
        assert !FirstPayload(cs, vs[i + 1]).Success?;
      }
    }
  }

  /** Reference for toPayloads: no values (a null or empty argument) give no
      payloads at all; otherwise the values are encoded and a failure is
      surfaced as a DataConverterException. */
  function PayloadsOf(cs: seq<PayloadConverter>, values: Option<seq<Value>>)
    : Result<Option<seq<Payload>>, Failure>
  {
    if values.None? || values.value == [] then Success(None)
    else
      match EncodeAll(cs, values.value)
      case Success(ps) => Success(Some(ps))
      case Failure(e) => Failure(Wrap(e))
  }

  /** toPayloads either yields nothing for no values, or one payload per
      value, or fails with a DataConverterException. */
  lemma PayloadsOfShape(cs: seq<PayloadConverter>, values: Option<seq<Value>>)
    ensures values.None? || values.value == [] ==> PayloadsOf(cs, values) == Success(None)
    ensures PayloadsOf(cs, values).Failure? ==> PayloadsOf(cs, values).error.DataConverterException?
    ensures values.Some? && values.value != [] && PayloadsOf(cs, values).Success? ==>
              var ps := PayloadsOf(cs, values).value;
              ps.Some? && |ps.value| == |values.value|
              && forall i :: 0 <= i < |values.value| ==>
                   FirstPayload(cs, values.value[i]) == Success(ps.value[i])
  {
    if values.Some? && values.value != [] && EncodeAll(cs, values.value).Success? {
      EncodeAllOnePerValue(cs, values.value);
    }
  }

  /** Prefixes `ps` to a successful result; passes a failure through. */
  function Prepend(ps: seq<Payload>, r: Result<seq<Payload>, Failure>): Result<seq<Payload>, Failure>
  {
    match r
    case Success(rest) => Success(ps + rest)
    case Failure(e) => Failure(e)
  }

  // ---------------------------------------------------------------------------
  // Round trip
  // ---------------------------------------------------------------------------

  /** A converter that, whenever it encodes `v`, tags the payload with its
      own encoding type and decodes it back to `v` as type `t`. */
  ghost predicate RoundTrips(c: PayloadConverter, v: Value, t: ValueType)
  {
    match c.toData(v)
    case Success(Some(p)) =>
      EncodingKey in p.metadata && p.metadata[EncodingKey] == c.encodingType
      && c.fromData(p, t) == Success(v)
    case _ => true
  }

  /** No two converters in the list share an encoding type. */
  ghost predicate DistinctEncodingTypes(cs: seq<PayloadConverter>)
  {
    forall i, j :: 0 <= i < j < |cs| ==> cs[i].encodingType != cs[j].encodingType
  }

  // ---------------------------------------------------------------------------
  // The converter object
  // ---------------------------------------------------------------------------

  class DefaultDataConverter {
    /** The payload converters, in the order they are tried when encoding. */
    var converters: seq<PayloadConverter>
    /** The encoding-type index used when decoding. */
    var converterMap: map<string, PayloadConverter>

    /** Between calls the index is the one rebuilt from the list. */
    ghost predicate Valid()
      reads this
    {
      converterMap == ConverterMap(converters)
    }

    /** Creates the converter from an ordered list of payload converters. */
    constructor (cs: seq<PayloadConverter>)
      ensures Valid()
      ensures converters == cs
    {
      converters := cs;
      converterMap := map[];
      new;
      UpdateConverterMap();
    }

    /** Clears the index and refills it from the list, in list order. */
    method UpdateConverterMap()
      modifies this`converterMap
      ensures Valid()
    {
      converterMap := map[];
      var i := 0;
      while i < |converters|
        invariant 0 <= i <= |converters|
        invariant converterMap == ConverterMap(converters[..i])
      {
        assert converters[..i + 1][..i] == converters[..i];
        converterMap := converterMap[converters[i].encodingType := converters[i]];
        i := i + 1;
      }
      assert converters[..i] == converters;
    }

    /** Applies the overrides in order (each replaces the registered converter
        of its encoding type in place, or is appended), then refreshes the
        index once. This is the corrected loop: a replacement is also
        recorded in the index as it happens. */
    method WithPayloadConverterOverrides(os: seq<PayloadConverter>) returns (self: DefaultDataConverter)
      requires Valid()
      modifies this
      ensures self == this
      ensures Valid()
      ensures converters == ApplyOverrides(old(converters), old(converterMap), os)
      ensures NoDuplicates(old(converters)) && (forall k :: 0 <= k < |os| ==> os[k] !in old(converters))
              ==> converterMap == old(converterMap) + ConverterMap(os)
    {
      ghost var cs0 := converters;
      var k := 0;
      while k < |os|
        invariant 0 <= k <= |os|
        invariant IndexesInto(converterMap, converters)
        invariant ApplyOverrides(converters, converterMap, os[k..])
               == ApplyOverrides(old(converters), old(converterMap), os)
      {
        var o := os[k];
        assert os[k..][0] == o && os[k..][1..] == os[k + 1..];
        if o.encodingType in converterMap {
          ReplaceKeepsIndex(converters, converterMap, o);
          var i := IndexOf(converters, converterMap[o.encodingType]);
          converters := converters[i := o];
          converterMap := converterMap[o.encodingType := o];
        } else {
          AppendKeepsIndex(converters, converterMap, o);
          converters := converters + [o];
        }
        k := k + 1;
      }
      UpdateConverterMap();
      if NoDuplicates(cs0) && (forall k :: 0 <= k < |os| ==> os[k] !in cs0) {
        OverridesRebuildIndex(cs0, os);
      }
      self := this;
    }

    /** Encodes one value with the first converter, in list order, that
        produces a payload. */
    method ToPayload(v: Value) returns (r: Result<Payload, Failure>)
      ensures r == FirstPayload(converters, v)
    {
      var i := 0;
      while i < |converters|
        invariant 0 <= i <= |converters|
        invariant FirstPayload(converters[i..], v) == FirstPayload(converters, v)
      {
        assert converters[i..][0] == converters[i] && converters[i..][1..] == converters[i + 1..];
        var result := converters[i].toData(v);
        if result.Failure? {
          return Failure(result.error);
        }
        if result.value.Some? {
          return Success(result.value.value);
        }
        i := i + 1;
      }
      return Failure(IllegalArgument(SerializationFailed));
    }

    /** Decodes a payload with the converter registered for the encoding in
        its metadata. Every failure reaches the caller as a
        DataConverterException. */
    function FromPayload(p: Payload, t: ValueType): (r: Result<Value, Failure>)
      reads this
      ensures r.Failure? ==> r.error.DataConverterException?
      ensures r.Success? <==>
                && EncodingKey in p.metadata
                && p.metadata[EncodingKey] in converterMap
                && converterMap[p.metadata[EncodingKey]].fromData(p, t).Success?
      ensures r.Success? ==> r.value == converterMap[p.metadata[EncodingKey]].fromData(p, t).value
      ensures EncodingKey !in p.metadata ==>
                r == Failure(DataConverterException(Wrapped(IllegalArgument(MissingEncodingMetadata))))
      ensures EncodingKey in p.metadata && p.metadata[EncodingKey] !in converterMap ==>
                r == Failure(DataConverterException(Wrapped(IllegalArgument(UnknownEncoding(p.metadata[EncodingKey])))))
      ensures EncodingKey in p.metadata && p.metadata[EncodingKey] in converterMap
              && converterMap[p.metadata[EncodingKey]].fromData(p, t).Failure? ==>
                var e := converterMap[p.metadata[EncodingKey]].fromData(p, t).error;
                r == Failure(if e.DataConverterException? then e else DataConverterException(Wrapped(e)))
    {
      if EncodingKey !in p.metadata then
        Failure(Wrap(IllegalArgument(MissingEncodingMetadata)))
      else
        var encoding := p.metadata[EncodingKey];
        if encoding !in converterMap then
          Failure(Wrap(IllegalArgument(UnknownEncoding(encoding))))
        else
          match converterMap[encoding].fromData(p, t)
          case Success(v) => Success(v)
          case Failure(e) => Failure(Wrap(e))
    }

    /** Encodes any number of values; nothing (a null or empty argument)
        gives no payloads. */
    method ToPayloads(values: Option<seq<Value>>) returns (r: Result<Option<seq<Payload>>, Failure>)
      ensures r == PayloadsOf(converters, values)
    {
      if values.None? || |values.value| == 0 {
        return Success(None);
      }
      var vs := values.value;
      var ps: seq<Payload> := [];
      var i := 0;
      assert vs[0..] == vs;
      assert EncodeAll(converters, vs).Success? ==> [] + EncodeAll(converters, vs).value == EncodeAll(converters, vs).value;
      while i < |vs|
        invariant 0 <= i <= |vs|
        invariant Prepend(ps, EncodeAll(converters, vs[i..])) == EncodeAll(converters, vs)
      {
        assert vs[i..][0] == vs[i] && vs[i..][1..] == vs[i + 1..];
        var payload := ToPayload(vs[i]);
        if payload.Failure? {
          assert EncodeAll(converters, vs[i..]) == Failure(payload.error);
          return Failure(Wrap(payload.error));
        }
        ghost var rest := EncodeAll(converters, vs[i + 1..]);
        assert rest.Success? ==> ps + [payload.value] + rest.value == ps + ([payload.value] + rest.value);
        ps := ps + [payload.value];
        i := i + 1;
      }
      assert vs[i..] == [];
      assert ps + [] == ps;
      return Success(Some(ps));
    }

    /** Decodes the argument at `index`: absent content or an index past the
        end gives the type's default value (so that adding arguments stays
        backwards compatible); a negative index is rejected by the list. */
    function FromPayloads(index: int, content: Option<seq<Payload>>, t: ValueType,
                          defaultValue: ValueType -> Value): (r: Result<Value, Failure>)
      reads this
      ensures content.None? ==> r == Success(defaultValue(t))
      ensures content.Some? && index >= |content.value| ==> r == Success(defaultValue(t))
      ensures content.Some? && index < 0 ==> r == Failure(IndexOutOfBounds(index))
      ensures content.Some? && 0 <= index < |content.value| ==>
                r == FromPayload(content.value[index], t)
    {
      if content.None? then Success(defaultValue(t))
      else if index >= |content.value| then Success(defaultValue(t))
      else if index < 0 then Failure(IndexOutOfBounds(index))
      else FromPayload(content.value[index], t)
    }
  }

  /** Decoding dispatches to the last converter in the list whose encoding type
      is the payload's encoding. */
  lemma FromPayloadUsesLastOfType(dc: DefaultDataConverter, p: Payload, t: ValueType)
    requires dc.Valid()
    requires EncodingKey in p.metadata
    ensures dc.FromPayload(p, t).Success? ==>
              var i := LastOfType(dc.converters, p.metadata[EncodingKey]);
              0 <= i && dc.FromPayload(p, t) == dc.converters[i].fromData(p, t)
    ensures LastOfType(dc.converters, p.metadata[EncodingKey]) < 0 ==>
              dc.FromPayload(p, t)
              == Failure(DataConverterException(Wrapped(IllegalArgument(UnknownEncoding(p.metadata[EncodingKey])))))
  {
    ConverterMapIsLastOfType(dc.converters, p.metadata[EncodingKey]);
  }

  /** Adding trailing arguments is backwards compatible: decoding position
      `index` of a longer argument list gives the same result as before. */
  lemma FromPayloadsExtended(dc: DefaultDataConverter, index: int, ps: seq<Payload>,
                             extra: seq<Payload>, t: ValueType, defaultValue: ValueType -> Value)
    requires index < |ps|
    ensures dc.FromPayloads(index, Some(ps + extra), t, defaultValue)
         == dc.FromPayloads(index, Some(ps), t, defaultValue)
  {
    if 0 <= index {
      assert (ps + extra)[index] == ps[index];
    }
  }

  /** Round trip: when the list has distinct encoding types and each converter
      decodes what it encodes, decoding position `i` of the encoding of `vs`
      gives back `vs[i]`, and a position past the end gives the default. */
  lemma {:induction false} RoundTrip(dc: DefaultDataConverter, vs: seq<Value>, i: int, t: ValueType,
                                     defaultValue: ValueType -> Value)
    requires dc.Valid()
    requires DistinctEncodingTypes(dc.converters)
    requires PayloadsOf(dc.converters, Some(vs)).Success?
    requires 0 <= i
    requires i < |vs| ==> forall c :: c in dc.converters ==> RoundTrips(c, vs[i], t)
    ensures i < |vs| ==> dc.FromPayloads(i, PayloadsOf(dc.converters, Some(vs)).value, t, defaultValue)
                         == Success(vs[i])
    ensures i >= |vs| ==> dc.FromPayloads(i, PayloadsOf(dc.converters, Some(vs)).value, t, defaultValue)
                          == Success(defaultValue(t))
  {
    var cs := dc.converters;
    if vs != [] {
      EncodeAllOnePerValue(cs, vs);
      if i < |vs| {
        var ps := EncodeAll(cs, vs).value;
        var p := ps[i];
        FirstPayloadHasWinner(cs, vs[i]);
        var k :| 0 <= k < |cs|
                 && (forall j :: 0 <= j < k ==> cs[j].toData(vs[i]) == Success(None))
                 && cs[k].toData(vs[i]) == Success(Some(p));
        assert RoundTrips(cs[k], vs[i], t);
        ConverterMapSelectsLast(cs, k);
      }
    }
  }
}
