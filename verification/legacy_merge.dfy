/** The legacy flat merge of the module's catch-all event handler: every
    inbound event's first argument is walked entry by entry, each entry that
    carries an `id` overwrites the module's per-id state with a coerced
    status and the entry's text, and afterwards one `actiontext<id>` variable
    is exported per id the state holds. */
module LegacyMerge {
  import opened Wrappers
  import opened JsValues

  /** One value of the event payload, `args[0][key]`, in for-in order.
      `Nullish` is `null` or `undefined`, whose properties cannot be read;
      any other value is an `Entry` whose absent properties read as
      `Undefined` (a primitive such as a number or a string has none). */
  datatype PayloadValue =
    | Nullish
    | Entry(id: JsValue, status: JsValue, text: JsValue)

  type Payload = seq<PayloadValue>

  /** What the module keeps per id: `{status: !!status, text}`. */
  datatype Slot = Slot(status: bool, text: JsValue)

  /** The module's `state` object: property key to slot. */
  type State = map<string, Slot>

  const TextVariablePrefix: string := "actiontext"

  /** The entry has an `id` other than `undefined`, so it is merged. */
  predicate Carries(e: PayloadValue) {
    e.Entry? && e.id != Undefined
  }

  /** The state key an id-bearing entry writes. */
  function KeyOf(e: PayloadValue): (key: string)
    requires Carries(e)
  {
    ToPropertyKey(e.id)
  }

  /** The entry is merged and writes key `k`. */
  predicate Names(e: PayloadValue, k: string) {
    Carries(e) && KeyOf(e) == k
  }

  /** The slot an entry stores, with its status coerced by `!!`. */
  function SlotOf(e: PayloadValue): (s: Slot)
    requires e.Entry?
  {
    Slot(ToBoolean(e.status), e.text)
  }

  /** One step of the loop: an id-bearing entry overwrites its key and
      nothing else; any other value leaves the state as it is. */
  function Upsert(st: State, e: PayloadValue): (r: State)
    ensures !Carries(e) ==> r == st
    ensures Carries(e) ==> r.Keys == st.Keys + {KeyOf(e)} && r[KeyOf(e)] == SlotOf(e)
    ensures forall k :: k in st && !Names(e, k) ==> k in r && r[k] == st[k]
  {
    if Carries(e) then st[KeyOf(e) := SlotOf(e)] else st
  }

  /** The position of the last entry of `p` that writes key `k`, if any. */
  function LastNaming(p: Payload, k: string): (r: Option<nat>)
    ensures r.Some? ==> r.value < |p| && Names(p[r.value], k)
    ensures r.Some? ==> forall j :: r.value < j < |p| ==> !Names(p[j], k)
    ensures r.None? <==> forall j :: 0 <= j < |p| ==> !Names(p[j], k)
    decreases |p|
  {
    if |p| == 0 then None
    else if Names(p[|p| - 1], k) then Some(|p| - 1)
    else LastNaming(p[..|p| - 1], k)
  }

  /** What the merge of `p` into `st` leaves at key `k` in `r`: the slot of
      the last entry of `p` that writes `k`, and when no entry writes it,
      exactly what `st` had there (including nothing). */
  predicate MergedAt(st: State, p: Payload, r: State, k: string) {
    match LastNaming(p, k)
    case Some(j) => k in r && r[k] == SlotOf(p[j])
    case None => (k in r <==> k in st) && (k in st ==> r[k] == st[k])
  }

  /** The merge of one payload into the state, entries taken in order. A
      key ends up holding the slot of the last entry that writes it; a key
      no entry writes keeps what it had, and no key is ever removed. */
  function Merge(st: State, p: Payload): (r: State)
    ensures forall k :: MergedAt(st, p, r, k)
    ensures st.Keys <= r.Keys
    decreases |p|
  {
    if |p| == 0 then st
    else
      var prefix := p[..|p| - 1];
      var last := p[|p| - 1];
      var before := Merge(st, prefix);
      var r := Upsert(before, last);
      assert forall k :: MergedAt(st, p, r, k) by {
        forall k
          ensures MergedAt(st, p, r, k)
        {
          assert MergedAt(st, prefix, before, k);
        }
      }
      r
  }

  /** The keys written by a payload. */
  function Written(p: Payload): (keys: set<string>) {
    set j | 0 <= j < |p| && Carries(p[j]) :: KeyOf(p[j])
  }

  /** The merged state's keys are the old keys plus the keys the payload's
      id-bearing entries write: the state only grows. */
  lemma MergeKeys(st: State, p: Payload)
    ensures Merge(st, p).Keys == st.Keys + Written(p)
  {
    var r := Merge(st, p);
    forall k | k in Written(p)
      ensures k in r
    {
      var j :| 0 <= j < |p| && Carries(p[j]) && KeyOf(p[j]) == k;
      assert Names(p[j], k);
      assert MergedAt(st, p, r, k);
    }
    forall k | k in r
      ensures k in st.Keys + Written(p)
    {
      assert MergedAt(st, p, r, k);
      if k !in st {
        var j := LastNaming(p, k).value;
        assert Carries(p[j]) && KeyOf(p[j]) == k;
      }
    }
  }

  /** An entry that is not written by the payload keeps its slot: the merge
      is not destructive. */
  lemma MergeLeavesOthers(st: State, p: Payload, k: string)
    requires k in st
    requires forall j :: 0 <= j < |p| ==> !Names(p[j], k)
    ensures k in Merge(st, p) && Merge(st, p)[k] == st[k]
  {
    assert MergedAt(st, p, Merge(st, p), k);
  }

  /** Each id-bearing entry that no later entry overrides determines its
      key's slot: the status is the truthiness of the sent status, whatever
      its type, and the text is the sent text. */
  lemma MergeStoresLastEntry(st: State, p: Payload, j: nat)
    requires j < |p| && Carries(p[j])
    requires forall l :: j < l < |p| ==> !Names(p[l], KeyOf(p[j]))
    ensures KeyOf(p[j]) in Merge(st, p)
    ensures Merge(st, p)[KeyOf(p[j])] == Slot(ToBoolean(p[j].status), p[j].text)
  {
    var k := KeyOf(p[j]);
    LastNamingUnique(p, k, j);
    assert MergedAt(st, p, Merge(st, p), k);
  }

  /** A naming position with no naming position after it is the one
      `LastNaming` finds. */
  lemma {:induction false} LastNamingUnique(p: Payload, k: string, l: nat)
    requires l < |p| && Names(p[l], k)
    requires forall j :: l < j < |p| ==> !Names(p[j], k)
    ensures LastNaming(p, k) == Some(l)
    decreases |p|
  {
    if l < |p| - 1 {
      var prefix := p[..|p| - 1];
      assert !Names(p[|p| - 1], k);
      assert prefix[l] == p[l];
      LastNamingUnique(prefix, k, l);
    }
  }

  /** `p` without its entry at position `i`. */
  function Without(p: Payload, i: nat): (q: Payload)
    requires i < |p|
    ensures |q| == |p| - 1
    ensures forall m :: 0 <= m < i ==> q[m] == p[m]
    ensures forall m :: i <= m < |q| ==> q[m] == p[m + 1]
  {
    seq(|p| - 1, m requires 0 <= m < |p| - 1 => if m < i then p[m] else p[m + 1])
  }

  /** Removing an entry before the last one that writes `k` shifts that
      last position down by one. */
  lemma LastNamingWithout(p: Payload, i: nat, k: string)
    requires i < |p| && LastNaming(p, k).Some? && LastNaming(p, k).value > i
    ensures LastNaming(Without(p, i), k) == Some(LastNaming(p, k).value - 1)
  {
    var q := Without(p, i);
    var l := LastNaming(p, k).value;
    assert Names(q[l - 1], k) by {
      assert q[l - 1] == p[l];
    }
    forall m | l - 1 < m < |q|
      ensures !Names(q[m], k)
    {
      assert q[m] == p[m + 1];
    }
    LastNamingUnique(q, k, l - 1);
  }

  /** An earlier entry for an id that a later entry also writes has no
      effect on that id: dropping it from the payload leaves the id's slot
      as it was. */
  lemma LaterEntryWins(st: State, p: Payload, i: nat, j: nat, k: string)
    requires i < j < |p|
    requires Names(p[i], k) && Names(p[j], k)
    ensures k in Merge(st, p) && k in Merge(st, Without(p, i))
    ensures Merge(st, p)[k] == Merge(st, Without(p, i))[k]
  {
    var l := LastNaming(p, k).value;
    assert l >= j;
    LastNamingWithout(p, i, k);
    assert Without(p, i)[l - 1] == p[l];
    assert MergedAt(st, p, Merge(st, p), k);
    assert MergedAt(st, Without(p, i), Merge(st, Without(p, i)), k);
  }

  /** Merging a payload extended by one entry is one more step. */
  lemma MergeSnoc(st: State, p: Payload, e: PayloadValue)
    ensures Merge(st, p + [e]) == Upsert(Merge(st, p), e)
  {
    assert (p + [e])[..|p|] == p;
  }

  /** Merging a payload split in two is merging the halves one after the
      other. */
  lemma {:induction false} MergeConcat(st: State, p: Payload, q: Payload)
    ensures Merge(st, p + q) == Merge(Merge(st, p), q)
    decreases |q|
  {
    if |q| == 0 {
      assert p + q == p;
    } else {
      var q' := q[..|q| - 1];
      assert (p + q)[..|p + q| - 1] == p + q';
      assert (p + q)[|p + q| - 1] == q[|q| - 1];
      MergeConcat(st, p, q');
    }
  }

  /** Merging the same payload a second time changes nothing. */
  lemma MergeIdempotent(st: State, p: Payload)
    ensures Merge(Merge(st, p), p) == Merge(st, p)
  {
    var once := Merge(st, p);
    var twice := Merge(once, p);
    forall k
      ensures k in twice <==> k in once
      ensures k in once ==> twice[k] == once[k]
    {
      assert MergedAt(st, p, once, k);
      assert MergedAt(once, p, twice, k);
    }
    assert twice.Keys == once.Keys;
  }

  /** The payload with every entry that is not merged removed. */
  function IdBearing(p: Payload): (q: Payload)
    ensures forall j :: 0 <= j < |q| ==> Carries(q[j])
    ensures |q| <= |p|
    decreases |p|
  {
    if |p| == 0 then []
    else IdBearing(p[..|p| - 1]) + (if Carries(p[|p| - 1]) then [p[|p| - 1]] else [])
  }

  /** Entries without an `id` (and values without properties) are skipped:
      the merge of the payload equals the merge of its id-bearing entries. */
  lemma {:induction false} IdlessEntriesSkipped(st: State, p: Payload)
    ensures Merge(st, IdBearing(p)) == Merge(st, p)
    decreases |p|
  {
    if |p| > 0 {
      var prefix := p[..|p| - 1];
      var e := p[|p| - 1];
      IdlessEntriesSkipped(st, prefix);
      assert p == prefix + [e];
      MergeSnoc(st, prefix, e);
      if Carries(e) {
        MergeSnoc(st, IdBearing(prefix), e);
      } else {
        assert IdBearing(p) == IdBearing(prefix);
      }
    }
  }

  // ---------------------------------------------------------------------
  // Variable export
  // ---------------------------------------------------------------------

  predicate IsTextVariable(name: string) {
    |name| >= |TextVariablePrefix| && name[..|TextVariablePrefix|] == TextVariablePrefix
  }

  /** The state key a text variable exports: the name without its prefix. */
  function VariableKey(name: string): (key: string)
    requires IsTextVariable(name)
  {
    name[|TextVariablePrefix|..]
  }

  lemma PrefixedKeyReadsBack(k: string)
    ensures IsTextVariable(TextVariablePrefix + k)
    ensures VariableKey(TextVariablePrefix + k) == k
  {
    assert (TextVariablePrefix + k)[..|TextVariablePrefix|] == TextVariablePrefix;
    assert (TextVariablePrefix + k)[|TextVariablePrefix|..] == k;
  }

  /** The exported variables: one `actiontext<k>` per key `k` of the state,
      holding that key's text, and no other variable. */
  function ExportTexts(st: State): (vars: map<string, JsValue>)
    ensures forall k :: k in st ==> TextVariablePrefix + k in vars && vars[TextVariablePrefix + k] == st[k].text
    ensures forall name :: name in vars ==>
              IsTextVariable(name) && VariableKey(name) in st && vars[name] == st[VariableKey(name)].text
  {
    forall k ensures VariableKey(TextVariablePrefix + k) == k {
      PrefixedKeyReadsBack(k);
    }
    map k | k in st :: TextVariablePrefix + k := st[k].text
  }

  // ---------------------------------------------------------------------
  // The event handler
  // ---------------------------------------------------------------------

  /** What one event leaves behind: the state and the variables handed to
      the host, or only the state when the handler threw midway. */
  datatype EventOutcome =
    | Completed(state: State, variables: map<string, JsValue>)
    | Threw(state: State)

  /** The handler as intended: the payload is merged, nullish values
      skipped like id-less ones, and every text variable is exported. */
  function OnAny(st: State, p: Payload): (out: EventOutcome)
    ensures out.Completed?
    ensures out.state == Merge(st, IdBearing(p))
    ensures st.Keys <= out.state.Keys
    ensures forall k :: k in out.state ==>
              TextVariablePrefix + k in out.variables && out.variables[TextVariablePrefix + k] == out.state[k].text
    ensures forall name :: name in out.variables ==>
              IsTextVariable(name) && VariableKey(name) in out.state
              && out.variables[name] == out.state[VariableKey(name)].text
  {
    IdlessEntriesSkipped(st, p);
    var merged := Merge(st, p);
    Completed(merged, ExportTexts(merged))
  }

  /** The handler's loop as written: reading `["id"]` of a `null` or
      `undefined` payload value throws, which stops the loop with the
      earlier entries already stored and skips the export. */
  datatype LoopResult = Finished(state: State) | Aborted(state: State)

  function LoopAsWritten(st: State, p: Payload): (r: LoopResult)
    ensures r.Aborted? <==> exists j :: 0 <= j < |p| && p[j].Nullish?
    ensures st.Keys <= r.state.Keys
    decreases |p|
  {
    if |p| == 0 then Finished(st)
    else if p[0].Nullish? then Aborted(st)
    else LoopAsWritten(Upsert(st, p[0]), p[1..])
  }

  /** The handler as written: it throws exactly when the payload holds a
      nullish value, keeps every key it had either way, and exports the
      text variables only when it completes. */
  function OnAnyAsWritten(st: State, p: Payload): (out: EventOutcome)
    ensures out.Threw? <==> exists j :: 0 <= j < |p| && p[j].Nullish?
    ensures st.Keys <= out.state.Keys
    ensures out.Completed? ==> forall k :: k in out.state ==>
              TextVariablePrefix + k in out.variables && out.variables[TextVariablePrefix + k] == out.state[k].text
  {
    match LoopAsWritten(st, p)
    case Finished(s) => Completed(s, ExportTexts(s))
    case Aborted(s) => Threw(s)
  }

  /** Without nullish values in the payload, the handler as written and the
      handler as intended agree. */
  lemma {:induction false} AsWrittenAgreesWithoutNullish(st: State, p: Payload)
    requires forall j :: 0 <= j < |p| ==> p[j].Entry?
    ensures LoopAsWritten(st, p) == Finished(Merge(st, p))
    ensures OnAnyAsWritten(st, p) == OnAny(st, p)
    decreases |p|
  {
    if |p| > 0 {
      AsWrittenAgreesWithoutNullish(Upsert(st, p[0]), p[1..]);
      assert [p[0]] + p[1..] == p;
      MergeConcat(st, [p[0]], p[1..]);
      assert Merge(st, [p[0]]) == Upsert(st, p[0]) by {
        assert [p[0]][..0] == [];
      }
    }
  }

  /** With a nullish value at position `i` and none before, the handler as
      written throws with exactly the entries before `i` merged. */
  lemma {:induction false} AsWrittenThrowsAtFirstNullish(st: State, p: Payload, i: nat)
    requires i < |p| && p[i].Nullish?
    requires forall j :: 0 <= j < i ==> p[j].Entry?
    ensures OnAnyAsWritten(st, p) == Threw(Merge(st, p[..i]))
    decreases i
  {
    if i == 0 {
      assert p[..0] == [];
    } else {
      AsWrittenThrowsAtFirstNullish(Upsert(st, p[0]), p[1..], i - 1);
      assert p[1..][..i - 1] == p[1..i];
      assert [p[0]] + p[1..i] == p[..i];
      MergeConcat(st, [p[0]], p[1..i]);
      assert Merge(st, [p[0]]) == Upsert(st, p[0]) by {
        assert [p[0]][..0] == [];
      }
    }
  }

  /** The payload `[null, {id: 1, status: true, text: 'Fuel'}]`: as written,
      the handler throws before storing anything and exports nothing; as
      intended, it stores id `"1"` as ready. */
  lemma NullishValueAbortsMerge()
    ensures var p := [Nullish, Entry(Num(1), Bool(true), Str("Fuel"))];
            && OnAnyAsWritten(map[], p) == Threw(map[])
            && OnAny(map[], p).state == map["1" := Slot(true, Str("Fuel"))]
  {
    var p := [Nullish, Entry(Num(1), Bool(true), Str("Fuel"))];
    assert KeyOf(p[1]) == "1";
    assert p[..1] == [Nullish];
    assert Merge(map[], p[..1]) == map[] by {
      assert p[..1][..0] == [];
    }
  }

  // ---------------------------------------------------------------------
  // Across events
  // ---------------------------------------------------------------------

  /** The state after a sequence of events, starting from `st`. The state
      is never cleared between events. */
  function Replay(st: State, events: seq<Payload>): (r: State)
    decreases |events|
  {
    if |events| == 0 then st
    else Merge(Replay(st, events[..|events| - 1]), events[|events| - 1])
  }

  function Flatten(events: seq<Payload>): (p: Payload)
    decreases |events|
  {
    if |events| == 0 then []
    else Flatten(events[..|events| - 1]) + events[|events| - 1]
  }

  /** A run of events is one merge of all their entries in order, so keys
      accumulate across events and are never dropped. */
  lemma {:induction false} ReplayIsOneMerge(st: State, events: seq<Payload>)
    ensures Replay(st, events) == Merge(st, Flatten(events))
    ensures st.Keys <= Replay(st, events).Keys
    decreases |events|
  {
    if |events| > 0 {
      var prefix := events[..|events| - 1];
      ReplayIsOneMerge(st, prefix);
      MergeConcat(st, Flatten(prefix), events[|events| - 1]);
    }
  }

  /** An id sent as the number `1` and one sent as the string `"1"` address
      the same slot; `!!` turns a status of `1` or `"0"` into `true`. */
  lemma NumericAndStringIdsShareSlot()
    ensures var p := [Entry(Num(1), Num(1), Str("Fuel")), Entry(Str("1"), Str("0"), Str("Tyres"))];
            Merge(map[], p) == map["1" := Slot(true, Str("Tyres"))]
  {
    var p := [Entry(Num(1), Num(1), Str("Fuel")), Entry(Str("1"), Str("0"), Str("Tyres"))];
    assert KeyOf(p[0]) == "1" && KeyOf(p[1]) == "1";
    assert p[..1][..0] == [];
  }
}
