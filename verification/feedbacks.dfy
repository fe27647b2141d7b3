/** The feedback queries of the checklist-aware module: pure functions of the
    module's checklist state that tell a control surface the readiness of one
    action, of the whole current checklist, and the name, rank and action
    labels of the current checklist. */
module Feedbacks {
  import opened Wrappers
  import opened JsValues
  import Decimal

  /** One readiness action as stored for a position of a checklist. Both
      fields are kept as the remote application sent them. */
  datatype Action = Action(status: JsValue, text: JsValue)

  /** An entry of the checklist directory. */
  datatype Checklist = Checklist(id: string, name: string)

  /** The state the queries read.
      - `checklistActions`: checklist id to (1-based position to action);
      - `currentChecklistId`: the current checklist id as stored, `None` when
        it is `undefined` or `null`;
      - `checklists`: the checklist directory in display order. */
  datatype View = View(
    checklistActions: map<string, map<int, Action>>,
    currentChecklistId: Option<string>,
    checklists: seq<Checklist>)

  /** The guard `currentChecklistId && checklistActions[currentChecklistId]`:
      the current id is truthy (present and not the empty string). */
  predicate HasTruthyId(v: View) {
    v.currentChecklistId.Some? && v.currentChecklistId.value != ""
  }

  /** The property names a plain object inherits from `Object.prototype`.
      Reading one that is not an own key yields a function (or, for
      `__proto__`, the prototype object): a truthy value with no enumerable
      properties and no positions. */
  const InheritedNames: set<string> := {
    "constructor", "hasOwnProperty", "isPrototypeOf", "propertyIsEnumerable",
    "toLocaleString", "toString", "valueOf", "__proto__",
    "__defineGetter__", "__defineSetter__", "__lookupGetter__", "__lookupSetter__"
  }

  /** The action map of the current checklist, when the guard passes: the
      own entry for the id, or an empty map when the id only names an
      inherited property. */
  function CurrentActions(v: View): (r: Option<map<int, Action>>)
    ensures r.Some? <==> HasTruthyId(v) && (v.currentChecklistId.value in v.checklistActions
                                             || v.currentChecklistId.value in InheritedNames)
    ensures r.Some? && v.currentChecklistId.value in v.checklistActions ==>
              r.value == v.checklistActions[v.currentChecklistId.value]
    ensures r.Some? && v.currentChecklistId.value !in v.checklistActions ==> r.value == map[]
  {
    if !HasTruthyId(v) then None
    else if v.currentChecklistId.value in v.checklistActions
    then Some(v.checklistActions[v.currentChecklistId.value])
    else if v.currentChecklistId.value in InheritedNames then Some(map[])
    else None
  }

  /** With current id `"toString"` and no own entry for it, the guard still
      passes: the status falls back to `false`, the readiness is `false`, and
      the text is the empty string rather than `'No Checklist'`. */
  lemma InheritedNameExample()
    ensures var v := View(map[], Some("toString"), []);
            && CurrentActions(v) == Some(map[])
            && StatusAt(v, 1) == Bool(false)
            && !ReadyByPositions(v)
            && ActionName(v, 1) == Str("")
  {
  }

  // ---------------------------------------------------------------------
  // RaceReadyState: status of the action at a position
  // ---------------------------------------------------------------------

  /** The status stored at `position` of the current checklist, or `false`
      when there is no current checklist, no map for it, or no action there.
      The query never fails. */
  function StatusAt(v: View, position: int): (r: JsValue)
    ensures CurrentActions(v).None? ==> r == Bool(false)
    ensures CurrentActions(v).Some? && position in CurrentActions(v).value ==>
              r == CurrentActions(v).value[position].status
    ensures CurrentActions(v).Some? && position !in CurrentActions(v).value ==> r == Bool(false)
  {
    match CurrentActions(v)
    case None => Bool(false)
    case Some(m) => if position in m then m[position].status else Bool(false)
  }

  // ---------------------------------------------------------------------
  // RaceReadyOverallState: readiness of the whole current checklist
  // ---------------------------------------------------------------------

  /** Readiness as the feedback defines it: a current map exists, it is not
      empty, and no position holds a status strictly equal to `false`. */
  predicate ReadyByPositions(v: View) {
    CurrentActions(v).Some?
    && |CurrentActions(v).value| > 0
    && forall p :: p in CurrentActions(v).value ==> StatusAt(v, p) != Bool(false)
  }

  /** Every action of the current checklist carries a boolean status. */
  predicate BooleanStatuses(v: View) {
    CurrentActions(v).Some?
    && forall p :: p in CurrentActions(v).value ==> CurrentActions(v).value[p].status.Bool?
  }

  lemma NonEmptyHasMember(s: set<int>)
    requires s != {}
    ensures exists x :: x in s
  {
    if forall x :: x !in s {
      assert false;
    }
  }

  /** The overall-state callback: walks the positions of the current map,
      answers `false` at the first status `=== false`, and otherwise answers
      whether the map has any position at all. */
  method OverallState(v: View) returns (ready: bool)
    ensures ready <==> ReadyByPositions(v)
    ensures CurrentActions(v).None? ==> !ready
    ensures CurrentActions(v).Some? && |CurrentActions(v).value| == 0 ==> !ready
    ensures BooleanStatuses(v) ==>
              (ready <==> |CurrentActions(v).value| > 0
                          && forall p :: p in CurrentActions(v).value ==> CurrentActions(v).value[p].status == Bool(true))
  {
    var current := CurrentActions(v);
    if current.None? {
      return false;
    }
    var actions: map<int, Action> := current.value;
    var pending: set<int> := actions.Keys;
    while pending != {}
      invariant pending <= actions.Keys
      invariant forall p :: p in actions.Keys - pending ==> actions[p].status != Bool(false)
      decreases pending
    {
      NonEmptyHasMember(pending);
      var p :| p in pending;
      if actions[p].status == Bool(false) {
        assert StatusAt(v, p) == Bool(false);
        return false;
      }
      pending := pending - {p};
    }
    ready := |actions| > 0;
  }

  // ---------------------------------------------------------------------
  // CurrentChecklistName / CurrentChecklistIndex
  // ---------------------------------------------------------------------

  /** `checklists.findIndex(cl => cl.id === currentChecklistId)`: the first
      position whose id is strictly equal to the current id, if any. */
  function FindCurrent(checklists: seq<Checklist>, current: Option<string>): (r: Option<nat>)
    ensures r.Some? ==> r.value < |checklists| && current == Some(checklists[r.value].id)
    ensures r.Some? ==> forall j :: 0 <= j < r.value ==> current != Some(checklists[j].id)
    ensures r.None? <==> forall j :: 0 <= j < |checklists| ==> current != Some(checklists[j].id)
    decreases |checklists|
  {
    if |checklists| == 0 then None
    else if current == Some(checklists[0].id) then Some(0)
    else
      match FindCurrent(checklists[1..], current)
      case None => None
      case Some(i) => Some(i + 1)
  }

  /** The name of the first checklist whose id is the current id, or
      `'Unknown'` when none matches. */
  function ChecklistName(v: View): (name: string)
    ensures (exists i :: 0 <= i < |v.checklists| && v.currentChecklistId == Some(v.checklists[i].id))
            ==> exists i :: 0 <= i < |v.checklists| && name == v.checklists[i].name
                            && v.currentChecklistId == Some(v.checklists[i].id)
                            && forall j :: 0 <= j < i ==> v.currentChecklistId != Some(v.checklists[j].id)
    ensures (forall i :: 0 <= i < |v.checklists| ==> v.currentChecklistId != Some(v.checklists[i].id))
            ==> name == "Unknown"
  {
    match FindCurrent(v.checklists, v.currentChecklistId)
    case Some(i) => v.checklists[i].name
    case None => "Unknown"
  }

  /** The 1-based `rank/total` label of the current checklist, or `'N/A'`
      when no checklist matches the current id. */
  function ChecklistIndexLabel(v: View): (shown: string)
    ensures FindCurrent(v.checklists, v.currentChecklistId).None? <==> shown == "N/A"
  {
    match FindCurrent(v.checklists, v.currentChecklistId)
    case Some(i) =>
      var rank := Decimal.NatToString(i + 1);
      var text := rank + "/" + Decimal.NatToString(|v.checklists|);
      assert text[0] == rank[0] && !Decimal.IsDigit('N');
      text
    case None => "N/A"
  }

  /** A rank/total label read back. */
  datatype RankLabel = RankLabel(rank: nat, total: nat)

  /** The position of the first `/` of a string, if any. */
  function FirstSlash(s: string): (r: Option<nat>)
    ensures r.Some? ==> r.value < |s| && s[r.value] == '/'
    ensures r.Some? ==> forall j :: 0 <= j < r.value ==> s[j] != '/'
    ensures r.None? ==> forall j :: 0 <= j < |s| ==> s[j] != '/'
    decreases |s|
  {
    if |s| == 0 then None
    else if s[0] == '/' then Some(0)
    else
      match FirstSlash(s[1..])
      case None => None
      case Some(k) => Some(k + 1)
  }

  /** Reads `rank/total` back: a canonical numeral, the first `/`, and a
      canonical numeral. Anything else reads back as nothing. */
  function ParseRankLabel(shown: string): (r: Option<RankLabel>)
  {
    match FirstSlash(shown)
    case None => None
    case Some(k) =>
      if Decimal.IsDecimal(shown[..k]) && Decimal.IsDecimal(shown[k + 1..])
      then Some(RankLabel(Decimal.ParseNat(shown[..k]), Decimal.ParseNat(shown[k + 1..])))
      else None
  }

  /** A string that reads back as a rank and a total is the canonical
      printing of that pair. */
  lemma ParsedLabelIsPrinted(s: string)
    requires ParseRankLabel(s).Some?
    ensures s == Decimal.NatToString(ParseRankLabel(s).value.rank) + "/"
                 + Decimal.NatToString(ParseRankLabel(s).value.total)
  {
    var k := FirstSlash(s).value;
    var front := s[..k];
    var back := s[k + 1..];
    Decimal.CanonicalIsPrinted(front);
    Decimal.CanonicalIsPrinted(back);
    assert s == front + "/" + back;
  }

  /** Two strings that read back as the same rank and total are the same
      string, so a rank label is fixed by the pair it denotes. */
  lemma RankLabelIsCanonical(s: string, t: string)
    requires ParseRankLabel(s).Some? && ParseRankLabel(s) == ParseRankLabel(t)
    ensures s == t
  {
    ParsedLabelIsPrinted(s);
    ParsedLabelIsPrinted(t);
  }

  /** In `a/b` with `a` made of digits, the first `/` is the one after `a`. */
  lemma FirstSlashAfterDigits(a: string, b: string)
    requires Decimal.IsDigits(a)
    ensures FirstSlash(a + "/" + b) == Some(|a|)
  {
    var s := a + "/" + b;
    assert s[|a|] == '/';
    assert forall j :: 0 <= j < |a| ==> s[j] == a[j];
  }

  /** The printing of a pair reads back as that pair. */
  lemma PrintedLabelReadsBack(rank: nat, total: nat)
    ensures ParseRankLabel(Decimal.NatToString(rank) + "/" + Decimal.NatToString(total))
            == Some(RankLabel(rank, total))
  {
    var a := Decimal.NatToString(rank);
    var b := Decimal.NatToString(total);
    var s := a + "/" + b;
    FirstSlashAfterDigits(a, b);
    assert s[..|a|] == a && s[|a| + 1..] == b;
    Decimal.ParsePrinted(rank);
    Decimal.ParsePrinted(total);
  }

  /** The fallback `N/A` does not read back as a rank label. */
  lemma FallbackIsNoRankLabel()
    ensures ParseRankLabel("N/A").None?
  {
    var s := "N/A";
    assert FirstSlash(s[2..]) == None;
    assert FirstSlash(s[1..]) == Some(0);
    assert FirstSlash(s) == Some(1);
    assert s[..1] == "N";
    assert !Decimal.IsDigit('N');
  }

  /** The index label, when a checklist matches, reads back as a rank and a
      total with `1 <= rank <= total == |checklists|`, and the checklist at
      that rank is the first one carrying the current id; otherwise it reads
      back as nothing. */
  lemma IndexLabelReadsBack(v: View)
    ensures FindCurrent(v.checklists, v.currentChecklistId).None? ==> ParseRankLabel(ChecklistIndexLabel(v)).None?
    ensures FindCurrent(v.checklists, v.currentChecklistId).Some? ==>
              var r := ParseRankLabel(ChecklistIndexLabel(v));
              && r.Some?
              && 1 <= r.value.rank <= r.value.total == |v.checklists|
              && v.currentChecklistId == Some(v.checklists[r.value.rank - 1].id)
              && forall j :: 0 <= j < r.value.rank - 1 ==> v.currentChecklistId != Some(v.checklists[j].id)
  {
    match FindCurrent(v.checklists, v.currentChecklistId)
    case None =>
      FallbackIsNoRankLabel();
    case Some(i) =>
      PrintedLabelReadsBack(i + 1, |v.checklists|);
  }

  // ---------------------------------------------------------------------
  // ActionNameByPosition: label of the action at a position
  // ---------------------------------------------------------------------

  /** The text stored at `position` of the current checklist; the empty
      string for an empty slot of an existing map; `'No Checklist'` when
      there is no current checklist or no map for it. */
  function ActionName(v: View, position: int): (text: JsValue)
    ensures CurrentActions(v).None? ==> text == Str("No Checklist")
    ensures CurrentActions(v).Some? && position in CurrentActions(v).value ==>
              text == CurrentActions(v).value[position].text
    ensures CurrentActions(v).Some? && position !in CurrentActions(v).value ==> text == Str("")
  {
    match CurrentActions(v)
    case None => Str("No Checklist")
    case Some(m) => if position in m then m[position].text else Str("")
  }

  /** The status and the text at a position come from the same stored
      action when there is one; when there is none, the status falls back to
      `false` in both cases while the text tells the two cases apart. */
  lemma StatusAndNameAgree(v: View, position: int)
    ensures CurrentActions(v).Some? && position in CurrentActions(v).value ==>
              var a := CurrentActions(v).value[position];
              StatusAt(v, position) == a.status && ActionName(v, position) == a.text
    ensures CurrentActions(v).None? ==>
              StatusAt(v, position) == Bool(false) && ActionName(v, position) == Str("No Checklist")
    ensures CurrentActions(v).Some? && position !in CurrentActions(v).value ==>
              StatusAt(v, position) == Bool(false) && ActionName(v, position) == Str("")
  {
  }

  /** Unless a stored text is itself `'No Checklist'`, the text query shows
      that sentinel exactly when there is no current checklist map, and the
      empty string exactly at an empty slot of an existing map; the status
      query shows `false` in both cases. */
  lemma TextFallbacksTellContextApart(v: View, position: int)
    requires CurrentActions(v).Some? ==>
               forall p :: p in CurrentActions(v).value ==> CurrentActions(v).value[p].text != Str("No Checklist")
    ensures ActionName(v, position) == Str("No Checklist") <==> CurrentActions(v).None?
    ensures CurrentActions(v).Some? ==>
              (position !in CurrentActions(v).value ==> ActionName(v, position) == Str(""))
    ensures ActionName(v, position) == Str("No Checklist") ==> StatusAt(v, position) == Bool(false)
  {
  }

  /** Two worked cases: the directory `[A 'Pre-Race', B 'Post-Race']` with
      current id `B` shows `'Post-Race'` at `2/2`; with no current id it shows
      `'Unknown'` and `N/A`. */
  lemma DirectoryExample()
    ensures var dir := [Checklist("A", "Pre-Race"), Checklist("B", "Post-Race")];
            var v := View(map[], Some("B"), dir);
            ChecklistName(v) == "Post-Race" && ChecklistIndexLabel(v) == "2/2"
    ensures var dir := [Checklist("A", "Pre-Race"), Checklist("B", "Post-Race")];
            var v := View(map[], None, dir);
            ChecklistName(v) == "Unknown" && ChecklistIndexLabel(v) == "N/A"
  {
    var dir := [Checklist("A", "Pre-Race"), Checklist("B", "Post-Race")];
    assert FindCurrent(dir[1..], Some("B")) == Some(0);
  }
}
