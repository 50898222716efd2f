/**
 Merging alert overrides into the table of alert definitions (the step of parse_alerts_yaml at the end of an
 item).
 */
module Alerts {
  import opened Wrappers

  const NUMBER_OF_ALERTS := 64

  datatype AlertType = Query | Connection
  datatype Operator = GT | LT | GE | LE | EQ | NE
  datatype Targets = Targets(all: bool, names: seq<string>)

  datatype Alert = Alert(name: string, description: string, query: string, alertType: AlertType,
                         operator: Operator, threshold: int, servers: Targets)

  /** The bits of the override mask, one for each field an item can set. */
  datatype Field = DescriptionField | QueryField | TypeField | OperatorField | ThresholdField | ServersField

  /** One parsed item: the definition read so far and which of its fields were given. */
  datatype Item = Item(alert: Alert, overrides: set<Field>)

  datatype Value = Text(text: string) | OfType(alertType: AlertType) | OfOperator(operator: Operator)
                 | Number(number: int) | OfTargets(targets: Targets)

  function Get(alert: Alert, field: Field): Value {
    match field
    case DescriptionField => Text(alert.description)
    case QueryField => Text(alert.query)
    case TypeField => OfType(alert.alertType)
    case OperatorField => OfOperator(alert.operator)
    case ThresholdField => Number(alert.threshold)
    case ServersField => OfTargets(alert.servers)
  }

  /** A zeroed definition, which is what an item starts from. */
  function Zeroed(name: string): Alert {
    Alert(name, "", "", Query, GT, 0, Targets(false, []))
  }

  /** Fields that an item does not give are still zero. */
  ghost predicate Proper(item: Item) {
    forall field :: field !in item.overrides ==> Get(item.alert, field) == Get(Zeroed(item.alert.name), field)
  }

  ghost predicate AllProper(items: seq<Item>) {
    forall k :: 0 <= k < |items| ==> Proper(items[k])
  }

  /** The alert with the fields the item gives replaced, one by one as the mask says. */
  function Overridden(alert: Alert, item: Item): Alert {
    alert.(description := if DescriptionField in item.overrides then item.alert.description else alert.description,
           query := if QueryField in item.overrides then item.alert.query else alert.query,
           alertType := if TypeField in item.overrides then item.alert.alertType else alert.alertType,
           operator := if OperatorField in item.overrides then item.alert.operator else alert.operator,
           threshold := if ThresholdField in item.overrides then item.alert.threshold else alert.threshold,
           servers := if ServersField in item.overrides then item.alert.servers else alert.servers)
  }

  /** The position of the first alert of that name, or the number of alerts. */
  function Position(alerts: seq<Alert>, name: string): (i: nat)
    ensures i <= |alerts|
    ensures i < |alerts| ==> alerts[i].name == name
    ensures forall j :: 0 <= j < i ==> alerts[j].name != name
  {
    if alerts == [] || alerts[0].name == name then 0 else 1 + Position(alerts[1..], name)
  }

  function Appended(alerts: seq<Alert>, item: Item): seq<Alert> {
    if |alerts| < NUMBER_OF_ALERTS then alerts + [item.alert] else alerts
  }

  function MergedItem(alerts: seq<Alert>, item: Item): seq<Alert> {
    if item.alert.name == "" then alerts
    else
      var i := Position(alerts, item.alert.name);
      if i < |alerts| then alerts[i := Overridden(alerts[i], item)] else Appended(alerts, item)
  }

  function Merged(alerts: seq<Alert>, items: seq<Item>): seq<Alert> {
    if items == [] then alerts
    else MergedItem(Merged(alerts, items[..|items| - 1]), items[|items| - 1])
  }

  /** The initial load appends whatever has a name. */
  function Loaded(alerts: seq<Alert>, items: seq<Item>): seq<Alert> {
    if items == [] then alerts
    else
      var before := Loaded(alerts, items[..|items| - 1]);
      if items[|items| - 1].alert.name == "" then before else Appended(before, items[|items| - 1])
  }

  // ----- the table, updated in place -----

  class AlertTable {
    var alerts: array<Alert>
    var numberOfAlerts: nat

    ghost predicate Valid()
      reads this
    {
      alerts.Length == NUMBER_OF_ALERTS && numberOfAlerts <= NUMBER_OF_ALERTS
    }

    ghost function Contents(): seq<Alert>
      requires Valid()
      reads this, alerts
    {
      alerts[..numberOfAlerts]
    }

    /** Returns false when the table is full. */
    method Append(item: Item) returns (ok: bool)
      requires Valid()
      modifies this`numberOfAlerts, alerts
      ensures Valid() && Contents() == Appended(old(Contents()), item)
      ensures ok <==> old(numberOfAlerts) < NUMBER_OF_ALERTS
    {
      ok := numberOfAlerts < NUMBER_OF_ALERTS;
      if ok {
        alerts[numberOfAlerts] := item.alert;
        numberOfAlerts := numberOfAlerts + 1;
      }
    }

    /** Overwrites the fields of one alert that the item gives. */
    method Override(i: nat, item: Item)
      requires Valid() && i < numberOfAlerts
      modifies alerts
      ensures Valid() && Contents() == old(Contents())[i := Overridden(old(alerts[i]), item)]
    {
      ghost var was := alerts[..];
      var alert := alerts[i];
      if DescriptionField in item.overrides {
        alert := alert.(description := item.alert.description);
      }
      if QueryField in item.overrides {
        alert := alert.(query := item.alert.query);
      }
      if TypeField in item.overrides {
        alert := alert.(alertType := item.alert.alertType);
      }
      if OperatorField in item.overrides {
        alert := alert.(operator := item.alert.operator);
      }
      if ThresholdField in item.overrides {
        alert := alert.(threshold := item.alert.threshold);
      }
      if ServersField in item.overrides {
        alert := alert.(servers := item.alert.servers);
      }
      alerts[i] := alert;
      assert alerts[..] == was[i := alert];
    }

    method MergeItem(item: Item)
      requires Valid()
      modifies this`numberOfAlerts, alerts
      ensures Valid() && Contents() == MergedItem(old(Contents()), item)
    {
      if item.alert.name == "" {
        return;
      }
      var i := 0;
      while i < numberOfAlerts
        invariant 0 <= i <= numberOfAlerts
        invariant forall j :: 0 <= j < i ==> alerts[j].name != item.alert.name
      {
        if alerts[i].name == item.alert.name {
          assert Position(Contents(), item.alert.name) == i;
          Override(i, item);
          return;
        }
        i := i + 1;
      }
      assert Position(Contents(), item.alert.name) == |Contents()|;
      var ok := Append(item);
    }

    /** Every item of a file in turn: the initial load appends, the user's file merges. */
    method ReadItems(items: seq<Item>, merge: bool)
      requires Valid()
      modifies this`numberOfAlerts, alerts
      ensures Valid()
      ensures Contents() == if merge then Merged(old(Contents()), items) else Loaded(old(Contents()), items)
    {
      ghost var was := Contents();
      assert items[..0] == [];
      for k := 0 to |items|
        invariant Valid()
        invariant Contents() == if merge then Merged(was, items[..k]) else Loaded(was, items[..k])
      {
        assert items[..k + 1][..k] == items[..k];
        if merge {
          MergeItem(items[k]);
        } else if items[k].alert.name != "" {
          var ok := Append(items[k]);
        }
      }
      assert items[..|items|] == items;
    }
  }

  // ----- which alerts there are afterwards -----

  function Names(alerts: seq<Alert>): (names: seq<string>)
    ensures |names| == |alerts| && forall i :: 0 <= i < |alerts| ==> names[i] == alerts[i].name
  {
    if alerts == [] then [] else Names(alerts[..|alerts| - 1]) + [alerts[|alerts| - 1].name]
  }

  ghost predicate Unique(names: seq<string>) {
    forall i, j :: 0 <= i < j < |names| ==> names[i] != names[j]
  }

  /** The names that the items bring in, each once, in the order they first come up, after those already there. */
  function WithNew(names: seq<string>, items: seq<Item>): seq<string> {
    if items == [] then names
    else
      var before := WithNew(names, items[..|items| - 1]);
      var name := items[|items| - 1].alert.name;
      if name == "" || name in before then before else before + [name]
  }

  function FirstOf(names: seq<string>): seq<string> {
    if |names| <= NUMBER_OF_ALERTS then names else names[..NUMBER_OF_ALERTS]
  }

  lemma {:induction false} WithNewUnique(names: seq<string>, items: seq<Item>)
    requires Unique(names)
    ensures Unique(WithNew(names, items)) && names <= WithNew(names, items)
  {
    if items != [] {
      WithNewUnique(names, items[..|items| - 1]);
    }
  }

  lemma {:induction false} OverriddenName(alerts: seq<Alert>, i: nat, item: Item)
    requires i < |alerts|
    ensures Names(alerts[i := Overridden(alerts[i], item)]) == Names(alerts)
  {
  }

  lemma {:induction false} NameFound(alerts: seq<Alert>, name: string)
    ensures name in Names(alerts) <==> Position(alerts, name) < |alerts|
  {
    if Position(alerts, name) < |alerts| {
      assert Names(alerts)[Position(alerts, name)] == name;
    }
  }

  /**
   After any sequence of overrides the alerts are the old ones in their order, then the new names in the order they
   first came up, cut off after 64.
   */
  lemma {:induction false} MergedNames(alerts: seq<Alert>, items: seq<Item>)
    requires |alerts| <= NUMBER_OF_ALERTS
    ensures Names(Merged(alerts, items)) == FirstOf(WithNew(Names(alerts), items))
    ensures |Merged(alerts, items)| <= NUMBER_OF_ALERTS
  {
    if items != [] {
      var last := items[|items| - 1];
      MergedNames(alerts, items[..|items| - 1]);
      var before := Merged(alerts, items[..|items| - 1]);
      NameFound(before, last.alert.name);
      if last.alert.name != "" && Position(before, last.alert.name) < |before| {
        OverriddenName(before, Position(before, last.alert.name), last);
      }
    }
  }

  lemma {:induction false} MergedUnique(alerts: seq<Alert>, items: seq<Item>)
    requires |alerts| <= NUMBER_OF_ALERTS && Unique(Names(alerts))
    ensures Unique(Names(Merged(alerts, items)))
  {
    MergedNames(alerts, items);
    WithNewUnique(Names(alerts), items);
  }

  /** The names of the items that have one. */
  function Named(items: seq<Item>): seq<string> {
    if items == [] then []
    else
      var name := items[|items| - 1].alert.name;
      if name == "" then Named(items[..|items| - 1]) else Named(items[..|items| - 1]) + [name]
  }

  /** The initial load keeps the first 64 named items in order, and does not look for duplicates. */
  lemma {:induction false} LoadedNames(alerts: seq<Alert>, items: seq<Item>)
    requires |alerts| <= NUMBER_OF_ALERTS
    ensures Names(Loaded(alerts, items)) == FirstOf(Names(alerts) + Named(items))
    ensures |Loaded(alerts, items)| <= NUMBER_OF_ALERTS
  {
    if items == [] {
      assert Names(alerts) + [] == Names(alerts);
    } else {
      hide FirstOf, Names, Appended;
      var front, last := items[..|items| - 1], items[|items| - 1];
      LoadedNames(alerts, front);
      if last.alert.name != "" {
        OneMoreName(Loaded(alerts, front), Names(alerts) + Named(front), last);
        assert Names(alerts) + Named(items) == Names(alerts) + Named(front) + [last.alert.name];
      }
    }
  }

  lemma {:induction false} OneMoreName(alerts: seq<Alert>, names: seq<string>, item: Item)
    requires |alerts| <= NUMBER_OF_ALERTS && Names(alerts) == FirstOf(names)
    ensures Names(Appended(alerts, item)) == FirstOf(names + [item.alert.name])
    ensures |Appended(alerts, item)| <= NUMBER_OF_ALERTS
  {
    assert |Names(alerts)| == |alerts|;
  }

  /** Positions in increasing order. */
  ghost predicate Ascending(ks: seq<nat>) {
    forall i, j :: 0 <= i < j < |ks| ==> ks[i] < ks[j]
  }

  /** The positions of the items that have a name. */
  ghost predicate ListsNamed(ks: seq<nat>, items: seq<Item>) {
    && Ascending(ks)
    && (forall i :: 0 <= i < |ks| ==> ks[i] < |items| && items[ks[i]].alert.name != "")
    && forall k :: 0 <= k < |items| && items[k].alert.name != "" ==> k in ks
  }

  /**
   The initial load leaves the old alerts and behind them the whole definitions of the items that have a name, in
   order, cut off after 64.
   */
  lemma {:induction false} LoadedExact(alerts: seq<Alert>, items: seq<Item>) returns (ks: seq<nat>)
    requires |alerts| <= 64
    ensures ListsNamed(ks, items)
    ensures var loaded, all := Loaded(alerts, items), |alerts| + |ks|;
            && |loaded| == (if all <= 64 then all else 64)
            && forall i :: 0 <= i < |loaded|
                 ==> loaded[i] == if i < |alerts| then alerts[i] else items[ks[i - |alerts|]].alert
  {
    ks := [];
    if items != [] {
      var n := |items| - 1;
      ks := LoadedExact(alerts, items[..n]);
      if items[n].alert.name != "" {
        ks := ks + [n];
      }
    }
  }

  /** A name that no alert and no earlier item has. */
  ghost predicate BringsName(alerts: seq<Alert>, earlier: seq<Item>, name: string) {
    && name != ""
    && (forall i :: 0 <= i < |alerts| ==> alerts[i].name != name)
    && forall j :: 0 <= j < |earlier| ==> earlier[j].alert.name != name
  }

  /** The positions of the items that are the first to bring in a name. */
  ghost predicate ListsFirst(ks: seq<nat>, alerts: seq<Alert>, items: seq<Item>) {
    && Ascending(ks)
    && (forall i :: 0 <= i < |ks| ==> ks[i] < |items| && BringsName(alerts, items[..ks[i]], items[ks[i]].alert.name))
    && forall k :: 0 <= k < |items| && BringsName(alerts, items[..k], items[k].alert.name) ==> k in ks
  }

  /** The old names, and behind them those brought in at the given positions. */
  ghost predicate NamesAt(names: seq<string>, alerts: seq<Alert>, items: seq<Item>, ks: seq<nat>) {
    && |names| == |alerts| + |ks|
    && (forall i :: 0 <= i < |alerts| ==> names[i] == alerts[i].name)
    && forall i :: 0 <= i < |ks| ==> ks[i] < |items| && names[|alerts| + i] == items[ks[i]].alert.name
  }

  /** What is known of a name after some items: it is there, or the next item with it brings it in. */
  lemma {:induction false} NewOrSeen(alerts: seq<Alert>, items: seq<Item>, name: string)
    requires name != ""
    ensures name in WithNew(Names(alerts), items) <==> !BringsName(alerts, items, name)
  {
    if items == [] {
      assert forall i :: 0 <= i < |alerts| ==> Names(alerts)[i] == alerts[i].name;
    } else {
      NewOrSeen(alerts, items[..|items| - 1], name);
      BringsStep(alerts, items, name);
    }
  }

  lemma {:induction false} BringsStep(alerts: seq<Alert>, items: seq<Item>, name: string)
    requires items != []
    ensures var n := |items| - 1;
            BringsName(alerts, items, name) <==> BringsName(alerts, items[..n], name) && items[n].alert.name != name
  {
    assert items == items[..|items| - 1] + [items[|items| - 1]];
  }

  lemma {:induction false} FirstGrows(alerts: seq<Alert>, items: seq<Item>, ks: seq<nat>)
    requires items != [] && ListsFirst(ks, alerts, items[..|items| - 1])
    ensures var n := |items| - 1;
            ListsFirst(if BringsName(alerts, items[..n], items[n].alert.name) then ks + [n] else ks, alerts, items)
  {
    hide BringsName;
    var n := |items| - 1;
    assert forall k | 0 <= k <= n :: items[..n][..k] == items[..k];
    var now := if BringsName(alerts, items[..n], items[n].alert.name) then ks + [n] else ks;
    forall k | 0 <= k < |items| && BringsName(alerts, items[..k], items[k].alert.name) ensures k in now {
      assert k < n ==> items[..n][k] == items[k];
    }
  }

  lemma {:induction false} WithNewExact(alerts: seq<Alert>, items: seq<Item>) returns (ks: seq<nat>)
    ensures ListsFirst(ks, alerts, items) && NamesAt(WithNew(Names(alerts), items), alerts, items, ks)
  {
    hide BringsName, ListsFirst, NamesAt;
    ks := [];
    if items == [] {
      NothingNew(alerts);
    } else {
      var n := |items| - 1;
      ks := WithNewExact(alerts, items[..n]);
      FirstGrows(alerts, items, ks);
      NamesGrow(WithNew(Names(alerts), items[..n]), alerts, items, ks);
      var name := items[n].alert.name;
      if name == "" {
        NoName(alerts, items[..n]);
      } else {
        NewOrSeen(alerts, items[..n], name);
      }
      if BringsName(alerts, items[..n], name) {
        ks := ks + [n];
      }
    }
  }

  lemma {:induction false} NothingNew(alerts: seq<Alert>)
    ensures ListsFirst([], alerts, []) && NamesAt(Names(alerts), alerts, [], [])
  {
  }

  lemma {:induction false} NamesGrow(names: seq<string>, alerts: seq<Alert>, items: seq<Item>, ks: seq<nat>)
    requires items != [] && NamesAt(names, alerts, items[..|items| - 1], ks)
    ensures NamesAt(names, alerts, items, ks)
    ensures NamesAt(names + [items[|items| - 1].alert.name], alerts, items, ks + [|items| - 1])
  {
  }

  lemma {:induction false} NoName(alerts: seq<Alert>, items: seq<Item>)
    ensures !BringsName(alerts, items, "")
  {
  }

  /** After any overrides: the old names in order, then those of the items that were first with theirs, up to 64. */
  lemma {:induction false} MergedNamesExact(alerts: seq<Alert>, items: seq<Item>) returns (ks: seq<nat>)
    requires |alerts| <= 64
    ensures ListsFirst(ks, alerts, items)
    ensures var merged, all := Merged(alerts, items), |alerts| + |ks|;
            && |merged| == (if all <= 64 then all else 64)
            && forall i :: 0 <= i < |merged|
                 ==> merged[i].name == if i < |alerts| then alerts[i].name else items[ks[i - |alerts|]].alert.name
  {
    hide ListsFirst, WithNew;
    ks := WithNewExact(alerts, items);
    MergedNames(alerts, items);
    var merged, names := Merged(alerts, items), WithNew(Names(alerts), items);
    hide Merged;
    assert |Names(merged)| == |merged|;
    forall i | 0 <= i < |merged|
      ensures i >= |alerts| ==> i - |alerts| < |ks| && ks[i - |alerts|] < |items|
      ensures merged[i].name == if i < |alerts| then alerts[i].name else items[ks[i - |alerts|]].alert.name
    {
      assert Names(merged)[i] == names[i];
      assert i >= |alerts| ==> names[|alerts| + (i - |alerts|)] == names[i];
    }
  }

  // ----- what each field is afterwards -----

  /** The value of the last item of that name that gives the field. */
  function LastGiven(items: seq<Item>, name: string, field: Field): Option<Value> {
    if items == [] then None
    else
      var last := items[|items| - 1];
      if last.alert.name == name && field in last.overrides then Some(Get(last.alert, field))
      else LastGiven(items[..|items| - 1], name, field)
  }

  /** It is the value given at a position behind which no item of that name gives the field. */
  lemma {:induction false} LastGivenMeans(items: seq<Item>, name: string, field: Field, k: nat)
    requires k < |items| && items[k].alert.name == name && field in items[k].overrides
    requires forall j :: k < j < |items| && items[j].alert.name == name ==> field !in items[j].overrides
    ensures LastGiven(items, name, field) == Some(Get(items[k].alert, field))
  {
    if k < |items| - 1 {
      LastGivenMeans(items[..|items| - 1], name, field, k);
    }
  }

  /** What the fields stand for, and what they are in a definition of which only the name was given. */
  lemma {:induction false} FieldsMean(alert: Alert)
    ensures Get(alert, DescriptionField) == Text(alert.description) && Get(alert, QueryField) == Text(alert.query)
    ensures Get(alert, TypeField) == OfType(alert.alertType) && Get(alert, OperatorField) == OfOperator(alert.operator)
    ensures Get(alert, ThresholdField) == Number(alert.threshold)
    ensures Get(alert, ServersField) == OfTargets(alert.servers)
    ensures Zeroed(alert.name) == Alert(alert.name, "", "", Query, GT, 0, Targets(false, []))
  {
  }

  /** What a field was before the merge: the old alert's, or zero. */
  function Base(alerts: seq<Alert>, name: string, field: Field): Value {
    var i := Position(alerts, name);
    Get(if i < |alerts| then alerts[i] else Zeroed(name), field)
  }

  lemma {:induction false} OverriddenField(alert: Alert, item: Item, field: Field)
    ensures Get(Overridden(alert, item), field)
            == Get(if field in item.overrides then item.alert else alert, field)
  {
  }

  lemma {:induction false} UniquePosition(alerts: seq<Alert>, i: nat)
    requires Unique(Names(alerts)) && i < |alerts|
    ensures Position(alerts, alerts[i].name) == i
  {
    assert Names(alerts)[Position(alerts, alerts[i].name)] == Names(alerts)[i];
  }

  /** One more item, seen at one alert: only the alert it names can change, and only in a field it gives. */
  lemma {:induction false} MergedItemAt(alerts: seq<Alert>, item: Item, i: nat, field: Field)
    requires i < |alerts| && Unique(Names(alerts))
    ensures |alerts| <= |MergedItem(alerts, item)|
    ensures MergedItem(alerts, item)[i].name == alerts[i].name
    ensures alerts[i].name == "" ==> MergedItem(alerts, item)[i] == alerts[i]
    ensures alerts[i].name != ""
            ==> Get(MergedItem(alerts, item)[i], field)
                == Get(if item.alert.name == alerts[i].name
                      && field in item.overrides then item.alert else alerts[i], field)
  {
    hide Get, Overridden;
    UniquePosition(alerts, i);
    var at := Position(alerts, item.alert.name);
    if item.alert.name != "" && at < |alerts| {
      OverriddenField(alerts[at], item, field);
      NameKept(alerts[at], item);
    }
  }

  lemma {:induction false} NameKept(alert: Alert, item: Item)
    ensures Overridden(alert, item).name == alert.name
  {
  }

  /** The alert an item adds, if it adds one. */
  lemma {:induction false} MergedItemNew(alerts: seq<Alert>, item: Item)
    requires |alerts| < |MergedItem(alerts, item)|
    ensures MergedItem(alerts, item) == alerts + [item.alert]
    ensures item.alert.name != "" && Position(alerts, item.alert.name) == |alerts|
  {
  }

  lemma {:induction false} MergedItemHas(alerts: seq<Alert>, item: Item, name: string)
    requires name != "" && |MergedItem(alerts, item)| < NUMBER_OF_ALERTS
    requires Position(MergedItem(alerts, item), name) == |MergedItem(alerts, item)|
    ensures item.alert.name != name && Position(alerts, name) == |alerts| && |alerts| < NUMBER_OF_ALERTS
  {
    hide Overridden;
    var now := MergedItem(alerts, item);
    forall k | 0 <= k < |alerts| ensures alerts[k].name != name {
      NameKept(alerts[k], item);
      assert now[k].name == alerts[k].name;
    }
    var at := Position(alerts, item.alert.name);
    if item.alert.name != "" && at == |alerts| {
      assert now[at] == item.alert;
    }
  }

  /** A name that is not there yet has not been given by any item, unless the table was full. */
  lemma {:induction false} NotGiven(alerts: seq<Alert>, items: seq<Item>, name: string, field: Field)
    requires |Merged(alerts, items)| < NUMBER_OF_ALERTS && name != ""
    requires Position(Merged(alerts, items), name) == |Merged(alerts, items)|
    ensures LastGiven(items, name, field) == None && Base(alerts, name, field) == Get(Zeroed(name), field)
  {
    hide Get, MergedItem, Zeroed;
    if items != [] {
      MergedItemHas(Merged(alerts, items[..|items| - 1]), items[|items| - 1], name);
      NotGiven(alerts, items[..|items| - 1], name, field);
    }
  }

  /** Every field of every named alert is what the last override of it says, or what it was before if there is none. */
  lemma {:induction false} MergedFields(alerts: seq<Alert>, items: seq<Item>, i: nat, field: Field)
    requires |alerts| <= NUMBER_OF_ALERTS && Unique(Names(alerts)) && AllProper(items)
    requires i < |Merged(alerts, items)| && Merged(alerts, items)[i].name != ""
    ensures var alert := Merged(alerts, items)[i];
            Get(alert, field) == LastGiven(items, alert.name, field).GetOr(Base(alerts, alert.name, field))
  {
    hide Get, MergedItem, Zeroed, Unique;
    if items == [] {
      UniquePosition(alerts, i);
    } else {
      var front, last := items[..|items| - 1], items[|items| - 1];
      var before := Merged(alerts, front);
      if i < |before| {
        MergedUnique(alerts, front);
        MergedItemAt(before, last, i, field);
        MergedFields(alerts, front, i, field);
      } else {
        AppendedField(alerts, items, i, field);
      }
    }
  }

  lemma {:induction false} AppendedField(alerts: seq<Alert>, items: seq<Item>, i: nat, field: Field)
    requires |alerts| <= NUMBER_OF_ALERTS && AllProper(items) && items != []
    requires |Merged(alerts, items[..|items| - 1])| <= i < |Merged(alerts, items)|
    ensures var alert := Merged(alerts, items)[i];
            Get(alert, field) == LastGiven(items, alert.name, field).GetOr(Base(alerts, alert.name, field))
  {
    hide Get, MergedItem, Zeroed;
    var front, last := items[..|items| - 1], items[|items| - 1];
    MergedNames(alerts, items);
    MergedItemNew(Merged(alerts, front), last);
    NotGiven(alerts, front, last.alert.name, field);
    assert Proper(last);
  }

  // ----- merging the same file twice -----

  lemma {:induction false} WithNewAgain(names: seq<string>, items: seq<Item>, all: seq<string>)
    requires forall k :: 0 <= k < |items| && items[k].alert.name != "" ==> items[k].alert.name in all
    ensures WithNew(all, items) == all
  {
    if items != [] {
      WithNewAgain(names, items[..|items| - 1], all);
    }
  }

  lemma {:induction false} WithNewHasAll(names: seq<string>, items: seq<Item>, k: nat)
    requires k < |items| && items[k].alert.name != ""
    ensures items[k].alert.name in WithNew(names, items)
  {
    if k < |items| - 1 {
      WithNewHasAll(names, items[..|items| - 1], k);
    }
  }

  lemma {:induction false} SameFields(a: Alert, b: Alert)
    requires a.name == b.name && forall field :: Get(a, field) == Get(b, field)
    ensures a == b
  {
    assert Get(a, DescriptionField) == Get(b, DescriptionField) && Get(a, QueryField) == Get(b, QueryField);
    assert Get(a, TypeField) == Get(b, TypeField) && Get(a, OperatorField) == Get(b, OperatorField);
    assert Get(a, ThresholdField) == Get(b, ThresholdField) && Get(a, ServersField) == Get(b, ServersField);
  }

  lemma {:induction false} WithNewGrows(names: seq<string>, items: seq<Item>)
    ensures names <= WithNew(names, items)
  {
    if items != [] {
      WithNewGrows(names, items[..|items| - 1]);
    }
  }

  lemma {:induction false} MergedAgainNames(alerts: seq<Alert>, items: seq<Item>)
    requires |alerts| <= NUMBER_OF_ALERTS
    ensures Names(Merged(Merged(alerts, items), items)) == Names(Merged(alerts, items))
  {
    var once := Merged(alerts, items);
    MergedNames(alerts, items);
    MergedNames(once, items);
    var all := WithNew(Names(alerts), items);
    if |all| <= NUMBER_OF_ALERTS {
      forall k | 0 <= k < |items| && items[k].alert.name != "" ensures items[k].alert.name in all {
        WithNewHasAll(Names(alerts), items, k);
      }
      WithNewAgain(Names(alerts), items, all);
    } else {
      WithNewGrows(Names(once), items);
    }
  }

  lemma {:induction false} NamelessKept(alerts: seq<Alert>, items: seq<Item>, i: nat)
    requires |alerts| <= NUMBER_OF_ALERTS && Unique(Names(alerts)) && i < |alerts| && alerts[i].name == ""
    ensures |alerts| <= |Merged(alerts, items)| && Merged(alerts, items)[i] == alerts[i]
  {
    hide Get, MergedItem, Unique;
    if items != [] {
      NamelessKept(alerts, items[..|items| - 1], i);
      MergedUnique(alerts, items[..|items| - 1]);
      MergedItemAt(Merged(alerts, items[..|items| - 1]), items[|items| - 1], i, QueryField);
    }
  }

  /** Merging the same items again changes nothing, whether or not all of them fit. */
  lemma {:induction false} MergedTwice(alerts: seq<Alert>, items: seq<Item>)
    requires |alerts| <= NUMBER_OF_ALERTS && Unique(Names(alerts)) && AllProper(items)
    ensures Merged(Merged(alerts, items), items) == Merged(alerts, items)
  {
    hide Get, MergedItem, Unique;
    var once, twice := Merged(alerts, items), Merged(Merged(alerts, items), items);
    MergedNames(alerts, items);
    MergedUnique(alerts, items);
    MergedAgainNames(alerts, items);
    assert |Names(once)| == |once| && |Names(twice)| == |twice|;
    forall i | 0 <= i < |once| ensures once[i] == twice[i] {
      assert Names(once)[i] == Names(twice)[i];
      if once[i].name == "" {
        NamelessKept(once, items, i);
      } else {
        MergedTwiceAt(alerts, items, i);
      }
    }
  }

  lemma {:induction false} MergedTwiceAt(alerts: seq<Alert>, items: seq<Item>, i: nat)
    requires |alerts| <= NUMBER_OF_ALERTS && Unique(Names(alerts)) && AllProper(items)
    requires i < |Merged(alerts, items)| && Merged(alerts, items)[i].name != ""
    requires i < |Merged(Merged(alerts, items), items)|
    requires Merged(Merged(alerts, items), items)[i].name == Merged(alerts, items)[i].name
    ensures Merged(Merged(alerts, items), items)[i] == Merged(alerts, items)[i]
  {
    hide Get, MergedItem, Unique;
    var once := Merged(alerts, items);
    MergedNames(alerts, items);
    MergedUnique(alerts, items);
    UniquePosition(once, i);
    forall field ensures Get(once[i], field) == Get(Merged(once, items)[i], field) {
      MergedFields(alerts, items, i, field);
      MergedFields(once, items, i, field);
    }
    SameFields(once[i], Merged(once, items)[i]);
  }
}
